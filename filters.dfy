/**
 * Text filters (src/filters/): a filter looks at a document and returns a
 * string together with where it goes, before or after the document. The
 * filters' outputs are split by side, each side concatenated in filter
 * order, and the document is wrapped in them.
 */
module Filters {

  /** `WriteTo`: where a filter's output is placed. */
  datatype WriteTo = Beginning | End

  /** One filter's output. */
  type Output = (string, WriteTo)

  /** The outputs placed on `side`, concatenated in filter order. */
  function Joined(outs: seq<Output>, side: WriteTo): string
  {
    if outs == [] then []
    else if outs[|outs| - 1].1 == side then Joined(outs[..|outs| - 1], side) + outs[|outs| - 1].0
    else Joined(outs[..|outs| - 1], side)
  }

  /** The document wrapped in the outputs: beginnings, document, ends. */
  function Wrap(outs: seq<Output>, doc: string): string
  {
    Joined(outs, Beginning) + doc + Joined(outs, End)
  }

  /** The total length of all outputs, whatever their side. */
  function TotalLength(outs: seq<Output>): nat
  {
    if outs == [] then 0 else TotalLength(outs[..|outs| - 1]) + |outs[|outs| - 1].0|
  }

  /**
   * Every output lands on exactly one side: the two sides together are as
   * long as all outputs.
   */
  lemma {:induction false} JoinedPartitions(outs: seq<Output>)
    ensures |Joined(outs, Beginning)| + |Joined(outs, End)| == TotalLength(outs)
  {
    if outs != [] {
      JoinedPartitions(outs[..|outs| - 1]);
    }
  }

  /** Outputs of one side only: the other side is empty and this side is everything. */
  lemma {:induction false} JoinedOneSide(outs: seq<Output>, side: WriteTo)
    requires forall i :: 0 <= i < |outs| ==> outs[i].1 == side
    ensures Joined(outs, if side == Beginning then End else Beginning) == []
    ensures |Joined(outs, side)| == TotalLength(outs)
  {
    if outs != [] {
      JoinedOneSide(outs[..|outs| - 1], side);
    }
  }

  /** Adding one output appends it to its side and leaves the other side alone. */
  lemma JoinedSnoc(outs: seq<Output>, o: Output)
    ensures Joined(outs + [o], o.1) == Joined(outs, o.1) + o.0
    ensures forall side :: side != o.1 ==> Joined(outs + [o], side) == Joined(outs, side)
  {
    assert (outs + [o])[..|outs|] == outs;
  }

  /**
   * The document sits unchanged in the wrapped text, right after the
   * beginnings, and the text is as long as the document and all outputs.
   */
  lemma WrapKeepsDocument(outs: seq<Output>, doc: string)
    ensures var w := Wrap(outs, doc); var b := |Joined(outs, Beginning)|;
      && |w| == |doc| + TotalLength(outs)
      && w[b..b + |doc|] == doc
  {
    JoinedPartitions(outs);
    var b := Joined(outs, Beginning);
    assert Wrap(outs, doc) == b + doc + Joined(outs, End);
    assert (b + doc + Joined(outs, End))[|b|..|b| + |doc|] == doc;
  }

  /** Without filters the document is left as it is. */
  lemma WrapNoFilters(doc: string)
    ensures Wrap([], doc) == doc
  {
  }
}

/** Markdown filters (src/filters/md.rs). */
module MdFilters {
  import opened Filters

  /** A markdown filter sees the markdown, the post's path, title and date. */
  type MdFilter = (string, string, string, string) -> Output

  /** `add_metadata`: a heading with the title and the date, put before the markdown. */
  function AddMetadata(md: string, path: string, title: string, date: string): (r: Output)
    ensures r.1 == Beginning
  {
    ("## **" + title + "**\n### " + date + "\n### bootlegbilly", Beginning)
  }

  /** The metadata header depends on the title and date only. */
  lemma AddMetadataIgnoresDocument(md1: string, path1: string, md2: string, path2: string,
                                   title: string, date: string)
    ensures AddMetadata(md1, path1, title, date) == AddMetadata(md2, path2, title, date)
  {
  }

  /** Every filter applied to the same original markdown, in order. */
  function MdOutputs(filters: seq<MdFilter>, md: string, path: string, title: string, date: string)
    : (outs: seq<Output>)
    ensures |outs| == |filters|
    ensures forall i :: 0 <= i < |filters| ==> outs[i] == filters[i](md, path, title, date)
  {
    seq(|filters|, i requires 0 <= i < |filters| => filters[i](md, path, title, date))
  }

  /**
   * `apply_md_filters`: the new markdown is the beginning outputs, the
   * original markdown, then the end outputs, every filter having seen the
   * original markdown.
   */
  method ApplyMdFilters(md: string, path: string, title: string, date: string, filters: seq<MdFilter>)
    returns (md': string)
    ensures md' == Wrap(MdOutputs(filters, md, path, title, date), md)
  {
    ghost var outs := MdOutputs(filters, md, path, title, date);
    var beginning, end := "", "";
    for i := 0 to |filters|
      invariant beginning == Joined(outs[..i], Beginning)
      invariant end == Joined(outs[..i], End)
    {
      var out := filters[i](md, path, title, date);
      assert outs[..i + 1] == outs[..i] + [out];
      JoinedSnoc(outs[..i], out);
      if out.1 == Beginning {
        beginning := beginning + out.0;
      } else {
        end := end + out.0;
      }
    }
    assert outs[..|filters|] == outs;
    md' := beginning + md + end;
  }

  /** With `gen_static`'s filter list, the markdown gets the metadata header in front. */
  lemma GenStaticMdFilters(md: string, path: string, title: string, date: string)
    ensures Wrap(MdOutputs([AddMetadata], md, path, title, date), md) ==
      AddMetadata(md, path, title, date).0 + md
  {
    var outs := MdOutputs([AddMetadata], md, path, title, date);
    var meta := AddMetadata(md, path, title, date);
    assert outs == [meta];
    assert outs[..0] == [];
    assert Joined(outs, Beginning) == meta.0;
    assert Joined(outs, End) == [];
  }
}

/** HTML filters (src/filters/html.rs). */
module HtmlFilters {
  import opened Filters

  type HtmlFilter = string -> Output

  const STYLE_TAGS: string :=
    "<meta name='viewport' content='width=device-width, initial-scale=1'>"
    + "<link rel='stylesheet' href='/style.css'>"

  const HOMEPAGE_LINK: string := "<br><a href='/'>Back to home page</a>"

  /** `styling`: the viewport meta tag and the stylesheet link, before the page. */
  function Styling(html: string): (r: Output)
    ensures r == (STYLE_TAGS, Beginning)
  {
    (STYLE_TAGS, Beginning)
  }

  /** `add_homepage`: a link back to the home page, after the page. */
  function AddHomepage(html: string): (r: Output)
    ensures r == (HOMEPAGE_LINK, End)
  {
    (HOMEPAGE_LINK, End)
  }

  /** Every filter applied to the same original page, in order. */
  function HtmlOutputs(filters: seq<HtmlFilter>, html: string): (outs: seq<Output>)
    ensures |outs| == |filters|
    ensures forall i :: 0 <= i < |filters| ==> outs[i] == filters[i](html)
  {
    seq(|filters|, i requires 0 <= i < |filters| => filters[i](html))
  }

  /**
   * `apply_html_filters`: the page wrapped in the filters' outputs, then
   * minified (`minify` is foreign); nothing else changes the page.
   */
  method ApplyHtmlFilters(html: string, filters: seq<HtmlFilter>, minify: string -> string)
    returns (html': string)
    ensures html' == minify(Wrap(HtmlOutputs(filters, html), html))
  {
    ghost var outs := HtmlOutputs(filters, html);
    var beginning, end := "", "";
    for i := 0 to |filters|
      invariant beginning == Joined(outs[..i], Beginning)
      invariant end == Joined(outs[..i], End)
    {
      var out := filters[i](html);
      assert outs[..i + 1] == outs[..i] + [out];
      JoinedSnoc(outs[..i], out);
      if out.1 == Beginning {
        beginning := beginning + out.0;
      } else {
        end := end + out.0;
      }
    }
    assert outs[..|filters|] == outs;
    beginning := beginning + html;
    beginning := beginning + end;
    html' := minify(beginning);
  }

  /** The filter list the server uses: the style tags before the page, the home link after. */
  lemma {:induction false} ServerHtmlFilters(html: string)
    ensures Wrap(HtmlOutputs([Styling, AddHomepage], html), html) == STYLE_TAGS + html + HOMEPAGE_LINK
  {
    var outs := HtmlOutputs([Styling, AddHomepage], html);
    assert outs == [(STYLE_TAGS, Beginning), (HOMEPAGE_LINK, End)];
    var first: seq<Output> := [(STYLE_TAGS, Beginning)];
    assert outs[..1] == first && first[..0] == [];
    assert first[0].1 != End;
    assert Joined(first, End) == Joined(first[..0], End) == [];
    assert Joined(first, Beginning) == STYLE_TAGS;
    assert Joined(outs, Beginning) == STYLE_TAGS;
    assert Joined(outs, End) == HOMEPAGE_LINK;
  }
}
