/**
 * The blog server (src/main.rs): serving one post by name, turning a post
 * file into a rendered post in the post map, and serving the stylesheet
 * with an entity tag.
 */
module Blog {
  import opened Common
  import opened Posts
  import Utf8
  import opened Filters
  import opened MdFilters
  import opened HtmlFilters

  // ---------------------------------------------------------------------
  // load_post
  // ---------------------------------------------------------------------

  /** A character allowed in a post name: `[A-Za-z0-9_-]`. */
  predicate IsPostNameChar(c: char)
  {
    ('a' <= c <= 'z') || c == '-' || c == '_' || ('A' <= c <= 'Z') || ('0' <= c <= '9')
  }

  /** `chars().any(...)`: some character of the name is not allowed. */
  function AnyInvalid(name: string): (r: bool)
    ensures r <==> exists i :: 0 <= i < |name| && !IsPostNameChar(name[i])
  {
    if name == [] then false
    else if !IsPostNameChar(name[0]) then true
    else
      var r := AnyInvalid(name[1..]);
      assert forall i :: 1 <= i < |name| ==> name[i] == name[1..][i - 1];
      r
  }

  /** The body of a response and whether it is sent as HTML. */
  datatype Response = Html(body: string) | Text(body: string)

  /** `not_found`: the HTML text "404". */
  const NOT_FOUND: Response := Html("404")

  /**
   * `load_post`: a name with a character outside `[A-Za-z0-9_-]` or one
   * that is not in the post map gets "404"; otherwise the post's markdown
   * when the query has an `md` key and its HTML when not.
   */
  function LoadPost(posts: map<string, Post>, name: string, params: map<string, string>): (r: Response)
    ensures AnyInvalid(name) ==> r == NOT_FOUND
    ensures !AnyInvalid(name) && name in posts ==>
      r == (if "md" in params then Text(posts[name].md) else Html(posts[name].html))
    ensures name !in posts ==> r == NOT_FOUND
  {
    if AnyInvalid(name) then NOT_FOUND
    else if name !in posts then NOT_FOUND
    else if "md" !in params then Html(posts[name].html)
    else Text(posts[name].md)
  }

  /** Only a post in the map whose name has allowed characters only is served. */
  lemma LoadPostServes(posts: map<string, Post>, name: string, params: map<string, string>)
    ensures LoadPost(posts, name, params) != NOT_FOUND ==>
      name in posts && forall i :: 0 <= i < |name| ==> IsPostNameChar(name[i])
  {
  }

  /** An invalid name is answered without looking at the post map or the query. */
  lemma InvalidNameIgnoresState(posts1: map<string, Post>, posts2: map<string, Post>, name: string,
                                params1: map<string, string>, params2: map<string, string>)
    requires exists i :: 0 <= i < |name| && !IsPostNameChar(name[i])
    ensures LoadPost(posts1, name, params1) == LoadPost(posts2, name, params2) == NOT_FOUND
  {
  }

  // ---------------------------------------------------------------------
  // Post files: lines and header
  // ---------------------------------------------------------------------

  /** The index of the first line feed of `s`, or `|s|` when there is none. */
  function LineEnd(s: string): (k: nat)
    ensures k <= |s|
    ensures k < |s| ==> s[k] == '\n'
    ensures forall i :: 0 <= i < k ==> s[i] != '\n'
  {
    if s == [] || s[0] == '\n' then 0
    else
      var k := LineEnd(s[1..]);
      assert forall i :: 1 <= i < k + 1 ==> s[i] == s[1..][i - 1];
      1 + k
  }

  /** A line ended by "\r\n" loses its carriage return. */
  function StripCr(line: string): string
  {
    if |line| > 0 && line[|line| - 1] == '\r' then line[..|line| - 1] else line
  }

  /**
   * `str::lines`: the text split at line feeds, a carriage return right
   * before a line feed dropped with it; a final line feed does not start
   * an empty last line, and a last line without one keeps a trailing
   * carriage return.
   */
  function Lines(s: string): (ls: seq<string>)
    ensures forall j, i :: 0 <= j < |ls| && 0 <= i < |ls[j]| ==> ls[j][i] != '\n'
    decreases |s|
  {
    if s == [] then []
    else
      var k := LineEnd(s);
      if k == |s| then [s]
      else [StripCr(s[..k])] + Lines(s[k + 1..])
  }

  /** `fold(String::new(), |s, l| s + l + "\n")`: every line followed by a line feed. */
  function JoinLines(ls: seq<string>): (s: string)
  {
    if ls == [] then [] else JoinLines(ls[..|ls| - 1]) + ls[|ls| - 1] + "\n"
  }

  /** Joining, seen from the front: the first line, a line feed, then the rest. */
  lemma {:induction false} JoinLinesCons(l: string, ls: seq<string>)
    ensures JoinLines([l] + ls) == l + "\n" + JoinLines(ls)
    decreases |ls|
  {
    if ls == [] {
      assert ([l] + ls)[..0] == [];
    } else {
      var init := ls[..|ls| - 1];
      assert ([l] + ls)[..|ls|] == [l] + init;
      JoinLinesCons(l, init);
    }
  }

  /** The joined body has one line feed per line and is as long as the lines plus those. */
  lemma {:induction false} JoinLinesLength(ls: seq<string>)
    ensures |JoinLines(ls)| == |ls| + SumLengths(ls)
  {
    if ls != [] {
      JoinLinesLength(ls[..|ls| - 1]);
    }
  }

  function SumLengths(ls: seq<string>): nat
  {
    if ls == [] then 0 else SumLengths(ls[..|ls| - 1]) + |ls[|ls| - 1]|
  }

  /** Adding a line to the fold appends it and a line feed. */
  lemma JoinLinesSnoc(ls: seq<string>, l: string)
    ensures JoinLines(ls + [l]) == JoinLines(ls) + l + "\n"
  {
    assert (ls + [l])[..|ls|] == ls;
  }

  /** No carriage return in `s`. */
  predicate NoCr(s: string)
  {
    forall i :: 0 <= i < |s| ==> s[i] != '\r'
  }

  /** Splitting off the first line of a text, when it does not end in a carriage return. */
  lemma LinesFirst(s: string)
    requires LineEnd(s) < |s| && StripCr(s[..LineEnd(s)]) == s[..LineEnd(s)]
    ensures Lines(s) == [s[..LineEnd(s)]] + Lines(s[LineEnd(s) + 1..])
  {
  }

  /** A line without carriage returns is left alone by `StripCr`. */
  lemma StripCrNoCr(s: string, k: nat)
    requires NoCr(s) && k <= |s|
    ensures StripCr(s[..k]) == s[..k]
  {
    if k > 0 {
      assert s[..k][k - 1] == s[k - 1];
    }
  }

  /** A suffix of a text without carriage returns has none either. */
  lemma NoCrSuffix(s: string, k: nat)
    requires NoCr(s) && k <= |s|
    ensures NoCr(s[k..])
  {
    forall i | 0 <= i < |s| - k ensures s[k..][i] != '\r' {
      assert s[k..][i] == s[k + i];
    }
  }

  /** The text with a final line feed added when it lacks one. */
  function Terminated(s: string): (t: string)
  {
    if s == [] || s[|s| - 1] == '\n' then s else s + "\n"
  }

  /** Terminating a text after its first line feed terminates the part after it. */
  lemma TerminatedAfterLine(line: string, rest: string)
    ensures Terminated(line + "\n" + rest) == line + "\n" + Terminated(rest)
  {
    var s := line + "\n" + rest;
    if rest != [] {
      assert s[|s| - 1] == rest[|rest| - 1];
    }
  }

  /** A text with no line feed is one line, folded back with a line feed. */
  lemma JoinLinesOfLastLine(s: string)
    requires s != [] && LineEnd(s) == |s|
    ensures JoinLines(Lines(s)) == Terminated(s)
  {
    assert Lines(s) == [s];
    assert [s][..0] == [];
    assert s[|s| - 1] != '\n';
  }

  /**
   * Splitting a text without carriage returns into lines and joining them
   * back gives the text again, with a line feed added when it lacked a
   * final one.
   */
  lemma {:induction false} JoinLinesOfLines(s: string)
    requires NoCr(s)
    ensures JoinLines(Lines(s)) == Terminated(s)
    decreases |s|
  {
    if s == [] {
    } else if LineEnd(s) == |s| {
      JoinLinesOfLastLine(s);
    } else {
      var k := LineEnd(s);
      var line, rest := s[..k], s[k + 1..];
      StripCrNoCr(s, k);
      LinesFirst(s);
      NoCrSuffix(s, k + 1);
      JoinLinesOfLines(rest);
      JoinLinesCons(line, Lines(rest));
      TerminatedAfterLine(line, rest);
      SplitAtLineFeed(s, k);
    }
  }

  /** A text is its part before a line feed, the line feed, and its part after. */
  lemma SplitAtLineFeed(s: string, k: nat)
    requires k < |s| && s[k] == '\n'
    ensures s == s[..k] + "\n" + s[k + 1..]
  {
    assert s == s[..k] + [s[k]] + s[k + 1..];
  }

  /** The reasons a post file is refused. */
  datatype HeaderError =
    | NoPathLine
    | NoTitleLine
    | NoDateLine
    | BadDate(line: string)
    | NoPublicLine

  /** The four header lines of a post file. */
  datatype Header = Header(path: string, title: string, date: Date, public: bool)

  /**
   * The header of `gen_static`, with the error reported for a missing
   * fourth line as a parameter: line one is the path, line two the title,
   * line three a date in `%m/%d/%Y` (`parseDate` is chrono's parser), line
   * four is "public" exactly for a public post.
   */
  function ParseHeaderWith(ls: seq<string>, parseDate: string -> Option<Date>,
                           missingPublic: HeaderError): (r: Result<Header, HeaderError>)
    ensures r.Ok? <==> |ls| >= 4 && parseDate(ls[2]).Some?
    ensures r.Ok? ==>
      && r.value.path == ls[0] && r.value.title == ls[1]
      && Some(r.value.date) == parseDate(ls[2])
      && (r.value.public <==> ls[3] == "public")
    ensures |ls| < 3 ==> r == Err([NoPathLine, NoTitleLine, NoDateLine][|ls|])
    ensures |ls| >= 3 && parseDate(ls[2]).None? ==> r == Err(BadDate(ls[2]))
  {
    if |ls| == 0 then Err(NoPathLine)
    else if |ls| == 1 then Err(NoTitleLine)
    else if |ls| == 2 then Err(NoDateLine)
    else match parseDate(ls[2])
      case None => Err(BadDate(ls[2]))
      case Some(date) =>
        if |ls| == 3 then Err(missingPublic)
        else Ok(Header(ls[0], ls[1], date, ls[3] == "public"))
  }

  /** The header as `gen_static` parses it: a missing fourth line is reported as a missing date line. */
  function ParseHeaderAsWritten(ls: seq<string>, parseDate: string -> Option<Date>)
    : (r: Result<Header, HeaderError>)
    ensures |ls| == 3 && parseDate(ls[2]).Some? ==> r == Err(NoDateLine)
  {
    ParseHeaderWith(ls, parseDate, NoDateLine)
  }

  /** The header with a missing fourth line reported as such. */
  function ParseHeader(ls: seq<string>, parseDate: string -> Option<Date>)
    : (r: Result<Header, HeaderError>)
    ensures |ls| == 3 && parseDate(ls[2]).Some? ==> r == Err(NoPublicLine)
  {
    ParseHeaderWith(ls, parseDate, NoPublicLine)
  }

  /** A file with a valid date line but no fourth line is told it has no date line. */
  lemma MissingPublicBlamesDate(parseDate: string -> Option<Date>)
    requires parseDate("01/02/2023").Some?
    ensures ParseHeaderAsWritten(["/first", "First", "01/02/2023"], parseDate) == Err(NoDateLine)
  {
  }

  /** Each missing header line is reported as itself: the error names the first absent line. */
  lemma ParseHeaderNamesMissingLine(ls: seq<string>, parseDate: string -> Option<Date>)
    ensures ParseHeader(ls, parseDate) == Err(NoDateLine) <==> |ls| == 2
    ensures ParseHeader(ls, parseDate) == Err(NoPublicLine) <==> |ls| == 3 && parseDate(ls[2]).Some?
  {
  }

  /**
   * The corrected parser answers as `gen_static` does on every file except
   * one with a valid date line and no fourth line.
   */
  lemma CorrectionOnlyRenamesMissingPublic(ls: seq<string>, parseDate: string -> Option<Date>)
    ensures ParseHeader(ls, parseDate) != ParseHeaderAsWritten(ls, parseDate) <==>
      |ls| == 3 && parseDate(ls[2]).Some?
    ensures ParseHeader(ls, parseDate).Ok? <==> ParseHeaderAsWritten(ls, parseDate).Ok?
  {
  }

  // ---------------------------------------------------------------------
  // gen_static
  // ---------------------------------------------------------------------

  /**
   * The post `gen_static` builds from a header and a body: the markdown is
   * the metadata heading followed by the body; the HTML is the rendered
   * markdown between the style tags and the home page link, minified; no
   * visits yet.
   */
  function RenderPost(h: Header, body: string, showDate: Date -> string,
                      markdownToHtml: string -> string, minify: string -> string): (p: Post)
    ensures p.path == h.path && p.date == h.date && p.title == h.title && p.public == h.public
    ensures p.numVisits == 0
    ensures p.md == AddMetadata(body, h.path, h.title, showDate(h.date)).0 + body
    ensures p.html == minify(STYLE_TAGS + markdownToHtml(p.md) + HOMEPAGE_LINK)
  {
    var md := AddMetadata(body, h.path, h.title, showDate(h.date)).0 + body;
    Post(h.path, h.date, h.title, md, minify(STYLE_TAGS + markdownToHtml(md) + HOMEPAGE_LINK),
         h.public, 0)
  }

  /** The in-memory map of rendered posts, keyed by path (`POSTS`). */
  class PostStore {
    var posts: map<string, Post>

    constructor()
      ensures posts == map[]
    {
      posts := map[];
    }

    /**
     * `gen_static` on the text of a post file: a file whose header is
     * refused leaves the map alone; otherwise the map's entry at the
     * header's path becomes the rendered post and no other entry changes.
     * `markdownToHtml` is comrak's renderer followed by minification.
     */
    method GenStatic(text: string, parseDate: string -> Option<Date>, showDate: Date -> string,
                     markdownToHtml: string -> string, minify: string -> string)
      returns (r: Result<(), HeaderError>)
      modifies this
      ensures var header := ParseHeader(Lines(text), parseDate);
        header.Err? ==> r == Err(header.error) && posts == old(posts)
      ensures var header := ParseHeader(Lines(text), parseDate);
        header.Ok? ==> r == Ok(()) && posts == old(posts)[header.value.path :=
          RenderPost(header.value, JoinLines(Lines(text)[4..]), showDate, markdownToHtml, minify)]
    {
      var ls := Lines(text);
      var header := ParseHeader(ls, parseDate);
      if header.Err? {
        return Err(header.error);
      }
      var h := header.value;
      var body := "";
      for next := 4 to |ls|
        invariant body == JoinLines(ls[4..next])
        invariant posts == old(posts)
      {
        assert ls[4..next + 1] == ls[4..next] + [ls[next]];
        JoinLinesSnoc(ls[4..next], ls[next]);
        body := body + ls[next] + "\n";
      }
      assert ls[4..|ls|] == ls[4..];
      var md := ApplyMdFilters(body, h.path, h.title, showDate(h.date), [AddMetadata]);
      GenStaticMdFilters(body, h.path, h.title, showDate(h.date));
      var html := markdownToHtml(md);
      html := ApplyHtmlFilters(html, [Styling, AddHomepage], minify);
      ServerHtmlFilters(markdownToHtml(md));
      var post := Post(h.path, h.date, h.title, md, html, h.public, 0);
      assert post == RenderPost(h, body, showDate, markdownToHtml, minify);
      posts := posts[h.path := post];
      r := Ok(());
    }
  }

  /** No line feed in `s`: it is a single line. */
  predicate NoLineFeed(s: string)
  {
    forall i :: 0 <= i < |s| ==> s[i] != '\n'
  }

  /** A line without line feeds or carriage returns, then a line feed, splits off as that line. */
  lemma LinesAfterLine(l: string, rest: string)
    requires NoLineFeed(l) && NoCr(l)
    ensures Lines(l + "\n" + rest) == [l] + Lines(rest)
  {
    var s := l + "\n" + rest;
    var k := LineEnd(s);
    assert s[|l|] == '\n';
    assert s[..k] == l && s[k + 1..] == rest;
    StripCrNoCr(l, |l|);
    assert l[..|l|] == l;
  }

  /** A post file: four header lines, each ended by a line feed, then the body. */
  function PostFile(l1: string, l2: string, l3: string, l4: string, rest: string): string
  {
    l1 + "\n" + (l2 + "\n" + (l3 + "\n" + (l4 + "\n" + rest)))
  }

  /** The lines of a post file are its four header lines followed by the body's lines. */
  lemma PostFileLines(l1: string, l2: string, l3: string, l4: string, rest: string)
    requires NoLineFeed(l1) && NoLineFeed(l2) && NoLineFeed(l3) && NoLineFeed(l4)
    requires NoCr(l1) && NoCr(l2) && NoCr(l3) && NoCr(l4)
    ensures Lines(PostFile(l1, l2, l3, l4, rest)) == [l1, l2, l3, l4] + Lines(rest)
  {
    LinesAfterLine(l4, rest);
    LinesAfterLine(l3, l4 + "\n" + rest);
    LinesAfterLine(l2, l3 + "\n" + (l4 + "\n" + rest));
    LinesAfterLine(l1, l2 + "\n" + (l3 + "\n" + (l4 + "\n" + rest)));
  }

  /**
   * For a post file whose lines carry no carriage returns: the lines after
   * the header are the body's lines, the header parses to the four lines
   * when the date does, and the post that `GenStatic` stores under the
   * header's path has as markdown the metadata heading followed by the
   * body, with a final line feed added when the body lacked one.
   */
  lemma RenderedBodyIsRestOfFile(l1: string, l2: string, l3: string, l4: string, rest: string,
                                 parseDate: string -> Option<Date>, showDate: Date -> string,
                                 markdownToHtml: string -> string, minify: string -> string)
    requires NoLineFeed(l1) && NoLineFeed(l2) && NoLineFeed(l3) && NoLineFeed(l4)
    requires NoCr(l1) && NoCr(l2) && NoCr(l3) && NoCr(l4) && NoCr(rest)
    ensures var ls := Lines(PostFile(l1, l2, l3, l4, rest));
      && |ls| >= 4 && ls[..4] == [l1, l2, l3, l4] && ls[4..] == Lines(rest)
      && JoinLines(ls[4..]) == Terminated(rest)
    ensures parseDate(l3).None? ==>
      ParseHeader(Lines(PostFile(l1, l2, l3, l4, rest)), parseDate) == Err(BadDate(l3))
    ensures parseDate(l3).Some? ==>
      var ls := Lines(PostFile(l1, l2, l3, l4, rest));
      var h := Header(l1, l2, parseDate(l3).value, l4 == "public");
      && ParseHeader(ls, parseDate) == Ok(h)
      && RenderPost(h, JoinLines(ls[4..]), showDate, markdownToHtml, minify).md
         == AddMetadata(Terminated(rest), l1, l2, showDate(h.date)).0 + Terminated(rest)
  {
    PostFileLines(l1, l2, l3, l4, rest);
    var ls := Lines(PostFile(l1, l2, l3, l4, rest));
    assert ls[..4] == [l1, l2, l3, l4] && ls[4..] == Lines(rest);
    JoinLinesOfLines(rest);
  }

  // ---------------------------------------------------------------------
  // style
  // ---------------------------------------------------------------------

  /** A lower-case hexadecimal digit. */
  function HexDigit(n: int): (c: char)
    requires 0 <= n < 16
    ensures '0' <= c <= '9' || 'a' <= c <= 'f'
  {
    if n < 10 then ('0' as int + n) as char else ('a' as int + n - 10) as char
  }

  /** A digest as blake3 displays it: two lower-case hex digits per byte. */
  function Hex(d: seq<byte>): (s: string)
    ensures |s| == 2 * |d|
    ensures forall i :: 0 <= i < |s| ==> '0' <= s[i] <= '9' || 'a' <= s[i] <= 'f'
  {
    if d == [] then []
    else [HexDigit(d[0] as int / 16), HexDigit(d[0] as int % 16)] + Hex(d[1..])
  }

  /** The stylesheet's entity tag: the quoted hex digest of its bytes. */
  function ETag(css: seq<byte>, hash: seq<byte> -> seq<byte>): (t: string)
    ensures |t| >= 2 && t[0] == '"' && t[|t| - 1] == '"'
    ensures forall i :: 0 <= i < |t| ==> 32 <= t[i] as int < 127
  {
    "\"" + Hex(hash(css)) + "\""
  }

  /** `HeaderValue::to_str` accepts visible ASCII and tab only. */
  predicate VisibleAscii(v: seq<byte>)
  {
    forall i :: 0 <= i < |v| ==> (32 <= v[i] as int < 127 || v[i] == 9)
  }

  /** The characters of a header value of single bytes. */
  function HeaderText(v: seq<byte>): (s: string)
    ensures |s| == |v| && forall i :: 0 <= i < |v| ==> s[i] as int == v[i] as int
  {
    seq(|v|, i requires 0 <= i < |v| => v[i] as int as char)
  }

  datatype StyleReply =
    | NotModified
    | Stylesheet(contentType: string, etag: string, body: seq<byte>)

  /** The `unwrap`s of `style` that can fail on its inputs. */
  datatype StylePanic = PanicHeaderNotText | PanicCssNotUtf8

  /**
   * `style`: an `If-None-Match` equal to the stylesheet's entity tag gets
   * "not modified" with no body; otherwise the stylesheet is sent as
   * text/css with its entity tag. `hash` is blake3.
   */
  function Style(css: seq<byte>, ifNoneMatch: Option<seq<byte>>, hash: seq<byte> -> seq<byte>)
    : (r: Result<StyleReply, StylePanic>)
    ensures r == Ok(NotModified) <==>
      ifNoneMatch.Some? && VisibleAscii(ifNoneMatch.value) && HeaderText(ifNoneMatch.value) == ETag(css, hash)
    ensures r.Ok? && r.value.Stylesheet? ==>
      r.value.body == css && Utf8.Valid(css) && r.value.etag == ETag(css, hash)
    ensures r == Err(PanicHeaderNotText) <==> ifNoneMatch.Some? && !VisibleAscii(ifNoneMatch.value)
    ensures r == Err(PanicCssNotUtf8) <==>
      !Utf8.Valid(css) && r != Err(PanicHeaderNotText) && r != Ok(NotModified)
  {
    var tag := ETag(css, hash);
    if ifNoneMatch.Some? && !VisibleAscii(ifNoneMatch.value) then Err(PanicHeaderNotText)
    else if ifNoneMatch.Some? && HeaderText(ifNoneMatch.value) == tag then Ok(NotModified)
    else if !Utf8.Valid(css) then Err(PanicCssNotUtf8)
    else Ok(Stylesheet("text/css", tag, css))
  }

  /** A client sending back the entity tag it was given gets "not modified". */
  lemma ETagRevalidates(css: seq<byte>, first: Option<seq<byte>>, hash: seq<byte> -> seq<byte>)
    requires Style(css, first, hash).Ok? && Style(css, first, hash).value.Stylesheet?
    ensures var tag := Style(css, first, hash).value.etag;
      Style(css, Some(AsciiBytes(tag)), hash) == Ok(NotModified)
  {
    var tag := ETag(css, hash);
    assert Style(css, first, hash).value.etag == tag;
    var v := AsciiBytes(tag);
    assert HeaderText(v) == tag;
    assert VisibleAscii(v);
  }

  /** A changed stylesheet whose digest changes is sent again in full. */
  lemma ChangedStylesheetResent(old_css: seq<byte>, css: seq<byte>, hash: seq<byte> -> seq<byte>)
    requires hash(old_css) != hash(css) && Utf8.Valid(css)
    ensures Style(css, Some(AsciiBytes(ETag(old_css, hash))), hash) ==
      Ok(Stylesheet("text/css", ETag(css, hash), css))
  {
    var stale := ETag(old_css, hash);
    var v := AsciiBytes(stale);
    assert HeaderText(v) == stale;
    assert VisibleAscii(v);
    ETagInjective(old_css, css, hash);
  }

  /** Stylesheets with different digests have different entity tags. */
  lemma ETagInjective(a: seq<byte>, b: seq<byte>, hash: seq<byte> -> seq<byte>)
    requires hash(a) != hash(b)
    ensures ETag(a, hash) != ETag(b, hash)
  {
    var ta, tb := ETag(a, hash), ETag(b, hash);
    if ta == tb {
      assert ta[1..|ta| - 1] == Hex(hash(a));
      assert tb[1..|tb| - 1] == Hex(hash(b));
      HexInjective(hash(a), hash(b));
    }
  }

  /** Different digests display differently. */
  lemma {:induction false} HexInjective(a: seq<byte>, b: seq<byte>)
    requires Hex(a) == Hex(b)
    ensures a == b
  {
    if a != [] {
      assert |b| == |a|;
      assert Hex(a)[0] == HexDigit(a[0] as int / 16) && Hex(b)[0] == HexDigit(b[0] as int / 16);
      assert Hex(a)[1] == HexDigit(a[0] as int % 16) && Hex(b)[1] == HexDigit(b[0] as int % 16);
      HexDigitInjective(a[0] as int / 16, b[0] as int / 16);
      HexDigitInjective(a[0] as int % 16, b[0] as int % 16);
      assert Hex(a)[2..] == Hex(a[1..]) && Hex(b)[2..] == Hex(b[1..]);
      HexInjective(a[1..], b[1..]);
      assert a == [a[0]] + a[1..] && b == [b[0]] + b[1..];
    }
  }

  lemma HexDigitInjective(m: int, n: int)
    requires 0 <= m < 16 && 0 <= n < 16 && HexDigit(m) == HexDigit(n)
    ensures m == n
  {
  }
}
