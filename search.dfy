/**
 * Post search (src/search.rs): keep the public posts whose lower-cased
 * title contains the lower-cased query title, newest first, and return
 * their paths. Lower-casing is Unicode `to_lowercase`, a parameter here.
 */
module Search {
  import opened Common
  import opened Posts

  datatype SortBy = Newest

  datatype SearchQuery = SearchQuery(title: Option<string>, sortBy: Option<SortBy>)

  /** `SearchQuery::empty`: no title filter and no sort order given. */
  function EmptyQuery(): (q: SearchQuery)
    ensures q.title == None && q.sortBy == None
    ensures SortOrder(q) == Newest
  {
    SearchQuery(None, None)
  }

  /** The sort order in effect: the one asked for, `Newest` when none is. */
  function SortOrder(q: SearchQuery): SortBy
  {
    match q.sortBy
    case Some(s) => s
    case None => Newest
  }

  /** `str::contains`: `sub` occurs in `s` at some offset. */
  predicate Contains(s: string, sub: string)
  {
    (|sub| <= |s| && s[..|sub|] == sub) || (|s| > 0 && Contains(s[1..], sub))
  }

  /** `sub` occurs in `s` at offset `i`. */
  predicate OccursAt(s: string, sub: string, i: int)
  {
    0 <= i <= |s| - |sub| && s[i..i + |sub|] == sub
  }

  /** `Contains` finds `sub` exactly when it occurs at some offset. */
  lemma {:induction false} ContainsAt(s: string, sub: string)
    ensures Contains(s, sub) <==> exists i :: OccursAt(s, sub, i)
  {
    if |s| > 0 {
      ContainsAt(s[1..], sub);
      if |sub| <= |s| && s[..|sub|] == sub {
        assert OccursAt(s, sub, 0);
      }
      if Contains(s[1..], sub) {
        var i :| OccursAt(s[1..], sub, i);
        assert OccursAt(s, sub, i + 1);
      }
      if exists i :: OccursAt(s, sub, i) {
        var i :| OccursAt(s, sub, i);
        if i > 0 {
          assert OccursAt(s[1..], sub, i - 1);
        } else {
          assert |sub| <= |s| && s[..|sub|] == sub;
        }
      }
    } else {
      if Contains(s, sub) {
        assert OccursAt(s, sub, 0);
      }
      if exists i :: OccursAt(s, sub, i) {
        var i :| OccursAt(s, sub, i);
        assert sub == [];
      }
    }
  }

  /** The two filters of `search_posts`. */
  predicate Matches(post: Post, title: Option<string>, lower: string -> string)
  {
    && post.public
    && (title.None? || Contains(lower(post.title), lower(title.value)))
  }

  /** A (path, post) pair of the map, as `search_posts` collects them. */
  type Entry = (string, Post)

  /** Newest first: no entry is followed by one of a later date. */
  ghost predicate NewestFirst(entries: seq<Entry>)
  {
    forall i, j :: 0 <= i < j < |entries| ==> NotAfter(entries[j].1.date, entries[i].1.date)
  }

  /**
   * While the entry at `j` is being moved towards the front: the first
   * `i + 1` entries are newest first apart from the one at `j`, which is
   * newer than every entry after it.
   */
  ghost predicate Inserting(s: seq<Entry>, j: int, i: int)
    requires 0 <= j <= i < |s|
  {
    && (forall k, l :: 0 <= k < l <= i && k != j && l != j ==> NotAfter(s[l].1.date, s[k].1.date))
    && (forall l :: j < l <= i ==> NotAfter(s[l].1.date, s[j].1.date))
  }

  /** The entries with those at `j - 1` and `j` exchanged. */
  function Swap(s: seq<Entry>, j: int): (t: seq<Entry>)
    requires 0 < j < |s|
    ensures |t| == |s| && multiset(t) == multiset(s)
    ensures t[j - 1] == s[j] && t[j] == s[j - 1]
    ensures forall k :: 0 <= k < |s| && k != j - 1 && k != j ==> t[k] == s[k]
  {
    s[j - 1 := s[j]][j := s[j - 1]]
  }

  /** Moving an entry past an older one keeps the insertion invariant. */
  lemma SwapStep(s: seq<Entry>, j: int, i: int)
    requires 0 < j <= i < |s| && Inserting(s, j, i)
    requires !NotAfter(s[j].1.date, s[j - 1].1.date)
    ensures Inserting(Swap(s, j), j - 1, i)
  {
    NotAfterTotal(s[j].1.date, s[j - 1].1.date);
  }

  /** Once the entry meets one not older than it, the first `i + 1` entries are newest first. */
  lemma InsertDone(s: seq<Entry>, j: int, i: int)
    requires 0 <= j <= i < |s| && Inserting(s, j, i)
    requires j > 0 ==> NotAfter(s[j].1.date, s[j - 1].1.date)
    ensures forall k, l :: 0 <= k < l <= i ==> NotAfter(s[l].1.date, s[k].1.date)
  {
    forall k | 0 <= k < j ensures NotAfter(s[j].1.date, s[k].1.date) {
      if k < j - 1 {
        NotAfterTransitive(s[j].1.date, s[j - 1].1.date, s[k].1.date);
      }
    }
  }

  /**
   * The in-place sort of `search_posts` (`sort_unstable_by` comparing
   * dates, later first): afterwards the vector is newest first and holds
   * the same entries.
   */
  method SortNewest(a: array<Entry>)
    modifies a
    ensures multiset(a[..]) == multiset(old(a[..]))
    ensures NewestFirst(a[..])
  {
    for i := 0 to a.Length
      invariant multiset(a[..]) == multiset(old(a[..]))
      invariant forall k, l :: 0 <= k < l < i ==> NotAfter(a[l].1.date, a[k].1.date)
    {
      var j := i;
      while j > 0 && !NotAfter(a[j].1.date, a[j - 1].1.date)
        invariant 0 <= j <= i
        invariant multiset(a[..]) == multiset(old(a[..]))
        invariant Inserting(a[..], j, i)
      {
        SwapStep(a[..], j, i);
        ghost var swapped := Swap(a[..], j);
        a[j - 1], a[j] := a[j], a[j - 1];
        assert a[..] == swapped;
        j := j - 1;
      }
      InsertDone(a[..], j, i);
    }
  }

  /**
   * `search_posts` over a snapshot of the post map: exactly the paths of
   * the matching posts, each once, newest first. The map's iteration order
   * is unspecified: the loop takes its keys in any order.
   */
  method SearchPosts(posts: map<string, Post>, query: SearchQuery, lower: string -> string)
    returns (paths: seq<string>)
    ensures forall p :: p in paths <==> p in posts && Matches(posts[p], query.title, lower)
    ensures forall i, j :: 0 <= i < j < |paths| ==> paths[i] != paths[j]
    ensures forall i, j :: 0 <= i < j < |paths| ==>
      paths[i] in posts && paths[j] in posts && NotAfter(posts[paths[j]].date, posts[paths[i]].date)
  {
    var keys := posts.Keys;
    var found: seq<Entry> := [];
    while keys != {}
      invariant keys <= posts.Keys
      invariant forall e :: e in found ==> e.0 in posts && e.1 == posts[e.0] && e.0 !in keys && Matches(e.1, query.title, lower)
      invariant forall p :: p in posts && p !in keys && Matches(posts[p], query.title, lower) ==> (p, posts[p]) in found
      invariant forall i, j :: 0 <= i < j < |found| ==> found[i].0 != found[j].0
      decreases keys
    {
      var k :| k in keys;
      keys := keys - {k};
      if Matches(posts[k], query.title, lower) {
        found := found + [(k, posts[k])];
      }
    }
    var entries := new Entry[|found|](i requires 0 <= i < |found| => found[i]);
    assert entries[..] == found;
    match SortOrder(query)
    case Newest =>
      SortNewest(entries);
    var sorted := entries[..];
    DistinctByMultiset(found, sorted);
    paths := seq(|sorted|, i requires 0 <= i < |sorted| => sorted[i].0);
    forall p | p in paths ensures p in posts && Matches(posts[p], query.title, lower) {
      var i :| 0 <= i < |paths| && paths[i] == p;
      assert sorted[i] in found;
    }
    forall p | p in posts && Matches(posts[p], query.title, lower) ensures p in paths {
      var e := (p, posts[p]);
      assert e in sorted;
      var i :| 0 <= i < |sorted| && sorted[i] == e;
      assert paths[i] == p;
    }
    forall i, j | 0 <= i < j < |paths|
      ensures paths[i] in posts && paths[j] in posts && NotAfter(posts[paths[j]].date, posts[paths[i]].date)
    {
      assert sorted[i] in found && sorted[j] in found;
    }
  }

  /**
   * A permutation of entries with distinct paths has distinct paths too,
   * and the same entries.
   */
  lemma DistinctByMultiset(a: seq<Entry>, b: seq<Entry>)
    requires multiset(a) == multiset(b)
    requires forall i, j :: 0 <= i < j < |a| ==> a[i].0 != a[j].0
    ensures forall i, j :: 0 <= i < j < |b| ==> b[i].0 != b[j].0
    ensures forall e :: e in a <==> e in b
  {
    forall e ensures e in a <==> e in b {
      assert e in a <==> e in multiset(a);
      assert e in b <==> e in multiset(b);
    }
    forall i, j | 0 <= i < j < |b| ensures b[i].0 != b[j].0 {
      if b[i].0 == b[j].0 {
        assert b[i] in multiset(a) && b[j] in multiset(a);
        var k :| 0 <= k < |a| && a[k] == b[i];
        var l :| 0 <= l < |a| && a[l] == b[j];
        assert k == l;
        CountAtLeastTwo(b, i, j);
        DistinctCountAtMostOne(a, b[i]);
        assert false;
      }
    }
  }

  lemma {:induction false} CountAtLeastTwo(s: seq<Entry>, i: nat, j: nat)
    requires i < j < |s| && s[i] == s[j]
    ensures multiset(s)[s[i]] >= 2
  {
    var x := s[i];
    assert s == s[..i] + [x] + s[i + 1..j] + [x] + s[j + 1..];
    assert multiset(s) == multiset(s[..i]) + multiset{x} + multiset(s[i + 1..j]) + multiset{x} + multiset(s[j + 1..]);
  }

  lemma {:induction false} DistinctCountAtMostOne(s: seq<Entry>, x: Entry)
    requires forall i, j :: 0 <= i < j < |s| ==> s[i].0 != s[j].0
    ensures multiset(s)[x] <= 1
  {
    if s != [] {
      var t := s[..|s| - 1];
      assert s == t + [s[|s| - 1]];
      DistinctCountAtMostOne(t, x);
      if s[|s| - 1] == x {
        assert x !in t;
      }
    }
  }
}
