/**
 Reading an obsel collection page by page, following the `next` links that get_state
 gives: each link starts after an obsel of greatest end in the page, and repeats the
 bounds, except those that are zero.
 */
module Paging {
  import opened Obsels
  import opened Select
  import opened Sets

  datatype Bounds = Bounds(minb: Option<int>, maxb: Option<int>, mine: Option<int>, maxe: Option<int>)

  predicate AtLeast(bound: Option<int>, x: int) {
    bound.Some? ==> bound.value <= x
  }

  predicate AtMost(bound: Option<int>, x: int) {
    bound.Some? ==> x <= bound.value
  }

  predicate Within(bs: Bounds, k: Key) {
    AtLeast(bs.minb, k.begin) && AtMost(bs.maxb, k.begin) && AtLeast(bs.mine, k.end) && AtMost(bs.maxe, k.end)
  }

  /** The obsels that the client wants to read. */
  ghost function Wanted(g: Graph, bs: Bounds): set<Key> {
    set k | k in Keys(g) && Within(bs, k)
  }

  function QueryFor(bs: Bounds, limit: nat, after: Option<Uri>): Query {
    Query(bs.minb, bs.maxe, after, None, false, Some(limit))
  }

  /** The obsels of one page; `maxb` and `mine` are conditions of their own, in brackets. */
  function Page(g: Graph, bs: Bounds, limit: nat, after: Option<Uri>): seq<Key> {
    Rows(g, QueryFor(bs, limit, after), (o: Obsel) => AtMost(bs.maxb, o.begin) && AtLeast(bs.mine, o.end))
  }

  function DropZero(b: Option<int>): Option<int> {
    if b == Some(0) then None else b
  }

  /** The bounds repeated in the link to the next page. */
  function NextBounds(bs: Bounds): Bounds {
    Bounds(DropZero(bs.minb), DropZero(bs.maxb), DropZero(bs.mine), DropZero(bs.maxe))
  }

  /** The anchor of the next link is some obsel of greatest end in the page. */
  predicate IsAnchor(page: seq<Key>, a: Key) {
    a in page && forall k <- page :: k.end <= a.end
  }

  /** The pages read when following links from a first page; every page that is not empty
      has a link. */
  ghost predicate Walk(g: Graph, trace: TraceId, bs: Bounds, limit: nat, after: Option<Uri>, pages: seq<seq<Key>>)
    decreases |pages|
  {
    && |pages| > 0
    && pages[0] == Page(g, bs, limit, after)
    && (|pages| > 1 ==> exists a :: IsAnchor(pages[0], a)
                                    && Walk(g, trace, NextBounds(bs), limit, Some(RowUri(trace, a)), pages[1..]))
  }

  ghost predicate Complete(pages: seq<seq<Key>>) {
    |pages| > 0 && pages[|pages| - 1] == []
  }

  function Flatten(pages: seq<seq<Key>>): seq<Key> {
    if pages == [] then [] else pages[0] + Flatten(pages[1..])
  }

  /** Dropping zero bounds loses nothing: either it does not happen, or the order of the
      obsels makes up for it. */
  predicate DropsHarmlessly(bs: Bounds) {
    && bs.maxb != Some(0)
    && bs.maxe != Some(0)
    && (bs.minb == Some(0) ==> bs.mine.Some? && bs.mine == bs.maxe)
  }

  ghost predicate DistinctEnds(w: set<Key>) {
    forall i, j :: i in w && j in w && i != j ==> i.end != j.end
  }

  ghost function After(s: set<Key>, a: Option<Key>): set<Key> {
    set k | k in s && (a.Some? ==> Less(a.value, k))
  }

  /** The state of a walk: the bounds in use, after the anchor, select what is still wanted. */
  ghost predicate Walking(g: Graph, trace: TraceId, bs0: Bounds, bs: Bounds, a: Option<Key>) {
    && DropsHarmlessly(bs0)
    && (a.Some? ==> a.value in Wanted(g, bs0))
    && (bs == bs0 || (a.Some? && bs == NextBounds(bs0)))
  }

  function Prefix(q: seq<Key>, n: nat): seq<Key> {
    if n < |q| then q[..n] else q
  }

  lemma PageIsPrefix(g: Graph, trace: TraceId, bs0: Bounds, bs: Bounds, limit: nat, a: Option<Key>)
    requires Owned(g, trace) && Walking(g, trace, bs0, bs, a)
    ensures var after := if a.None? then None else Some(RowUri(trace, a.value));
            Page(g, bs, limit, after) == Prefix(Sorted(After(Wanted(g, bs0), a)), limit)
  {
    var after := if a.None? then None else Some(RowUri(trace, a.value));
    var keep := (o: Obsel) => AtMost(bs.maxb, o.begin) && AtLeast(bs.mine, o.end);
    var q := QueryFor(bs, limit, after);
    if a.Some? { KeyInGraph(g, trace, a.value); }
    FilterExact(q, a, None);
    assert forall k :: Accepts(q, a, None, k) <==> Intended(q, a, None, k);
    forall k ensures k in KeysOf(g, Matching(g, q, keep)) <==> k in After(Wanted(g, bs0), a) {
      if k in After(Wanted(g, bs0), a) {
        KeyInGraph(g, trace, k);
        assert RowUri(trace, k) in Matching(g, q, keep);
      }
    }
    assert KeysOf(g, Matching(g, q, keep)) == After(Wanted(g, bs0), a);
  }

  lemma KeyInGraph(g: Graph, trace: TraceId, k: Key)
    requires Owned(g, trace) && k in Keys(g)
    ensures RowUri(trace, k) in g.obsels && KeyAt(g, RowUri(trace, k)) == k
  {
  }

  /** What a page and its anchor leave to be read. */
  lemma PageStep(w: set<Key>, a: Option<Key>, limit: nat, page: seq<Key>, b: Key)
    requires limit >= 1 && page == Prefix(Sorted(After(w, a)), limit) && IsAnchor(page, b)
    ensures b in After(w, a) && After(w, Some(b)) < After(w, a)
    ensures forall k :: k in After(w, a) <==> k in page || k in After(w, Some(b))
    ensures DistinctEnds(w) ==>
              Sorted(After(w, a)) == page + Sorted(After(w, Some(b)))
  {
    hide Sorted, Ordered, DistinctEnds;
    var s := Sorted(After(w, a));
    assert page == s[..|page|];
    forall k | k in page ensures k in After(w, a) {
      assert k in s;
    }
    forall k | k in After(w, a) && k !in page ensures k in After(w, Some(b)) {
      FirstBeforeRest(s, |page|, b, k);
    }
    assert b in After(w, a) && b !in After(w, Some(b));
    assert After(w, Some(b)) <= After(w, a);
    if DistinctEnds(w) {
      PageStepDistinct(w, a, page, b);
    }
  }

  lemma TailAfter(s: seq<Key>, n: nat)
    requires Ordered(s) && 0 < n <= |s|
    ensures Ordered(s[n..])
    ensures forall k :: k in s[n..] <==> k in s && Less(s[n - 1], k)
  {
  }

  /** With distinct ends, the obsel of greatest end is the last of the page. */
  lemma AnchorIsLast(s: seq<Key>, n: nat, b: Key)
    requires Ordered(s) && 0 < n <= |s| && IsAnchor(s[..n], b)
    requires forall i, j :: 0 <= i < j < |s| ==> s[i].end != s[j].end
    ensures b == s[n - 1]
  {
  }

  lemma AnchorOfPage(page: seq<Key>, b: Key)
    requires IsAnchor(page, b)
    ensures page != []
  {
  }

  lemma SortedEndsDistinct(s: set<Key>)
    requires DistinctEnds(s)
    ensures forall i, j :: 0 <= i < j < |s| ==> Sorted(s)[i].end != Sorted(s)[j].end
  {
  }

  lemma PageStepDistinct(w: set<Key>, a: Option<Key>, page: seq<Key>, b: Key)
    requires page <= Sorted(After(w, a)) && IsAnchor(page, b)
    requires After(w, Some(b)) <= After(w, a) <= w && DistinctEnds(w)
    ensures Sorted(After(w, a)) == page + Sorted(After(w, Some(b)))
  {
    hide Less, Sorted, Ordered, IsAnchor;
    var s, n := Sorted(After(w, a)), |page|;
    assert s[..n] == page;
    assert page != [] by { AnchorOfPage(page, b); }
    SortedEndsDistinct(After(w, a));
    AnchorIsLast(s, n, b);
    TailAfter(s, n);
    SortedUnique(s[n..], After(w, Some(b)));
    assert s == s[..n] + s[n..];
  }

  lemma {:induction false} WalkVisits(g: Graph, trace: TraceId, bs0: Bounds, bs: Bounds, limit: nat, a: Option<Key>,
                                      pages: seq<seq<Key>>)
    requires Owned(g, trace) && limit >= 1 && Walking(g, trace, bs0, bs, a)
    requires Walk(g, trace, bs, limit, if a.None? then None else Some(RowUri(trace, a.value)), pages)
    ensures var todo := After(Wanted(g, bs0), a);
            && |pages| <= |todo| + 1
            && (forall k :: k in Flatten(pages) ==> k in todo)
            && (Complete(pages) ==> forall k :: k in todo ==> k in Flatten(pages))
            && (Complete(pages) && DistinctEnds(Wanted(g, bs0)) ==> Flatten(pages) == Sorted(todo))
    decreases |pages|
  {
    hide Page, Wanted, IsAnchor, DistinctEnds, After, Owned, Flatten, Less;
    var w, todo := Wanted(g, bs0), After(Wanted(g, bs0), a);
    PageIsPrefix(g, trace, bs0, bs, limit, a);
    if |pages| == 1 {
      LastPage(todo, limit, pages);
    } else {
      var b :| IsAnchor(pages[0], b) && Walk(g, trace, NextBounds(bs), limit, Some(RowUri(trace, b)), pages[1..]);
      PageStep(w, a, limit, pages[0], b);
      AnchorIsWanted(w, a, b);
      WalkVisits(g, trace, bs0, NextBounds(bs), limit, Some(b), pages[1..]);
      SmallerSet(After(w, Some(b)), todo);
      FlattenSplits(pages);
    }
  }

  lemma AnchorIsWanted(w: set<Key>, a: Option<Key>, b: Key)
    requires b in After(w, a)
    ensures b in w
  {
  }

  lemma FlattenSplits(pages: seq<seq<Key>>)
    requires |pages| > 1
    ensures Flatten(pages) == pages[0] + Flatten(pages[1..])
    ensures Complete(pages) <==> Complete(pages[1..])
  {
  }

  /** A walk that stops, for want of a link or of interest, after one page. */
  lemma LastPage(todo: set<Key>, limit: nat, pages: seq<seq<Key>>)
    requires |pages| == 1 && limit >= 1 && pages[0] == Prefix(Sorted(todo), limit)
    ensures forall k :: k in Flatten(pages) ==> k in todo
    ensures Complete(pages) ==> todo == {} && Flatten(pages) == [] == Sorted(todo)
  {
  }

  /* ---------- reading to the end ---------- */

  lemma {:induction false} AnchorExists(page: seq<Key>) returns (a: Key)
    requires page != []
    ensures IsAnchor(page, a)
    decreases |page|
  {
    a := page[0];
    if |page| > 1 {
      assert page == [page[0]] + page[1..];
      var b := AnchorExists(page[1..]);
      if a.end < b.end { a := b; }
    }
  }

  /** A walk whose last page is not empty goes on: that page has a link. */
  lemma {:induction false} WalkExtends(g: Graph, trace: TraceId, bs: Bounds, limit: nat, after: Option<Uri>,
          pages: seq<seq<Key>>)
    returns (page: seq<Key>)
    requires Walk(g, trace, bs, limit, after, pages) && !Complete(pages)
    ensures Walk(g, trace, bs, limit, after, pages + [page])
    decreases |pages|
  {
    hide Page, IsAnchor;
    if |pages| == 1 {
      var a := AnchorExists(pages[0]);
      page := Page(g, NextBounds(bs), limit, Some(RowUri(trace, a)));
      assert (pages + [page])[1..] == [page];
    } else {
      var a :| IsAnchor(pages[0], a) && Walk(g, trace, NextBounds(bs), limit, Some(RowUri(trace, a)), pages[1..]);
      page := WalkExtends(g, trace, NextBounds(bs), limit, Some(RowUri(trace, a)), pages[1..]);
      assert (pages + [page])[1..] == pages[1..] + [page];
    }
  }

  /** A client that follows links for as long as there is one. */
  ghost predicate WalkToTheEnd(g: Graph, trace: TraceId, bs: Bounds, limit: nat, pages: seq<seq<Key>>) {
    Walk(g, trace, bs, limit, None, pages) && forall page :: !Walk(g, trace, bs, limit, None, pages + [page])
  }

  /** Following the next links with a limit of at least 1 reads wanted obsels only, in at
      most one page more than there are of them. A client that follows all links reads
      them all; when their ends are distinct it reads each of them once, in order. */
  lemma PagingReadsEverything(g: Graph, trace: TraceId, bs: Bounds, limit: nat, pages: seq<seq<Key>>)
    requires Owned(g, trace) && limit >= 1 && DropsHarmlessly(bs)
    requires Walk(g, trace, bs, limit, None, pages)
    ensures |pages| <= |Wanted(g, bs)| + 1
    ensures forall k :: k in Flatten(pages) ==> k in Wanted(g, bs)
    ensures WalkToTheEnd(g, trace, bs, limit, pages) ==>
              && (forall k :: k in Wanted(g, bs) ==> k in Flatten(pages))
              && (DistinctEnds(Wanted(g, bs)) ==> Flatten(pages) == Sorted(Wanted(g, bs)))
  {
    hide Walk, Flatten, Sorted, DistinctEnds, Owned, Wanted, DropsHarmlessly;
    WalkVisits(g, trace, bs, bs, limit, None, pages);
    assert After(Wanted(g, bs), None) == Wanted(g, bs);
    if WalkToTheEnd(g, trace, bs, limit, pages) && !Complete(pages) {
      var page := WalkExtends(g, trace, bs, limit, None, pages);
      assert false;
    }
  }

  /** So such a client has read an obsel exactly when it lies within all four bounds. */
  lemma ReadsExactly(g: Graph, trace: TraceId, bs: Bounds, limit: nat, pages: seq<seq<Key>>, u: Uri)
    requires Owned(g, trace) && limit >= 1 && DropsHarmlessly(bs) && u in g.obsels
    requires WalkToTheEnd(g, trace, bs, limit, pages)
    ensures KeyAt(g, u) in Flatten(pages) <==>
              var o := g.obsels[u];
              && (bs.minb.Some? ==> bs.minb.value <= o.begin) && (bs.maxb.Some? ==> o.begin <= bs.maxb.value)
              && (bs.mine.Some? ==> bs.mine.value <= o.end) && (bs.maxe.Some? ==> o.end <= bs.maxe.value)
  {
    hide Walk, Flatten;
    PagingReadsEverything(g, trace, bs, limit, pages);
    assert KeyAt(g, u) in Wanted(g, bs) <==> Within(bs, KeyAt(g, u));
  }

  /** Every walk can be continued to its end, so following links terminates. */
  lemma {:induction false} WalkEnds(g: Graph, trace: TraceId, bs: Bounds, limit: nat, pages: seq<seq<Key>>)
    returns (all: seq<seq<Key>>)
    requires Owned(g, trace) && limit >= 1 && DropsHarmlessly(bs)
    requires Walk(g, trace, bs, limit, None, pages)
    ensures pages <= all && WalkToTheEnd(g, trace, bs, limit, all) && Complete(all)
    decreases |Wanted(g, bs)| + 1 - |pages|
  {
    hide Walk, Wanted, Owned, DropsHarmlessly, Sorted;
    PagingReadsEverything(g, trace, bs, limit, pages);
    if Complete(pages) {
      all := pages;
      forall page ensures !Walk(g, trace, bs, limit, None, pages + [page]) {
        NothingAfterEmpty(g, trace, bs, limit, None, pages, page);
      }
    } else {
      var page := WalkExtends(g, trace, bs, limit, None, pages);
      PagingReadsEverything(g, trace, bs, limit, pages + [page]);
      all := WalkEnds(g, trace, bs, limit, pages + [page]);
    }
  }

  /** An empty page has no link. */
  lemma {:induction false} NothingAfterEmpty(g: Graph, trace: TraceId, bs: Bounds, limit: nat, after: Option<Uri>,
                                             pages: seq<seq<Key>>, page: seq<Key>)
    requires Complete(pages)
    ensures !Walk(g, trace, bs, limit, after, pages + [page])
    decreases |pages|
  {
    hide Page;
    var more := pages + [page];
    if Walk(g, trace, bs, limit, after, more) {
      var a :| IsAnchor(more[0], a) && Walk(g, trace, NextBounds(bs), limit, Some(RowUri(trace, a)), more[1..]);
      if |pages| > 1 {
        assert more[1..] == pages[1..] + [page];
        NothingAfterEmpty(g, trace, NextBounds(bs), limit, Some(RowUri(trace, a)), pages[1..], page);
      }
    }
  }

  /* ---------- equal ends ---------- */

  const UNBOUNDED := Bounds(None, None, None, None)

  /** Two obsels that end together, two on a page: the next link may start after the first
      of them, and then the second is listed again. */
  lemma TiesAreRepeated(trace: TraceId) returns (g: Graph, pages: seq<seq<Key>>)
    ensures Owned(g, trace) && Keys(g) == {Key(0, 0, 0), Key(0, 1, 1)}
    ensures Walk(g, trace, UNBOUNDED, 2, None, pages) && Complete(pages)
    ensures Flatten(pages) == [Key(0, 0, 0), Key(0, 1, 1), Key(0, 1, 1)]
  {
    hide Page, Sorted;
    var k0, k1 := Key(0, 0, 0), Key(0, 1, 1);
    g, pages := Pair(trace, k0, k1), [[k0, k1], [k1], []];
    assert Keys(g) == {k0, k1} by { assert KeyAt(g, RowUri(trace, k0)) == k0 && KeyAt(g, RowUri(trace, k1)) == k1; }
    PageOfRest(g, trace, None, [k0, k1]);
    PageOfRest(g, trace, Some(k0), [k1]);
    PageOfRest(g, trace, Some(k1), []);
    assert pages[1..] == [[k1], []] && pages[1..][1..] == [[]];
    assert IsAnchor([k0, k1], k0) && IsAnchor([k1], k1);
    assert Walk(g, trace, UNBOUNDED, 2, Some(RowUri(trace, k1)), [[]]);
    assert Walk(g, trace, UNBOUNDED, 2, Some(RowUri(trace, k0)), pages[1..]);
    assert Flatten([[]]) == [] && Flatten(pages[1..]) == [k1] + [];
  }

  lemma PageOfRest(g: Graph, trace: TraceId, a: Option<Key>, page: seq<Key>)
    requires Owned(g, trace) && (a.Some? ==> a.value in Keys(g)) && |page| <= 2
    requires Lists(page, After(Keys(g), a))
    ensures Page(g, UNBOUNDED, 2, if a.None? then None else Some(RowUri(trace, a.value))) == page
  {
    hide Page, Sorted;
    assert Wanted(g, UNBOUNDED) == Keys(g);
    PageIsPrefix(g, trace, UNBOUNDED, UNBOUNDED, 2, a);
    SortedUnique(page, After(Keys(g), a));
  }

  /* ---------- zero bounds ---------- */

  predicate Satisfiable(bs: Bounds) {
    && (bs.minb.Some? && bs.maxb.Some? ==> bs.minb.value <= bs.maxb.value)
    && (bs.mine.Some? && bs.maxe.Some? ==> bs.mine.value <= bs.maxe.value)
  }

  /** Following next links from the first page shows the obsel to the client. */
  ghost predicate Shows(g: Graph, trace: TraceId, bs: Bounds, limit: nat, pages: seq<seq<Key>>, k: Key) {
    Owned(g, trace) && limit >= 1 && Walk(g, trace, bs, limit, None, pages) && k in Flatten(pages)
  }

  /** When the bounds can be met at all, following next links stays within them for every
      collection exactly when dropping zero bounds is harmless. */
  lemma ZeroBoundsExact(trace: TraceId, bs: Bounds)
    requires Satisfiable(bs)
    ensures (forall g, limit: nat, pages, k :: Shows(g, trace, bs, limit, pages, k) ==> Within(bs, k))
            <==> DropsHarmlessly(bs)
  {
    hide Within, DropsHarmlessly, NextBounds;
    if DropsHarmlessly(bs) {
      forall g, limit: nat, pages, k | Shows(g, trace, bs, limit, pages, k) ensures Within(bs, k) {
        ShownIsWanted(g, trace, bs, limit, pages, k);
      }
    } else {
      var k0, k1 := Strays(bs);
      var g, pages := TwoPages(trace, bs, k0, k1);
      assert Shows(g, trace, bs, 1, pages, k1);
    }
  }

  lemma ShownIsWanted(g: Graph, trace: TraceId, bs: Bounds, limit: nat, pages: seq<seq<Key>>, k: Key)
    requires DropsHarmlessly(bs) && Shows(g, trace, bs, limit, pages, k)
    ensures Within(bs, k)
  {
    hide Within, DropsHarmlessly, Walk, Flatten;
    PagingReadsEverything(g, trace, bs, limit, pages);
    assert k in Wanted(g, bs);
  }

  /** Two obsels: the first is wanted; the second is not, but the next link accepts it. */
  lemma Strays(bs: Bounds) returns (k0: Key, k1: Key)
    requires Satisfiable(bs) && !DropsHarmlessly(bs)
    ensures Within(bs, k0) && !Within(bs, k1) && Within(NextBounds(bs), k1) && Less(k0, k1) && k0.id != k1.id
  {
    var b := if bs.maxb.Some? then bs.maxb.value else if bs.minb.Some? then bs.minb.value else 0;
    var e := if bs.mine.Some? then bs.mine.value else if bs.maxe.Some? then bs.maxe.value - 1 else 0;
    if bs.maxb == Some(0) {
      k0, k1 := Key(e, 0, 0), Key(e, 1, 1);
    } else if bs.maxe == Some(0) {
      k0, k1 := Key(0, b, 0), Key(1, b, 1);
    } else {
      k0, k1 := Key(e, b, 0), Key(e + 1, -1, 1);
    }
  }

  function Pair(trace: TraceId, k0: Key, k1: Key): Graph {
    Graph(map[RowUri(trace, k0) := Obsel(k0.begin, k0.end, {}, {}, None),
              RowUri(trace, k1) := Obsel(k1.begin, k1.end, {}, {}, None)], {})
  }

  lemma FirstPage(trace: TraceId, bs: Bounds, k0: Key, k1: Key)
    requires Within(bs, k0) && !Within(bs, k1) && k0.id != k1.id
    ensures Page(Pair(trace, k0, k1), bs, 1, None) == [k0]
  {
    hide Sorted;
    PageOfOne(Pair(trace, k0, k1), trace, bs, None, RowUri(trace, k0));
  }

  lemma SecondPage(trace: TraceId, bs: Bounds, k0: Key, k1: Key)
    requires Within(bs, k1) && Less(k0, k1) && k0.id != k1.id
    ensures Page(Pair(trace, k0, k1), bs, 1, Some(RowUri(trace, k0))) == [k1]
  {
    hide Sorted;
    PageOfOne(Pair(trace, k0, k1), trace, bs, Some(RowUri(trace, k0)), RowUri(trace, k1));
  }

  lemma TwoPages(trace: TraceId, bs: Bounds, k0: Key, k1: Key) returns (g: Graph, pages: seq<seq<Key>>)
    requires Within(bs, k0) && !Within(bs, k1) && Within(NextBounds(bs), k1) && Less(k0, k1) && k0.id != k1.id
    ensures Owned(g, trace) && Walk(g, trace, bs, 1, None, pages) && k1 in Flatten(pages)
  {
    hide Page, Walk, Flatten, Less, Within, NextBounds;
    g, pages := Pair(trace, k0, k1), [[k0], [k1]];
    FirstPage(trace, bs, k0, k1);
    SecondPage(trace, NextBounds(bs), k0, k1);
    TwoPagesWalk(g, trace, bs, k0, k1);
  }

  lemma TwoPagesWalk(g: Graph, trace: TraceId, bs: Bounds, k0: Key, k1: Key)
    requires Page(g, bs, 1, None) == [k0] && Page(g, NextBounds(bs), 1, Some(RowUri(trace, k0))) == [k1]
    ensures Walk(g, trace, bs, 1, None, [[k0], [k1]]) && k1 in Flatten([[k0], [k1]])
  {
    hide Page;
    var pages := [[k0], [k1]];
    assert pages[1..] == [[k1]];
    assert IsAnchor(pages[0], k0);
    assert Flatten(pages[1..]) == [k1] + Flatten([[k1]][1..]) == [k1];
    assert Flatten(pages) == [k0] + [k1];
  }

  lemma PageOfOne(g: Graph, trace: TraceId, bs: Bounds, after: Option<Uri>, u: Uri)
    requires u in g.obsels && (after.Some? ==> after.value in g.obsels)
    requires Matching(g, QueryFor(bs, 1, after), (o: Obsel) => AtMost(bs.maxb, o.begin) && AtLeast(bs.mine, o.end))
                 == {u}
    ensures Page(g, bs, 1, after) == [KeyAt(g, u)]
  {
    var m := KeysOf(g, {u});
    assert m == {KeyAt(g, u)};
    SortedUnique([KeyAt(g, u)], m);
  }
}
