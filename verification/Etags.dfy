/**
 The etags given with a slice of an obsel collection (iter_etags), as weak validators
 (section 13.3.3 of RFC 2616): as long as a tag is current, the slice is unchanged.
 */
module Etags {
  import opened Obsels
  import opened Tags
  import opened Select
  import TO = TraceObsels

  datatype Tag = ETag(t: nat) | StrTag(t: nat) | PseTag(t: nat)

  /** Any test on an obsel and its URI. */
  type Test = (Uri, Obsel) -> bool

  /** What a slice keeps: obsels that end by `maxe`, come before `before`, and pass a test. */
  datatype Slice = Slice(maxe: Option<int>, before: Option<Uri>)

  function Max(a: int, b: int): int {
    if a < b then b else a
  }

  /** The end by which the slice is judged. A `maxe` of 0 counts as missing when there
      is a `before` as well. */
  function Reach(g: Graph, s: Slice): Option<int>
    requires s.before.Some? ==> s.before.value in g.obsels
  {
    if s.before.Some? then
      var beforeEnd := g.obsels[s.before.value].end;
      Some(Max(if s.maxe.Some? && s.maxe.value != 0 then s.maxe.value else beforeEnd, beforeEnd))
    else s.maxe
  }

  function IterEtags(c: Coll, s: Slice): seq<Tag>
    requires c.last.Some? ==> c.last.value in c.g.obsels
    requires s.before.Some? ==> s.before.value in c.g.obsels
  {
    [ETag(c.etag)] +
    if c.last.None? then []
    else if s.before == c.last then [StrTag(c.str)]
    else
      var lastEnd, reach := c.g.obsels[c.last.value].end, Reach(c.g, s);
      if reach.None? || lastEnd <= reach.value then []
      else [StrTag(c.str)] + if reach.value < lastEnd - c.range then [PseTag(c.pse)] else []
  }

  /** iter_etags on the object, yielding one tag after the other. */
  method YieldEtags(coll: TO.TraceObsels, s: Slice) returns (tags: seq<Tag>)
    requires coll.Closed()
    requires s.before.Some? ==> s.before.value in coll.obsels
    ensures tags == IterEtags(coll.State(), s)
  {
    tags := [ETag(coll.etag)];
    if coll.last.Some? {
      var lastEnd := coll.obsels[coll.last.value].end;
      var maxe := s.maxe;
      if s.before == coll.last {
        tags := tags + [StrTag(coll.str)];
      } else if maxe.Some? || s.before.Some? {
        if s.before.Some? {
          var beforeEnd := coll.obsels[s.before.value].end;
          var m := if maxe.Some? && maxe.value != 0 then maxe.value else beforeEnd;
          maxe := Some(if m < beforeEnd then beforeEnd else m);
        }
        if maxe.value < lastEnd {
          tags := tags + [StrTag(coll.str)];
          if maxe.value < lastEnd - coll.range {
            tags := tags + [PseTag(coll.pse)];
          }
        }
      }
    }
  }

  /** Which tags come with a slice: the etag always; str_mon_tag if the slice ends with the
      last obsel, or if its anchor and its bound end before it; pse_mon_tag if both end
      before it by more than the range, too. A bound of 0 is overlooked next to an anchor. */
  lemma TagsGivenExactly(c: Coll, s: Slice)
    requires c.last.Some? ==> c.last.value in c.g.obsels
    requires s.before.Some? ==> s.before.value in c.g.obsels
    ensures var tags := IterEtags(c, s);
            && tags[0] == ETag(c.etag)
            && (forall t <- tags :: t == ETag(c.etag) || t == StrTag(c.str) || t == PseTag(c.pse))
            && (c.last.None? ==> tags == [ETag(c.etag)])
            && (c.last.Some? && s.before == c.last ==> tags == [ETag(c.etag), StrTag(c.str)])
            && (c.last.Some? && s.before != c.last ==>
                  var end := c.g.obsels[c.last.value].end;
                  && (StrTag(c.str) in tags <==>
                        && (s.maxe.Some? || s.before.Some?)
                        && (s.before.Some? ==> c.g.obsels[s.before.value].end < end)
                        && (s.maxe.Some? && (s.before.None? || s.maxe.value != 0) ==> s.maxe.value < end))
                  && (PseTag(c.pse) in tags <==>
                        && StrTag(c.str) in tags
                        && (s.before.Some? ==> c.g.obsels[s.before.value].end < end - c.range)
                        && (s.maxe.Some? && (s.before.None? || s.maxe.value != 0) ==> s.maxe.value < end - c.range)))
  {
  }

  predicate Current(c: Coll, t: Tag) {
    match t
    case ETag(n) => n == c.etag
    case StrTag(n) => n == c.str
    case PseTag(n) => n == c.pse
  }

  ghost predicate InSlice(g: Graph, s: Slice, keep: Test, u: Uri)
    requires s.before.Some? ==> s.before.value in g.obsels
  {
    && u in g.obsels
    && (s.maxe.Some? ==> g.obsels[u].end <= s.maxe.value)
    && (s.before.Some? ==> Less(KeyAt(g, u), KeyAt(g, s.before.value)))
    && keep(u, g.obsels[u])
  }

  /** The obsels of a slice, with all triples about them. */
  ghost function SliceOf(g: Graph, s: Slice, keep: Test): Graph
    requires s.before.Some? ==> s.before.value in g.obsels
  {
    Graph(map u | u in g.obsels && InSlice(g, s, keep, u) :: g.obsels[u],
          set r | r in g.rels && ((r.s in g.obsels && InSlice(g, s, keep, r.s))
                                  || (r.o in g.obsels && InSlice(g, s, keep, r.o))))
  }

  lemma {:induction false} SameEtagSameGraph(c: Coll, es: seq<Edit>)
    requires Inv(c) && ValidRun(c, es) && Run(c, es).etag == c.etag
    ensures Run(c, es).g == c.g
    decreases |es|
  {
    if es != [] {
      ApplyKeeps(c, es[0]);
      RunKeeps(Apply(c, es[0]), es[1..]);
      assert es[0].SetRange?;
      SameEtagSameGraph(Apply(c, es[0]), es[1..]);
    }
  }

  /** If nothing in or below the slice changed, the slice did not. */
  lemma SliceStable(g0: Graph, g1: Graph, s: Slice, keep: Test)
    requires s.before.Some? ==> s.before.value in g0.obsels
    requires LogicGrowth(g0, g1)
    requires forall v <- g1.obsels :: Changed(g0, g1, v) ==>
               !((s.maxe.Some? ==> g1.obsels[v].end <= s.maxe.value)
                 && (s.before.Some? ==> Less(KeyAt(g1, v), KeyAt(g0, s.before.value))))
    requires forall r, u :: r in g1.rels && r !in g0.rels && Touches(r, u) && u in g0.obsels ==>
                 !InSlice(g0, s, keep, u)
    ensures SliceOf(g1, s, keep) == SliceOf(g0, s, keep)
  {
  }

  /** A monotonicity tag is given only when what it lets change is outside the slice. */
  lemma GrowthIsOutside(c: Coll, d: Coll, s: Slice, keep: Test, t: Tag)
    requires s.before.Some? ==> s.before.value in c.g.obsels
    requires Inv(c) && Promise(c, d) && t in IterEtags(c, s) && !t.ETag? && Current(d, t)
    ensures LogicGrowth(c.g, d.g)
    ensures forall v <- d.g.obsels :: Changed(c.g, d.g, v) ==>
              !((s.maxe.Some? ==> d.g.obsels[v].end <= s.maxe.value)
                && (s.before.Some? ==> Less(KeyAt(d.g, v), KeyAt(c.g, s.before.value))))
    ensures forall r, u :: r in d.g.rels && r !in c.g.rels && Touches(r, u) && u in c.g.obsels ==>
                !InSlice(c.g, s, keep, u)
  {
  }

  /** Every tag that comes with a slice is a sound validator of it, over any later run of
      edits: if the tag is still current, the obsels of the slice and all triples about
      them are the same. */
  lemma ValidatorsAreSound(c: Coll, es: seq<Edit>, s: Slice, keep: Test, t: Tag)
    requires Inv(c) && ValidRun(c, es)
    requires s.before.Some? ==> s.before.value in c.g.obsels
    requires t in IterEtags(c, s) && Current(Run(c, es), t)
    ensures s.before.Some? ==> s.before.value in Run(c, es).g.obsels
    ensures SliceOf(Run(c, es).g, s, keep) == SliceOf(c.g, s, keep)
  {
    RunKeeps(c, es);
    if t.ETag? {
      SameEtagSameGraph(c, es);
    } else {
      GrowthIsOutside(c, Run(c, es), s, keep, t);
      SliceStable(c.g, Run(c, es).g, s, keep);
    }
  }

  /* ---------- etags computed from the greatest end found ---------- */

  /** What get_state lists: the obsels that pass a test, up to an anchor, in either order. */
  datatype Listing = Listing(keep: Test, before: Option<Uri>, reverse: bool, limit: Option<nat>)

  ghost predicate Matches(g: Graph, l: Listing, u: Uri)
    requires l.before.Some? ==> l.before.value in g.obsels
  {
    InSlice(g, Slice(None, l.before), l.keep, u)
  }

  ghost function Matching(g: Graph, l: Listing): set<Key>
    requires l.before.Some? ==> l.before.value in g.obsels
  {
    set u | u in g.obsels && Matches(g, l, u) :: KeyAt(g, u)
  }

  ghost function Page(g: Graph, l: Listing): seq<Key>
    requires l.before.Some? ==> l.before.value in g.obsels
  {
    Listed(Matching(g, l), l.reverse, l.limit)
  }

  ghost predicate Shown(g: Graph, l: Listing, u: Uri)
    requires l.before.Some? ==> l.before.value in g.obsels
  {
    u in g.obsels && Matches(g, l, u) && KeyAt(g, u) in Page(g, l)
  }

  /** The obsels listed, with all triples about them. */
  ghost function Answer(g: Graph, l: Listing): Graph
    requires l.before.Some? ==> l.before.value in g.obsels
  {
    Graph(map u | u in g.obsels && Shown(g, l, u) :: g.obsels[u],
          set r | r in g.rels && (Shown(g, l, r.s) || Shown(g, l, r.o)))
  }

  function GreatestEnd(page: seq<Key>): (m: Option<int>)
    ensures m.None? <==> page == []
    ensures m.Some? ==> (exists k <- page :: k.end == m.value) && forall k <- page :: k.end <= m.value
  {
    if page == [] then None else
      var m := GreatestEnd(page[1..]);
      assert page == [page[0]] + page[1..];
      Some(if m.Some? then Max(page[0].end, m.value) else page[0].end)
  }

  /** The etags given with the listing: those of the slice that ends with what was found. */
  ghost function ListingEtags(c: Coll, l: Listing): seq<Tag>
    requires c.last.Some? ==> c.last.value in c.g.obsels
    requires l.before.Some? ==> l.before.value in c.g.obsels
  {
    IterEtags(c, Slice(GreatestEnd(Page(c.g, l)), l.before))
  }

  /** An obsel that can still be added, or a known one of which this can still be said,
      without renewing the tag. */
  ghost predicate CanStillAdd(c: Coll, t: Tag, u: Uri, o: Obsel)
    requires c.last.Some? && c.last.value in c.g.obsels
  {
    && u.trace == c.trace
    && (u in c.g.obsels ==> Extends(c.g.obsels[u], o) && o != c.g.obsels[u])
    && match t
       case ETag(_) => false
       case StrTag(_) => Less(KeyAt(c.g, c.last.value), KeyOf(u, o))
       case PseTag(_) => Recent(o, LastObsel(c), c.range)
  }

  /** The page could not take one more obsel at its end. */
  ghost predicate Full(g: Graph, l: Listing)
    requires l.before.Some? ==> l.before.value in g.obsels
  {
    !l.reverse && l.limit.Some? && |Page(g, l)| == l.limit.value
  }

  /** The listing is bounded by an anchor, or by its limit, or its test rejects whatever
      can still be added under the tags that are given: str_mon_tag if the greatest end `m`
      found is below the end of the last obsel, pse_mon_tag if it is below its range too. */
  ghost predicate WellTagged(c: Coll, l: Listing)
    requires c.last.Some? ==> c.last.value in c.g.obsels
    requires l.before.Some? ==> l.before.value in c.g.obsels
  {
    var m := GreatestEnd(Page(c.g, l));
    l.before.None? && !Full(c.g, l) && c.last.Some? && m.Some? ==>
    && (m.value < LastObsel(c).end ==> forall u, o :: CanStillAdd(c, StrTag(c.str), u, o) ==> !l.keep(u, o))
    && (m.value < LastObsel(c).end && m.value < LastObsel(c).end - c.range ==>
          forall u, o :: CanStillAdd(c, PseTag(c.pse), u, o) ==> !l.keep(u, o))
  }

  /** The tag was a valid one in this run: nothing listed has changed if it is current. */
  ghost predicate Validates(c: Coll, l: Listing, t: Tag, es: seq<Edit>)
    requires Inv(c) && ValidRun(c, es)
    requires l.before.Some? ==> l.before.value in c.g.obsels
  {
    var g := Run(c, es).g;
    Current(Run(c, es), t) ==>
      (l.before.Some? ==> l.before.value in g.obsels) && Answer(g, l) == Answer(c.g, l)
  }

  /** The etags that get_state gives are sound over all runs exactly when it is well tagged. */
  lemma ActualEndExact(c: Coll, l: Listing)
    requires Inv(c) && (l.before.Some? ==> l.before.value in c.g.obsels)
    ensures (forall t, es :: t in ListingEtags(c, l) && ValidRun(c, es) ==> Validates(c, l, t, es))
            <==> WellTagged(c, l)
  {
    hide Validates, Page, Matches, Less, Recent;
    if WellTagged(c, l) {
      forall t, es | t in ListingEtags(c, l) && ValidRun(c, es) ensures Validates(c, l, t, es) {
        ListingIsValid(c, l, t, es);
      }
    } else {
      var m := GreatestEnd(Page(c.g, l)).value;
      var t := if m < LastObsel(c).end && exists u, o :: CanStillAdd(c, StrTag(c.str), u, o) && l.keep(u, o)
               then StrTag(c.str) else PseTag(c.pse);
      var u, o :| CanStillAdd(c, t, u, o) && l.keep(u, o);
      var es := AddingRun(c, t, u, o);
      ListingChanges(c, l, t, es, u);
    }
  }

  /** A monotonicity tag is given only if what can still be added ends after what was found. */
  lemma AddedEndsLater(c: Coll, l: Listing, t: Tag, u: Uri, o: Obsel)
    requires Inv(c) && l.before.None? && t in ListingEtags(c, l) && c.last.Some?
    requires CanStillAdd(c, t, u, o)
    ensures var m := GreatestEnd(Page(c.g, l)); m.Some? && m.value < o.end
  {
    hide Page, Owned;
  }

  /** What changed while the tag stayed current. */
  lemma GrowthUnderTag(c: Coll, l: Listing, t: Tag, d: Coll)
    requires Inv(c) && Inv(d) && Promise(c, d) && l.before.None? && c.last.Some?
    requires t in ListingEtags(c, l) && !t.ETag? && Current(d, t)
    ensures LogicGrowth(c.g, d.g)
    ensures forall v <- d.g.obsels :: Changed(c.g, d.g, v) ==> CanStillAdd(c, t, v, d.g.obsels[v])
    ensures var m := GreatestEnd(Page(c.g, l));
            && m.Some?
            && forall r, v :: r in d.g.rels && r !in c.g.rels && v in c.g.obsels && Touches(r, v) ==>
                  m.value < c.g.obsels[v].end
  {
    hide Page;
  }

  lemma ListingIsValid(c: Coll, l: Listing, t: Tag, es: seq<Edit>)
    requires Inv(c) && (l.before.Some? ==> l.before.value in c.g.obsels)
    requires WellTagged(c, l) && t in ListingEtags(c, l) && ValidRun(c, es)
    ensures Validates(c, l, t, es)
  {
    hide Page, Matches, Less, Recent, Inv, Answer;
    var d := Run(c, es);
    RunKeeps(c, es);
    if Current(d, t) {
      if t.ETag? {
        SameEtagSameGraph(c, es);
      } else if l.before.Some? {
        BoundedListing(c, l, t, es);
      } else {
        GrowthUnderTag(c, l, t, d);
        forall v | v in d.g.obsels && Changed(c.g, d.g, v)
          ensures GreatestEnd(Page(c.g, l)).value < d.g.obsels[v].end
        {
          AddedEndsLater(c, l, t, v, d.g.obsels[v]);
        }
        if Full(c.g, l) {
          FullPageStays(c.g, d.g, l);
        } else {
          NothingNewMatches(c.g, d.g, l);
        }
        SamePageSameAnswer(c.g, d.g, l, c.trace);
      }
    }
  }

  lemma AnchorEtags(c: Coll, l: Listing)
    requires Inv(c) && l.before.Some? && l.before.value in c.g.obsels
    ensures c.last.Some? ==> c.last.value in c.g.obsels
    ensures ListingEtags(c, l) == IterEtags(c, Slice(None, l.before))
  {
    hide Page;
    PageWithinAnchor(c.g, l);
  }

  /** An anchor bounds the listing like a slice. */
  lemma BoundedListing(c: Coll, l: Listing, t: Tag, es: seq<Edit>)
    requires Inv(c) && l.before.Some? && l.before.value in c.g.obsels
    requires t in ListingEtags(c, l) && ValidRun(c, es) && Current(Run(c, es), t)
    ensures l.before.value in Run(c, es).g.obsels && Answer(Run(c, es).g, l) == Answer(c.g, l)
  {
    hide Current, Inv, IterEtags, Page, SliceOf, Answer, ValidRun;
    var s, g1 := Slice(None, l.before), Run(c, es).g;
    AnchorEtags(c, l);
    ValidatorsAreSound(c, es, s, l.keep, t);
    SameSliceSameAnswer(c.g, g1, l);
  }

  lemma PageWithinAnchor(g: Graph, l: Listing)
    requires l.before.Some? && l.before.value in g.obsels
    ensures forall k <- Page(g, l) :: k.end <= g.obsels[l.before.value].end
  {
    hide Less;
    var all := Sorted(Matching(g, l));
    forall k | k in Page(g, l) ensures k.end <= g.obsels[l.before.value].end {
      assert k in all;
      var u :| u in g.obsels && Matches(g, l, u) && KeyAt(g, u) == k;
      LessEnds(KeyAt(g, u), KeyAt(g, l.before.value));
    }
  }

  lemma LessEnds(a: Key, b: Key)
    requires Less(a, b)
    ensures a.end <= b.end
  {
  }

  lemma SameSliceSameAnswer(g0: Graph, g1: Graph, l: Listing)
    requires l.before.Some? ==> l.before.value in g0.obsels && l.before.value in g1.obsels
    requires SliceOf(g0, Slice(None, l.before), l.keep) == SliceOf(g1, Slice(None, l.before), l.keep)
    ensures Answer(g0, l) == Answer(g1, l)
  {
    hide InSlice, Sorted, Less;
    var s := Slice(None, l.before);
    var a, b := SliceOf(g0, s, l.keep), SliceOf(g1, s, l.keep);
    forall u ensures u in a.obsels <==> u in g0.obsels && Matches(g0, l, u) {
    }
    forall u ensures u in b.obsels <==> u in g1.obsels && Matches(g1, l, u) {
    }
    assert forall u <- a.obsels :: g0.obsels[u] == a.obsels[u] == b.obsels[u] == g1.obsels[u];
    assert Matching(g0, l) == Matching(g1, l);
    assert forall r :: r in a.rels <==> r in g0.rels && (r.s in a.obsels || r.o in a.obsels);
    assert forall r :: r in b.rels <==> r in g1.rels && (r.s in b.obsels || r.o in b.obsels);
    assert forall u :: Shown(g0, l, u) <==> Shown(g1, l, u);
    assert Answer(g0, l).obsels == Answer(g1, l).obsels;
    assert Answer(g0, l).rels == Answer(g1, l).rels;
  }

  ghost function Added(g0: Graph, g1: Graph, l: Listing): set<Key>
    requires l.before.None?
  {
    set v | v in g1.obsels && Changed(g0, g1, v) && Matches(g1, l, v) :: KeyAt(g1, v)
  }

  lemma MatchingGrows(g0: Graph, g1: Graph, l: Listing)
    requires l.before.None? && LogicGrowth(g0, g1)
    requires forall u <- g0.obsels :: Changed(g0, g1, u) ==> !Matches(g0, l, u)
    ensures Matching(g1, l) == Matching(g0, l) + Added(g0, g1, l)
  {
    forall k | k in Matching(g0, l) ensures k in Matching(g1, l) {
      var u :| u in g0.obsels && Matches(g0, l, u) && k == KeyAt(g0, u);
      assert u in g1.obsels && Matches(g1, l, u) && k == KeyAt(g1, u);
    }
    forall k | k in Matching(g1, l) ensures k in Matching(g0, l) + Added(g0, g1, l) {
      var v :| v in g1.obsels && Matches(g1, l, v) && k == KeyAt(g1, v);
      assert Changed(g0, g1, v) || (Matches(g0, l, v) && k == KeyAt(g0, v));
    }
  }

  /** Unless the page is full, a known obsel that ends later than all of it did not match. */
  lemma ChangedWasNotListed(g0: Graph, g1: Graph, l: Listing, v: Uri)
    requires l.before.None? && LogicGrowth(g0, g1) && !Full(g0, l) && Page(g0, l) != []
    requires v in g0.obsels ==> v in g1.obsels && GreatestEnd(Page(g0, l)).value < g1.obsels[v].end
    ensures v in g0.obsels ==> !Matches(g0, l, v)
  {
    hide Page;
    AllWithin(g0, l);
    assert v in g0.obsels && Matches(g0, l, v) ==> KeyAt(g0, v) in Matching(g0, l);
  }

  lemma NothingNewMatches(g0: Graph, g1: Graph, l: Listing)
    requires l.before.None? && LogicGrowth(g0, g1) && !Full(g0, l) && Page(g0, l) != []
    requires forall v <- g1.obsels :: Changed(g0, g1, v) ==>
               !l.keep(v, g1.obsels[v]) && GreatestEnd(Page(g0, l)).value < g1.obsels[v].end
    ensures Page(g1, l) == Page(g0, l)
  {
    forall v | v in g0.obsels && Changed(g0, g1, v) ensures !Matches(g0, l, v) {
      ChangedWasNotListed(g0, g1, l, v);
    }
    MatchingGrows(g0, g1, l);
    assert Matching(g1, l) == Matching(g0, l);
  }

  lemma PrefixListed(q: seq<Key>, n: nat)
    requires Ordered(q) && n <= |q|
    ensures Sorted(set k | k in q[..n]) == q[..n]
  {
    hide Sorted, Less;
    SortedUnique(q[..n], set k | k in q[..n]);
  }

  /** What comes and goes after the first `n` of a listing does not change them. */
  lemma PrefixStays(s: set<Key>, s': set<Key>, n: nat)
    requires n <= |s|
    requires forall k <- Sorted(s)[..n] :: k in s'
    requires forall x, k :: x in s' && x !in s && k in Sorted(s)[..n] ==> Less(k, x)
    ensures n <= |Sorted(s')| && Sorted(s')[..n] == Sorted(s)[..n]
  {
    hide Sorted, Less, Ordered;
    var q := Sorted(s);
    var first := set k | k in q[..n];
    var rest := s' - first;
    forall i, j | i in first && j in rest ensures Less(i, j) {
      if j in s { FirstBeforeRest(q, n, i, j); }
    }
    assert s' == first + rest;
    SortedSplit(first, rest);
    PrefixListed(q, n);
  }

  /** Obsels that end later than those of a full page are not on it. */
  lemma FullPageStays(g0: Graph, g1: Graph, l: Listing)
    requires l.before.None? && Full(g0, l) && LogicGrowth(g0, g1)
    requires forall v, k :: v in g1.obsels && Changed(g0, g1, v) && k in Page(g0, l) ==> k.end < g1.obsels[v].end
    ensures Page(g1, l) == Page(g0, l)
  {
    hide Sorted;
    var s, s', n := Matching(g0, l), Matching(g1, l), l.limit.value;
    var q := Sorted(s);
    assert Page(g0, l) == q[..n];
    forall k | k in q[..n] ensures k in s' {
      assert k in q;
      var u :| u in g0.obsels && Matches(g0, l, u) && k == KeyAt(g0, u);
      assert u in g1.obsels && Matches(g1, l, u) && k == KeyAt(g1, u);
    }
    forall x, k | x in s' && x !in s && k in q[..n] ensures Less(k, x) {
      var v :| v in g1.obsels && Matches(g1, l, v) && x == KeyAt(g1, v);
      assert Changed(g0, g1, v) || (Matches(g0, l, v) && x == KeyAt(g0, v));
    }
    PrefixStays(s, s', n);
  }

  lemma SamePageSameAnswer(g0: Graph, g1: Graph, l: Listing, trace: TraceId)
    requires l.before.None? && LogicGrowth(g0, g1) && Owned(g1, trace) && Page(g1, l) == Page(g0, l)
    requires forall v, k :: v in g1.obsels && Changed(g0, g1, v) && k in Page(g0, l) ==> k.end < g1.obsels[v].end
    requires forall r, v, k :: r in g1.rels && r !in g0.rels && v in g0.obsels && Touches(r, v) && k in Page(g0, l) ==>
                                 k.end < g0.obsels[v].end
    ensures Answer(g1, l) == Answer(g0, l)
  {
    hide Page;
    forall u ensures Shown(g0, l, u) <==> Shown(g1, l, u) {
    }
    assert Answer(g0, l).obsels == Answer(g1, l).obsels;
    assert Answer(g0, l).rels == Answer(g1, l).rels;
  }

  /* ---------- when it goes wrong ---------- */

  /** A run that adds `o` and does not renew the tag. It may take a later obsel first. */
  lemma AddingRun(c: Coll, t: Tag, u: Uri, o: Obsel) returns (es: seq<Edit>)
    requires Inv(c) && c.last.Some? && CanStillAdd(c, t, u, o) && Current(c, t)
    ensures ValidRun(c, es) && Current(Run(c, es), t)
    ensures u in Run(c, es).g.obsels && Run(c, es).g.obsels[u] == o
  {
    var last, p := LastObsel(c), Prepare(c, true);
    if t.StrTag? || !TooOld(o, p, c.range) {
      var d := AddOnePlain(c, u, o);
      es := [AddOnly([ObselGraph(u, o, {})])];
      assert Run(c, es) == Run(d, es[1..]) == d;
    } else {
      // it ends with the last obsel, but began too early; later, only its end counts
      var n := IdsBounded(c.g.obsels.Keys + {u});
      var v, later := Uri(c.trace, n), Obsel(last.end + 1, last.end + 1, {}, {}, None);
      var d := AddOnePlain(c, v, later);
      var e := AddOnePlain(d, u, o);
      es := [AddOnly([ObselGraph(v, later, {})]), AddOnly([ObselGraph(u, o, {})])];
      assert es[1..] == [AddOnly([ObselGraph(u, o, {})])] && es[1..][1..] == [];
      assert ValidRun(e, []) && ValidRun(d, es[1..]);
      assert Run(c, es) == Run(d, es[1..]) == Run(e, []) == e;
    }
  }

  /** Without an anchor, iter_etags gives a monotonicity tag exactly when it is a sound
      validator of the obsels that end by the bound: none too many, and none too few. */
  lemma UnanchoredTagsExact(c: Coll, maxe: Option<int>, t: Tag)
    requires Inv(c) && (t == StrTag(c.str) || t == PseTag(c.pse))
    ensures var s, all := Slice(maxe, None), (u: Uri, o: Obsel) => true;
            t in IterEtags(c, s) <==>
              forall es :: ValidRun(c, es) && Current(Run(c, es), t) ==>
                SliceOf(Run(c, es).g, s, all) == SliceOf(c.g, s, all)
  {
    hide ValidRun, Run, SliceOf;
    var s, all := Slice(maxe, None), (u: Uri, o: Obsel) => true;
    if t in IterEtags(c, s) {
      forall es | ValidRun(c, es) && Current(Run(c, es), t)
        ensures SliceOf(Run(c, es).g, s, all) == SliceOf(c.g, s, all)
      {
        ValidatorsAreSound(c, es, s, all, t);
      }
    } else {
      var u, es := Intruder(c, maxe, t);
      NewInSlice(c.g, Run(c, es).g, maxe, u);
    }
  }

  lemma NewInSlice(g0: Graph, g1: Graph, maxe: Option<int>, u: Uri)
    requires u !in g0.obsels && u in g1.obsels && (maxe.Some? ==> g1.obsels[u].end <= maxe.value)
    ensures SliceOf(g1, Slice(maxe, None), (u: Uri, o: Obsel) => true)
            != SliceOf(g0, Slice(maxe, None), (u: Uri, o: Obsel) => true)
  {
    assert u in SliceOf(g1, Slice(maxe, None), (u: Uri, o: Obsel) => true).obsels;
    assert u !in SliceOf(g0, Slice(maxe, None), (u: Uri, o: Obsel) => true).obsels;
  }

  /** A run that brings an obsel into the slice and leaves alone a tag that was not given. */
  lemma Intruder(c: Coll, maxe: Option<int>, t: Tag) returns (u: Uri, es: seq<Edit>)
    requires Inv(c) && (t == StrTag(c.str) || t == PseTag(c.pse)) && t !in IterEtags(c, Slice(maxe, None))
    ensures ValidRun(c, es) && Current(Run(c, es), t)
    ensures u !in c.g.obsels && u in Run(c, es).g.obsels
    ensures maxe.Some? ==> Run(c, es).g.obsels[u].end <= maxe.value
  {
    hide ValidRun, Run, Less;
    var n := IdsBounded(c.g.obsels.Keys);
    u := Uri(c.trace, n);
    TagsGivenExactly(c, Slice(maxe, None));
    if c.last.None? {
      var end := if maxe.Some? then maxe.value else 0;
      es := FirstAdded(c, u, Obsel(end, end, {}, {}, None));
    } else {
      var last := LastObsel(c);
      var end := if maxe.Some? && maxe.value < last.end then maxe.value else last.end;
      var o := Obsel(last.begin + 1, end, {}, {}, None);
      if end == last.end { LaterBegin(c, u, o); }
      es := AddingRun(c, t, u, o);
    }
  }

  lemma LaterBegin(c: Coll, u: Uri, o: Obsel)
    requires c.last.Some? && c.last.value in c.g.obsels && o.end == LastObsel(c).end && o.begin > LastObsel(c).begin
    ensures Less(KeyAt(c.g, c.last.value), KeyOf(u, o))
  {
  }

  lemma FirstAdded(c: Coll, u: Uri, o: Obsel) returns (es: seq<Edit>)
    requires Inv(c) && c.last.None? && u.trace == c.trace
    ensures ValidRun(c, es) && Run(c, es).str == c.str && Run(c, es).pse == c.pse
    ensures u in Run(c, es).g.obsels && Run(c, es).g.obsels[u] == o
  {
    var og := ObselGraph(u, o, {});
    PseTagExact(c, og);
    AddOne(c.range, Open(c.g, Prepare(c, true)), og);
    es := [AddOnly([og])];
    assert ValidAdds(AddGraph(c.g, og), c.trace, [og][1..]);
    ApplyKeeps(c, es[0]);
    assert Run(c, es) == Run(Apply(c, es[0]), es[1..]) == Apply(c, es[0]);
  }

  /** Adding an obsel, or what is said about one, without relations. */
  lemma AddOnePlain(c: Coll, u: Uri, o: Obsel) returns (d: Coll)
    requires Inv(c) && c.last.Some? && u.trace == c.trace && (u in c.g.obsels ==> Extends(c.g.obsels[u], o))
    ensures var e := AddOnly([ObselGraph(u, o, {})]);
            && Valid(c, e) && d == Apply(c, e) && Inv(d) && d.trace == c.trace && d.range == c.range
    ensures d.g == Graph(c.g.obsels[u := o], c.g.rels)
    ensures Less(KeyAt(c.g, c.last.value), KeyOf(u, o)) ==> d.str == c.str && d.last == Some(u)
    ensures !TooOld(o, Prepare(c, true), c.range) ==> d.pse == c.pse
    ensures d.last.Some?
  {
    var og, open := ObselGraph(u, o, {}), Open(c.g, Prepare(c, true));
    d := Apply(c, AddOnly([og]));
    assert ValidAdds(AddGraph(c.g, og), c.trace, [og][1..]);
    ApplyKeeps(c, AddOnly([og]));
    AddOne(c.range, open, og);
    assert forall v <- d.g.obsels :: Touched(d.g, og, v) <==> v == u;
  }

  /** Unless the page is full, a matching obsel that ends later than all of it changes it. */
  lemma ListingChanges(c: Coll, l: Listing, t: Tag, es: seq<Edit>, u: Uri)
    requires Inv(c) && c.last.Some? && l.before.None? && t in ListingEtags(c, l) && !t.ETag?
    requires ValidRun(c, es) && Current(Run(c, es), t) && !Full(c.g, l)
    requires Changed(c.g, Run(c, es).g, u) && l.keep(u, Run(c, es).g.obsels[u])
    ensures !Validates(c, l, t, es)
  {
    hide Page, Matches, Less, Recent;
    var d := Run(c, es);
    RunKeeps(c, es);
    GrowthUnderTag(c, l, t, d);
    forall v | v in d.g.obsels && Changed(c.g, d.g, v)
      ensures GreatestEnd(Page(c.g, l)).value < d.g.obsels[v].end
    {
      AddedEndsLater(c, l, t, v, d.g.obsels[v]);
    }
    var k := NewOnPage(c.g, d.g, l, u);
    var v :| v in d.g.obsels && Changed(c.g, d.g, v) && Matches(d.g, l, v) && KeyAt(d.g, v) == k;
    ChangedWasNotListed(c.g, d.g, l, v);
    assert v in Answer(d.g, l).obsels && v !in Answer(c.g, l).obsels;
  }

  lemma NewOnPage(g0: Graph, g1: Graph, l: Listing, u: Uri) returns (k: Key)
    requires l.before.None? && LogicGrowth(g0, g1) && !Full(g0, l) && Page(g0, l) != []
    requires Changed(g0, g1, u) && l.keep(u, g1.obsels[u])
    requires forall v <- g1.obsels :: Changed(g0, g1, v) ==> GreatestEnd(Page(g0, l)).value < g1.obsels[v].end
    ensures k in Page(g1, l) && k in Added(g0, g1, l)
  {
    hide Sorted, Listed;
    AllWithin(g0, l);
    forall v | v in g0.obsels && Changed(g0, g1, v) ensures !Matches(g0, l, v) {
      ChangedWasNotListed(g0, g1, l, v);
    }
    MatchingGrows(g0, g1, l);
    assert KeyAt(g1, u) in Added(g0, g1, l);
    forall x | x in Added(g0, g1, l) ensures GreatestEnd(Page(g0, l)).value < x.end {
    }
    NotFullPage(g0, l);
    k := NewKeyShown(Matching(g0, l), Added(g0, g1, l), l.reverse, l.limit);
    assert Page(g1, l) == Listed(Matching(g0, l) + Added(g0, g1, l), l.reverse, l.limit);
  }

  lemma NotFullPage(g: Graph, l: Listing)
    requires l.before.None? && !Full(g, l) && Page(g, l) != []
    ensures l.limit.Some? ==> if l.reverse then l.limit.value > 0 else |Matching(g, l)| < l.limit.value
  {
  }

  lemma NewKeyShown(s: set<Key>, added: set<Key>, reverse: bool, limit: Option<nat>) returns (k: Key)
    requires added != {} && forall i, j :: i in s && j in added ==> Less(i, j)
    requires limit.Some? ==> if reverse then limit.value > 0 else |s| < limit.value
    ensures k in Listed(s + added, reverse, limit) && k in added
  {
    hide Less, Sorted, Ordered;
    SortedSplit(s, added);
    var q, all := Sorted(added), Sorted(s + added);
    assert all == Sorted(s) + q && |Sorted(s)| == |s| && |q| == |added| > 0;
    if reverse {
      k := q[|q| - 1];
      LastIsShown(s + added, limit);
    } else {
      k := q[0];
      IsShown(s + added, limit, |s|);
    }
    assert k in q;
  }

  lemma LastIsShown(s: set<Key>, limit: Option<nat>)
    requires s != {} && (limit.Some? ==> limit.value > 0)
    ensures Sorted(s) != [] && Sorted(s)[|Sorted(s)| - 1] in Listed(s, true, limit)
  {
    hide Less, Sorted, Ordered;
    assert |Sorted(s)| == |s| > 0;
    assert Listed(s, true, limit)[0] == Sorted(s)[|Sorted(s)| - 1];
  }

  lemma IsShown(s: set<Key>, limit: Option<nat>, i: nat)
    requires i < |s| && (limit.Some? ==> i < limit.value)
    ensures Sorted(s)[i] in Listed(s, false, limit)
  {
    hide Less, Sorted, Ordered;
    assert Listed(s, false, limit)[i] == Sorted(s)[i];
  }

  /** A page that is not full, or that starts from the end, shows the greatest end of all. */
  lemma AllWithin(g: Graph, l: Listing)
    requires l.before.None? && !Full(g, l) && Page(g, l) != []
    ensures forall k <- Matching(g, l) :: k.end <= GreatestEnd(Page(g, l)).value
  {
    hide Sorted, Matching, Less, Ordered;
    var all, page := Sorted(Matching(g, l)), Page(g, l);
    if l.reverse {
      assert page[0] == all[|all| - 1];
      assert page[0] in page;
      forall k | k in all ensures k.end <= all[|all| - 1].end {
        LastEndsLast(all, k);
      }
    } else {
      assert page == all;
    }
  }

  lemma LastEndsLast(q: seq<Key>, k: Key)
    requires Ordered(q) && k in q
    ensures k.end <= q[|q| - 1].end
  {
  }

  /** Two obsels, of which only the first is of type 1. */
  const TWO := Coll(0,
                    Graph(map[Uri(0, 0) := Obsel(0, 0, {1}, {}, None), Uri(0, 1) := Obsel(10, 10, {}, {}, None)], {}),
                    0, Some(Uri(0, 1)), 0, 0, 0, 0)

  lemma TypeListing(l: Listing)
    requires l == Listing((u: Uri, o: Obsel) => 1 in o.types, None, false, None)
    ensures Page(TWO.g, l) == [Key(0, 0, 0)] && GreatestEnd(Page(TWO.g, l)) == Some(0)
  {
    hide Sorted;
    var k := Key(0, 0, 0);
    assert Matching(TWO.g, l) == {k} by {
      assert Matches(TWO.g, l, Uri(0, 0)) && KeyAt(TWO.g, Uri(0, 0)) == k;
    }
    SortedUnique([k], {k});
  }

  /** Listing the obsels of type 1: str_mon_tag is given, but one more may be appended. */
  lemma TypeListingFails() returns (es: seq<Edit>)
    ensures var l := Listing((u: Uri, o: Obsel) => 1 in o.types, None, false, None);
            && Inv(TWO) && StrTag(TWO.str) in ListingEtags(TWO, l)
            && ValidRun(TWO, es) && Run(TWO, es).str == TWO.str
            && Answer(Run(TWO, es).g, l) != Answer(TWO.g, l)
  {
    hide ValidRun, Run, Sorted, Answer;
    var l := Listing((u: Uri, o: Obsel) => 1 in o.types, None, false, None);
    var u, o := Uri(0, 2), Obsel(20, 20, {1}, {}, None);
    TypeListing(l);
    es := AddingRun(TWO, StrTag(TWO.str), u, o);
    ListingChanges(TWO, l, StrTag(TWO.str), es, u);
  }
}
