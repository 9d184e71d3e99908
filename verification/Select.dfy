/**
 The query that lists the obsels of a collection (build_select): its filter, its order,
 and its limit.
 */
module Select {
  import opened Obsels

  datatype Query = Query(begin: Option<int>, end: Option<int>,
                         after: Option<Uri>, before: Option<Uri>,
                         reverse: bool, limit: Option<nat>)

  const ALL := Query(None, None, None, None, false, None)

  predicate FromBegin(q: Query, k: Key) {
    q.begin.Some? ==> q.begin.value <= k.begin
  }

  predicate UntilEnd(q: Query, k: Key) {
    q.end.Some? ==> k.end <= q.end.value
  }

  /**
   The filter as the store reads it. The conditions are joined by `&&` without
   brackets, and those of `after` and `before` are disjunctions, so that `&&` binds
   only their first and last terms (section 19.8 of SPARQL 1.1 Query Language).
   `a` and `b` are the keys of the two anchors.
   */
  predicate Accepts(q: Query, a: Option<Key>, b: Option<Key>, k: Key) {
    match (a, b)
    case (None, None) => FromBegin(q, k) && UntilEnd(q, k)
    case (Some(a), None) =>
      || (FromBegin(q, k) && UntilEnd(q, k) && k.end > a.end)
      || (k.end == a.end && k.begin > a.begin)
      || (k.end == a.end && k.begin == a.begin && k.id > a.id)
    case (None, Some(b)) =>
      || (FromBegin(q, k) && UntilEnd(q, k) && k.end < b.end)
      || (k.end == b.end && k.begin < b.begin)
      || (k.end == b.end && k.begin == b.begin && k.id < b.id)
    case (Some(a), Some(b)) =>
      || (FromBegin(q, k) && UntilEnd(q, k) && k.end > a.end)
      || (k.end == a.end && k.begin > a.begin)
      || (k.end == a.end && k.begin == a.begin && k.id > a.id && k.end < b.end)
      || (k.end == b.end && k.begin < b.begin)
      || (k.end == b.end && k.begin == b.begin && k.id < b.id)
  }

  /** The filter as the documentation of build_select describes it. */
  predicate Intended(q: Query, a: Option<Key>, b: Option<Key>, k: Key) {
    && FromBegin(q, k)
    && UntilEnd(q, k)
    && (a.Some? ==> Less(a.value, k))
    && (b.Some? ==> Less(k, b.value))
  }

  /** When the missing brackets do no harm. */
  predicate WellBounded(q: Query, a: Option<Key>, b: Option<Key>) {
    match (a, b)
    case (None, None) => true
    case (Some(a), None) => FromBegin(q, a) && UntilEnd(q, a)
    case (None, Some(b)) => q.begin.None? && UntilEnd(q, b)
    case (Some(_), Some(_)) => false
  }

  /** The filter means what is documented, for every obsel, exactly when: an `after`
      anchor lies within both bounds; a `before` anchor comes without a lower bound and
      respects the upper one; there are not two anchors. */
  lemma FilterExact(q: Query, a: Option<Key>, b: Option<Key>)
    ensures (forall k :: Accepts(q, a, b, k) <==> Intended(q, a, b, k)) <==> WellBounded(q, a, b)
  {
    if !WellBounded(q, a, b) {
      var k := FilterWitness(q, a, b);
    }
  }

  /** An obsel on which the filter goes wrong. */
  lemma FilterWitness(q: Query, a: Option<Key>, b: Option<Key>) returns (k: Key)
    requires !WellBounded(q, a, b)
    ensures Accepts(q, a, b, k) != Intended(q, a, b, k)
  {
    var low := if q.begin.Some? then q.begin.value else 0;
    match (a, b) {
      case (Some(x), None) =>
        k := x.(id := x.id + 1);
      case (None, Some(y)) =>
        k := y.(begin := if y.begin <= low then y.begin - 1 else low - 1);
      case (Some(x), Some(y)) =>
        if x.end > y.end {
          k := y.(begin := y.begin - 1);
        } else if x.end == y.end {
          k := Key(x.end, if x.begin > y.begin then x.begin + 1 else y.begin + 1, 0);
        } else if q.end.Some? && q.end.value < y.end {
          k := y.(begin := y.begin - 1);
        } else {
          k := Key(y.end, if y.begin < low then low else y.begin + 1, 0);
        }
    }
  }

  /* ---------- the rows ---------- */

  function AnchorKey(g: Graph, u: Option<Uri>): Option<Key>
    requires u.Some? ==> u.value in g.obsels
  {
    if u.None? then None else Some(KeyAt(g, u.value))
  }

  predicate AnchorsExist(g: Graph, q: Query) {
    && (q.after.Some? ==> q.after.value in g.obsels)
    && (q.before.Some? ==> q.before.value in g.obsels)
  }

  function Matching(g: Graph, q: Query, keep: Obsel -> bool): set<Uri> {
    if !AnchorsExist(g, q) then {} else
      set u | u in g.obsels && keep(g.obsels[u])
              && Accepts(q, AnchorKey(g, q.after), AnchorKey(g, q.before), KeyAt(g, u))
  }

  function KeysOf(g: Graph, s: set<Uri>): set<Key>
    requires s <= g.obsels.Keys
  {
    set u | u in s :: KeyAt(g, u)
  }

  function Reversed(q: seq<Key>): seq<Key> {
    seq(|q|, i requires 0 <= i < |q| => q[|q| - 1 - i])
  }

  /** The first `limit` of a set, in order or in reverse order. */
  function Listed(s: set<Key>, reverse: bool, limit: Option<nat>): seq<Key> {
    var ordered := if reverse then Reversed(Sorted(s)) else Sorted(s);
    if limit.Some? && limit.value < |ordered| then ordered[..limit.value] else ordered
  }

  /** The result of the query, as keys. */
  function Rows(g: Graph, q: Query, keep: Obsel -> bool): seq<Key> {
    Listed(KeysOf(g, Matching(g, q, keep)), q.reverse, q.limit)
  }

  /** What is listed is in order of ends, then of begins, then of URIs, or in the reverse of
      it; it is as much as the limit allows; and whatever is not listed comes later. */
  lemma ListedExactly(s: set<Key>, reverse: bool, limit: Option<nat>)
    ensures var q := Listed(s, reverse, limit);
            && |q| == (if limit.Some? && limit.value < |s| then limit.value else |s|)
            && (forall k <- q :: k in s)
            && (forall i, j :: 0 <= i < j < |q| ==>
                  var (a, b) := if reverse then (q[j], q[i]) else (q[i], q[j]);
                  || a.end < b.end
                  || (a.end == b.end && a.begin < b.begin)
                  || (a.end == b.end && a.begin == b.begin && a.id < b.id))
            && forall k, x :: k in q && x in s && x !in q ==>
                 var (a, b) := if reverse then (x, k) else (k, x);
                 || a.end < b.end
                 || (a.end == b.end && a.begin < b.begin)
                 || (a.end == b.end && a.begin == b.begin && a.id < b.id)
  {
    hide Listed;
    ListedInOrder(s, reverse, limit);
  }

  /** All of a set, in order or in reverse order. */
  lemma AllInOrder(s: set<Key>, reverse: bool, all: seq<Key>)
    requires all == if reverse then Reversed(Sorted(s)) else Sorted(s)
    ensures |all| == |s| && forall k :: k in all <==> k in s
    ensures forall i, j :: 0 <= i < j < |all| ==> if reverse then Less(all[j], all[i]) else Less(all[i], all[j])
  {
    hide Sorted, Less;
    forall k | k in s ensures k in all {
      var i :| 0 <= i < |Sorted(s)| && Sorted(s)[i] == k;
      assert reverse ==> all[|all| - 1 - i] == k;
    }
  }

  lemma AfterFirst(all: seq<Key>, n: nat, x: Key) returns (j: nat)
    requires n <= |all| && x in all && x !in all[..n]
    ensures n <= j < |all| && all[j] == x
  {
    j :| 0 <= j < |all| && all[j] == x;
    assert forall m :: 0 <= m < n ==> all[..n][m] == all[m];
  }

  lemma ListedInOrder(s: set<Key>, reverse: bool, limit: Option<nat>)
    ensures var q := Listed(s, reverse, limit);
            && |q| == (if limit.Some? && limit.value < |s| then limit.value else |s|)
            && (forall k <- q :: k in s)
            && (forall i, j :: 0 <= i < j < |q| ==> if reverse then Less(q[j], q[i]) else Less(q[i], q[j]))
            && forall k, x :: k in q && x in s && x !in q ==> if reverse then Less(x, k) else Less(k, x)
  {
    hide Sorted, Less, Reversed;
    var all := if reverse then Reversed(Sorted(s)) else Sorted(s);
    var q := Listed(s, reverse, limit);
    AllInOrder(s, reverse, all);
    assert q == all[..|q|];
    forall k, x | k in q && x in s && x !in q ensures if reverse then Less(x, k) else Less(k, x) {
      var i :| 0 <= i < |q| && q[i] == k;
      var j := AfterFirst(all, |q|, x);
    }
  }

  /** The obsel of a row: the URIs of a collection differ by their last segment only. */
  function RowUri(trace: TraceId, k: Key): Uri {
    Uri(trace, k.id)
  }

  /** Every row names an obsel of the graph. */
  ghost predicate InGraph(trace: TraceId, g: Graph, rows: seq<Key>) {
    forall k <- rows :: RowUri(trace, k) in g.obsels
  }

  /** The query for the last obsel (`reverse=True, limit=1`). */
  function NewestRows(g: Graph, begin: Option<int>): seq<Key> {
    Rows(g, ALL.(begin := begin, reverse := true, limit := Some(1)), (o: Obsel) => true)
  }

  /** The rows made of a set of obsels name exactly those obsels. */
  lemma RowsOfSet(g: Graph, trace: TraceId, m: set<Uri>)
    requires Owned(g, trace) && m <= g.obsels.Keys
    ensures forall k :: k in Sorted(KeysOf(g, m)) <==> RowUri(trace, k) in m && k == KeyAt(g, RowUri(trace, k))
    ensures forall k :: k in Reversed(Sorted(KeysOf(g, m))) <==> k in Sorted(KeysOf(g, m))
  {
    var all := Sorted(KeysOf(g, m));
    forall k | k in all ensures RowUri(trace, k) in m && k == KeyAt(g, RowUri(trace, k)) {
      var u :| u in m && k == KeyAt(g, u);
      assert u == RowUri(trace, k);
    }
    forall i | 0 <= i < |all| ensures Reversed(all)[i] in all && all[i] in Reversed(all) {
      assert Reversed(all)[|all| - 1 - i] == all[i];
    }
  }

  lemma RowsAreMatching(g: Graph, trace: TraceId, q: Query, keep: Obsel -> bool)
    requires Owned(g, trace) && q.limit.None?
    ensures forall k :: k in Rows(g, q, keep) <==>
                        RowUri(trace, k) in Matching(g, q, keep) && k == KeyAt(g, RowUri(trace, k))
  {
    RowsOfSet(g, trace, Matching(g, q, keep));
  }

  lemma LastOfSet(g: Graph, trace: TraceId, m: set<Uri>)
    requires Owned(g, trace) && m <= g.obsels.Keys && m != {}
    ensures var all := Sorted(KeysOf(g, m));
            && all != []
            && var u := RowUri(trace, all[|all| - 1]);
               u in m && forall v <- m :: v != u ==> Less(KeyAt(g, v), KeyAt(g, u))
  {
    RowsOfSet(g, trace, m);
    var all := Sorted(KeysOf(g, m));
    forall v | v in m ensures KeyAt(g, v) in all && RowUri(trace, KeyAt(g, v)) == v {
      assert KeyAt(g, v) in KeysOf(g, m);
    }
    var w :| w in m;
    assert KeyAt(g, w) in all;
    var u := RowUri(trace, all[|all| - 1]);
    assert all[|all| - 1] in all;
    forall v | v in m && v != u ensures Less(KeyAt(g, v), KeyAt(g, u)) {
      var i :| 0 <= i < |all| && all[i] == KeyAt(g, v);
    }
  }

  /** Which obsels a query without limit yields: those that pass the test and lie within the
      bounds; with an anchor, those of them that end on its far side, and, whatever their
      begin, those that end with it and come after or before it. With two anchors, hence,
      whatever ends after the first is accepted, however far beyond the second. */
  lemma RowsExactly(g: Graph, trace: TraceId, q: Query, keep: Obsel -> bool, u: Uri)
    requires Owned(g, trace) && q.limit.None? && AnchorsExist(g, q) && u in g.obsels
    ensures KeyAt(g, u) in Rows(g, q, keep) <==>
              var o := g.obsels[u];
              var within := (q.begin.Some? ==> q.begin.value <= o.begin) && (q.end.Some? ==> o.end <= q.end.value);
              && keep(o)
              && (q.after.None? && q.before.None? ==> within)
              && (q.after.Some? && q.before.None? ==>
                    var a := g.obsels[q.after.value];
                    if o.end == a.end then o.begin > a.begin || (o.begin == a.begin && u.id > q.after.value.id)
                    else within && o.end > a.end)
              && (q.after.None? && q.before.Some? ==>
                    var b := g.obsels[q.before.value];
                    if o.end == b.end then o.begin < b.begin || (o.begin == b.begin && u.id < q.before.value.id)
                    else within && o.end < b.end)
              && (q.after.Some? && q.before.Some? ==>
                    var a, b := g.obsels[q.after.value], g.obsels[q.before.value];
                    || (o.end > a.end && within)
                    || (o.end == a.end && o.begin > a.begin)
                    || (o.end == a.end && o.begin == a.begin && u.id > q.after.value.id && a.end < b.end)
                    || (o.end == b.end && o.begin < b.begin)
                    || (o.end == b.end && o.begin == b.begin && u.id < q.before.value.id))
  {
    hide Rows;
    RowsAreMatching(g, trace, q, keep);
    assert RowUri(trace, KeyAt(g, u)) == u;
  }

  /** `ORDER BY DESC ... LIMIT 1` yields the greatest matching obsel. */
  lemma LastRow(g: Graph, trace: TraceId, q: Query, keep: Obsel -> bool)
    requires Owned(g, trace) && q.reverse && q.limit == Some(1)
    ensures |Rows(g, q, keep)| == if Matching(g, q, keep) == {} then 0 else 1
    ensures Matching(g, q, keep) != {} ==>
              var u := RowUri(trace, Rows(g, q, keep)[0]);
              && u in Matching(g, q, keep)
              && forall v <- Matching(g, q, keep) :: v != u ==> Less(KeyAt(g, v), KeyAt(g, u))
  {
    hide Accepts, Less;
    var m := Matching(g, q, keep);
    var all := Sorted(KeysOf(g, m));
    if m != {} {
      LastOfSet(g, trace, m);
      assert Rows(g, q, keep)[0] == all[|all| - 1];
    } else {
      assert KeysOf(g, m) == {};
    }
  }
}
