/**
 The data model of an obsel collection, and the (end, begin, uri) order in which
 every part of kTBS lists obsels.
 */
module Obsels {

  datatype Option<+T> = None | Some(value: T)

  /** A trace URI, represented by a number. */
  type TraceId = int

  /** The URI of a predicate or of an obsel type, represented by a number. */
  type Name = int

  /** A node of the form `<trace>id`. The last segment is represented by its rank
      in the order of strings; module Uris shows on strings why this loses nothing. */
  datatype Uri = Uri(trace: TraceId, id: int)

  datatype Attr = Attr(name: Name, value: int)

  datatype Obsel = Obsel(begin: int, end: int, types: set<Name>, attrs: set<Attr>, source: Option<Uri>)

  /** A triple whose two ends are nodes: a relation between obsels, or between an
      obsel and a foreign resource. */
  datatype Rel = Rel(s: Uri, p: Name, o: Uri)

  datatype Graph = Graph(obsels: map<Uri, Obsel>, rels: set<Rel>)

  const EMPTY := Graph(map[], {})

  predicate Touches(r: Rel, u: Uri) {
    r.s == u || r.o == u
  }

  /** Every obsel of a collection has a URI directly below the URI of its trace. */
  predicate Owned(g: Graph, trace: TraceId) {
    forall u <- g.obsels :: u.trace == trace
  }

  /* ---------- the order of obsels ---------- */

  datatype Key = Key(end: int, begin: int, id: int)

  predicate Less(a: Key, b: Key) {
    || a.end < b.end
    || (a.end == b.end && a.begin < b.begin)
    || (a.end == b.end && a.begin == b.begin && a.id < b.id)
  }

  function KeyOf(u: Uri, o: Obsel): Key {
    Key(o.end, o.begin, u.id)
  }

  function KeyAt(g: Graph, u: Uri): Key
    requires u in g.obsels
  {
    KeyOf(u, g.obsels[u])
  }

  function Keys(g: Graph): set<Key> {
    set u | u in g.obsels :: KeyAt(g, u)
  }

  /** `last` is the greatest obsel of `g`, or None when there is no obsel. */
  predicate IsLast(g: Graph, last: Option<Uri>) {
    match last
    case None => g.obsels == map[]
    case Some(l) => l in g.obsels && forall v <- g.obsels :: v != l ==> Less(KeyAt(g, v), KeyAt(g, l))
  }

  predicate Ordered(q: seq<Key>) {
    forall i, j :: 0 <= i < j < |q| ==> Less(q[i], q[j])
  }

  ghost predicate Lists(q: seq<Key>, s: set<Key>) {
    Ordered(q) && forall k :: k in q <==> k in s
  }

  predicate IsLeast(s: set<Key>, k: Key) {
    k in s && forall j <- s :: j == k || Less(k, j)
  }

  lemma {:induction false} LeastWitness(s: set<Key>) returns (k: Key)
    requires s != {}
    ensures IsLeast(s, k)
  {
    k :| k in s;
    if s != {k} {
      var m := LeastWitness(s - {k});
      assert forall j <- s :: j == k || j in s - {k};
      if Less(m, k) { k := m; }
    }
  }

  function Least(s: set<Key>): (k: Key)
    requires s != {}
    ensures IsLeast(s, k)
  {
    assert exists k :: IsLeast(s, k) by { var k := LeastWitness(s); }
    var k :| k in s && IsLeast(s, k);
    k
  }

  /** The obsels of a set, listed in order. */
  function Sorted(s: set<Key>): (q: seq<Key>)
    ensures Lists(q, s)
    ensures |q| == |s|
    decreases |s|
  {
    if s == {} then [] else
      var k := Least(s);
      assert s == (s - {k}) + {k};
      [k] + Sorted(s - {k})
  }

  lemma HeadIsLeast(q: seq<Key>, s: set<Key>)
    requires Lists(q, s) && q != []
    ensures s != {} && Least(s) == q[0]
  {
    assert q[0] in s;
    var i :| 0 <= i < |q| && q[i] == Least(s);
    assert i != 0 ==> Less(q[0], q[i]);
  }

  lemma TailLists(q: seq<Key>, s: set<Key>)
    requires Lists(q, s) && q != []
    ensures Lists(q[1..], s - {q[0]})
  {
  }

  lemma EmptyLists(s: set<Key>)
    requires Lists([], s)
    ensures s == {}
  {
  }

  /** An ordered listing of a set is unique. */
  lemma {:induction false} SortedUnique(q: seq<Key>, s: set<Key>)
    requires Lists(q, s)
    ensures q == Sorted(s)
    decreases |q|
  {
    hide Less, Least, Lists;
    if q == [] {
      EmptyLists(s);
    } else {
      HeadIsLeast(q, s);
      TailLists(q, s);
      SortedUnique(q[1..], s - {q[0]});
      assert q == [q[0]] + q[1..];
    }
  }

  /** When every element of `a` comes before every element of `b`, listing `a` is a
      prefix of listing both. */
  lemma SortedSplit(a: set<Key>, b: set<Key>)
    requires forall i, j :: i in a && j in b ==> Less(i, j)
    ensures Sorted(a + b) == Sorted(a) + Sorted(b)
  {
    hide Less, Sorted;
    var q := Sorted(a) + Sorted(b);
    forall i, j | 0 <= i < j < |q| ensures Less(q[i], q[j]) {
      if i < |Sorted(a)| <= j {
        assert q[i] in Sorted(a) && q[j] in Sorted(b);
      }
    }
    assert forall k :: k in q <==> k in Sorted(a) || k in Sorted(b);
    SortedUnique(q, a + b);
  }

  /** What a listing starts with comes before the rest of it. */
  lemma FirstBeforeRest(q: seq<Key>, n: nat, i: Key, j: Key)
    requires Ordered(q) && n <= |q| && i in q[..n] && j in q && j !in q[..n]
    ensures Less(i, j)
  {
  }
}
