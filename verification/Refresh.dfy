/**
 Refreshing computed traces over the graph of traces: dirty marks on descriptions and on
 obsel collections, recursion to the sources, and guards against re-entrance. What a
 method computes is abstracted by a function of the description of the trace and of the
 contents of its sources; modules HRules and Filter justify this for their methods.
 */
module Refresh {
  import opened Obsels
  import opened Sets

  type Node = int

  /** Which traces are computed and from what; other nodes are stored traces. `rank`
      serves only to say that the sources are not cyclic. */
  datatype Net<!D, !C> = Net(nodes: set<Node>, sources: map<Node, seq<Node>>, rank: map<Node, nat>,
                             describe: (Node, int, seq<D>) -> D,
                             compute: (Node, D, seq<C>) -> Option<C>)

  datatype State<D, C> = State(param: map<Node, int>, desc: map<Node, D>, content: map<Node, C>,
                               dirtyD: set<Node>, dirtyO: set<Node>,
                               forcingD: set<Node>, forcingO: set<Node>)

  predicate Known<D, C>(net: Net<D, C>, q: seq<Node>) {
    forall i :: 0 <= i < |q| ==> q[i] in net.nodes
  }

  ghost predicate Shape<D, C>(net: Net<D, C>, s: State<D, C>) {
    && net.sources.Keys <= net.nodes
    && (forall n <- net.sources :: Known(net, net.sources[n]))
    && s.param.Keys == net.sources.Keys && s.desc.Keys == net.nodes && s.content.Keys == net.nodes
    && s.dirtyD <= net.sources.Keys && s.dirtyO <= net.sources.Keys
    && s.forcingD <= net.nodes && s.forcingO <= net.nodes
  }

  function Consumers<D, C>(net: Net<D, C>, n: Node): set<Node> {
    set x | x in net.sources && n in net.sources[x]
  }

  /** The descriptions, or the contents, of some nodes. */
  function Lookup<V>(m: map<Node, V>, q: seq<Node>): seq<V>
    requires forall i :: 0 <= i < |q| ==> q[i] in m
  {
    if q == [] then [] else [m[q[0]]] + Lookup(m, q[1..])
  }

  lemma {:induction false} SameLookup<V>(m: map<Node, V>, m': map<Node, V>, q: seq<Node>)
    requires forall i :: 0 <= i < |q| ==> q[i] in m && q[i] in m' && m[q[i]] == m'[q[i]]
    ensures Lookup(m, q) == Lookup(m', q)
    decreases |q|
  {
    if q != [] {
      SameLookup(m, m', q[1..]);
    }
  }

  /* ---------- the operations ---------- */

  /** _mark_dirty(), and _mark_dirty(False, True) */
  function MarkBoth<D, C>(s: State<D, C>, ns: set<Node>): State<D, C> {
    s.(dirtyD := s.dirtyD + ns, dirtyO := s.dirtyO + ns)
  }

  function MarkObsels<D, C>(s: State<D, C>, ns: set<Node>): State<D, C> {
    s.(dirtyO := s.dirtyO + ns)
  }

  /** Neither contents, nor stored descriptions, nor parameters, nor guards change, and
      the obsels' marks only grow. */
  ghost predicate DescOnly<D, C>(net: Net<D, C>, s: State<D, C>, s': State<D, C>)
    requires Shape(net, s)
  {
    && Shape(net, s')
    && s'.param == s.param && s'.content == s.content
    && s'.forcingD == s.forcingD && s'.forcingO == s.forcingO
    && s.dirtyO <= s'.dirtyO
    && (forall n <- net.nodes :: n !in net.sources ==> s'.desc[n] == s.desc[n])
  }

  /** ComputedTrace.force_state_refresh. It ends on any net, cyclic or not, because the set
      of nodes that are not refreshing shrinks. */
  ghost function RefreshDesc<D, C>(net: Net<D, C>, s: State<D, C>, n: Node): (r: State<D, C>)
    requires Shape(net, s) && n in net.nodes
    ensures DescOnly(net, s, r)
    decreases |net.nodes - s.forcingD|, 1, 0
  {
    if n !in net.sources || n in s.forcingD then s else
      SmallerWithout(net.nodes, s.forcingD, n);
      var s1 := RefreshDescs(net, s.(forcingD := s.forcingD + {n}), net.sources[n]);
      var s2 := if n in s1.dirtyD then RecomputeDesc(net, s1, n) else s1;
      s2.(forcingD := s2.forcingD - {n})
  }

  ghost function RefreshDescs<D, C>(net: Net<D, C>, s: State<D, C>, q: seq<Node>): (r: State<D, C>)
    requires Shape(net, s) && Known(net, q)
    ensures DescOnly(net, s, r)
    decreases |net.nodes - s.forcingD|, 2, |q|
  {
    if q == [] then s else RefreshDescs(net, RefreshDesc(net, s, q[0]), q[1..])
  }

  /** The mark is removed first; the edit of the description marks the consumers. */
  ghost function RecomputeDesc<D, C>(net: Net<D, C>, s: State<D, C>, n: Node): (r: State<D, C>)
    requires Shape(net, s) && n in net.sources
    ensures DescOnly(net, s, r)
  {
    var d := net.describe(n, s.param[n], Lookup(s.desc, net.sources[n]));
    MarkBoth(s.(dirtyD := s.dirtyD - {n}, desc := s.desc[n := d]), Consumers(net, n))
  }

  /** Stored contents and descriptions, and parameters, stay. */
  ghost predicate StoredSame<D, C>(net: Net<D, C>, s: State<D, C>, s': State<D, C>)
    requires Shape(net, s)
  {
    && Shape(net, s')
    && s'.param == s.param
    && (forall n <- net.nodes :: n !in net.sources ==> s'.desc[n] == s.desc[n] && s'.content[n] == s.content[n])
  }

  /** So do the guards. */
  ghost predicate StoredKept<D, C>(net: Net<D, C>, s: State<D, C>, s': State<D, C>)
    requires Shape(net, s)
  {
    StoredSame(net, s, s') && s'.forcingD == s.forcingD && s'.forcingO == s.forcingO
  }

  /** ComputedTraceObsels.force_state_refresh; false when a method fails. */
  ghost function RefreshObsels<D, C>(net: Net<D, C>, s: State<D, C>, n: Node): (r: (State<D, C>, bool))
    requires Shape(net, s) && n in net.nodes
    ensures StoredKept(net, s, r.0)
    decreases |net.nodes - s.forcingO|, 1, 0
  {
    if n !in net.sources || n in s.forcingO then (s, true) else
      SmallerWithout(net.nodes, s.forcingO, n);
      var (s1, ok1) := RefreshAllObsels(net, s.(forcingO := s.forcingO + {n}), net.sources[n]);
      var (s2, ok2) := if ok1 && n in s1.dirtyO then RecomputeObsels(net, s1, n) else (s1, ok1);
      (s2.(forcingO := s2.forcingO - {n}), ok2)
  }

  ghost function RefreshAllObsels<D, C>(net: Net<D, C>, s: State<D, C>, q: seq<Node>): (r: (State<D, C>, bool))
    requires Shape(net, s) && Known(net, q)
    ensures StoredKept(net, s, r.0)
    decreases |net.nodes - s.forcingO|, 2, |q|
  {
    if q == [] then (s, true) else
      var (s1, ok) := RefreshObsels(net, s, q[0]);
      if ok then RefreshAllObsels(net, s1, q[1..]) else (s1, false)
  }

  /** The mark is removed first; then the description is refreshed and the obsels are
      computed. The edit of the collection marks the consumers; a failure restores the mark. */
  ghost function RecomputeObsels<D, C>(net: Net<D, C>, s: State<D, C>, n: Node): (r: (State<D, C>, bool))
    requires Shape(net, s) && n in net.sources
    ensures StoredKept(net, s, r.0)
  {
    var s1 := RefreshDesc(net, s.(dirtyO := s.dirtyO - {n}), n);
    match net.compute(n, s1.desc[n], Lookup(s1.content, net.sources[n]))
    case None => (MarkObsels(s1, {n}), false)
    case Some(c) => (MarkObsels(s1.(content := s1.content[n := c]), Consumers(net, n)), true)
  }

  lemma SmallerWithout(nodes: set<Node>, forcing: set<Node>, n: Node)
    requires n in nodes && n !in forcing
    ensures |nodes - (forcing + {n})| < |nodes - forcing|
  {
    SmallerSet(nodes - (forcing + {n}), nodes - forcing);
  }

  /* ---------- the invariant ---------- */

  ghost predicate DescUpToDate<D, C>(net: Net<D, C>, s: State<D, C>, n: Node)
    requires Shape(net, s) && n in net.sources
  {
    s.desc[n] == net.describe(n, s.param[n], Lookup(s.desc, net.sources[n]))
  }

  ghost predicate ObselsUpToDate<D, C>(net: Net<D, C>, s: State<D, C>, n: Node)
    requires Shape(net, s) && n in net.sources
  {
    net.compute(n, s.desc[n], Lookup(s.content, net.sources[n])) == Some(s.content[n])
  }

  /** A clean description or collection is what its method makes of the sources, and a
      dirty description implies a dirty collection. `hole` is a node whose collection is
      being recomputed. */
  ghost predicate InvBut<D, C>(net: Net<D, C>, s: State<D, C>, hole: set<Node>) {
    && Shape(net, s)
    && (forall n <- net.sources :: n !in s.dirtyD ==> DescUpToDate(net, s, n))
    && (forall n <- net.sources :: n !in s.dirtyO && n !in hole ==> n !in s.dirtyD && ObselsUpToDate(net, s, n))
  }

  ghost predicate Inv<D, C>(net: Net<D, C>, s: State<D, C>) {
    InvBut(net, s, {})
  }

  lemma RecomputeDescKeeps<D, C>(net: Net<D, C>, s: State<D, C>, n: Node, hole: set<Node>)
    requires InvBut(net, s, hole) && n in net.sources && n in s.dirtyD
    ensures InvBut(net, RecomputeDesc(net, s, n), hole)
  {
    var s' := RecomputeDesc(net, s, n);
    forall x | x in net.sources && x !in s'.dirtyD ensures DescUpToDate(net, s', x) {
      if n !in net.sources[x] {
        SameLookup(s.desc, s'.desc, net.sources[x]);
      }
    }
    forall x | x in net.sources && x !in s'.dirtyO && x !in hole ensures x !in s'.dirtyD && ObselsUpToDate(net, s', x) {
      SameLookup(s.content, s'.content, net.sources[x]);
    }
  }

  lemma {:induction false} RefreshDescKeeps<D, C>(net: Net<D, C>, s: State<D, C>, n: Node, hole: set<Node>)
    requires InvBut(net, s, hole) && n in net.nodes
    ensures InvBut(net, RefreshDesc(net, s, n), hole)
    decreases |net.nodes - s.forcingD|, 1, 0
  {
    if n in net.sources && n !in s.forcingD {
      SmallerWithout(net.nodes, s.forcingD, n);
      var s0 := s.(forcingD := s.forcingD + {n});
      GuardsDoNotMatter(net, s, s0, hole);
      RefreshDescsKeep(net, s0, net.sources[n], hole);
      var s1 := RefreshDescs(net, s0, net.sources[n]);
      if n in s1.dirtyD { RecomputeDescKeeps(net, s1, n, hole); }
      var s2 := if n in s1.dirtyD then RecomputeDesc(net, s1, n) else s1;
      GuardsDoNotMatter(net, s2, s2.(forcingD := s2.forcingD - {n}), hole);
    }
  }

  lemma {:induction false} RefreshDescsKeep<D, C>(net: Net<D, C>, s: State<D, C>, q: seq<Node>, hole: set<Node>)
    requires InvBut(net, s, hole) && Known(net, q)
    ensures InvBut(net, RefreshDescs(net, s, q), hole)
    decreases |net.nodes - s.forcingD|, 2, |q|
  {
    if q != [] {
      RefreshDescKeeps(net, s, q[0], hole);
      RefreshDescsKeep(net, RefreshDesc(net, s, q[0]), q[1..], hole);
    }
  }

  /** The guards play no part in the invariant. */
  lemma GuardsDoNotMatter<D, C>(net: Net<D, C>, s: State<D, C>, s': State<D, C>, hole: set<Node>)
    requires InvBut(net, s, hole) && Shape(net, s')
    requires s' == s.(forcingD := s'.forcingD, forcingO := s'.forcingO)
    ensures InvBut(net, s', hole)
  {
  }

  lemma RecomputeObselsKeeps<D, C>(net: Net<D, C>, s: State<D, C>, n: Node)
    requires Inv(net, s) && n in net.sources && n in s.dirtyO && s.forcingD == {}
    ensures Inv(net, RecomputeObsels(net, s, n).0)
  {
    var s0 := s.(dirtyO := s.dirtyO - {n});
    OpenHole(net, s, n);
    RefreshDescKeeps(net, s0, n, {n});
    var s1 := RefreshDesc(net, s0, n);
    RefreshedDescIsClean(net, s0, n);
    if net.compute(n, s1.desc[n], Lookup(s1.content, net.sources[n])).Some? {
      FillHole(net, s1, n);
    } else {
      KeepMark(net, s1, n);
    }
  }

  lemma OpenHole<D, C>(net: Net<D, C>, s: State<D, C>, n: Node)
    requires Inv(net, s) && n in net.sources
    ensures InvBut(net, s.(dirtyO := s.dirtyO - {n}), {n})
  {
  }

  /** Whether or not the net is cyclic, a description that was refreshed is clean, unless
      the trace is its own source, and then its collection is marked as well. */
  lemma RefreshedDescIsClean<D, C>(net: Net<D, C>, s: State<D, C>, n: Node)
    requires Shape(net, s) && n in net.sources && n !in s.forcingD
    ensures n in RefreshDesc(net, s, n).dirtyD ==> n in RefreshDesc(net, s, n).dirtyO
  {
  }

  lemma KeepMark<D, C>(net: Net<D, C>, s: State<D, C>, n: Node)
    requires InvBut(net, s, {n}) && n in net.sources
    ensures Inv(net, MarkObsels(s, {n}))
  {
  }

  lemma FillHole<D, C>(net: Net<D, C>, s: State<D, C>, n: Node)
    requires InvBut(net, s, {n}) && n in net.sources && (n in s.dirtyD ==> n in s.dirtyO)
    requires net.compute(n, s.desc[n], Lookup(s.content, net.sources[n])).Some?
    ensures var c := net.compute(n, s.desc[n], Lookup(s.content, net.sources[n])).value;
            Inv(net, MarkObsels(s.(content := s.content[n := c]), Consumers(net, n)))
  {
    var c := net.compute(n, s.desc[n], Lookup(s.content, net.sources[n])).value;
    var s' := MarkObsels(s.(content := s.content[n := c]), Consumers(net, n));
    forall x | x in net.sources ensures DescUpToDate(net, s', x) == DescUpToDate(net, s, x) {
      SameLookup(s.desc, s'.desc, net.sources[x]);
    }
    forall x | x in net.sources && x !in s'.dirtyO ensures x !in s'.dirtyD && ObselsUpToDate(net, s', x) {
      SameLookup(s.content, s'.content, net.sources[x]);
    }
  }

  lemma {:induction false} RefreshObselsKeeps<D, C>(net: Net<D, C>, s: State<D, C>, n: Node)
    requires Inv(net, s) && n in net.nodes && s.forcingD == {}
    ensures Inv(net, RefreshObsels(net, s, n).0)
    decreases |net.nodes - s.forcingO|, 1, 0
  {
    if n in net.sources && n !in s.forcingO {
      SmallerWithout(net.nodes, s.forcingO, n);
      var s0 := s.(forcingO := s.forcingO + {n});
      GuardsDoNotMatter(net, s, s0, {});
      RefreshAllObselsKeep(net, s0, net.sources[n]);
      var (s1, ok1) := RefreshAllObsels(net, s0, net.sources[n]);
      if ok1 && n in s1.dirtyO { RecomputeObselsKeeps(net, s1, n); }
      var s2 := if ok1 && n in s1.dirtyO then RecomputeObsels(net, s1, n).0 else s1;
      GuardsDoNotMatter(net, s2, s2.(forcingO := s2.forcingO - {n}), {});
    }
  }

  lemma {:induction false} RefreshAllObselsKeep<D, C>(net: Net<D, C>, s: State<D, C>, q: seq<Node>)
    requires Inv(net, s) && Known(net, q) && s.forcingD == {}
    ensures Inv(net, RefreshAllObsels(net, s, q).0)
    decreases |net.nodes - s.forcingO|, 2, |q|
  {
    if q != [] {
      RefreshObselsKeeps(net, s, q[0]);
      var (s1, ok) := RefreshObsels(net, s, q[0]);
      if ok { RefreshAllObselsKeep(net, s1, q[1..]); }
    }
  }

  /* ---------- acyclic nets ---------- */

  ghost predicate Acyclic<D, C>(net: Net<D, C>) {
    && net.nodes <= net.rank.Keys && net.sources.Keys <= net.nodes
    && forall n, i | n in net.sources && 0 <= i < |net.sources[n]| ::
         net.sources[n][i] in net.nodes && net.rank[net.sources[n][i]] < net.rank[n]
  }

  /** A node and all its ancestors. */
  ghost function Up<D, C>(net: Net<D, C>, n: Node): (r: set<Node>)
    requires Acyclic(net) && n in net.nodes
    ensures n in r && r <= net.nodes
    decreases net.rank[n], 1, 0
  {
    {n} + if n in net.sources then UpAll(net, net.sources[n], net.rank[n]) else {}
  }

  ghost predicate Below<D, C>(net: Net<D, C>, q: seq<Node>, k: nat)
    requires Acyclic(net)
  {
    forall i :: 0 <= i < |q| ==> q[i] in net.nodes && net.rank[q[i]] < k
  }

  ghost function UpAll<D, C>(net: Net<D, C>, q: seq<Node>, k: nat): (r: set<Node>)
    requires Acyclic(net) && Below(net, q, k)
    ensures r <= net.nodes
    decreases k, 0, |q|
  {
    if q == [] then {} else Up(net, q[0]) + UpAll(net, q[1..], k)
  }

  lemma {:induction false} UpAllIs<D, C>(net: Net<D, C>, q: seq<Node>, k: nat, m: Node)
    requires Acyclic(net) && Below(net, q, k)
    ensures m in UpAll(net, q, k) <==> exists i :: 0 <= i < |q| && m in Up(net, q[i])
    decreases |q|
  {
    if q != [] {
      UpAllIs(net, q[1..], k, m);
      if i :| 0 <= i < |q| && m in Up(net, q[i]) {
        assert i > 0 ==> q[1..][i - 1] == q[i];
      }
    }
  }

  /** The ancestors of a computed trace are those of its sources. */
  lemma UpIs<D, C>(net: Net<D, C>, n: Node, m: Node)
    requires Acyclic(net) && n in net.sources
    ensures m in Up(net, n) <==> m == n || exists i :: 0 <= i < |net.sources[n]| && m in Up(net, net.sources[n][i])
  {
    UpAllIs(net, net.sources[n], net.rank[n], m);
  }

  lemma {:induction false} UpTrans<D, C>(net: Net<D, C>, n: Node, m: Node)
    requires Acyclic(net) && n in net.nodes && m in Up(net, n)
    ensures Up(net, m) <= Up(net, n)
    ensures m != n ==> net.rank[m] < net.rank[n]
    decreases net.rank[n]
  {
    if m != n {
      assert n in net.sources;
      UpIs(net, n, m);
      var i :| 0 <= i < |net.sources[n]| && m in Up(net, net.sources[n][i]);
      UpTrans(net, net.sources[n][i], m);
      forall x | x in Up(net, m) ensures x in Up(net, n) {
        UpIs(net, n, x);
      }
    }
  }

  lemma ConsumerIsBelow<D, C>(net: Net<D, C>, n: Node, x: Node)
    requires Acyclic(net) && x in Consumers(net, n)
    ensures n in net.nodes && n in Up(net, x) && x !in Up(net, n)
  {
    var i :| 0 <= i < |net.sources[x]| && net.sources[x][i] == n;
    UpIs(net, x, n);
    if x in Up(net, n) {
      UpTrans(net, n, x);
    }
  }

  /** The node and all its ancestors are clean. */
  ghost predicate Settled<D, C>(net: Net<D, C>, s: State<D, C>, n: Node)
    requires Acyclic(net) && n in net.nodes
  {
    forall m <- Up(net, n) :: m !in s.dirtyO && m !in s.dirtyD
  }

  /** What was settled stays settled, and stays as it was. */
  ghost predicate SettledKept<D, C>(net: Net<D, C>, s: State<D, C>, s': State<D, C>)
    requires Acyclic(net) && Shape(net, s) && Shape(net, s')
  {
    forall x <- net.nodes :: Settled(net, s, x) ==>
      Settled(net, s', x) && s'.desc[x] == s.desc[x] && s'.content[x] == s.content[x]
  }

  /* ---------- the value a trace should have ---------- */

  ghost function DescValue<D, C>(net: Net<D, C>, s: State<D, C>, n: Node): D
    requires Acyclic(net) && Shape(net, s) && n in net.nodes
    decreases net.rank[n], 1, 0
  {
    if n in net.sources then net.describe(n, s.param[n], DescValues(net, s, net.sources[n], net.rank[n])) else s.desc[n]
  }

  ghost function DescValues<D, C>(net: Net<D, C>, s: State<D, C>, q: seq<Node>, k: nat): seq<D>
    requires Acyclic(net) && Shape(net, s) && Below(net, q, k)
    decreases k, 0, |q|
  {
    if q == [] then [] else [DescValue(net, s, q[0])] + DescValues(net, s, q[1..], k)
  }

  /** The composition of all methods from the stored traces on; None if one of them fails. */
  ghost function Value<D, C>(net: Net<D, C>, s: State<D, C>, n: Node): Option<C>
    requires Acyclic(net) && Shape(net, s) && n in net.nodes
    decreases net.rank[n], 1, 0
  {
    if n !in net.sources then Some(s.content[n]) else
      match Values(net, s, net.sources[n], net.rank[n])
      case None => None
      case Some(vs) => net.compute(n, DescValue(net, s, n), vs)
  }

  ghost function Values<D, C>(net: Net<D, C>, s: State<D, C>, q: seq<Node>, k: nat): Option<seq<C>>
    requires Acyclic(net) && Shape(net, s) && Below(net, q, k)
    decreases k, 0, |q|
  {
    if q == [] then Some([]) else
      match (Value(net, s, q[0]), Values(net, s, q[1..], k))
      case (Some(v), Some(vs)) => Some([v] + vs)
      case _ => None
  }

  /** A clean trace with clean ancestors holds its value. */
  lemma {:induction false} SettledHasValue<D, C>(net: Net<D, C>, s: State<D, C>, n: Node)
    requires Acyclic(net) && Inv(net, s) && n in net.nodes && Settled(net, s, n)
    ensures s.desc[n] == DescValue(net, s, n) && Value(net, s, n) == Some(s.content[n])
    decreases net.rank[n], 1, 0
  {
    if n in net.sources {
      forall i | 0 <= i < |net.sources[n]| ensures Settled(net, s, net.sources[n][i]) {
        SourceSettled(net, s, n, i);
      }
      SettledHaveValues(net, s, net.sources[n], net.rank[n]);
      assert n in Up(net, n);
    }
  }

  lemma SourceSettled<D, C>(net: Net<D, C>, s: State<D, C>, n: Node, i: nat)
    requires Acyclic(net) && n in net.sources && Settled(net, s, n) && i < |net.sources[n]|
    ensures Settled(net, s, net.sources[n][i])
  {
    UpIs(net, n, net.sources[n][i]);
    UpTrans(net, n, net.sources[n][i]);
  }

  lemma {:induction false} SettledHaveValues<D, C>(net: Net<D, C>, s: State<D, C>, q: seq<Node>, k: nat)
    requires Acyclic(net) && Inv(net, s) && Below(net, q, k)
    requires forall i :: 0 <= i < |q| ==> Settled(net, s, q[i])
    ensures Lookup(s.desc, q) == DescValues(net, s, q, k) && Values(net, s, q, k) == Some(Lookup(s.content, q))
    decreases k, 0, |q|
  {
    if q != [] {
      SettledHasValue(net, s, q[0]);
      SettledHaveValues(net, s, q[1..], k);
    }
  }

  /** Refreshing does not change the value a trace should have. */
  lemma {:induction false} ValueKept<D, C>(net: Net<D, C>, s: State<D, C>, s': State<D, C>, n: Node)
    requires Acyclic(net) && Shape(net, s) && StoredSame(net, s, s') && n in net.nodes
    ensures DescValue(net, s', n) == DescValue(net, s, n) && Value(net, s', n) == Value(net, s, n)
    decreases net.rank[n], 1, 0
  {
    if n in net.sources { ValuesKept(net, s, s', net.sources[n], net.rank[n]); }
  }

  lemma {:induction false} ValuesKept<D, C>(net: Net<D, C>, s: State<D, C>, s': State<D, C>, q: seq<Node>, k: nat)
    requires Acyclic(net) && Shape(net, s) && StoredSame(net, s, s') && Below(net, q, k)
    ensures DescValues(net, s', q, k) == DescValues(net, s, q, k) && Values(net, s', q, k) == Values(net, s, q, k)
    decreases k, 0, |q|
  {
    if q != [] {
      ValueKept(net, s, s', q[0]);
      ValuesKept(net, s, s', q[1..], k);
    }
  }

  /* ---------- a default refresh settles a trace ---------- */

  /** Refreshing a description does nothing when it and those of all ancestors are clean. */
  lemma {:induction false} RefreshDescIdle<D, C>(net: Net<D, C>, s: State<D, C>, n: Node)
    requires Acyclic(net) && Shape(net, s) && n in net.nodes
    requires forall m <- Up(net, n) :: m !in s.dirtyD
    ensures RefreshDesc(net, s, n) == s
    decreases net.rank[n], 1, 0
  {
    if n in net.sources && n !in s.forcingD {
      var s0 := s.(forcingD := s.forcingD + {n});
      forall i | 0 <= i < |net.sources[n]| ensures forall m <- Up(net, net.sources[n][i]) :: m !in s0.dirtyD {
        forall m | m in Up(net, net.sources[n][i]) ensures m in Up(net, n) { UpIs(net, n, m); }
      }
      RefreshDescsIdle(net, s0, net.sources[n], net.rank[n]);
      assert s0.forcingD - {n} == s.forcingD;
    }
  }

  lemma {:induction false} RefreshDescsIdle<D, C>(net: Net<D, C>, s: State<D, C>, q: seq<Node>, k: nat)
    requires Acyclic(net) && Shape(net, s) && Below(net, q, k)
    requires forall i :: 0 <= i < |q| ==> forall m <- Up(net, q[i]) :: m !in s.dirtyD
    ensures RefreshDescs(net, s, q) == s
    decreases k, 0, |q|
  {
    if q != [] {
      RefreshDescIdle(net, s, q[0]);
      RefreshDescsIdle(net, s, q[1..], k);
    }
  }

  /** With clean ancestors, only the description of the node itself is recomputed. */
  lemma RefreshDescLocal<D, C>(net: Net<D, C>, s: State<D, C>, n: Node)
    requires Acyclic(net) && Shape(net, s) && n in net.sources && n !in s.forcingD
    requires forall m <- Up(net, n) :: m != n ==> m !in s.dirtyD
    ensures RefreshDesc(net, s, n) == if n in s.dirtyD then RecomputeDesc(net, s, n) else s
  {
    var s0 := s.(forcingD := s.forcingD + {n});
    forall i | 0 <= i < |net.sources[n]| ensures forall m <- Up(net, net.sources[n][i]) :: m !in s0.dirtyD {
      forall m | m in Up(net, net.sources[n][i]) ensures m in Up(net, n) && m != n {
        UpIs(net, n, m);
        UpTrans(net, net.sources[n][i], m);
      }
    }
    RefreshDescsIdle(net, s0, net.sources[n], net.rank[n]);
    assert s0.forcingD - {n} == s.forcingD;
  }

  /** What a recomputation changes: the node, and the marks of its consumers. */
  ghost predicate ChangesOnly<D, C>(net: Net<D, C>, s: State<D, C>, s': State<D, C>, n: Node)
    requires Shape(net, s) && Shape(net, s')
  {
    && (forall x <- net.nodes :: x != n ==> s'.desc[x] == s.desc[x] && s'.content[x] == s.content[x])
    && (forall x :: x in s'.dirtyO && x !in s.dirtyO ==> x in Consumers(net, n))
    && (forall x :: x in s'.dirtyD && x !in s.dirtyD ==> x in Consumers(net, n))
  }

  lemma RecomputeIsLocal<D, C>(net: Net<D, C>, s: State<D, C>, n: Node)
    requires Acyclic(net) && Inv(net, s) && n in net.sources && n in s.dirtyO && s.forcingD == {}
    requires forall m <- Up(net, n) :: m != n ==> m !in s.dirtyD && m !in s.dirtyO
    ensures var (s', ok) := RecomputeObsels(net, s, n);
            && ChangesOnly(net, s, s', n)
            && (ok ==> Settled(net, s', n))
            && (ok <==> net.compute(n, net.describe(n, s.param[n], Lookup(s.desc, net.sources[n])),
                                    Lookup(s.content, net.sources[n])).Some?)
  {
    var s0 := s.(dirtyO := s.dirtyO - {n});
    RefreshDescLocal(net, s0, n);
    forall x | x in Consumers(net, n) ensures x !in Up(net, n) {
      ConsumerIsBelow(net, n, x);
    }
    assert n in Up(net, n);
    if n !in s.dirtyD { assert DescUpToDate(net, s, n); }
  }

  /** A change at a node that is not settled leaves settled nodes alone. */
  lemma LocalChangeKeepsSettled<D, C>(net: Net<D, C>, s: State<D, C>, s': State<D, C>, n: Node)
    requires Acyclic(net) && Shape(net, s) && Shape(net, s') && n in s.dirtyO && n in net.nodes
    requires ChangesOnly(net, s, s', n)
    ensures SettledKept(net, s, s')
  {
    forall x | x in net.nodes && Settled(net, s, x)
      ensures Settled(net, s', x) && s'.desc[x] == s.desc[x] && s'.content[x] == s.content[x]
    {
      forall m | m in Up(net, x) ensures m !in Consumers(net, n) {
        if m in Consumers(net, n) {
          ConsumerIsBelow(net, n, m);
          UpTrans(net, x, m);
        }
      }
      assert x in Up(net, x);
    }
  }

  /** A default refresh of a trace, with no ancestor being refreshed: it succeeds exactly
      when the trace has a value, and then leaves the trace and all its ancestors clean.
      What was settled before is left as it was. */
  lemma {:induction false} RefreshSettles<D, C>(net: Net<D, C>, s: State<D, C>, n: Node)
    requires Acyclic(net) && Inv(net, s) && n in net.nodes && s.forcingD == {} && s.forcingO !! Up(net, n)
    ensures var (s', ok) := RefreshObsels(net, s, n);
            && SettledKept(net, s, s')
            && (ok ==> Settled(net, s', n))
            && (ok <==> Value(net, s, n).Some?)
    decreases net.rank[n], 1, 0
  {
    if n in net.sources {
      var s0 := s.(forcingO := s.forcingO + {n});
      GuardsDoNotMatter(net, s, s0, {});
      SourcesNotForcing(net, s0, n, s.forcingO);
      RefreshAllSettles(net, s0, net.sources[n], net.rank[n]);
      RefreshAllObselsKeep(net, s0, net.sources[n]);
      var (s1, ok1) := RefreshAllObsels(net, s0, net.sources[n]);
      ValueKept(net, s, s0, n);
      ValueKept(net, s0, s1, n);
      ValuesKept(net, s0, s1, net.sources[n], net.rank[n]);
      if ok1 { RefreshSettlesNode(net, s1, n); }
    }
  }

  /** The last part of a refresh, once the sources are settled. */
  lemma RefreshSettlesNode<D, C>(net: Net<D, C>, s: State<D, C>, n: Node)
    requires Acyclic(net) && Inv(net, s) && n in net.sources && s.forcingD == {}
    requires forall i :: 0 <= i < |net.sources[n]| ==> Settled(net, s, net.sources[n][i])
    ensures n !in s.dirtyO ==> Settled(net, s, n) && Value(net, s, n).Some?
    ensures n in s.dirtyO ==>
              var (s', ok) := RecomputeObsels(net, s, n);
              SettledKept(net, s, s') && (ok ==> Settled(net, s', n)) && (ok <==> Value(net, s, n).Some?)
  {
    forall m | m in Up(net, n) && m != n ensures m !in s.dirtyO && m !in s.dirtyD {
      UpIs(net, n, m);
    }
    SettledHaveValues(net, s, net.sources[n], net.rank[n]);
    if n in s.dirtyO {
      RecomputeIsLocal(net, s, n);
      LocalChangeKeepsSettled(net, s, RecomputeObsels(net, s, n).0, n);
    } else {
      SettledHasValue(net, s, n);
    }
  }

  lemma SourcesNotForcing<D, C>(net: Net<D, C>, s: State<D, C>, n: Node, forcing: set<Node>)
    requires Acyclic(net) && n in net.sources && s.forcingO == forcing + {n} && forcing !! Up(net, n)
    ensures forall i :: 0 <= i < |net.sources[n]| ==> s.forcingO !! Up(net, net.sources[n][i])
  {
    forall i, m | 0 <= i < |net.sources[n]| && m in Up(net, net.sources[n][i]) ensures m !in s.forcingO {
      UpIs(net, n, m);
      UpTrans(net, net.sources[n][i], m);
    }
  }

  lemma {:induction false} RefreshAllSettles<D, C>(net: Net<D, C>, s: State<D, C>, q: seq<Node>, k: nat)
    requires Acyclic(net) && Inv(net, s) && Below(net, q, k) && s.forcingD == {}
    requires forall i :: 0 <= i < |q| ==> s.forcingO !! Up(net, q[i])
    ensures var (s', ok) := RefreshAllObsels(net, s, q);
            && SettledKept(net, s, s')
            && (ok ==> forall i :: 0 <= i < |q| ==> Settled(net, s', q[i]))
            && (ok <==> Values(net, s, q, k).Some?)
    decreases k, 0, |q|
  {
    if q != [] {
      RefreshSettles(net, s, q[0]);
      var (s1, ok) := RefreshObsels(net, s, q[0]);
      RefreshObselsKeeps(net, s, q[0]);
      ValuesKept(net, s, s1, q[1..], k);
      if ok {
        RefreshAllSettles(net, s1, q[1..], k);
      }
    }
  }

  /* ---------- what one refresh does ---------- */

  /** Refreshing a trace does nothing when its collection and those of all ancestors are
      clean. */
  lemma {:induction false} RefreshObselsIdle<D, C>(net: Net<D, C>, s: State<D, C>, n: Node)
    requires Acyclic(net) && Shape(net, s) && n in net.nodes
    requires forall m <- Up(net, n) :: m !in s.dirtyO
    ensures RefreshObsels(net, s, n) == (s, true)
    decreases net.rank[n], 1, 0
  {
    if n in net.sources && n !in s.forcingO {
      SmallerWithout(net.nodes, s.forcingO, n);
      var s0 := s.(forcingO := s.forcingO + {n});
      forall i | 0 <= i < |net.sources[n]| ensures forall m <- Up(net, net.sources[n][i]) :: m !in s0.dirtyO {
        forall m | m in Up(net, net.sources[n][i]) ensures m in Up(net, n) { UpIs(net, n, m); }
      }
      RefreshAllObselsIdle(net, s0, net.sources[n], net.rank[n]);
      assert n in Up(net, n);
      assert s0.forcingO - {n} == s.forcingO;
    }
  }

  lemma {:induction false} RefreshAllObselsIdle<D, C>(net: Net<D, C>, s: State<D, C>, q: seq<Node>, k: nat)
    requires Acyclic(net) && Shape(net, s) && Below(net, q, k)
    requires forall i :: 0 <= i < |q| ==> forall m <- Up(net, q[i]) :: m !in s.dirtyO
    ensures RefreshAllObsels(net, s, q) == (s, true)
    decreases k, 0, |q|
  {
    if q != [] {
      RefreshObselsIdle(net, s, q[0]);
      RefreshAllObselsIdle(net, s, q[1..], k);
    }
  }

  /** When only the trace itself is dirty, all that a refresh does: the description is made
      again if it is dirty, and then marks the consumers; the collection is made of it and
      of the contents of the sources, is clean, and marks the collections of the consumers;
      if the method fails, it stays dirty, with its old contents. */
  lemma RefreshExactly<D, C>(net: Net<D, C>, s: State<D, C>, n: Node)
    requires Acyclic(net) && Shape(net, s) && n in net.sources && n in s.dirtyO
    requires s.forcingD == {} && s.forcingO == {}
    requires forall m <- Up(net, n) :: m != n ==> m !in s.dirtyD && m !in s.dirtyO
    ensures var d := if n in s.dirtyD then net.describe(n, s.param[n], Lookup(s.desc, net.sources[n])) else s.desc[n];
            var consumers := set x | x in net.sources && n in net.sources[x];
            var marked := if n in s.dirtyD then consumers else {};
            var described := s.(desc := s.desc[n := d], dirtyD := s.dirtyD - {n} + marked);
            RefreshObsels(net, s, n) ==
              match net.compute(n, d, Lookup(s.content, net.sources[n]))
              case None => (described.(dirtyO := s.dirtyO + marked), false)
              case Some(c) => (described.(content := s.content[n := c], dirtyO := s.dirtyO - {n} + consumers), true)
  {
    SmallerWithout(net.nodes, s.forcingO, n);
    var s0 := s.(forcingO := {n});
    forall i | 0 <= i < |net.sources[n]| ensures forall m <- Up(net, net.sources[n][i]) :: m !in s0.dirtyO {
      forall m | m in Up(net, net.sources[n][i]) ensures m in Up(net, n) && m != n {
        UpIs(net, n, m);
        UpTrans(net, net.sources[n][i], m);
      }
    }
    assert s.forcingO + {n} == {n} && {n} - {n} == s.forcingO;
    RefreshAllObselsIdle(net, s0, net.sources[n], net.rank[n]);
    RefreshDescLocal(net, s0.(dirtyO := s0.dirtyO - {n}), n);
    RecomputeExactly(net, s0, n);
  }

  lemma RecomputeExactly<D, C>(net: Net<D, C>, s: State<D, C>, n: Node)
    requires Shape(net, s) && n in net.sources && n in s.dirtyO
    requires var s0 := s.(dirtyO := s.dirtyO - {n});
             RefreshDesc(net, s0, n) == if n in s.dirtyD then RecomputeDesc(net, s0, n) else s0
    ensures var d := if n in s.dirtyD then net.describe(n, s.param[n], Lookup(s.desc, net.sources[n])) else s.desc[n];
            var marked := if n in s.dirtyD then Consumers(net, n) else {};
            var described := s.(desc := s.desc[n := d], dirtyD := s.dirtyD - {n} + marked);
            RecomputeObsels(net, s, n) ==
              match net.compute(n, d, Lookup(s.content, net.sources[n]))
              case None => (described.(dirtyO := s.dirtyO + marked), false)
              case Some(c) =>
                (described.(content := s.content[n := c], dirtyO := s.dirtyO - {n} + Consumers(net, n)), true)
  {
    assert s.dirtyO - {n} + {n} == s.dirtyO;
    assert s.dirtyO - {n} + Consumers(net, n) + {n} == s.dirtyO + Consumers(net, n);
    assert s.dirtyO - {n} + Consumers(net, n) + Consumers(net, n) == s.dirtyO - {n} + Consumers(net, n);
    assert s.dirtyD - {n} + {} == s.dirtyD - {n};
    assert s.dirtyO + {} == s.dirtyO;
    assert s.desc[n := s.desc[n]] == s.desc;
    if n !in s.dirtyD { assert s.dirtyD - {n} == s.dirtyD; }
  }

  /** Guards end the recursion where sources are cyclic: a trace that is its own source is
      computed once, from what it contained, and stays dirty. */
  lemma OwnSource<D, C>(net: Net<D, C>, s: State<D, C>, n: Node)
    requires Shape(net, s) && n in net.sources && net.sources[n] == [n] && n in s.dirtyO
    requires s.forcingD == {} && s.forcingO == {}
    ensures var d := if n in s.dirtyD then net.describe(n, s.param[n], [s.desc[n]]) else s.desc[n];
            var (s', ok) := RefreshObsels(net, s, n);
            && s'.desc[n] == d && n in s'.dirtyO
            && (ok <==> net.compute(n, d, [s.content[n]]).Some?)
            && s'.content[n] == match net.compute(n, d, [s.content[n]]) case None => s.content[n] case Some(c) => c
  {
    hide RefreshObsels, RefreshDesc, RecomputeObsels, RecomputeDesc, Lookup;
    LookupOne(s.desc, n);
    LookupOne(s.content, n);
    OwnObsels(net, s, n);
    var s0 := s.(forcingO := s.forcingO + {n});
    OwnDesc(net, s0.(dirtyO := s0.dirtyO - {n}), n);
    RecomputeExactly(net, s0, n);
    assert n in Consumers(net, n);
  }

  lemma LookupOne<V>(m: map<Node, V>, n: Node)
    requires n in m
    ensures Lookup(m, [n]) == [m[n]]
  {
    assert [n][1..] == [];
  }

  lemma OwnObsels<D, C>(net: Net<D, C>, s: State<D, C>, n: Node)
    requires Shape(net, s) && n in net.sources && net.sources[n] == [n] && n in s.dirtyO && s.forcingO == {}
    ensures var (s', ok) := RecomputeObsels(net, s.(forcingO := s.forcingO + {n}), n);
            RefreshObsels(net, s, n) == (s'.(forcingO := s'.forcingO - {n}), ok)
  {
    hide RecomputeObsels, RefreshDesc;
    var q := [n];
    SmallerWithout(net.nodes, s.forcingO, n);
    var s0 := s.(forcingO := s.forcingO + {n});
    assert RefreshObsels(net, s0, n) == (s0, true);
    assert RefreshAllObsels(net, s0, q) == RefreshAllObsels(net, s0, q[1..]) == (s0, true);
  }

  lemma OwnDesc<D, C>(net: Net<D, C>, s: State<D, C>, n: Node)
    requires Shape(net, s) && n in net.sources && net.sources[n] == [n] && s.forcingD == {}
    ensures RefreshDesc(net, s, n) == if n in s.dirtyD then RecomputeDesc(net, s, n) else s
  {
    var q := [n];
    SmallerWithout(net.nodes, s.forcingD, n);
    var s0 := s.(forcingD := s.forcingD + {n});
    assert RefreshDesc(net, s0, n) == s0;
    assert RefreshDescs(net, s0, q) == RefreshDescs(net, s0, q[1..]) == s0;
    assert s0.forcingD - {n} == s.forcingD;
  }

  /* ---------- runs ---------- */

  datatype Event<D, C> =
    | EditContent(n: Node, c: C)  // an edit of the obsels of a stored trace
    | EditDesc(n: Node, d: D)     // an edit of the description of a stored trace
    | EditParam(n: Node, p: int)  // an edit of the parameters or method of a computed trace
    | DescNow(n: Node)            // a refresh of the description of any trace
    | RefreshNow(n: Node)         // a default refresh of the obsels of any trace

  ghost predicate ValidEvent<D, C>(net: Net<D, C>, ev: Event<D, C>) {
    match ev
    case EditContent(n, _) => n in net.nodes && n !in net.sources
    case EditDesc(n, _) => n in net.nodes && n !in net.sources
    case EditParam(n, _) => n in net.sources
    case DescNow(n) => n in net.nodes
    case RefreshNow(n) => n in net.nodes
  }

  ghost function Next<D, C>(net: Net<D, C>, s: State<D, C>, ev: Event<D, C>): State<D, C>
    requires Shape(net, s) && ValidEvent(net, ev)
  {
    match ev
    case EditContent(n, c) => MarkObsels(s.(content := s.content[n := c]), Consumers(net, n))
    case EditDesc(n, d) => MarkBoth(s.(desc := s.desc[n := d]), Consumers(net, n))
    case EditParam(n, p) => MarkBoth(s.(param := s.param[n := p]), Consumers(net, n) + {n})
    case DescNow(n) => RefreshDesc(net, s, n)
    case RefreshNow(n) => RefreshObsels(net, s, n).0
  }

  /** What an edit marks: that of a stored trace's obsels, the collections of the traces
      computed from it; that of its description, their descriptions, too; that of a computed
      trace's parameters, besides, itself. */
  lemma MarksExactly<D, C>(net: Net<D, C>, s: State<D, C>, ev: Event<D, C>)
    requires Shape(net, s) && ValidEvent(net, ev) && !ev.DescNow? && !ev.RefreshNow?
    ensures var s' := Next(net, s, ev);
            && (forall x :: x in s'.dirtyO <==>
                  x in s.dirtyO || (x in net.sources && ev.n in net.sources[x]) || (ev.EditParam? && x == ev.n))
            && (forall x :: x in s'.dirtyD <==>
                  || x in s.dirtyD
                  || (!ev.EditContent? && x in net.sources && ev.n in net.sources[x]) || (ev.EditParam? && x == ev.n))
            && s'.content == (if ev.EditContent? then s.content[ev.n := ev.c] else s.content)
            && s'.desc == (if ev.EditDesc? then s.desc[ev.n := ev.d] else s.desc)
            && s'.param == (if ev.EditParam? then s.param[ev.n := ev.p] else s.param)
  {
  }

  /** Between events no refresh is under way. */
  ghost predicate Idle<D, C>(net: Net<D, C>, s: State<D, C>) {
    Inv(net, s) && s.forcingD == {} && s.forcingO == {}
  }

  lemma NextKeeps<D, C>(net: Net<D, C>, s: State<D, C>, ev: Event<D, C>)
    requires Idle(net, s) && ValidEvent(net, ev)
    ensures Idle(net, Next(net, s, ev))
  {
    if ev.RefreshNow? {
      RefreshObselsKeeps(net, s, ev.n);
    } else if ev.DescNow? {
      RefreshDescKeeps(net, s, ev.n, {});
    } else {
      var s' := Next(net, s, ev);
      forall x | x in net.sources ensures x !in s'.dirtyD ==> DescUpToDate(net, s', x) {
        if x !in s'.dirtyD { SameLookup(s.desc, s'.desc, net.sources[x]); }
      }
      forall x | x in net.sources && x !in s'.dirtyO ensures x !in s'.dirtyD && ObselsUpToDate(net, s', x) {
        SameLookup(s.content, s'.content, net.sources[x]);
      }
    }
  }

  /** As they are created: every computed trace is dirty, nothing is being refreshed. */
  lemma CreatedIdle<D, C>(net: Net<D, C>, param: map<Node, int>, desc: map<Node, D>, content: map<Node, C>)
    requires Shape(net, State(param, desc, content, net.sources.Keys, net.sources.Keys, {}, {}))
    ensures Idle(net, State(param, desc, content, net.sources.Keys, net.sources.Keys, {}, {}))
  {
  }

  ghost function Run<D, C>(net: Net<D, C>, s: State<D, C>, evs: seq<Event<D, C>>): State<D, C>
    requires Idle(net, s) && forall i :: 0 <= i < |evs| ==> ValidEvent(net, evs[i])
    decreases |evs|
  {
    if evs == [] then s else (NextKeeps(net, s, evs[0]); Run(net, Next(net, s, evs[0]), evs[1..]))
  }

  /** Every run of edits and refreshes, on any net, cyclic or not, keeps the invariant: a
      clean trace is what its method makes of its sources, and a dirty description implies
      a dirty collection. */
  lemma {:induction false} RunKeeps<D, C>(net: Net<D, C>, s: State<D, C>, evs: seq<Event<D, C>>)
    requires Idle(net, s) && forall i :: 0 <= i < |evs| ==> ValidEvent(net, evs[i])
    ensures Idle(net, Run(net, s, evs))
    decreases |evs|
  {
    if evs != [] {
      NextKeeps(net, s, evs[0]);
      RunKeeps(net, Next(net, s, evs[0]), evs[1..]);
    }
  }

  /** On an acyclic net, after any run, a default refresh of a trace succeeds exactly when
      no method on the way from the stored traces fails; then the trace and all its
      ancestors are clean, and each holds the composition of the methods that lead to it. */
  lemma RefreshAfterAnyRun<D, C>(net: Net<D, C>, s: State<D, C>, evs: seq<Event<D, C>>, n: Node)
    requires Acyclic(net) && n in net.nodes
    requires Idle(net, s) && forall i :: 0 <= i < |evs| ==> ValidEvent(net, evs[i])
    ensures var now := Run(net, s, evs);
            && Idle(net, now)
            && var (s', ok) := RefreshObsels(net, now, n);
            && (ok <==> Value(net, now, n).Some?)
            && (ok ==> forall m <- Up(net, n) ::
                  m !in s'.dirtyO && m !in s'.dirtyD && Value(net, now, m) == Some(s'.content[m]))
  {
    RunKeeps(net, s, evs);
    var now := Run(net, s, evs);
    RefreshSettles(net, now, n);
    RefreshObselsKeeps(net, now, n);
    var (s', ok) := RefreshObsels(net, now, n);
    if ok {
      forall m | m in Up(net, n)
        ensures m !in s'.dirtyO && m !in s'.dirtyD && Value(net, now, m) == Some(s'.content[m])
      {
        UpTrans(net, n, m);
        SettledHasValue(net, s', m);
        ValueKept(net, now, s', m);
      }
    }
  }

  /* ---------- the objects ---------- */

  class Traces<D, C> {
    const net: Net<D, C>
    var param: map<Node, int>
    var desc: map<Node, D>
    var content: map<Node, C>
    var dirtyD: set<Node>    // traces with METADATA.dirty
    var dirtyO: set<Node>    // obsel collections with METADATA.dirty
    var forcingD: set<Node>  // traces with __forcing_state_refresh
    var forcingO: set<Node>  // obsel collections with __forcing_state_refresh

    ghost function Now(): State<D, C>
      reads this
    {
      State(param, desc, content, dirtyD, dirtyO, forcingD, forcingO)
    }

    ghost predicate Valid()
      reads this
    {
      Shape(net, Now())
    }

    constructor (net: Net<D, C>, param: map<Node, int>, desc: map<Node, D>, content: map<Node, C>)
      requires Shape(net, State(param, desc, content, net.sources.Keys, net.sources.Keys, {}, {}))
      ensures Valid() && this.net == net
      ensures Now() == State(param, desc, content, net.sources.Keys, net.sources.Keys, {}, {})
    {
      this.net, this.param, this.desc, this.content := net, param, desc, content;
      dirtyD, dirtyO, forcingD, forcingO := net.sources.Keys, net.sources.Keys, {}, {};
    }

    method MarkDirty(ns: set<Node>, metadata: bool)
      modifies this`dirtyD, this`dirtyO
      ensures Now() == if metadata then MarkBoth(old(Now()), ns) else MarkObsels(old(Now()), ns)
    {
      if metadata { dirtyD := dirtyD + ns; }
      dirtyO := dirtyO + ns;
    }

    /** The description's force_state_refresh. */
    method ForceDesc(n: Node)
      requires Valid() && n in net.nodes
      modifies this
      ensures Now() == RefreshDesc(net, old(Now()), n)
      decreases |net.nodes - forcingD|, 1
    {
      if n !in net.sources || n in forcingD { return; }
      SmallerWithout(net.nodes, forcingD, n);
      forcingD := forcingD + {n};
      ForceDescs(net.sources[n]);
      if n in dirtyD {
        RecomputeDescNow(n);
      }
      forcingD := forcingD - {n};
    }

    method RecomputeDescNow(n: Node)
      requires Valid() && n in net.sources
      modifies this
      ensures Now() == RecomputeDesc(net, old(Now()), n)
    {
      dirtyD := dirtyD - {n};
      desc := desc[n := net.describe(n, param[n], Lookup(desc, net.sources[n]))];
      MarkDirty(Consumers(net, n), true);
    }

    method ForceDescs(q: seq<Node>)
      requires Valid() && Known(net, q)
      modifies this
      ensures Now() == RefreshDescs(net, old(Now()), q)
      decreases |net.nodes - forcingD|, 2
    {
      hide Shape, RefreshDesc;
      ghost var s0 := Now();
      assert q[0..] == q;
      for i := 0 to |q|
        invariant Valid() && DescOnly(net, s0, Now())
        invariant RefreshDescs(net, Now(), q[i..]) == RefreshDescs(net, s0, q)
      {
        assert q[i..][0] == q[i] && q[i..][1..] == q[i + 1..];
        ForceDesc(q[i]);
      }
      assert q[|q|..] == [];
    }

    /** The obsel collection's force_state_refresh; false if it raises an exception. */
    method ForceObsels(n: Node) returns (ok: bool)
      requires Valid() && n in net.nodes
      modifies this
      ensures (Now(), ok) == RefreshObsels(net, old(Now()), n)
      decreases |net.nodes - forcingO|, 1
    {
      if n !in net.sources || n in forcingO { return true; }
      SmallerWithout(net.nodes, forcingO, n);
      forcingO := forcingO + {n};
      ok := ForceAllObsels(net.sources[n]);
      if ok && n in dirtyO {
        ok := RecomputeNow(n);
      }
      forcingO := forcingO - {n};
    }

    method ForceAllObsels(q: seq<Node>) returns (ok: bool)
      requires Valid() && Known(net, q)
      modifies this
      ensures (Now(), ok) == RefreshAllObsels(net, old(Now()), q)
      decreases |net.nodes - forcingO|, 2
    {
      hide Shape, RefreshObsels;
      ghost var s0 := Now();
      ok := true;
      var i := 0;
      assert q[0..] == q;
      while i < |q| && ok
        invariant 0 <= i <= |q|
        invariant Valid() && StoredKept(net, s0, Now())
        invariant RefreshAllObsels(net, s0, q) == if ok then RefreshAllObsels(net, Now(), q[i..]) else (Now(), false)
      {
        assert q[i..][0] == q[i] && q[i..][1..] == q[i + 1..];
        ok := ForceObsels(q[i]);
        i := i + 1;
      }
      assert q[|q|..] == [];
    }

    /** The dirty mark is removed first; a failure sets it again. */
    method RecomputeNow(n: Node) returns (ok: bool)
      requires Valid() && n in net.sources
      modifies this
      ensures (Now(), ok) == RecomputeObsels(net, old(Now()), n)
    {
      hide RefreshDesc;
      dirtyO := dirtyO - {n};
      ForceDesc(n);
      var result := net.compute(n, desc[n], Lookup(content, net.sources[n]));
      if result.None? {
        MarkDirty({n}, false);
        ok := false;
      } else {
        content := content[n := result.value];
        MarkDirty(Consumers(net, n), false);
        ok := true;
      }
    }
  }
}
