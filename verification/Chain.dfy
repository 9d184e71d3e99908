/**
 Whole runs: a stored trace, transformed by a chain of hrules traces, each the source
 of the next. Edits of the stored trace and refreshes of any computed trace come in any
 order. (A computed trace of this kind has one source, so what it contains depends on
 the chain that leads to it and on nothing else.)
 */
module Chain {
  import opened Obsels
  import opened Tags
  import opened Views
  import opened Methods
  import opened HRules

  datatype Node = Node(bgps: seq<Bgp>, seen: Seen, at: Cursor, snap: Coll)

  /** colls[0] is stored; nodes[i] computes colls[i + 1] from colls[i]. */
  datatype Chain = Chain(colls: seq<Coll>, nodes: seq<Node>)

  datatype Event =
    | EditStored(e: Edit)
    | EditRange(i: nat, range: int, last: Option<Uri>)  // of any trace, stored or computed
    | Refresh(i: nat, fromScratch: bool)

  function HopAt(ch: Chain, i: nat): Hop
    requires i + 1 < |ch.colls|
  {
    Hop(ch.colls[i].trace, ch.colls[i + 1].trace)
  }

  /** No obsel is related to itself, or to a node of another trace of the chain. */
  ghost predicate Separate(ch: Chain, i: nat, g: Graph)
    requires i < |ch.colls|
  {
    && (forall r <- g.rels :: r.s.trace == ch.colls[i].trace ==> r.s != r.o)
    && (forall r, j | r in g.rels && 0 <= j < |ch.colls| && j != i ::
          r.s.trace != ch.colls[j].trace && r.o.trace != ch.colls[j].trace)
  }

  ghost predicate NodeInv(ch: Chain, i: nat)
    requires i < |ch.nodes| && |ch.colls| == |ch.nodes| + 1
  {
    var n := ch.nodes[i];
    InStep(HopAt(ch, i), n.bgps, n.seen, n.at, n.snap, ch.colls[i], ch.colls[i + 1])
  }

  ghost predicate ChainInv(ch: Chain) {
    && |ch.colls| == |ch.nodes| + 1
    && (forall i, j :: 0 <= i < j < |ch.colls| ==> ch.colls[i].trace != ch.colls[j].trace)
    && (forall i :: 0 <= i < |ch.colls| ==> Inv(ch.colls[i]) && Separate(ch, i, ch.colls[i].g))
    && (forall i :: 0 <= i < |ch.nodes| ==> NodeInv(ch, i))
  }

  function SeenBy(n: Node, fromScratch: bool): Seen {
    if fromScratch then UNSEEN else n.seen
  }

  /** Refreshing the i-th computed trace now leaves no relation out. */
  ghost predicate HarmlessAt(ch: Chain, i: nat, fromScratch: bool)
    requires i < |ch.nodes| && |ch.colls| == |ch.nodes| + 1
  {
    var n := ch.nodes[i];
    Harmless(HopAt(ch, i), n.bgps, ChooseMode(SeenBy(n, fromScratch), ch.colls[i]), n.at, ch.colls[i], ch.colls[i + 1])
  }

  /** Any edit that keeps the tags honest, and any refresh. */
  ghost predicate ValidEvent(ch: Chain, ev: Event)
    requires ChainInv(ch)
  {
    match ev
    case EditStored(e) => PlainEdit(ch.colls[0], e) && Separate(ch, 0, Apply(ch.colls[0], e).g)
    case EditRange(i, r, last) => i < |ch.colls| && Inv(ch.colls[i]) && Valid(ch.colls[i], SetRange(r, last))
    case Refresh(i, _) => i < |ch.nodes|
  }

  ghost function Refreshed(ch: Chain, i: nat, fromScratch: bool): Chain
    requires ChainInv(ch) && i < |ch.nodes|
  {
    var n, source, target := ch.nodes[i], ch.colls[i], ch.colls[i + 1];
    var mode := ChooseMode(SeenBy(n, fromScratch), source);
    var (target', at') := Compute(HopAt(ch, i), n.bgps, mode, n.at, source, target);
    Chain(ch.colls[i + 1 := target'], ch.nodes[i := Node(n.bgps, TagsOf(source), at', source)])
  }

  ghost function Next(ch: Chain, ev: Event): Chain
    requires ChainInv(ch) && ValidEvent(ch, ev)
  {
    match ev
    case EditStored(e) => ch.(colls := ch.colls[0 := Apply(ch.colls[0], e)])
    case EditRange(i, r, last) => ch.(colls := ch.colls[i := Apply(ch.colls[i], SetRange(r, last))])
    case Refresh(i, f) => Refreshed(ch, i, f)
  }

  lemma CleanSource(ch: Chain, i: nat)
    requires ChainInv(ch) && i < |ch.nodes|
    ensures Clean(HopAt(ch, i), ch.colls[i].g)
  {
  }

  lemma SeparatePart(ch: Chain, i: nat, choice: Choice, t: Graph)
    requires ChainInv(ch) && i < |ch.nodes|
    requires Owned(ch.colls[i].g, ch.colls[i].trace) && IsPart(HopAt(ch, i), ch.colls[i].g, choice, t)
    ensures Separate(ch, i + 1, t)
  {
  }

  /** Replacing a collection by what it evolved into keeps all traces in step, if its graph
      is not touched unless it is stored. */
  lemma CollEvolved(ch: Chain, i: nat, c: Coll)
    requires ChainInv(ch) && i < |ch.colls| && Evolves(ch.colls[i], c) && Separate(ch, i, c.g)
    requires i > 0 ==> c.g == ch.colls[i].g
    ensures ChainInv(ch.(colls := ch.colls[i := c]))
  {
    hide InStep, Promise;
    EvolvesKeepsTrace(ch.colls[i], c);
    var ch' := ch.(colls := ch.colls[i := c]);
    forall j | 0 <= j < |ch'.colls| ensures Inv(ch'.colls[j]) && Separate(ch', j, ch'.colls[j].g) {
      if j != i { assert Separate(ch, j, ch.colls[j].g); }
    }
    forall j | 0 <= j < |ch'.nodes| ensures NodeInv(ch', j) {
      assert NodeInv(ch, j);
      var n := ch.nodes[j];
      if j == i {
        InStepAfterEvolution(HopAt(ch, j), n.bgps, n.seen, n.at, n.snap, ch.colls[j], c, ch.colls[j + 1]);
      } else if j + 1 == i {
        InStepSameGraph(HopAt(ch, j), n.bgps, n.seen, n.at, n.snap, ch.colls[j], ch.colls[i], c);
      }
    }
  }

  lemma ReadyAt(ch: Chain, i: nat, fromScratch: bool)
    requires ChainInv(ch) && i < |ch.nodes|
    ensures var n := ch.nodes[i];
            Ready(HopAt(ch, i), n.bgps, SeenBy(n, fromScratch), n.at, n.snap, ch.colls[i], ch.colls[i + 1])
  {
    hide InStep, Separate, Clean;
    var n := ch.nodes[i];
    assert NodeInv(ch, i);
    InStepFromScratch(HopAt(ch, i), n.bgps, n.seen, n.at, n.snap, ch.colls[i], ch.colls[i + 1]);
    CleanSource(ch, i);
  }

  /** A refresh makes the trace what it would be, computed from nothing, if and only if it
      is harmless. */
  lemma RefreshExactAt(ch: Chain, i: nat, fromScratch: bool)
    requires ChainInv(ch) && i < |ch.nodes|
    ensures Refreshed(ch, i, fromScratch).colls[i + 1].g
            == View(HopAt(ch, i), ch.colls[i].g, ChoiceOf(ch.nodes[i].bgps))
            <==> HarmlessAt(ch, i, fromScratch)
  {
    hide Ready, Compute, View, ChoiceOf, Harmless;
    var n := ch.nodes[i];
    ReadyAt(ch, i, fromScratch);
    ComputeExact(HopAt(ch, i), n.bgps, SeenBy(n, fromScratch), n.at, n.snap, ch.colls[i], ch.colls[i + 1]);
  }

  /** Every refresh, harmless or not, keeps all traces of the chain in step. */
  lemma RefreshStep(ch: Chain, i: nat, fromScratch: bool)
    requires ChainInv(ch) && i < |ch.nodes|
    ensures var ch' := Refreshed(ch, i, fromScratch);
            && ChainInv(ch')
            && ch'.colls[i + 1].trace == ch.colls[i + 1].trace
            && Evolves(ch.colls[i + 1], ch'.colls[i + 1])
  {
    hide ChoiceOf, Promise, Evolves, Compute, Separate, Clean, Harmless, IsPart, Remembers;
    var n, source, target := ch.nodes[i], ch.colls[i], ch.colls[i + 1];
    ReadyAt(ch, i, fromScratch);
    ComputeCorrect(HopAt(ch, i), n.bgps, SeenBy(n, fromScratch), n.at, n.snap, source, target);
    var c := Refreshed(ch, i, fromScratch).colls[i + 1];
    SeparatePart(ch, i, ChoiceOf(n.bgps), c.g);
    EvolvesKeepsTrace(target, c);
    RefreshKeepsOthers(ch, i, fromScratch);
  }

  lemma RefreshKeepsOthers(ch: Chain, i: nat, fromScratch: bool)
    requires ChainInv(ch) && i < |ch.nodes|
    requires var ch', n := Refreshed(ch, i, fromScratch), ch.nodes[i];
             && Evolves(ch.colls[i + 1], ch'.colls[i + 1])
             && Separate(ch, i + 1, ch'.colls[i + 1].g)
             && InStep(HopAt(ch, i), n.bgps, TagsOf(ch.colls[i]), ch'.nodes[i].at, ch.colls[i], ch.colls[i],
                   ch'.colls[i + 1])
    ensures ChainInv(Refreshed(ch, i, fromScratch))
  {
    hide InStep, Compute, Promise;
    var ch' := Refreshed(ch, i, fromScratch);
    EvolvesKeepsTrace(ch.colls[i + 1], ch'.colls[i + 1]);
    forall j | 0 <= j < |ch'.colls| ensures Inv(ch'.colls[j]) && Separate(ch', j, ch'.colls[j].g) {
      if j != i + 1 { assert Separate(ch, j, ch.colls[j].g); }
    }
    forall j | 0 <= j < |ch'.nodes| ensures NodeInv(ch', j) {
      assert NodeInv(ch, j);
      if j == i + 1 {
        var n := ch.nodes[j];
        InStepAfterEvolution(HopAt(ch, j), n.bgps, n.seen, n.at, n.snap, ch.colls[j], ch'.colls[j], ch.colls[j + 1]);
      }
    }
  }

  /* ---------- runs ---------- */

  lemma NextKeeps(ch: Chain, ev: Event)
    requires ChainInv(ch) && ValidEvent(ch, ev)
    ensures ChainInv(Next(ch, ev)) && |Next(ch, ev).nodes| == |ch.nodes|
  {
    hide NodeInv, Separate, Promise;
    match ev
    case EditStored(e) =>
      EditEvolves(ch.colls[0], e);
      CollEvolved(ch, 0, Apply(ch.colls[0], e));
    case EditRange(i, r, last) =>
      EditEvolves(ch.colls[i], SetRange(r, last));
      CollEvolved(ch, i, Apply(ch.colls[i], SetRange(r, last)));
    case Refresh(i, fromScratch) => RefreshStep(ch, i, fromScratch);
  }

  ghost predicate ValidEvents(ch: Chain, evs: seq<Event>)
    requires ChainInv(ch)
    decreases |evs|
  {
    evs == [] || (ValidEvent(ch, evs[0]) && (NextKeeps(ch, evs[0]); ValidEvents(Next(ch, evs[0]), evs[1..])))
  }

  ghost function RunAll(ch: Chain, evs: seq<Event>): Chain
    requires ChainInv(ch) && ValidEvents(ch, evs)
    decreases |evs|
  {
    if evs == [] then ch else (NextKeeps(ch, evs[0]); RunAll(Next(ch, evs[0]), evs[1..]))
  }

  lemma {:induction false} RunAllKeeps(ch: Chain, evs: seq<Event>)
    requires ChainInv(ch) && ValidEvents(ch, evs)
    ensures ChainInv(RunAll(ch, evs)) && |RunAll(ch, evs).nodes| == |ch.nodes|
    decreases |evs|
  {
    hide ChainInv, ValidEvent, Compute, Apply;
    if evs != [] {
      NextKeeps(ch, evs[0]);
      RunAllKeeps(Next(ch, evs[0]), evs[1..]);
    }
  }

  /** Whatever edits and refreshes came before, exact or not, the next refresh of a computed
      trace, in whichever mode, gives the graph computed from nothing on its source, if and
      only if every relation among the obsels to keep is in the target already or has an end
      among the obsels that the refresh copies. */
  lemma EveryRefreshIsExact(ch: Chain, evs: seq<Event>, i: nat, fromScratch: bool)
    requires ChainInv(ch) && ValidEvents(ch, evs) && i < |ch.nodes|
    ensures var now := RunAll(ch, evs);
            && ChainInv(now) && |now.nodes| == |ch.nodes|
            && (Refreshed(now, i, fromScratch).colls[i + 1].g
                == View(HopAt(now, i), now.colls[i].g, ChoiceOf(now.nodes[i].bgps))
                <==> HarmlessAt(now, i, fromScratch))
  {
    RunAllKeeps(ch, evs);
    RefreshExactAt(RunAll(ch, evs), i, fromScratch);
  }

  /** So whatever earlier refreshes missed, a refresh from scratch or a logical one makes
      it good. */
  lemma RefreshHeals(ch: Chain, evs: seq<Event>, i: nat, fromScratch: bool)
    requires ChainInv(ch) && ValidEvents(ch, evs) && i < |ch.nodes|
    ensures var now := RunAll(ch, evs);
            && ChainInv(now) && |now.nodes| == |ch.nodes|
            && var mode := ChooseMode(SeenBy(now.nodes[i], fromScratch), now.colls[i]);
            && (fromScratch ==> mode == NotMon)
            && (mode == NotMon || mode == LogicMon ==>
                  Refreshed(now, i, fromScratch).colls[i + 1].g
                  == View(HopAt(now, i), now.colls[i].g, ChoiceOf(now.nodes[i].bgps)))
  {
    hide Refreshed, View, Harmless, ChainInv, ValidEvents, RunAll;
    EveryRefreshIsExact(ch, evs, i, fromScratch);
    var now := RunAll(ch, evs);
    var n, mode := now.nodes[i], ChooseMode(SeenBy(now.nodes[i], fromScratch), now.colls[i]);
    if mode == NotMon || mode == LogicMon {
      ScratchAndLogicAreHarmless(HopAt(now, i), n.bgps, mode, n.at, now.colls[i], now.colls[i + 1]);
    }
  }

  /* ---------- refreshing the whole chain ---------- */

  function Traces(ch: Chain): seq<TraceId> {
    seq(|ch.colls|, i requires 0 <= i < |ch.colls| => ch.colls[i].trace)
  }

  function Rules(ch: Chain): seq<seq<Bgp>> {
    seq(|ch.nodes|, i requires 0 <= i < |ch.nodes| => ch.nodes[i].bgps)
  }

  /** The first `k` transformations applied to `g`, each computed from nothing. */
  ghost function Composed(traces: seq<TraceId>, rules: seq<seq<Bgp>>, g: Graph, k: nat): (r: Graph)
    requires |traces| == |rules| + 1 && k <= |rules| && Owned(g, traces[0])
    ensures Owned(r, traces[k])
  {
    if k == 0 then g
    else View(Hop(traces[k - 1], traces[k]), Composed(traces, rules, g, k - 1), ChoiceOf(rules[k - 1]))
  }

  /** Refreshing the computed traces from the i-th on, in order. */
  function Refreshes(i: nat, n: nat, fromScratch: bool): seq<Event>
    requires i <= n
    decreases n - i
  {
    if i == n then [] else [Refresh(i, fromScratch)] + Refreshes(i + 1, n, fromScratch)
  }

  ghost predicate ComposedUpTo(ch: Chain, i: nat)
    requires ChainInv(ch) && i <= |ch.nodes|
  {
    assert Inv(ch.colls[0]);
    forall j :: 0 <= j <= i ==> ch.colls[j].g == Composed(Traces(ch), Rules(ch), ch.colls[0].g, j)
  }

  /** Each of the refreshes of a chain, in order, is harmless when it comes. */
  ghost predicate AllHarmless(ch: Chain, i: nat, fromScratch: bool)
    requires ChainInv(ch) && i <= |ch.nodes|
    decreases |ch.nodes| - i
  {
    i == |ch.nodes| ||
    (HarmlessAt(ch, i, fromScratch)
     && (RefreshStep(ch, i, fromScratch); AllHarmless(Refreshed(ch, i, fromScratch), i + 1, fromScratch)))
  }

  /** Refreshing a chain in order is a valid run, and leaves the traces before alone. */
  lemma {:induction false} RefreshingKeeps(ch: Chain, i: nat, fromScratch: bool)
    requires ChainInv(ch) && i <= |ch.nodes|
    ensures ValidEvents(ch, Refreshes(i, |ch.nodes|, fromScratch))
    ensures var ch' := RunAll(ch, Refreshes(i, |ch.nodes|, fromScratch));
            && ChainInv(ch') && |ch'.nodes| == |ch.nodes|
            && Traces(ch') == Traces(ch) && Rules(ch') == Rules(ch)
            && forall j :: 0 <= j <= i ==> ch'.colls[j] == ch.colls[j]
    decreases |ch.nodes| - i
  {
    hide ChainInv, Compute;
    if i < |ch.nodes| {
      RefreshStep(ch, i, fromScratch);
      var ch1, evs := Refreshed(ch, i, fromScratch), Refreshes(i, |ch.nodes|, fromScratch);
      assert evs[0] == Refresh(i, fromScratch) && evs[1..] == Refreshes(i + 1, |ch.nodes|, fromScratch);
      ChainLengths(ch);
      RefreshingKeeps(ch1, i + 1, fromScratch);
      assert Traces(ch1) == Traces(ch) && Rules(ch1) == Rules(ch);
    }
  }

  lemma ChainLengths(ch: Chain)
    requires ChainInv(ch)
    ensures |ch.colls| == |ch.nodes| + 1 && Owned(ch.colls[0].g, ch.colls[0].trace)
  {
    assert Inv(ch.colls[0]);
  }

  lemma RefreshOneMore(ch: Chain, i: nat, fromScratch: bool)
    requires ChainInv(ch) && i < |ch.nodes| && ComposedUpTo(ch, i)
    ensures var ch' := Refreshed(ch, i, fromScratch);
            && ChainInv(ch') && Traces(ch') == Traces(ch) && Rules(ch') == Rules(ch)
            && (ComposedUpTo(ch', i + 1) <==> HarmlessAt(ch, i, fromScratch))
  {
    hide NodeInv, View, Compute, ChoiceOf, HarmlessAt, Evolves, Promise, Inv, Separate;
    RefreshStep(ch, i, fromScratch);
    RefreshExactAt(ch, i, fromScratch);
    var ch' := Refreshed(ch, i, fromScratch);
    assert Traces(ch') == Traces(ch) && Rules(ch') == Rules(ch);
    OneMoreComposed(ch, ch', i);
  }

  lemma ComposedStep(traces: seq<TraceId>, rules: seq<seq<Bgp>>, g: Graph, k: nat)
    requires |traces| == |rules| + 1 && k < |rules| && Owned(g, traces[0])
    ensures Composed(traces, rules, g, k + 1)
            == View(Hop(traces[k], traces[k + 1]), Composed(traces, rules, g, k), ChoiceOf(rules[k]))
  {
  }

  lemma OneMoreComposed(ch: Chain, ch': Chain, i: nat)
    requires ChainInv(ch) && ChainInv(ch') && i < |ch.nodes| == |ch'.nodes| && ComposedUpTo(ch, i)
    requires Traces(ch') == Traces(ch) && Rules(ch') == Rules(ch)
    requires forall j :: 0 <= j <= i ==> ch'.colls[j] == ch.colls[j]
    ensures Owned(ch.colls[i].g, ch.colls[i].trace)
    ensures ComposedUpTo(ch', i + 1)
            <==> ch'.colls[i + 1].g == View(HopAt(ch, i), ch.colls[i].g, ChoiceOf(ch.nodes[i].bgps))
  {
    hide NodeInv, View, ChoiceOf, Separate, Composed, Inv;
    ChainLengths(ch);
    ComposedStep(Traces(ch), Rules(ch), ch.colls[0].g, i);
    assert Traces(ch)[i] == ch.colls[i].trace && Traces(ch)[i + 1] == ch.colls[i + 1].trace;
    assert Rules(ch)[i] == ch.nodes[i].bgps;
    assert ch.colls[i].g == Composed(Traces(ch), Rules(ch), ch.colls[0].g, i);
  }

  /** Refreshing a chain in order gives every trace of it the composition of all the
      transformations that lead to it, if and only if each of these refreshes is harmless. */
  lemma {:induction false} RefreshingComposes(ch: Chain, i: nat, fromScratch: bool)
    requires ChainInv(ch) && i <= |ch.nodes| && ComposedUpTo(ch, i)
    ensures ValidEvents(ch, Refreshes(i, |ch.nodes|, fromScratch))
    ensures var ch' := RunAll(ch, Refreshes(i, |ch.nodes|, fromScratch));
            && ChainInv(ch') && |ch'.nodes| == |ch.nodes|
            && (ComposedUpTo(ch', |ch.nodes|) <==> AllHarmless(ch, i, fromScratch))
    decreases |ch.nodes| - i
  {
    hide ChainInv, ComposedUpTo, Compute, Traces, Rules, HarmlessAt;
    ChainLengths(ch);
    RefreshingKeeps(ch, i, fromScratch);
    if i < |ch.nodes| {
      RefreshOneMore(ch, i, fromScratch);
      var ch1, evs := Refreshed(ch, i, fromScratch), Refreshes(i, |ch.nodes|, fromScratch);
      assert evs[0] == Refresh(i, fromScratch) && evs[1..] == Refreshes(i + 1, |ch.nodes|, fromScratch);
      RefreshingKeeps(ch1, i + 1, fromScratch);
      if HarmlessAt(ch, i, fromScratch) {
        RefreshingComposes(ch1, i + 1, fromScratch);
      } else {
        NotComposedLater(ch1, RunAll(ch1, evs[1..]), i + 1);
      }
    }
  }

  lemma NotComposedLater(ch: Chain, ch': Chain, i: nat)
    requires ChainInv(ch) && ChainInv(ch') && i <= |ch.nodes| == |ch'.nodes| && !ComposedUpTo(ch, i)
    requires Traces(ch') == Traces(ch) && Rules(ch') == Rules(ch)
    requires forall j :: 0 <= j <= i ==> ch'.colls[j] == ch.colls[j]
    ensures !ComposedUpTo(ch', |ch'.nodes|)
  {
  }

  /** After any run of edits and refreshes, refreshing a chain in order gives every trace
      of it the composition, computed from nothing, of the transformations leading to it,
      if and only if each of these refreshes is harmless. */
  lemma RefreshedChainIsComposition(ch: Chain, evs: seq<Event>, fromScratch: bool)
    requires ChainInv(ch) && ValidEvents(ch, evs)
    ensures var now := RunAll(ch, evs);
            && ChainInv(now) && |now.nodes| == |ch.nodes| && ValidEvents(now, Refreshes(0, |now.nodes|, fromScratch))
            && var last := RunAll(now, Refreshes(0, |now.nodes|, fromScratch));
            && ChainInv(last) && |last.nodes| == |ch.nodes| && last.colls[0] == now.colls[0]
            && ((forall j :: 0 <= j <= |ch.nodes| ==>
                  last.colls[j].g == Composed(Traces(now), Rules(now), now.colls[0].g, j))
                <==> AllHarmless(now, 0, fromScratch))
  {
    hide Compute, NodeInv, Separate, AllHarmless, RunAll, ValidEvents;
    RunAllKeeps(ch, evs);
    var now := RunAll(ch, evs);
    ChainLengths(now);
    assert ComposedUpTo(now, 0);
    RefreshingComposes(now, 0, fromScratch);
    RefreshingKeeps(now, 0, fromScratch);
  }

  /** Refreshes from scratch always are. */
  lemma {:induction false} ScratchRefreshesAreHarmless(ch: Chain, i: nat)
    requires ChainInv(ch) && i <= |ch.nodes|
    ensures AllHarmless(ch, i, true)
    decreases |ch.nodes| - i
  {
    hide Compute, ChainInv, Harmless;
    if i < |ch.nodes| {
      var n := ch.nodes[i];
      ChainLengths(ch);
      ScratchAndLogicAreHarmless(HopAt(ch, i), n.bgps, NotMon, n.at, ch.colls[i], ch.colls[i + 1]);
      RefreshStep(ch, i, true);
      ScratchRefreshesAreHarmless(Refreshed(ch, i, true), i + 1);
    }
  }

  /* ---------- runs in which obsels are posted ---------- */

  ghost predicate FreshNode(ch: Chain, i: nat)
    requires i < |ch.nodes| && |ch.colls| == |ch.nodes| + 1
  {
    var n := ch.nodes[i];
    UpToDate(HopAt(ch, i), n.bgps, n.seen, n.snap, ch.colls[i], ch.colls[i + 1])
  }

  /** Every last refresh was exact, and every relation added to a source since then is about
      an added obsel. */
  ghost predicate FreshChain(ch: Chain)
    requires |ch.colls| == |ch.nodes| + 1
  {
    forall i :: 0 <= i < |ch.nodes| ==> FreshNode(ch, i)
  }

  /** Posted obsels are new; any other kind of edit; any refresh at all. */
  ghost predicate PostingEvent(ch: Chain, ev: Event)
    requires ChainInv(ch)
  {
    ValidEvent(ch, ev) && (ev.EditStored? ==> FreshEdit(ch.colls[0], ev.e))
  }

  lemma FreshChainIsHarmless(ch: Chain, i: nat, fromScratch: bool)
    requires ChainInv(ch) && FreshChain(ch) && i < |ch.nodes|
    ensures HarmlessAt(ch, i, fromScratch)
  {
    hide Ready, ChoiceOf, EvolvesFresh, Harmless, NodeInv, Separate, Inv, View;
    var n := ch.nodes[i];
    ReadyAt(ch, i, fromScratch);
    assert FreshNode(ch, i);
    FreshIsHarmless(HopAt(ch, i), n.bgps, SeenBy(n, fromScratch), n.at, n.snap, ch.colls[i], ch.colls[i + 1]);
  }

  /** The source of a node goes on growing fresh. */
  lemma SourceGrowsFresh(ch: Chain, i: nat, c: Coll)
    requires ChainInv(ch) && FreshChain(ch) && i < |ch.nodes|
    requires Evolves(ch.colls[i], c) && EvolvesFresh(ch.colls[i], c)
    ensures ch.nodes[i].seen != UNSEEN ==> EvolvesFresh(ch.nodes[i].snap, c)
  {
    hide EvolvesFresh, Evolves, Separate, View, IsPart, Remembers;
    assert NodeInv(ch, i) && FreshNode(ch, i);
    if ch.nodes[i].seen != UNSEEN {
      EvolvesFreshTrans(ch.nodes[i].snap, ch.colls[i], c);
    }
  }

  /** A collection that grows fresh, or of which only the tags change. */
  lemma CollGrowsFresh(ch: Chain, i: nat, c: Coll)
    requires ChainInv(ch) && FreshChain(ch) && i < |ch.colls|
    requires Evolves(ch.colls[i], c) && EvolvesFresh(ch.colls[i], c) && (i > 0 ==> c.g == ch.colls[i].g)
    ensures FreshChain(ch.(colls := ch.colls[i := c]))
  {
    hide EvolvesFresh, NodeInv, Separate, View, Promise;
    var ch' := ch.(colls := ch.colls[i := c]);
    EvolvesKeepsTrace(ch.colls[i], c);
    if i < |ch.nodes| { SourceGrowsFresh(ch, i, c); }
    forall j | 0 <= j < |ch'.nodes| ensures FreshNode(ch', j) {
      assert FreshNode(ch, j);
    }
  }

  lemma RangeGrowsFresh(c: Coll, r: int, last: Option<Uri>)
    requires c.last.Some? ==> c.last.value in c.g.obsels
    ensures EvolvesFresh(c, Apply(c, SetRange(r, last)))
  {
  }

  lemma PostingStep(ch: Chain, ev: Event)
    requires ChainInv(ch) && FreshChain(ch) && PostingEvent(ch, ev)
    ensures FreshChain(Next(ch, ev))
  {
    hide Compute, EvolvesFresh, NodeInv, Separate, FreshEdit, Promise, FreshNode;
    match ev
    case EditStored(e) =>
      FreshEditEvolves(ch.colls[0], e);
      CollGrowsFresh(ch, 0, Apply(ch.colls[0], e));
    case EditRange(i, r, last) =>
      EditEvolves(ch.colls[i], SetRange(r, last));
      RangeGrowsFresh(ch.colls[i], r, last);
      CollGrowsFresh(ch, i, Apply(ch.colls[i], SetRange(r, last)));
    case Refresh(i, f) => RefreshStaysFresh(ch, i, f);
  }

  lemma RefreshStaysFresh(ch: Chain, i: nat, fromScratch: bool)
    requires ChainInv(ch) && FreshChain(ch) && i < |ch.nodes|
    ensures FreshChain(Refreshed(ch, i, fromScratch))
  {
    hide Compute, HarmlessAt, EvolvesFresh, Evolves, NodeInv, Separate, Ready, View;
    FreshChainIsHarmless(ch, i, fromScratch);
    RefreshExactAt(ch, i, fromScratch);
    RefreshStep(ch, i, fromScratch);
    RefreshGrowsFresh(ch, i, fromScratch);
    var ch' := Refreshed(ch, i, fromScratch);
    if i + 1 < |ch.nodes| { SourceGrowsFresh(ch, i + 1, ch'.colls[i + 1]); }
    SameGrowsFresh(ch.colls[i]);
    forall j | 0 <= j < |ch'.nodes| ensures FreshNode(ch', j) {
      assert FreshNode(ch, j);
      assert Inv(ch.colls[j]);
    }
  }

  lemma SameGrowsFresh(c: Coll)
    ensures EvolvesFresh(c, c)
  {
  }

  lemma RefreshGrowsFresh(ch: Chain, i: nat, fromScratch: bool)
    requires ChainInv(ch) && FreshChain(ch) && i < |ch.nodes|
    ensures EvolvesFresh(ch.colls[i + 1], Refreshed(ch, i, fromScratch).colls[i + 1])
  {
    hide Ready, Compute, EvolvesFresh, NodeInv, Separate, Inv, View;
    var n := ch.nodes[i];
    ReadyAt(ch, i, fromScratch);
    assert FreshNode(ch, i);
    FreshTarget(HopAt(ch, i), n.bgps, SeenBy(n, fromScratch), n.at, n.snap, ch.colls[i], ch.colls[i + 1]);
  }

  ghost predicate PostingEvents(ch: Chain, evs: seq<Event>)
    requires ChainInv(ch)
    decreases |evs|
  {
    evs == [] || (PostingEvent(ch, evs[0]) && (NextKeeps(ch, evs[0]); PostingEvents(Next(ch, evs[0]), evs[1..])))
  }

  lemma {:induction false} PostingRun(ch: Chain, evs: seq<Event>)
    requires ChainInv(ch) && FreshChain(ch) && PostingEvents(ch, evs)
    ensures ValidEvents(ch, evs)
    ensures ChainInv(RunAll(ch, evs)) && FreshChain(RunAll(ch, evs)) && |RunAll(ch, evs).nodes| == |ch.nodes|
    decreases |evs|
  {
    hide ChainInv, FreshChain, ValidEvent, Next;
    if evs != [] {
      PostingStep(ch, evs[0]);
      NextKeeps(ch, evs[0]);
      PostingRun(Next(ch, evs[0]), evs[1..]);
    }
  }

  /** When every graph added is about a new obsel, as with posted obsels, no condition is
      left: after any mix of edits and refreshes of any traces, the next refresh of any
      trace, in whichever mode, equals computing it from nothing. */
  lemma PostingRunsAreExact(ch: Chain, evs: seq<Event>, i: nat, fromScratch: bool)
    requires ChainInv(ch) && FreshChain(ch) && PostingEvents(ch, evs) && i < |ch.nodes|
    ensures ValidEvents(ch, evs)
    ensures var now := RunAll(ch, evs);
            && ChainInv(now) && |now.nodes| == |ch.nodes|
            && Refreshed(now, i, fromScratch).colls[i + 1].g
               == View(HopAt(now, i), now.colls[i].g, ChoiceOf(now.nodes[i].bgps))
  {
    hide ChainInv, FreshChain, View, ChoiceOf, Refreshed, HarmlessAt;
    PostingRun(ch, evs);
    FreshChainIsHarmless(RunAll(ch, evs), i, fromScratch);
    EveryRefreshIsExact(ch, evs, i, fromScratch);
  }

  /** So are the refreshes of the whole chain, in order. */
  lemma {:induction false} PostingRefreshesAreHarmless(ch: Chain, i: nat, fromScratch: bool)
    requires ChainInv(ch) && FreshChain(ch) && i <= |ch.nodes|
    ensures AllHarmless(ch, i, fromScratch)
    decreases |ch.nodes| - i
  {
    hide ChainInv, FreshChain, HarmlessAt, Compute;
    if i < |ch.nodes| {
      FreshChainIsHarmless(ch, i, fromScratch);
      RefreshStep(ch, i, fromScratch);
      RefreshStaysFresh(ch, i, fromScratch);
      PostingRefreshesAreHarmless(Refreshed(ch, i, fromScratch), i + 1, fromScratch);
    }
  }

  /** After such a run, refreshing a chain in order gives every trace of it the composition
      of the transformations leading to it. */
  lemma PostingChainIsComposition(ch: Chain, evs: seq<Event>, fromScratch: bool)
    requires ChainInv(ch) && FreshChain(ch) && PostingEvents(ch, evs)
    ensures ValidEvents(ch, evs)
    ensures var now := RunAll(ch, evs);
            && ChainInv(now) && |now.nodes| == |ch.nodes| && ValidEvents(now, Refreshes(0, |now.nodes|, fromScratch))
            && var last := RunAll(now, Refreshes(0, |now.nodes|, fromScratch));
            && ChainInv(last) && |last.nodes| == |ch.nodes|
            && forall j :: 0 <= j <= |ch.nodes| ==>
                 last.colls[j].g == Composed(Traces(now), Rules(now), now.colls[0].g, j)
  {
    hide FreshChain, ValidEvents, RunAll, PostingEvents, NodeInv, Separate, AllHarmless;
    PostingRun(ch, evs);
    PostingRefreshesAreHarmless(RunAll(ch, evs), 0, fromScratch);
    RefreshedChainIsComposition(ch, evs, fromScratch);
  }

  /** A chain as it is created: every collection is empty and nothing has been computed. */
  ghost predicate Created(ch: Chain) {
    && |ch.colls| == |ch.nodes| + 1
    && (forall i, j :: 0 <= i < j < |ch.colls| ==> ch.colls[i].trace != ch.colls[j].trace)
    && (forall c <- ch.colls :: c == Coll(c.trace, EMPTY, c.range, None, 0, 0, 0, 0))
    && (forall n <- ch.nodes :: n.seen == UNSEEN)
  }

  lemma CreatedInv(ch: Chain)
    requires Created(ch)
    ensures ChainInv(ch) && FreshChain(ch)
  {
  }

  /* ---------- a refresh that misses a relation ---------- */

  const A := Uri(0, 0)
  const B := Uri(0, 1)
  const BETWEEN := Rel(A, 0, B)

  function Instant(x: int): Obsel {
    Obsel(x, x, {}, {}, None)
  }

  /** Two obsels, a refresh, then a relation from the first to the second. */
  const LATE_RUN := [EditStored(AddOnly([ObselGraph(A, Instant(0), {})])),
                     EditStored(AddOnly([ObselGraph(B, Instant(1), {})])),
                     Refresh(0, false),
                     EditStored(AddOnly([ObselGraph(A, Instant(0), {BETWEEN})]))]

  /** A stored trace with a range of 10, and a trace that copies all its obsels. */
  const COPYING_CHAIN :=
    var stored, copied := Coll(0, EMPTY, 10, None, 0, 0, 0, 0), Coll(1, EMPTY, 0, None, 0, 0, 0, 0);
    Chain([stored, copied], [Node([Bgp(0, 0, SubRule(None, [], 0), 0)], UNSEEN, START, stored)])

  /** One added graph: what becomes of the source. */
  lemma AddStored(ch: Chain, og: ObselGraph)
    requires ChainInv(ch) && Describes(ch.colls[0].g, ch.colls[0].trace, og)
    requires og.uri in ch.colls[0].g.obsels ==> og.obs == ch.colls[0].g.obsels[og.uri]
    requires Separate(ch, 0, AddGraph(ch.colls[0].g, og))
    ensures var c, ev := ch.colls[0], EditStored(AddOnly([og]));
            && ValidEvent(ch, ev) && ChainInv(Next(ch, ev))
            && Next(ch, ev) == ch.(colls := ch.colls[0 := Ack(c, AddStep(c.range, Open(c.g, Prepare(c, true)), og))])
  {
    hide NodeInv, Separate;
    var c := ch.colls[0];
    AddOne(c.range, Open(c.g, Prepare(c, true)), og);
    assert ValidAdds(AddGraph(c.g, og), c.trace, [og][1..]) && PlainAdds(AddGraph(c.g, og), [og][1..]);
    NextKeeps(ch, EditStored(AddOnly([og])));
  }

  /** Two obsels were added and the copy was refreshed. */
  ghost predicate RefreshedPair(ch: Chain) {
    && ChainInv(ch) && |ch.nodes| == 1
    && ch.colls[0].g == Graph(map[A := Instant(0), B := Instant(1)], {})
    && ch.colls[0].trace == 0 && ch.colls[1].trace == 1 && ch.colls[0].range == 10
    && ch.nodes[0].seen == TagsOf(ch.colls[0]) && ch.nodes[0].snap == ch.colls[0]
    && ch.nodes[0].bgps == COPYING_CHAIN.nodes[0].bgps && ch.nodes[0].at == Cursor(Some(B), Some(1))
    && TNode(HopAt(ch, 0), A) in ch.colls[1].g.obsels && TNode(HopAt(ch, 0), B) in ch.colls[1].g.obsels
    && ch.colls[1].g.rels == {}
  }

  /** Two obsels were added. */
  ghost predicate AddedPair(ch: Chain) {
    && ChainInv(ch) && ch.nodes == COPYING_CHAIN.nodes
    && ch.colls[0].g == Graph(map[A := Instant(0), B := Instant(1)], {})
    && ch.colls[0].trace == 0 && ch.colls[1].trace == 1 && ch.colls[0].range == 10
  }

  lemma OneAdded() returns (ch: Chain)
    ensures ChainInv(COPYING_CHAIN) && ValidEvents(COPYING_CHAIN, LATE_RUN[..1])
    ensures ch == RunAll(COPYING_CHAIN, LATE_RUN[..1])
    ensures ChainInv(ch) && ch.nodes == COPYING_CHAIN.nodes && ch.colls[0].g == Graph(map[A := Instant(0)], {})
    ensures ch.colls[0].trace == 0 && ch.colls[1].trace == 1 && ch.colls[0].range == 10
  {
    hide NodeInv, Compute;
    CreatedInv(COPYING_CHAIN);
    AddStored(COPYING_CHAIN, ObselGraph(A, Instant(0), {}));
    ch := Next(COPYING_CHAIN, LATE_RUN[0]);
    assert LATE_RUN[..1] == [] + [LATE_RUN[0]];
    RunOneMore(COPYING_CHAIN, [], LATE_RUN[0]);
  }

  lemma PairAdded() returns (ch: Chain)
    ensures ChainInv(COPYING_CHAIN) && ValidEvents(COPYING_CHAIN, LATE_RUN[..2])
    ensures ch == RunAll(COPYING_CHAIN, LATE_RUN[..2]) && AddedPair(ch)
  {
    hide NodeInv, ValidEvents, RunAll;
    var ch1 := OneAdded();
    AddStored(ch1, ObselGraph(B, Instant(1), {}));
    assert LATE_RUN[..2] == LATE_RUN[..1] + [LATE_RUN[1]];
    RunOneMore(COPYING_CHAIN, LATE_RUN[..1], LATE_RUN[1]);
    ch := Next(ch1, LATE_RUN[1]);
    assert ch.colls[0].g.obsels == map[A := Instant(0), B := Instant(1)];
  }

  lemma PairRefreshed(ch: Chain)
    requires AddedPair(ch)
    ensures ValidEvent(ch, LATE_RUN[2]) && RefreshedPair(Next(ch, LATE_RUN[2]))
  {
    hide NodeInv, Compute, View, HarmlessAt;
    UnseenIsHarmless(ch, 0);
    RefreshStep(ch, 0, false);
    RefreshExactAt(ch, 0, false);
    PairViewed(HopAt(ch, 0), ch.colls[0].g, ChoiceOf(ch.nodes[0].bgps));
    PairNewest(ch, 0, false);
  }

  /** The copies of both obsels. */
  lemma PairViewed(h: Hop, g: Graph, choice: Choice)
    requires h == Hop(0, 1) && g == Graph(map[A := Instant(0), B := Instant(1)], {})
    requires choice == ChoiceOf(COPYING_CHAIN.nodes[0].bgps)
    ensures var v := View(h, g, choice); TNode(h, A) in v.obsels && TNode(h, B) in v.obsels && v.rels == {}
  {
    assert A in Kept(g, choice) && B in Kept(g, choice);
  }

  lemma UnseenIsHarmless(ch: Chain, i: nat)
    requires ChainInv(ch) && i < |ch.nodes| && ch.nodes[i].seen == UNSEEN
    ensures HarmlessAt(ch, i, false)
  {
    hide NodeInv, Harmless;
    var n := ch.nodes[i];
    ScratchAndLogicAreHarmless(HopAt(ch, i), n.bgps, NotMon, n.at, ch.colls[i], ch.colls[i + 1]);
  }

  /** A refresh remembers the second obsel, unless the bound is above it. */
  lemma PairNewest(ch: Chain, i: nat, fromScratch: bool)
    requires ChainInv(ch) && |ch.nodes| == 1 && i == 0
    requires ch.colls[0].g.obsels == map[A := Instant(0), B := Instant(1)] && ch.colls[0].trace == 0
    requires ch.colls[0].range == 10 && (ch.nodes[0].at.lastSeenB.Some? ==> ch.nodes[0].at.lastSeenB == Some(1))
    ensures Refreshed(ch, i, fromScratch).nodes[0].at == Cursor(Some(B), Some(1))
  {
    hide NodeInv, CopyBgps, Advance;
    var n, g := ch.nodes[0], ch.colls[0].g;
    var mode := ChooseMode(SeenBy(n, fromScratch), ch.colls[0]);
    NewestIs(g, BeginBound(mode, n.at, 10, None), B);
  }

  /** The last edit leaves pse_mon_tag alone, and the refresh that follows skips its relation. */
  ghost predicate LatePair(ch: Chain) {
    && ChainInv(ch) && |ch.nodes| == 1
    && ch.colls[0].g == Graph(map[A := Instant(0), B := Instant(1)], {BETWEEN})
    && ch.colls[0].trace == 0 && ch.colls[1].trace == 1 && ch.colls[0].range == 10
    && ch.nodes[0].bgps == COPYING_CHAIN.nodes[0].bgps && ch.nodes[0].at == Cursor(Some(B), Some(1))
    && TNode(HopAt(ch, 0), A) in ch.colls[1].g.obsels && TNode(HopAt(ch, 0), B) in ch.colls[1].g.obsels
    && TRel(HopAt(ch, 0), BETWEEN) !in ch.colls[1].g.rels
  }

  lemma PairMissesRelation(ch: Chain)
    requires RefreshedPair(ch)
    ensures ValidEvent(ch, LATE_RUN[3])
    ensures var now := Next(ch, LATE_RUN[3]);
            LatePair(now) && ChooseMode(now.nodes[0].seen, now.colls[0]) == PseudoMon
  {
    hide NodeInv;
    var c, og := ch.colls[0], ObselGraph(A, Instant(0), {BETWEEN});
    AddStored(ch, og);
    assert Inv(c) && c.last == Some(B) by {
      assert A in c.g.obsels && B in c.g.obsels;
    }
    var o := AddStep(c.range, Open(c.g, Prepare(c, true)), og);
    assert Touched(o.g, og, A);
    assert !o.p.str && o.p.pse;
    assert o.g.obsels == c.g.obsels;
  }

  /** Neither a pseudo-monotonic nor a strict refresh copies one of the obsels again. */
  lemma PairStaysInexact(ch: Chain)
    requires LatePair(ch)
    requires ChooseMode(ch.nodes[0].seen, ch.colls[0]) == PseudoMon
                 || ChooseMode(ch.nodes[0].seen, ch.colls[0]) == StrictMon
    ensures !HarmlessAt(ch, 0, false)
    ensures Refreshed(ch, 0, false).colls[1].g != View(HopAt(ch, 0), ch.colls[0].g, ChoiceOf(ch.nodes[0].bgps))
  {
    hide NodeInv, Compute, View;
    var h, choice := HopAt(ch, 0), ChoiceOf(ch.nodes[0].bgps);
    assert A in Kept(ch.colls[0].g, choice) && B in Kept(ch.colls[0].g, choice);
    assert Linked(h, Kept(ch.colls[0].g, choice), BETWEEN);
    RefreshExactAt(ch, 0, false);
  }

  /** The same holds after the refresh, which is a strict one if nothing happens meanwhile. */
  lemma PairStaysLate(ch: Chain)
    requires LatePair(ch)
    requires Refreshed(ch, 0, false).colls[1].g != View(HopAt(ch, 0), ch.colls[0].g, ChoiceOf(ch.nodes[0].bgps))
    ensures var bad := Refreshed(ch, 0, false);
            LatePair(bad) && ChooseMode(bad.nodes[0].seen, bad.colls[0]) == StrictMon
  {
    hide Compute, View, IsPart, Separate, ChoiceOf;
    RefreshStep(ch, 0, false);
    PairNewest(ch, 0, false);
    var bad := Refreshed(ch, 0, false);
    var h, choice := HopAt(bad, 0), ChoiceOf(bad.nodes[0].bgps);
    assert NodeInv(bad, 0);
    CleanSource(bad, 0);
    ExactIff(h, bad.colls[0].g, choice, bad.colls[1].g);
    PairKept(bad.colls[0].g, choice);
  }

  lemma PairKept(g: Graph, choice: Choice)
    requires g.obsels == map[A := Instant(0), B := Instant(1)] && choice == ChoiceOf(COPYING_CHAIN.nodes[0].bgps)
    ensures A in Kept(g, choice) && B in Kept(g, choice)
  {
  }

  /** A run of the model in which a pseudo-monotonic refresh misses a relation: it was
      added between two obsels that had been copied. The relation is still missing after
      the next refresh, a strict one. */
  lemma LateRelationIsMissed()
    ensures Created(COPYING_CHAIN) && ChainInv(COPYING_CHAIN)
    ensures ValidEvents(COPYING_CHAIN, LATE_RUN) && ValidEvents(COPYING_CHAIN, LATE_RUN + [Refresh(0, false)])
    ensures var now, bad := RunAll(COPYING_CHAIN, LATE_RUN), RunAll(COPYING_CHAIN, LATE_RUN + [Refresh(0, false)]);
            && LatePair(now) && LatePair(bad)
            && ChooseMode(now.nodes[0].seen, now.colls[0]) == PseudoMon
            && Refreshed(now, 0, false).colls[1].g != View(HopAt(now, 0), now.colls[0].g, ChoiceOf(now.nodes[0].bgps))
            && ChooseMode(bad.nodes[0].seen, bad.colls[0]) == StrictMon
            && Refreshed(bad, 0, false).colls[1].g != View(HopAt(bad, 0), bad.colls[0].g, ChoiceOf(bad.nodes[0].bgps))
  {
    hide NodeInv, Compute, View, HarmlessAt, ChainInv, AddStep, Apply, Describes, Inv;
    var pair := PairAdded();
    PairRefreshed(pair);
    assert LATE_RUN[..3] == LATE_RUN[..2] + [LATE_RUN[2]];
    RunOneMore(COPYING_CHAIN, LATE_RUN[..2], LATE_RUN[2]);
    var ch := Next(pair, LATE_RUN[2]);
    PairMissesRelation(ch);
    assert LATE_RUN == LATE_RUN[..3] + [LATE_RUN[3]];
    RunOneMore(COPYING_CHAIN, LATE_RUN[..3], LATE_RUN[3]);
    var now := Next(ch, LATE_RUN[3]);
    PairStaysInexact(now);
    PairStaysLate(now);
    RunOneMore(COPYING_CHAIN, LATE_RUN, Refresh(0, false));
    PairStaysInexact(Refreshed(now, 0, false));
  }

  lemma {:induction false} RunOneMore(ch: Chain, evs: seq<Event>, ev: Event)
    requires ChainInv(ch) && ValidEvents(ch, evs)
    requires ChainInv(RunAll(ch, evs)) && ValidEvent(RunAll(ch, evs), ev)
    ensures ValidEvents(ch, evs + [ev]) && RunAll(ch, evs + [ev]) == Next(RunAll(ch, evs), ev)
    decreases |evs|
  {
    hide ChainInv, ValidEvent, Next;
    if evs == [] {
      assert evs + [ev] == [ev];
      NextKeeps(ch, ev);
      assert ValidEvents(Next(ch, ev), [ev][1..]);
    } else {
      NextKeeps(ch, evs[0]);
      assert (evs + [ev])[1..] == evs[1..] + [ev];
      RunOneMore(Next(ch, evs[0]), evs[1..], ev);
    }
  }
}
