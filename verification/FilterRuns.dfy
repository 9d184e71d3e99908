/**
 Whole runs of a filter: edits of its source and refreshes, in any order, exact or not.
 */
module FilterRuns {
  import opened Obsels
  import opened Tags
  import opened Select
  import opened Views
  import opened Methods
  import opened Filter

  datatype Sys = Sys(ps: Params, source: Coll, target: Coll, seen: Seen, st: State, snap: Coll)

  datatype Event =
    | EditSource(e: Edit)
    | EditRange(range: int, last: Option<Uri>)  // of the filtered trace
    | Refresh(fromScratch: bool)

  function HopOf(s: Sys): Hop {
    Hop(s.source.trace, s.target.trace)
  }

  ghost predicate SysInv(s: Sys) {
    Ready(HopOf(s), s.ps, s.seen, s.st, s.snap, s.source, s.target)
  }

  lemma InvMeans(s: Sys)
    requires SysInv(s)
    ensures Inv(s.source) && Inv(s.target) && s.source.trace != s.target.trace
    ensures s.seen != UNSEEN ==> Owned(s.snap.g, s.source.trace)
  {
  }

  function SeenBy(s: Sys, fromScratch: bool): Seen {
    if fromScratch then UNSEEN else s.seen
  }

  function ModeOf(s: Sys, fromScratch: bool): Mode {
    ChooseMode(SeenBy(s, fromScratch), s.source)
  }

  /** Any edit that keeps the tags honest, and any refresh. */
  ghost predicate ValidEvent(s: Sys, ev: Event)
    requires SysInv(s)
  {
    match ev
    case EditSource(e) => PlainEdit(s.source, e) && Clean(HopOf(s), Apply(s.source, e).g)
    case EditRange(r, last) => Valid(s.target, SetRange(r, last))
    case Refresh(_) => true
  }

  ghost predicate HarmlessNow(s: Sys, fromScratch: bool) {
    Harmless(HopOf(s), s.ps, ModeOf(s, fromScratch), s.st, s.source, s.target)
  }

  ghost function Refreshed(s: Sys, fromScratch: bool): Sys
    requires SysInv(s)
  {
    var (target', st') := Compute(HopOf(s), s.ps, ModeOf(s, fromScratch), s.st, s.source, s.target);
    s.(target := target', seen := TagsOf(s.source), st := st', snap := s.source)
  }

  ghost function Next(s: Sys, ev: Event): Sys
    requires SysInv(s) && ValidEvent(s, ev)
  {
    match ev
    case EditSource(e) => s.(source := Apply(s.source, e))
    case EditRange(r, last) => s.(target := Apply(s.target, SetRange(r, last)))
    case Refresh(f) => Refreshed(s, f)
  }

  lemma ReadyFor(s: Sys, fromScratch: bool)
    requires SysInv(s)
    ensures Ready(HopOf(s), s.ps, SeenBy(s, fromScratch), s.st, s.snap, s.source, s.target)
  {
    hide IsPart, Remembers;
  }

  lemma NextKeeps(s: Sys, ev: Event)
    requires SysInv(s) && ValidEvent(s, ev)
    ensures SysInv(Next(s, ev))
    ensures ev.Refresh? ==> HopOf(Next(s, ev)) == HopOf(s)
  {
    hide Promise, Compute, Remembers, IsPart;
    var h := HopOf(s);
    match ev
    case EditSource(e) =>
      EditEvolves(s.source, e);
      SyncedAfterEvolution(h, WideChoice(s.ps), s.seen, s.snap, s.source, Apply(s.source, e), s.target);
    case EditRange(r, last) =>
      EditEvolves(s.target, SetRange(r, last));
    case Refresh(f) =>
      ReadyFor(s, f);
      ReadyAgain(h, s.ps, SeenBy(s, f), s.st, s.snap, s.source, s.target);
  }

  ghost predicate ValidEvents(s: Sys, evs: seq<Event>)
    requires SysInv(s)
    decreases |evs|
  {
    evs == [] || (ValidEvent(s, evs[0]) && (NextKeeps(s, evs[0]); ValidEvents(Next(s, evs[0]), evs[1..])))
  }

  ghost function RunAll(s: Sys, evs: seq<Event>): Sys
    requires SysInv(s) && ValidEvents(s, evs)
    decreases |evs|
  {
    if evs == [] then s else (NextKeeps(s, evs[0]); RunAll(Next(s, evs[0]), evs[1..]))
  }

  lemma {:induction false} RunAllKeeps(s: Sys, evs: seq<Event>)
    requires SysInv(s) && ValidEvents(s, evs)
    ensures SysInv(RunAll(s, evs))
    decreases |evs|
  {
    hide SysInv, ValidEvent, Next;
    if evs != [] {
      NextKeeps(s, evs[0]);
      RunAllKeeps(Next(s, evs[0]), evs[1..]);
    }
  }

  ghost predicate ExactNow(s: Sys, fromScratch: bool)
    requires SysInv(s)
  {
    InvMeans(s);
    Refreshed(s, fromScratch).target.g == View(HopOf(s), s.source.g, ChoiceOf(s.ps))
  }

  lemma ExactNowIff(s: Sys, fromScratch: bool)
    requires SysInv(s)
    ensures ExactNow(s, fromScratch) <==> HarmlessNow(s, fromScratch)
  {
    hide Compute, View, Harmless, Remembers, Synced;
    ReadyFor(s, fromScratch);
    RefreshExact(HopOf(s), s.ps, SeenBy(s, fromScratch), s.st, s.snap, s.source, s.target);
  }

  /** After any run of edits and refreshes, exact or not, the next refresh, in whichever
      mode, gives what filtering from nothing gives, if and only if it is harmless. One
      from scratch always is. */
  lemma EveryRefreshIsExact(s: Sys, evs: seq<Event>, fromScratch: bool)
    requires SysInv(s) && ValidEvents(s, evs)
    ensures var now := RunAll(s, evs);
            && SysInv(now)
            && (ExactNow(now, fromScratch) <==> HarmlessNow(now, fromScratch))
            && (ModeOf(now, fromScratch) == NotMon ==> ExactNow(now, fromScratch))
            && (fromScratch ==> ModeOf(now, fromScratch) == NotMon)
  {
    hide Harmless, ExactNow, ValidEvents, RunAll, SysInv;
    RunAllKeeps(s, evs);
    var now := RunAll(s, evs);
    ExactNowIff(now, fromScratch);
    ScratchIsHarmless(HopOf(now), now.ps, now.st, now.source, now.target);
  }

  /* ---------- runs over instantaneous obsels ---------- */

  /** No `after` bound, a range that stays as it is, obsels that begin when they end; and
      no obsel to keep was missed by the last refresh. */
  ghost predicate Steady(s: Sys) {
    && s.ps.mintime.None? && 0 <= s.source.range && Instants(s.source.g)
    && (s.seen != UNSEEN ==>
          && s.snap.range == s.source.range
          && forall u <- Kept(s.snap.g, WideChoice(s.ps)) :: TNode(HopOf(s), u) in s.target.g.obsels)
  }

  /** Any edit that leaves instantaneous obsels, but one of the range of the source; and
      any refresh. */
  ghost predicate SteadyEvent(s: Sys, ev: Event)
    requires SysInv(s)
  {
    ValidEvent(s, ev) && (ev.EditSource? ==> !ev.e.SetRange? && Instants(Apply(s.source, ev.e).g))
  }

  ghost predicate NothingLeftOutNow(s: Sys, fromScratch: bool) {
    NothingLeftOut(HopOf(s), s.ps, ModeOf(s, fromScratch), s.st, s.source, s.target)
  }

  lemma SteadyRefresh(s: Sys, fromScratch: bool)
    requires SysInv(s) && Steady(s)
    ensures Steady(Refreshed(s, fromScratch))
    ensures HarmlessNow(s, fromScratch) <==> NothingLeftOutNow(s, fromScratch)
  {
    hide Compute, Clean, Synced, Remembers, NothingLeftOut, Queries;
    ReadyFor(s, fromScratch);
    InstantsAreReached(HopOf(s), s.ps, SeenBy(s, fromScratch), s.st, s.snap, s.source, s.target);
    NextKeeps(s, Refresh(fromScratch));
  }

  lemma SteadyStep(s: Sys, ev: Event)
    requires SysInv(s) && Steady(s) && SteadyEvent(s, ev)
    ensures SysInv(Next(s, ev)) && Steady(Next(s, ev))
  {
    hide SysInv, Compute, Clean, Valid;
    NextKeeps(s, ev);
    match ev
    case Refresh(f) => SteadyRefresh(s, f);
    case EditRange(r, last) => InvMeans(s);
    case EditSource(e) =>
      InvMeans(s);
      RangeKept(s.source, e);
      TraceKept(s.source, e);
  }

  lemma RangeKept(c: Coll, e: Edit)
    requires c.last.Some? ==> c.last.value in c.g.obsels
    requires !e.SetRange?
    ensures Apply(c, e).range == c.range
  {
  }

  lemma TraceKept(c: Coll, e: Edit)
    requires c.last.Some? ==> c.last.value in c.g.obsels
    ensures Apply(c, e).trace == c.trace
  {
  }

  ghost predicate SteadyEvents(s: Sys, evs: seq<Event>)
    requires SysInv(s)
    decreases |evs|
  {
    evs == [] || (SteadyEvent(s, evs[0]) && (NextKeeps(s, evs[0]); SteadyEvents(Next(s, evs[0]), evs[1..])))
  }

  lemma {:induction false} SteadyRun(s: Sys, evs: seq<Event>)
    requires SysInv(s) && Steady(s) && SteadyEvents(s, evs)
    ensures ValidEvents(s, evs) && SysInv(RunAll(s, evs)) && Steady(RunAll(s, evs))
    decreases |evs|
  {
    hide SysInv, Steady, ValidEvent, Next;
    if evs != [] {
      SteadyStep(s, evs[0]);
      SteadyRun(Next(s, evs[0]), evs[1..]);
    }
  }

  /** Over instantaneous obsels, the next refresh after any such run is exact, in whichever
      mode, if and only if each relation among the obsels to keep is there or has an end
      among the obsels that are copied. */
  lemma InstantRunsAreExact(s: Sys, evs: seq<Event>, fromScratch: bool)
    requires SysInv(s) && Steady(s) && SteadyEvents(s, evs)
    ensures ValidEvents(s, evs)
    ensures var now := RunAll(s, evs);
            SysInv(now) && (ExactNow(now, fromScratch) <==> NothingLeftOutNow(now, fromScratch))
  {
    hide SysInv, Steady, ExactNow, HarmlessNow, NothingLeftOutNow;
    SteadyRun(s, evs);
    ExactNowIff(RunAll(s, evs), fromScratch);
    SteadyRefresh(RunAll(s, evs), fromScratch);
  }

  /* ---------- runs in which obsels are posted ---------- */

  /** The last refresh was exact, and every relation added since is about an added obsel. */
  ghost predicate SourceFresh(s: Sys) {
    s.seen != UNSEEN ==>
      && EvolvesFresh(s.snap, s.source)
      && Owned(s.snap.g, s.source.trace) && s.target.g == View(HopOf(s), s.snap.g, ChoiceOf(s.ps))
  }

  ghost predicate PostingEvent(s: Sys, ev: Event)
    requires SysInv(s)
  {
    SteadyEvent(s, ev) && (ev.EditSource? ==> FreshEdit(s.source, ev.e))
  }

  lemma PostingStep(s: Sys, ev: Event)
    requires SysInv(s) && Steady(s) && SourceFresh(s) && PostingEvent(s, ev)
    ensures SysInv(Next(s, ev)) && SourceFresh(Next(s, ev))
  {
    hide Steady, Compute, Clean, Remembers, Promise, Harmless, View, IsPart, EvolvesFresh;
    NextKeeps(s, ev);
    match ev
    case Refresh(f) =>
      PostingRefreshIsExact(s, f);
      assert EvolvesFresh(s.source, s.source) by { SameGrowsFresh(s.source); }
    case EditRange(r, last) =>
    case EditSource(e) =>
      FreshEditEvolves(s.source, e);
      TraceKept(s.source, e);
      if s.seen != UNSEEN { EvolvesFreshTrans(s.snap, s.source, Apply(s.source, e)); }
  }

  lemma SameGrowsFresh(c: Coll)
    ensures EvolvesFresh(c, c)
  {
  }

  lemma PostingRefreshIsExact(s: Sys, fromScratch: bool)
    requires SysInv(s) && Steady(s) && SourceFresh(s)
    ensures ExactNow(s, fromScratch)
  {
    hide View, IsPart, Compute, Remembers, Inv, Clean;
    var h, seen, mode := HopOf(s), SeenBy(s, fromScratch), ModeOf(s, fromScratch);
    ReadyFor(s, fromScratch);
    ExactNowIff(s, fromScratch);
    HarmlessAfterExact(h, s.ps, seen, s.st, s.snap, s.source, s.target);
    if mode == LogicMon || mode == PseudoMon {
      FreshRefresh(h, WideChoice(s.ps), seen, s.snap, s.source, s.target);
      WideIsNotLate(h, s.ps, s.snap.g, s.source.g);
    }
    if mode == PseudoMon {
      InstantsAreReached(h, s.ps, seen, s.st, s.snap, s.source, s.target);
    }
  }

  lemma WideIsNotLate(h: Hop, ps: Params, g0: Graph, g1: Graph)
    requires NothingLate(h, WideChoice(ps), g0, g1)
    ensures NothingLate(h, ChoiceOf(ps), g0, g1)
  {
    assert Kept(g0, ChoiceOf(ps)) <= Kept(g0, WideChoice(ps));
    forall r | Linked(h, Kept(g0, ChoiceOf(ps)), r) ensures Linked(h, Kept(g0, WideChoice(ps)), r) {
    }
  }

  ghost predicate PostingEvents(s: Sys, evs: seq<Event>)
    requires SysInv(s)
    decreases |evs|
  {
    evs == [] || (PostingEvent(s, evs[0]) && (NextKeeps(s, evs[0]); PostingEvents(Next(s, evs[0]), evs[1..])))
  }

  lemma {:induction false} PostingRun(s: Sys, evs: seq<Event>)
    requires SysInv(s) && Steady(s) && SourceFresh(s) && PostingEvents(s, evs)
    ensures ValidEvents(s, evs)
    ensures SysInv(RunAll(s, evs)) && Steady(RunAll(s, evs)) && SourceFresh(RunAll(s, evs))
    decreases |evs|
  {
    hide SysInv, Steady, ValidEvent, Next, SourceFresh;
    if evs != [] {
      PostingStep(s, evs[0]);
      SteadyStep(s, evs[0]);
      PostingRun(Next(s, evs[0]), evs[1..]);
    }
  }

  /** When every graph added is about a new obsel, as with posted obsels, no condition is
      left: over instantaneous obsels the next refresh is exact, in whichever mode. */
  lemma PostingRunsAreExact(s: Sys, evs: seq<Event>, fromScratch: bool)
    requires SysInv(s) && Steady(s) && SourceFresh(s) && PostingEvents(s, evs)
    ensures ValidEvents(s, evs) && SysInv(RunAll(s, evs)) && ExactNow(RunAll(s, evs), fromScratch)
  {
    hide SysInv, Steady, ExactNow, SourceFresh;
    PostingRun(s, evs);
    PostingRefreshIsExact(RunAll(s, evs), fromScratch);
  }

  /* ---------- refreshes that go wrong ---------- */

  function Created(ps: Params, range: int): Sys {
    var source, target := Coll(0, EMPTY, range, None, 0, 0, 0, 0), Coll(1, EMPTY, 0, None, 0, 0, 0, 0);
    Sys(ps, source, target, UNSEEN, INITIAL, source)
  }

  function Adding(id: int, o: Obsel): Event {
    EditSource(AddOnly([ObselGraph(Uri(0, id), o, {})]))
  }

  /** Adding one obsel without relations: which tags it renews, and which obsel is last. */
  lemma AddedOne(s: Sys, id: int, o: Obsel)
    requires SysInv(s) && s.source.trace == 0 && s.source.g.rels == {} && Uri(0, id) !in s.source.g.obsels
    ensures ValidEvent(s, Adding(id, o)) && SysInv(Next(s, Adding(id, o)))
    ensures var c, d, u := s.source, Next(s, Adding(id, o)).source, Uri(0, id);
            var later := c.last.Some? ==> Less(KeyAt(c.g, c.last.value), KeyOf(u, o));
            && Next(s, Adding(id, o)) == s.(source := d)
            && d.trace == 0 && d.range == c.range && d.g == Graph(c.g.obsels[u := o], {})
            && d.last == (if later then Some(u) else c.last)
            && (d.str == c.str <==> later)
            && (d.pse == c.pse <==> (c.last.Some? ==> !TooOld(o, Prepare(c, true), c.range)))
  {
    hide Remembers, Synced;
    var c, og := s.source, ObselGraph(Uri(0, id), o, {});
    InvMeans(s);
    var open := Open(c.g, Prepare(c, true));
    AddOne(c.range, open, og);
    assert ValidAdds(AddGraph(c.g, og), c.trace, [og][1..]) && PlainAdds(AddGraph(c.g, og), [og][1..]);
    var g := AddGraph(c.g, og);
    assert forall v <- g.obsels :: Touched(g, og, v) <==> v == og.uri;
    NextKeeps(s, Adding(id, o));
  }

  /** A refresh that remembers `u`. */
  lemma RefreshedAt(s: Sys, u: Uri)
    requires SysInv(s) && s.ps.maxtime.None? && !s.st.passed
    requires u.trace == s.source.trace && u in s.source.g.obsels
    requires var begin := BeginBound(ModeOf(s, false), s.st.at, s.source.range, s.ps.mintime);
             && FromBound(begin, s.source.g.obsels[u])
             && forall v <- s.source.g.obsels :: v != u && FromBound(begin, s.source.g.obsels[v]) ==>
                  Less(KeyAt(s.source.g, v), KeyAt(s.source.g, u))
    ensures var n := Next(s, Refresh(false));
            && SysInv(n) && n.ps == s.ps && n.source == s.source && n.snap == s.source && n.seen == TagsOf(s.source)
            && n.st == State(false, Cursor(Some(u), Some(s.source.g.obsels[u].begin)))
            && n.target.trace == s.target.trace
            && (HarmlessNow(s, false) <==> ExactNow(s, false))
  {
    hide ExactNow, Harmless, Remembers, FromBound, Less, CopyRows, Advance;
    NextKeeps(s, Refresh(false));
    ExactNowIff(s, false);
    NewestIs(s.source.g, BeginBound(ModeOf(s, false), s.st.at, s.source.range, s.ps.mintime), u);
  }

  lemma {:induction false} RunOneMore(s: Sys, evs: seq<Event>, ev: Event)
    requires SysInv(s) && ValidEvents(s, evs)
    requires SysInv(RunAll(s, evs)) && ValidEvent(RunAll(s, evs), ev)
    ensures ValidEvents(s, evs + [ev]) && RunAll(s, evs + [ev]) == Next(RunAll(s, evs), ev)
    decreases |evs|
  {
    hide SysInv, ValidEvent, Next;
    if evs == [] {
      assert evs + [ev] == [ev];
      NextKeeps(s, ev);
      assert ValidEvents(Next(s, ev), [ev][1..]);
    } else {
      NextKeeps(s, evs[0]);
      assert (evs + [ev])[1..] == evs[1..] + [ev];
      RunOneMore(Next(s, evs[0]), evs[1..], ev);
    }
  }

  const KEEP_ALL := Params(None, None, (o: Obsel) => true)

  function Untyped(begin: int, end: int): Obsel {
    Obsel(begin, end, {}, {}, None)
  }

  /** A long obsel is added within the range, after a refresh. */
  const LONG_RUN := [Adding(0, Untyped(100, 110)), Refresh(false), Adding(1, Untyped(50, 105))]

  /** A run of the model in which a pseudo-monotonic refresh misses an obsel: with a range
      of 10 its end is recent enough, but it began too early for the bound that is used. */
  lemma LongObselIsMissed()
    ensures var s := Created(KEEP_ALL, 10);
            && SysInv(s) && ValidEvents(s, LONG_RUN)
            && var now := RunAll(s, LONG_RUN);
            && SysInv(now) && ChooseMode(now.seen, now.source) == PseudoMon
            && Uri(1, 1) !in Refreshed(now, false).target.g.obsels
            && Uri(1, 1) in View(HopOf(now), now.source.g, ChoiceOf(now.ps)).obsels
  {
    hide Compute, Remembers, Synced, Harmless, View;
    var s := Created(KEEP_ALL, 10);
    assert SysInv(s) by { CreatedInv(KEEP_ALL, 10); }
    AddedOne(s, 0, Untyped(100, 110));
    var s1 := Next(s, LONG_RUN[0]);
    assert HarmlessNow(s1, false) by { UnseenIsHarmless(s1); }
    RefreshedAt(s1, Uri(0, 0));
    var s2 := Next(s1, LONG_RUN[1]);
    AddedOne(s2, 1, Untyped(50, 105));
    var now := Next(s2, LONG_RUN[2]);
    assert [] + [LONG_RUN[0]] == LONG_RUN[..1] && LONG_RUN[..1] + [LONG_RUN[1]] == LONG_RUN[..2]
           && LONG_RUN[..2] + [LONG_RUN[2]] == LONG_RUN;
    RunOneMore(s, [], LONG_RUN[0]);
    RunOneMore(s, LONG_RUN[..1], LONG_RUN[1]);
    RunOneMore(s, LONG_RUN[..2], LONG_RUN[2]);
    MissesLong(now);
  }

  lemma CreatedInv(ps: Params, range: int)
    ensures SysInv(Created(ps, range)) && SourceFresh(Created(ps, range))
  {
  }

  lemma UnseenIsHarmless(s: Sys)
    requires s.seen == UNSEEN
    ensures HarmlessNow(s, false)
  {
    hide Harmless;
    ScratchIsHarmless(HopOf(s), s.ps, s.st, s.source, s.target);
  }

  /** A refresh leaves in the target the copies of what was there and of what it queries. */
  lemma Leaves(s: Sys, u: Uri)
    requires SysInv(s) && u in s.source.g.obsels
    ensures var mode := ModeOf(s, false);
            TNode(HopOf(s), u) in Refreshed(s, false).target.g.obsels
            <==> TNode(HopOf(s), u) in Left(mode, s.target).obsels || Queries(s.ps, mode, s.st, s.source, u)
  {
    hide Compute, Part, Synced, Remembers, Clean, Queries;
    InvMeans(s);
    var cp := RefreshCopies(HopOf(s), s.ps, s.seen, s.st, s.snap, s.source, s.target);
    InTargetIffDone(HopOf(s), s.source.g, WideChoice(s.ps), cp, u);
  }

  lemma MissesLong(s: Sys)
    requires SysInv(s) && s.ps == KEEP_ALL && s.source.trace == 0 && s.target.trace == 1 && s.source.range == 10
    requires s.source.g == Graph(map[Uri(0, 0) := Untyped(100, 110), Uri(0, 1) := Untyped(50, 105)], {})
    requires s.snap.g == Graph(map[Uri(0, 0) := Untyped(100, 110)], {})
    requires s.target.g == View(HopOf(s), s.snap.g, ChoiceOf(s.ps))
    requires ModeOf(s, false) == PseudoMon && s.st.at.lastSeenB == Some(100)
    ensures Uri(1, 1) !in Refreshed(s, false).target.g.obsels
    ensures Uri(1, 1) in View(HopOf(s), s.source.g, ChoiceOf(s.ps)).obsels
  {
    hide SysInv, Compute, View;
    var h, b := HopOf(s), Uri(0, 1);
    Leaves(s, b);
    NotInView(h, s.snap.g, ChoiceOf(s.ps), b);
    NotInView(h, s.source.g, ChoiceOf(s.ps), b);
  }

  /** Untyped obsels that begin at 100 or later. */
  const KEEP_LATE := Params(Some(100), None, (o: Obsel) => o.types == {})

  function Typed(begin: int, end: int): Obsel {
    Obsel(begin, end, {1}, {}, None)
  }

  /** The second refresh stops at an obsel that is out of the bound, and that is not kept;
      then an obsel is appended that ends together with it. */
  const EARLY_RUN := [Adding(0, Untyped(100, 110)), Refresh(false),
                      Adding(1, Typed(90, 112)), Adding(2, Untyped(100, 105)), Refresh(false),
                      Adding(3, Untyped(95, 112))]

  /** The situation before the second refresh: it is pseudo-monotonic, and harmless. */
  ghost predicate BeforeSecond(s: Sys) {
    && SysInv(s) && s.ps == KEEP_LATE && s.source.trace == 0 && s.target.trace == 1 && s.source.range == 20
    && s.source.g == Graph(map[Uri(0, 0) := Untyped(100, 110), Uri(0, 1) := Typed(90, 112),
                               Uri(0, 2) := Untyped(100, 105)], {})
    && s.source.last == Some(Uri(0, 1))
    && ChooseMode(s.seen, s.source) == PseudoMon && s.st == State(false, Cursor(Some(Uri(0, 0)), Some(100)))
    && Owned(s.snap.g, 0) && s.target.g == View(HopOf(s), s.snap.g, ChoiceOf(s.ps))
  }

  ghost predicate AfterFirst(s: Sys) {
    && SysInv(s) && s.ps == KEEP_LATE && s.source.trace == 0 && s.target.trace == 1 && s.source.range == 20
    && s.source.g == Graph(map[Uri(0, 0) := Untyped(100, 110)], {}) && s.source.last == Some(Uri(0, 0))
    && s.seen == TagsOf(s.source) && s.st == State(false, Cursor(Some(Uri(0, 0)), Some(100)))
    && s.snap == s.source && s.target.g == View(HopOf(s), s.snap.g, ChoiceOf(s.ps))
  }

  lemma ReachAfterFirst() returns (s: Sys)
    ensures SysInv(Created(KEEP_LATE, 20)) && ValidEvents(Created(KEEP_LATE, 20), EARLY_RUN[..2])
    ensures s == RunAll(Created(KEEP_LATE, 20), EARLY_RUN[..2]) && AfterFirst(s)
  {
    hide Compute, Remembers, Synced, Harmless, View;
    var s0, run := Created(KEEP_LATE, 20), EARLY_RUN;
    assert SysInv(s0) by { CreatedInv(KEEP_LATE, 20); }
    AddedOne(s0, 0, Untyped(100, 110));
    var s1 := Next(s0, run[0]);
    assert HarmlessNow(s1, false) by { UnseenIsHarmless(s1); }
    RefreshedAt(s1, Uri(0, 0));
    s := Next(s1, run[1]);
    assert [] + [run[0]] == run[..1] && run[..1] + [run[1]] == run[..2];
    RunOneMore(s0, [], run[0]);
    RunOneMore(s0, run[..1], run[1]);
  }

  lemma AddTwo(s: Sys)
    requires AfterFirst(s)
    ensures ValidEvent(s, EARLY_RUN[2]) && SysInv(Next(s, EARLY_RUN[2]))
    ensures ValidEvent(Next(s, EARLY_RUN[2]), EARLY_RUN[3]) && BeforeSecond(Next(Next(s, EARLY_RUN[2]), EARLY_RUN[3]))
  {
    hide Compute, Remembers, Synced, Harmless, View, Next, ValidEvent;
    AddedOne(s, 1, Typed(90, 112));
    AddedOne(Next(s, EARLY_RUN[2]), 2, Untyped(100, 105));
  }

  lemma ReachBeforeSecond() returns (s: Sys)
    ensures SysInv(Created(KEEP_LATE, 20)) && ValidEvents(Created(KEEP_LATE, 20), EARLY_RUN[..4])
    ensures s == RunAll(Created(KEEP_LATE, 20), EARLY_RUN[..4]) && BeforeSecond(s)
  {
    hide SysInv, Next, ValidEvent, ValidEvents, RunAll, ChooseMode;
    var s0, run := Created(KEEP_LATE, 20), EARLY_RUN;
    var s2 := ReachAfterFirst();
    AddTwo(s2);
    var s3 := Next(s2, run[2]);
    s := Next(s3, run[3]);
    assert run[..2] + [run[2]] == run[..3] && run[..3] + [run[3]] == run[..4];
    RunOneMore(s0, run[..2], run[2]);
    RunOneMore(s0, run[..3], run[3]);
  }

  /** A run of the model in which a strict refresh accepts an obsel that begins too early. */
  lemma EarlyObselIsAccepted()
    ensures var s := Created(KEEP_LATE, 20);
            && SysInv(s) && ValidEvents(s, EARLY_RUN) && ValidEvents(s, EARLY_RUN[..4])
            && HarmlessNow(RunAll(s, EARLY_RUN[..4]), false)
            && var now := RunAll(s, EARLY_RUN);
            && SysInv(now) && ChooseMode(now.seen, now.source) == StrictMon
            && Uri(1, 3) in Refreshed(now, false).target.g.obsels
            && Uri(1, 3) !in View(HopOf(now), now.source.g, ChoiceOf(now.ps)).obsels
  {
    hide SysInv, Next, ValidEvent, ValidEvents, RunAll, View, Compute;
    var s0, run := Created(KEEP_LATE, 20), EARLY_RUN;
    var s4 := ReachBeforeSecond();
    SecondThenAppend(s4);
    SecondIsHarmless(s4);
    var s5 := Next(s4, run[4]);
    var now := Next(s5, run[5]);
    assert run[..4] + [run[4]] == run[..5] && run[..5] + [run[5]] == run;
    RunOneMore(s0, run[..4], run[4]);
    RunOneMore(s0, run[..5], run[5]);
    AcceptsEarly(now);
  }

  /** The second refresh stops at the obsel that is out of bound; the one appended then
      comes after it, so that the next refresh is a strict one. */
  lemma SecondThenAppend(s: Sys)
    requires BeforeSecond(s)
    ensures ValidEvent(s, EARLY_RUN[4]) && SysInv(Next(s, EARLY_RUN[4]))
    ensures ValidEvent(Next(s, EARLY_RUN[4]), EARLY_RUN[5])
    ensures var now := Next(Next(s, EARLY_RUN[4]), EARLY_RUN[5]);
            && SysInv(now) && now.ps == KEEP_LATE && now.source.trace == 0 && now.target.trace == 1
            && now.source.g.obsels == map[Uri(0, 0) := Untyped(100, 110), Uri(0, 1) := Typed(90, 112),
                                          Uri(0, 2) := Untyped(100, 105), Uri(0, 3) := Untyped(95, 112)]
            && ChooseMode(now.seen, now.source) == StrictMon
                  && now.st == State(false, Cursor(Some(Uri(0, 1)), Some(90)))
  {
    hide Compute, Remembers, Synced, Harmless, View;
    RefreshedAt(s, Uri(0, 1));
    AddedOne(Next(s, EARLY_RUN[4]), 3, Untyped(95, 112));
  }

  lemma SecondIsHarmless(s: Sys)
    requires BeforeSecond(s)
    ensures HarmlessNow(s, false)
  {
    hide Synced, Remembers, Compute, Harmless, View;
    HarmlessAfterExact(HopOf(s), s.ps, s.seen, s.st, s.snap, s.source, s.target);
  }

  lemma AcceptsEarly(s: Sys)
    requires SysInv(s) && s.ps == KEEP_LATE && s.source.trace == 0 && s.target.trace == 1
    requires s.source.g.obsels == map[Uri(0, 0) := Untyped(100, 110), Uri(0, 1) := Typed(90, 112),
                                      Uri(0, 2) := Untyped(100, 105), Uri(0, 3) := Untyped(95, 112)]
    requires ModeOf(s, false) == StrictMon && s.st == State(false, Cursor(Some(Uri(0, 1)), Some(90)))
    ensures Uri(1, 3) in Refreshed(s, false).target.g.obsels
    ensures Uri(1, 3) !in View(HopOf(s), s.source.g, ChoiceOf(s.ps)).obsels
  {
    hide SysInv, Compute, View;
    InvMeans(s);
    var h, e := HopOf(s), Uri(0, 3);
    Leaves(s, e);
    NotInView(h, s.source.g, ChoiceOf(s.ps), e);
  }

  lemma NotInView(h: Hop, g: Graph, choice: Choice, u: Uri)
    requires Owned(g, h.src) && u.trace == h.src
    ensures TNode(h, u) in View(h, g, choice).obsels <==> u in Kept(g, choice)
  {
  }
}
