/**
 The filter method: an incremental filter with a time window and an early exit, and
 exactly when each of its modes equals filtering from nothing.
 */
module Filter {
  import opened Obsels
  import opened Tags
  import opened Select
  import opened Views
  import opened Methods
  import TO = TraceObsels

  /** The window, and the test made of `otypes` and `bgp`, which looks at one obsel only. */
  datatype Params = Params(mintime: Option<int>, maxtime: Option<int>, keep: Obsel -> bool)

  /** The part of the computation state that do_compute_obsels keeps for itself. */
  datatype State = State(passed: bool, at: Cursor)

  const INITIAL := State(false, START)

  predicate FromMin(ps: Params, o: Obsel) {
    ps.mintime.Some? ==> ps.mintime.value <= o.begin
  }

  predicate UntilMax(ps: Params, o: Obsel) {
    ps.maxtime.Some? ==> o.end <= ps.maxtime.value
  }

  /** What the filter is meant to keep. */
  ghost function ChoiceOf(ps: Params): Choice {
    o => if FromMin(ps, o) && UntilMax(ps, o) && ps.keep(o) then Some(o.types) else None
  }

  /** The same without the lower bound, which one mode replaces. */
  ghost function WideChoice(ps: Params): Choice {
    o => if UntilMax(ps, o) && ps.keep(o) then Some(o.types) else None
  }

  /* ---------- the incremental computation ---------- */

  function QueryFor(ps: Params, mode: Mode, at: Cursor, range: int): Query {
    ALL.(begin := BeginBound(mode, at, range, ps.mintime), end := ps.maxtime, after := After(mode, at))
  }

  function RowsFor(g: Graph, ps: Params, mode: Mode, at: Cursor, range: int): seq<Key> {
    Rows(g, QueryFor(ps, mode, at, range), ps.keep)
  }

  /** The window is passed when the newest obsel ends after it. */
  function Passed(ps: Params, g: Graph, begin: Option<int>, passed: bool): bool {
    var rows := NewestRows(g, begin);
    if rows == [] then passed else ps.maxtime.Some? && rows[0].end > ps.maxtime.value
  }

  ghost function CopyRow(h: Hop, g: Graph, range: int, mode: Mode, o: Open, u: Uri): Open
    requires u in g.obsels
  {
    if mode != StrictMon && TNode(h, u) in o.g.obsels then o
    else AddStep(range, o, CopyObsel(h, g, o.g, u, g.obsels[u].types))
  }

  ghost function CopyRows(h: Hop, g: Graph, range: int, mode: Mode, o: Open, rows: seq<Key>): Open
    requires InGraph(h.src, g, rows)
    decreases |rows|
  {
    if rows == [] then o else
      CopyRows(h, g, range, mode, CopyRow(h, g, range, mode, o, RowUri(h.src, rows[0])), rows[1..])
  }

  lemma RowsInGraph(trace: TraceId, g: Graph, ps: Params, mode: Mode, at: Cursor, range: int)
    requires Owned(g, trace)
    ensures InGraph(trace, g, RowsFor(g, ps, mode, at, range))
  {
  }

  predicate ExitsEarly(mode: Mode, st: State) {
    st.passed && mode == StrictMon
  }

  ghost function Compute(h: Hop, ps: Params, mode: Mode, st: State, source: Coll, target: Coll): (Coll, State)
    requires Owned(source.g, h.src)
    requires target.last.Some? ==> target.last.value in target.g.obsels
  {
    if ExitsEarly(mode, st) then (target, st) else
      var c := Base(mode, target);
      var begin := BeginBound(mode, st.at, source.range, ps.mintime);
      RowsInGraph(h.src, source.g, ps, mode, st.at, source.range);
      var rows := RowsFor(source.g, ps, mode, st.at, source.range);
      (Ack(c, CopyRows(h, source.g, c.range, mode, Open(c.g, Prepare(c, true)), rows)),
       State(Passed(ps, source.g, begin, mode != NotMon && st.passed),
             Advance(h.src, source.g, begin, Restart(mode, st.at))))
  }

  /* ---------- what a computation copies ---------- */

  /** The obsels among `sel` that are copied, given what was found in the target. */
  function Recopied(mode: Mode, found: Copied, sel: set<Uri>): set<Uri> {
    if mode == StrictMon then sel else sel - found.start
  }

  lemma CopyRowStep(h: Hop, g: Graph, ps: Params, mode: Mode, c: Coll, o: Open, cp: Copied, u: Uri)
    requires Copying(h, g, WideChoice(ps), c, o, cp) && u in g.obsels && WideChoice(ps)(g.obsels[u]).Some?
    ensures Copying(h, g, WideChoice(ps), c, CopyRow(h, g, c.range, mode, o, u),
                    cp.(redone := cp.redone + Recopied(mode, cp, {u})))
    ensures Describes(o.g, h.tgt, CopyObsel(h, g, o.g, u, g.obsels[u].types))
  {
    hide OpenInv, Inv, ImageObsels, PartRels, CopiedRels, Describes;
    InTargetIffDone(h, g, WideChoice(ps), cp, u);
    CopyStep(h, g, WideChoice(ps), c, o, cp, u);
    if mode != StrictMon && u in Done(cp) {
      assert cp.redone + Recopied(mode, cp, {u}) == cp.redone;
    } else {
      assert cp.redone + Recopied(mode, cp, {u}) == cp.redone + {u};
    }
  }

  lemma {:induction false} CopyRowsCopies(h: Hop, g: Graph, ps: Params, mode: Mode, c: Coll, o: Open, cp: Copied,
          rows: seq<Key>)
    requires Copying(h, g, WideChoice(ps), c, o, cp) && InGraph(h.src, g, rows)
    requires forall k <- rows :: WideChoice(ps)(g.obsels[RowUri(h.src, k)]).Some?
    ensures Copying(h, g, WideChoice(ps), c, CopyRows(h, g, c.range, mode, o, rows),
                    cp.(redone := cp.redone + Recopied(mode, cp, set k | k in rows :: RowUri(h.src, k))))
    decreases |rows|
  {
    hide Copying;
    if rows == [] {
      assert cp.redone + Recopied(mode, cp, set k | k in rows :: RowUri(h.src, k)) == cp.redone;
    } else {
      var u := RowUri(h.src, rows[0]);
      assert rows == [rows[0]] + rows[1..];
      CopyRowStep(h, g, ps, mode, c, o, cp, u);
      var cp1 := cp.(redone := cp.redone + Recopied(mode, cp, {u}));
      CopyRowsCopies(h, g, ps, mode, c, CopyRow(h, g, c.range, mode, o, u), cp1, rows[1..]);
      assert cp1.redone + Recopied(mode, cp1, set k | k in rows[1..] :: RowUri(h.src, k))
             == cp.redone + Recopied(mode, cp, set k | k in rows :: RowUri(h.src, k));
    }
  }

  /** Keeping with or without the lower bound differs in what is kept, not in the copies. */
  lemma WideView(h: Hop, g: Graph, ps: Params)
    requires Owned(g, h.src)
    ensures Chosen(g, WideChoice(ps), Kept(g, ChoiceOf(ps)))
    ensures View(h, g, ChoiceOf(ps)) == Image(h, g, WideChoice(ps), Kept(g, ChoiceOf(ps)))
  {
  }

  /** The obsel remembered is in the source, and within the window unless the window was
      passed; then some obsel ends after it. */
  ghost predicate Remembers(ps: Params, st: State, snap: Coll) {
    && (st.at.lastSeenU.Some? ==>
          st.at.lastSeenU.value in snap.g.obsels && st.at.lastSeenB == Some(snap.g.obsels[st.at.lastSeenU.value].begin))
    && (st.at.lastSeenU.None? ==> st.at.lastSeenB.None?)
    && (st.at.lastSeenU.Some? && !st.passed ==> UntilMax(ps, snap.g.obsels[st.at.lastSeenU.value]))
    && (st.passed ==> exists v <- snap.g.obsels :: !UntilMax(ps, snap.g.obsels[v]))
  }

  /** The situation of a refresh: the target is part of what the filter without its lower
      bound makes of the source as it was, and the cursor is about that source. */
  ghost predicate Ready(h: Hop, ps: Params, seen: Seen, st: State, snap: Coll, source: Coll, target: Coll) {
    && Synced(h, WideChoice(ps), seen, snap, source, target)
    && (seen != UNSEEN ==> Remembers(ps, st, snap))
    && Clean(h, source.g)
  }

  function Selected(ps: Params, mode: Mode, st: State, source: Coll): set<Uri> {
    Matching(source.g, QueryFor(ps, mode, st.at, source.range), ps.keep)
  }

  /** The refresh queries the obsel: it passes the tests, and comes after the anchor.
      Missing brackets in the filter make a strict refresh accept obsels out of the lower
      bound, if they end together with the anchor. */
  ghost predicate Queries(ps: Params, mode: Mode, st: State, source: Coll, u: Uri) {
    var g, begin, after := source.g, BeginBound(mode, st.at, source.range, ps.mintime), After(mode, st.at);
    && !ExitsEarly(mode, st)
    && u in g.obsels && ps.keep(g.obsels[u]) && UntilMax(ps, g.obsels[u])
    && (after.Some? ==> after.value in g.obsels && Less(KeyAt(g, after.value), KeyAt(g, u)))
    && (FromBound(begin, g.obsels[u])
        || (after.Some? && after.value in g.obsels && g.obsels[u].end == g.obsels[after.value].end))
  }

  /** What the rows mean. */
  lemma SelectedMeaning(h: Hop, ps: Params, seen: Seen, st: State, snap: Coll, source: Coll, target: Coll)
    requires Ready(h, ps, seen, st, snap, source, target) && !ExitsEarly(ChooseMode(seen, source), st)
    ensures var mode := ChooseMode(seen, source);
            && (After(mode, st.at).Some? ==> After(mode, st.at).value in source.g.obsels)
            && forall u :: u in Selected(ps, mode, st, source) <==> Queries(ps, mode, st, source, u)
  {
    hide IsPart, FreshGrowth;
    if ChooseMode(seen, source) == StrictMon {
      ModeReliesOn(h, WideChoice(ps), seen, snap, source, target);
    }
  }

  lemma RowsAreSelected(h: Hop, ps: Params, mode: Mode, st: State, source: Coll)
    requires Owned(source.g, h.src)
    ensures var rows := RowsFor(source.g, ps, mode, st.at, source.range);
            && InGraph(h.src, source.g, rows)
            && (set k | k in rows :: RowUri(h.src, k)) == Selected(ps, mode, st, source)
  {
    hide Accepts, Rows;
    var rows := RowsFor(source.g, ps, mode, st.at, source.range);
    RowsAreMatching(source.g, h.src, QueryFor(ps, mode, st.at, source.range), ps.keep);
    forall u | u in Selected(ps, mode, st, source) ensures exists k :: k in rows && RowUri(h.src, k) == u {
      assert RowUri(h.src, KeyAt(source.g, u)) == u;
      assert KeyAt(source.g, u) in rows;
    }
  }

  /** Unless it exits early, a computation leaves in the target what was found there, if
      it could stay, and the rows of its query that it did not skip. */
  lemma ComputeCopies(h: Hop, ps: Params, seen: Seen, st: State, snap: Coll, source: Coll, target: Coll)
    requires Ready(h, ps, seen, st, snap, source, target) && !ExitsEarly(ChooseMode(seen, source), st)
    ensures var mode := ChooseMode(seen, source);
            var (target', _) := Compute(h, ps, mode, st, source, target);
            var found := Found(mode, h, source.g, target.g);
            var cp := found.(redone := Recopied(mode, found, Selected(ps, mode, st, source)));
            && Chosen(source.g, WideChoice(ps), Done(cp))
            && target'.g == Part(h, source.g, WideChoice(ps), cp)
            && Evolves(target, target')
  {
    hide Part, Promise, OpenInv, Less, Selected, Remembers, Rows, Synced, Inv, CopyRows;
    var mode, g := ChooseMode(seen, source), source.g;
    var found := Found(mode, h, g, target.g);
    SyncedMeans(h, WideChoice(ps), seen, snap, source, target);
    SyncedFromScratch(h, WideChoice(ps), seen, snap, source, target);
    SelectedMeaning(h, ps, seen, st, snap, source, target);
    var c := Base(mode, target);
    StartCopying(h, WideChoice(ps), seen, snap, source, target);
    var rows := RowsFor(g, ps, mode, st.at, source.range);
    RowsAreSelected(h, ps, mode, st, source);
    assert forall k <- rows :: RowUri(h.src, k) in Selected(ps, mode, st, source);
    var o := Open(c.g, Prepare(c, true));
    CopyRowsCopies(h, g, ps, mode, c, o, found, rows);
    var o' := CopyRows(h, g, c.range, mode, o, rows);
    assert found.redone + Recopied(mode, found, Selected(ps, mode, st, source))
           == Recopied(mode, found, Selected(ps, mode, st, source));
    AckEvolves(c, o');
    EvolvesTrans(target, c, Ack(c, o'));
  }

  /* ---------- what a refresh leaves ---------- */

  /** The graph that the filter makes of a source: the copies of the obsels within the
      window that pass the test, with their own types. */
  lemma FilteredExactly(h: Hop, ps: Params, g: Graph)
    requires Owned(g, h.src)
    ensures var view := View(h, g, ChoiceOf(ps));
            && (forall w :: w in view.obsels <==>
                  && w.trace == h.tgt && Uri(h.src, w.id) in g.obsels
                  && var o := g.obsels[Uri(h.src, w.id)];
                     && (ps.mintime.Some? ==> ps.mintime.value <= o.begin)
                     && (ps.maxtime.Some? ==> o.end <= ps.maxtime.value)
                     && ps.keep(o))
            && forall w <- view.obsels ::
                 var o := g.obsels[Uri(h.src, w.id)];
                 view.obsels[w] == Obsel(o.begin, o.end, o.types, o.attrs, Some(Uri(h.src, w.id)))
  {
    hide View;
    ViewSays(h, g, ChoiceOf(ps));
  }

  /* ---------- when a refresh is exact ---------- */

  /** The target that is added to: emptied, if nothing in it can be kept. */
  function Left(mode: Mode, target: Coll): Graph {
    if mode == NotMon then EMPTY else target.g
  }

  /** The refresh copies the obsel: it queries it, and does not skip it for being there. */
  ghost predicate CopiesNow(h: Hop, ps: Params, mode: Mode, st: State, source: Coll, target: Coll, u: Uri) {
    Queries(ps, mode, st, source, u) && (mode == StrictMon || TNode(h, u) !in Left(mode, target).obsels)
  }

  /** Each relation among the obsels to keep is there, or has an end among the obsels that
      are copied. */
  ghost predicate NothingLeftOut(h: Hop, ps: Params, mode: Mode, st: State, source: Coll, target: Coll) {
    forall r <- source.g.rels :: Linked(h, Kept(source.g, ChoiceOf(ps)), r) ==>
      || TRel(h, r) in Left(mode, target).rels
      || CopiesNow(h, ps, mode, st, source, target, r.s) || CopiesNow(h, ps, mode, st, source, target, r.o)
  }

  /** Nothing that begins before the filter's bound is there or queried; whatever is to be
      kept is there or queried; and no relation among that is left out. */
  ghost predicate Harmless(h: Hop, ps: Params, mode: Mode, st: State, source: Coll, target: Coll) {
    var g, left := source.g, Left(mode, target);
    && (forall u <- g.obsels ::
          TNode(h, u) in left.obsels || Queries(ps, mode, st, source, u) ==> FromMin(ps, g.obsels[u]))
    && (forall u <- Kept(g, ChoiceOf(ps)) :: TNode(h, u) in left.obsels || Queries(ps, mode, st, source, u))
    && NothingLeftOut(h, ps, mode, st, source, target)
  }

  /** The obsels there in the end, and the relations carried over. */
  ghost predicate CopiesAsQueried(h: Hop, ps: Params, mode: Mode, st: State, source: Coll, target: Coll, cp: Copied) {
    && (forall u :: u in Done(cp) <==>
          && u in source.g.obsels
          && (TNode(h, u) in Left(mode, target).obsels || Queries(ps, mode, st, source, u)))
    && (forall r <- source.g.rels :: Carried(cp, r) <==>
          || TRel(h, r) in Left(mode, target).rels
          || CopiesNow(h, ps, mode, st, source, target, r.s) || CopiesNow(h, ps, mode, st, source, target, r.o))
  }

  lemma QueriedIsCopied(h: Hop, ps: Params, mode: Mode, st: State, source: Coll, target: Coll, sel: set<Uri>)
    requires forall u :: u in sel <==> Queries(ps, mode, st, source, u)
    ensures var found := Found(mode, h, source.g, target.g);
            CopiesAsQueried(h, ps, mode, st, source, target, found.(redone := Recopied(mode, found, sel)))
  {
    hide Queries;
    forall u ensures u in sel ==> u in source.g.obsels {
      QueriedIsObsel(ps, mode, st, source, u);
    }
  }

  /** What a refresh leaves in the target, early exit included. */
  lemma RefreshCopies(h: Hop, ps: Params, seen: Seen, st: State, snap: Coll, source: Coll, target: Coll)
    returns (cp: Copied)
    requires Ready(h, ps, seen, st, snap, source, target)
    ensures var mode, g := ChooseMode(seen, source), source.g;
            && Chosen(g, WideChoice(ps), Done(cp))
            && Compute(h, ps, mode, st, source, target).0.g == Part(h, g, WideChoice(ps), cp)
            && CopiesAsQueried(h, ps, mode, st, source, target, cp)
  {
    hide Part, Synced, Selected, Remembers, Clean, Queries, WideChoice, CopiesAsQueried;
    var mode, g := ChooseMode(seen, source), source.g;
    var found := Found(mode, h, g, target.g);
    if ExitsEarly(mode, st) {
      ModeReliesOn(h, WideChoice(ps), seen, snap, source, target);
      cp := found;
      forall u ensures !Queries(ps, mode, st, source, u) {
        QueriedIsObsel(ps, mode, st, source, u);
      }
      QueriedIsCopied(h, ps, mode, st, source, target, {});
      assert found.(redone := Recopied(mode, found, {})) == found;
    } else {
      SelectedMeaning(h, ps, seen, st, snap, source, target);
      ComputeCopies(h, ps, seen, st, snap, source, target);
      QueriedIsCopied(h, ps, mode, st, source, target, Selected(ps, mode, st, source));
      cp := found.(redone := Recopied(mode, found, Selected(ps, mode, st, source)));
    }
  }

  /** After any refresh the target has the copies that were there, unless it was emptied,
      and those of the obsels that pass the test, end within the window, and begin: from
      its lower bound on; in a pseudo-monotonic one, from the begin remembered on, less the
      range. A strict one adds what comes after the obsel remembered only, and nothing once
      the window was passed; but it also adds what ends together with that obsel. */
  lemma RefreshedTargetSays(h: Hop, ps: Params, seen: Seen, st: State, snap: Coll, source: Coll, target: Coll)
    requires Ready(h, ps, seen, st, snap, source, target)
    ensures var mode := ChooseMode(seen, source);
            var t := Compute(h, ps, mode, st, source, target).0;
            forall u <- source.g.obsels ::
              var o := source.g.obsels[u];
              var fromMin := ps.mintime.Some? ==> ps.mintime.value <= o.begin;
              Uri(h.tgt, u.id) in t.g.obsels <==>
                || (mode != NotMon && Uri(h.tgt, u.id) in target.g.obsels)
                || (&& ps.keep(o) && (ps.maxtime.Some? ==> o.end <= ps.maxtime.value)
                    && match mode
                       case NotMon => fromMin
                       case LogicMon => fromMin
                       case PseudoMon =>
                         if st.at.lastSeenB.None? then fromMin else st.at.lastSeenB.value - source.range <= o.begin
                       case StrictMon =>
                         && !st.passed
                         && (match st.at.lastSeenU
                             case None => fromMin
                             case Some(a) =>
                               && a in source.g.obsels
                               && var l := source.g.obsels[a];
                                  && (fromMin || o.end == l.end)
                                  && (|| l.end < o.end
                                      || (l.end == o.end && l.begin < o.begin)
                                      || (l.end == o.end && l.begin == o.begin && a.id < u.id))))
  {
    hide Compute, Part, Synced, Remembers, Clean, CopiesNow, WideChoice;
    var mode := ChooseMode(seen, source);
    var cp := RefreshCopies(h, ps, seen, st, snap, source, target);
    SyncedMeans(h, WideChoice(ps), seen, snap, source, target);
    forall u | u in source.g.obsels
      ensures Uri(h.tgt, u.id) in Compute(h, ps, mode, st, source, target).0.g.obsels <==>
                Uri(h.tgt, u.id) in Left(mode, target).obsels || Queries(ps, mode, st, source, u)
    {
      InTargetIffDone(h, source.g, WideChoice(ps), cp, u);
    }
  }

  /** The image of a relation among the obsels that are there now, or between one of them and
      another resource, is there exactly if it was, in a target that was not emptied, or if
      one of its ends is copied now: one that was not there before or, in a strict refresh,
      one that comes after the obsel remembered, before the window was passed. */
  lemma RefreshedRelationsSay(h: Hop, ps: Params, seen: Seen, st: State, snap: Coll, source: Coll, target: Coll)
    requires Ready(h, ps, seen, st, snap, source, target)
    ensures var mode, g := ChooseMode(seen, source), source.g;
            var t := Compute(h, ps, mode, st, source, target).0;
            var there := set u | u in g.obsels && Uri(h.tgt, u.id) in t.g.obsels;
            forall r <- g.rels :: Linked(h, there, r) ==>
              (TRel(h, r) in t.g.rels <==>
                || (mode != NotMon && TRel(h, r) in target.g.rels)
                || exists u ::
                     && (u == r.s || u == r.o) && u in there
                     && (mode == LogicMon || mode == PseudoMon ==> Uri(h.tgt, u.id) !in target.g.obsels)
                     && (mode == StrictMon ==>
                           && !st.passed && ps.keep(g.obsels[u]) && UntilMax(ps, g.obsels[u])
                           && (st.at.lastSeenU.None? ==> FromMin(ps, g.obsels[u]))
                           && (st.at.lastSeenU.Some? ==>
                                 && st.at.lastSeenU.value in g.obsels
                                 && var l, o := g.obsels[st.at.lastSeenU.value], g.obsels[u];
                                    && (FromMin(ps, o) || o.end == l.end)
                                    && (|| l.end < o.end
                                        || (l.end == o.end && l.begin < o.begin)
                                        || (l.end == o.end && l.begin == o.begin && st.at.lastSeenU.value.id < u.id)))))
  {
    hide Compute, Part, Synced, Remembers, Clean, WideChoice, Queries;
    var mode, g := ChooseMode(seen, source), source.g;
    SyncedMeans(h, WideChoice(ps), seen, snap, source, target);
    var t := Compute(h, ps, mode, st, source, target).0;
    var there := set u | u in g.obsels && Uri(h.tgt, u.id) in t.g.obsels;
    var cp := RefreshCopies(h, ps, seen, st, snap, source, target);
    forall u ensures u in there <==> u in Done(cp) {
      if u in g.obsels { InTargetIffDone(h, g, WideChoice(ps), cp, u); }
    }
    assert there == Done(cp);
    PartIsPart(h, g, WideChoice(ps), cp);
    if mode == StrictMon {
      forall u ensures CopiesNow(h, ps, mode, st, source, target, u) <==>
          && u in g.obsels && !st.passed && ps.keep(g.obsels[u]) && UntilMax(ps, g.obsels[u])
          && (st.at.lastSeenU.None? ==> FromMin(ps, g.obsels[u]))
          && (st.at.lastSeenU.Some? ==>
                && st.at.lastSeenU.value in g.obsels
                && var l, o := g.obsels[st.at.lastSeenU.value], g.obsels[u];
                   && (FromMin(ps, o) || o.end == l.end)
                   && (|| l.end < o.end
                       || (l.end == o.end && l.begin < o.begin)
                       || (l.end == o.end && l.begin == o.begin && st.at.lastSeenU.value.id < u.id)))
      {
        StrictQueries(ps, st, source, u);
      }
      forall u | CopiesNow(h, ps, mode, st, source, target, u) ensures u in there {
      }
    } else {
      forall u ensures CopiesNow(h, ps, mode, st, source, target, u) <==>
          u in there && (mode != NotMon ==> Uri(h.tgt, u.id) !in target.g.obsels)
      {
        QueriedIsObsel(ps, mode, st, source, u);
        assert u in g.obsels ==> TNode(h, u) == Uri(h.tgt, u.id);
      }
    }
  }

  lemma StrictQueries(ps: Params, st: State, source: Coll, u: Uri)
    ensures Queries(ps, StrictMon, st, source, u) <==>
              var g := source.g;
              && u in g.obsels && !st.passed && ps.keep(g.obsels[u]) && UntilMax(ps, g.obsels[u])
              && (st.at.lastSeenU.None? ==> FromMin(ps, g.obsels[u]))
              && (st.at.lastSeenU.Some? ==>
                    && st.at.lastSeenU.value in g.obsels
                    && var l, o := g.obsels[st.at.lastSeenU.value], g.obsels[u];
                       && (FromMin(ps, o) || o.end == l.end)
                       && (|| l.end < o.end
                           || (l.end == o.end && l.begin < o.begin)
                           || (l.end == o.end && l.begin == o.begin && st.at.lastSeenU.value.id < u.id)))
  {
  }

  /** Each of these copies has the begin, the end, the attributes and the types of its
      obsel; the last obsel of the target is the copy of the last one copied. */
  lemma RefreshedCopiesSay(h: Hop, ps: Params, seen: Seen, st: State, snap: Coll, source: Coll, target: Coll)
    requires Ready(h, ps, seen, st, snap, source, target)
    ensures var t := Compute(h, ps, ChooseMode(seen, source), st, source, target).0;
            && (forall w <- t.g.obsels ::
                  && w.trace == h.tgt && Uri(h.src, w.id) in source.g.obsels
                  && var o := source.g.obsels[Uri(h.src, w.id)];
                     t.g.obsels[w] == Obsel(o.begin, o.end, o.types, o.attrs, Some(Uri(h.src, w.id))))
            && (t.last == None <==> t.g.obsels == map[])
            && (t.last.Some? ==>
                  && t.last.value in t.g.obsels
                  && forall w <- t.g.obsels :: w != t.last.value ==>
                       Less(KeyAt(source.g, Uri(h.src, w.id)), KeyAt(source.g, Uri(h.src, t.last.value.id))))
  {
    hide Compute, Synced, Remembers, Clean, CopiesAsQueried, ImageObsels, Less, Promise;
    var mode := ChooseMode(seen, source);
    var cp := RefreshCopies(h, ps, seen, st, snap, source, target);
    SyncedMeans(h, WideChoice(ps), seen, snap, source, target);
    TargetEvolves(h, ps, seen, st, snap, source, target);
    var t := Compute(h, ps, mode, st, source, target).0;
    CopiesSay(h, source.g, WideChoice(ps), Done(cp));
    LastCopy(h, source.g, WideChoice(ps), Done(cp), t.g, t.last);
    forall w | w in t.g.obsels ensures w == Uri(h.tgt, Uri(h.src, w.id).id) {
    }
  }

  /** What is remembered about the window: whether, among the obsels from the bound on, one
      ends after it. Without any such obsel, and when a refresh exits early, nothing new. */
  lemma PassedSays(h: Hop, ps: Params, seen: Seen, st: State, snap: Coll, source: Coll, target: Coll)
    requires Ready(h, ps, seen, st, snap, source, target)
    ensures var mode := ChooseMode(seen, source);
            var st' := Compute(h, ps, mode, st, source, target).1;
            var low := if mode == PseudoMon && st.at.lastSeenB.Some? then Some(st.at.lastSeenB.value - source.range)
                       else ps.mintime;
            if mode == StrictMon && st.passed then st' == st
            else if forall v <- source.g.obsels :: low.Some? && source.g.obsels[v].begin < low.value
            then st'.passed == (mode != NotMon && st.passed)
            else st'.passed <==>
                   && ps.maxtime.Some?
                   && exists v <- source.g.obsels ::
                        && source.g.obsels[v].end > ps.maxtime.value
                        && (low.Some? ==> low.value <= source.g.obsels[v].begin)
  {
    hide CopyRows, Remembers, Clean, Rows, Synced, RowsFor;
    var mode, g := ChooseMode(seen, source), source.g;
    SyncedMeans(h, WideChoice(ps), seen, snap, source, target);
    var begin := BeginBound(mode, st.at, source.range, ps.mintime);
    var q := ALL.(begin := begin, reverse := true, limit := Some(1));
    LastRow(g, h.src, q, (o: Obsel) => true);
    NewestInGraph(h.src, g, begin);
    forall v | v in g.obsels ensures v in Matching(g, q, (o: Obsel) => true) <==> FromBound(begin, g.obsels[v]) {
    }
    if v :| v in g.obsels && FromBound(begin, g.obsels[v]) {
      assert NewestRows(g, begin)[0] in NewestRows(g, begin);
    }
  }

  lemma QueriedIsObsel(ps: Params, mode: Mode, st: State, source: Coll, u: Uri)
    ensures Queries(ps, mode, st, source, u) ==> !ExitsEarly(mode, st) && u in source.g.obsels
  {
  }

  /** In every mode, for arbitrary obsels, whatever happened to the source and whatever
      earlier refreshes missed or wrongly accepted, a refresh equals filtering from nothing
      if and only if it is harmless. */
  lemma RefreshExact(h: Hop, ps: Params, seen: Seen, st: State, snap: Coll, source: Coll, target: Coll)
    requires Ready(h, ps, seen, st, snap, source, target)
    ensures var mode := ChooseMode(seen, source);
            Compute(h, ps, mode, st, source, target).0.g == View(h, source.g, ChoiceOf(ps))
            <==> Harmless(h, ps, mode, st, source, target)
  {
    hide Compute, Part, Image, View, Queries, CopiesNow, Remembers, Synced, Clean;
    var mode, g, kept := ChooseMode(seen, source), source.g, Kept(source.g, ChoiceOf(ps));
    var cp := RefreshCopies(h, ps, seen, st, snap, source, target);
    assert Owned(g, h.src) by { SyncedMeans(h, WideChoice(ps), seen, snap, source, target); }
    WideView(h, g, ps);
    PartExact(h, g, WideChoice(ps), cp, kept);
    assert Done(cp) <= kept <==> forall u <- Done(cp) :: FromMin(ps, g.obsels[u]);
    assert Done(cp) == kept <==> Done(cp) <= kept && kept <= Done(cp);
  }

  /** A refresh from scratch starts from nothing and queries what is to be kept: it is
      harmless, and makes good whatever earlier refreshes missed. */
  lemma ScratchIsHarmless(h: Hop, ps: Params, st: State, source: Coll, target: Coll)
    ensures Harmless(h, ps, NotMon, st, source, target)
  {
  }

  lemma {:induction false} CopiesAreSkipped(h: Hop, g: Graph, range: int, mode: Mode, o: Open, rows: seq<Key>, w: Uri)
    requires InGraph(h.src, g, rows) && mode != StrictMon && w in o.g.obsels
    ensures var g' := CopyRows(h, g, range, mode, o, rows).g; w in g'.obsels && g'.obsels[w] == o.g.obsels[w]
    decreases |rows|
  {
    if rows != [] {
      CopiesAreSkipped(h, g, range, mode, CopyRow(h, g, range, mode, o, RowUri(h.src, rows[0])), rows[1..], w);
    }
  }

  /** A logical or pseudo-monotonic refresh touches no description that is in the target,
      whatever happened to the source. So it cannot be exact once more was said about an
      obsel copied before. */
  lemma CopiesStay(h: Hop, ps: Params, mode: Mode, st: State, source: Coll, target: Coll)
    requires Owned(source.g, h.src) && (target.last.Some? ==> target.last.value in target.g.obsels)
    requires mode == LogicMon || mode == PseudoMon
    ensures var g', view := Compute(h, ps, mode, st, source, target).0.g, View(h, source.g, ChoiceOf(ps));
            && (forall w <- target.g.obsels :: w in g'.obsels && g'.obsels[w] == target.g.obsels[w])
            && (g' == view ==>
                  forall w <- target.g.obsels :: w in view.obsels && view.obsels[w] == target.g.obsels[w])
  {
    hide View, CopyRows;
    RowsInGraph(h.src, source.g, ps, mode, st.at, source.range);
    var o, rows := Open(target.g, Prepare(target, true)), RowsFor(source.g, ps, mode, st.at, source.range);
    forall w | w in target.g.obsels
      ensures w in CopyRows(h, source.g, target.range, mode, o, rows).g.obsels
      ensures CopyRows(h, source.g, target.range, mode, o, rows).g.obsels[w] == target.g.obsels[w]
    {
      CopiesAreSkipped(h, source.g, target.range, mode, o, rows, w);
    }
  }

  /* ---------- after an exact refresh ---------- */

  /** In a pseudo-monotonic refresh the lower bound of the window is replaced by one
      computed from the last obsel seen. This does no harm exactly when every kept obsel
      that is not yet in the target begins after the new bound, and every selected one
      after the old bound. */
  ghost predicate BoundHarmless(h: Hop, ps: Params, st: State, source: Coll, target: Coll) {
    var g, begin := source.g, BeginBound(PseudoMon, st.at, source.range, ps.mintime);
    && (forall u <- Kept(g, ChoiceOf(ps)) :: TNode(h, u) !in target.g.obsels ==> FromBound(begin, g.obsels[u]))
    && (forall u <- Kept(g, WideChoice(ps)) :: FromBound(begin, g.obsels[u]) ==> FromMin(ps, g.obsels[u]))
  }

  /** In a strict refresh the filter lets through whatever ends together with the anchor
      and comes after it. This does no harm exactly when none of it begins too early. */
  ghost predicate AnchorHarmless(ps: Params, st: State, source: Coll) {
    st.at.lastSeenU.Some? && st.at.lastSeenU.value in source.g.obsels ==>
      forall u <- source.g.obsels ::
        && source.g.obsels[u].end == source.g.obsels[st.at.lastSeenU.value].end
        && Less(KeyAt(source.g, st.at.lastSeenU.value), KeyAt(source.g, u)) && ps.keep(source.g.obsels[u]) ==>
          FromMin(ps, source.g.obsels[u])
  }

  /** What is in the target after an exact refresh, seen from the source as it is now. */
  lemma ExactTarget(h: Hop, ps: Params, seen: Seen, st: State, snap: Coll, source: Coll, target: Coll)
    requires Ready(h, ps, seen, st, snap, source, target) && ChooseMode(seen, source) != NotMon
    requires Owned(snap.g, h.src) && target.g == View(h, snap.g, ChoiceOf(ps))
    ensures PlainGrowth(snap.g, source.g)
    ensures forall u <- source.g.obsels :: TNode(h, u) in target.g.obsels <==> u in Kept(snap.g, ChoiceOf(ps))
    ensures forall r <- source.g.rels ::
              TRel(h, r) in target.g.rels <==> r in snap.g.rels && Linked(h, Kept(snap.g, ChoiceOf(ps)), r)
    ensures Kept(snap.g, ChoiceOf(ps)) == set u | u in Kept(source.g, ChoiceOf(ps)) && u in snap.g.obsels
  {
    hide IsPart, Remembers, Inv;
    SyncedMeans(h, WideChoice(ps), seen, snap, source, target);
    ModeReliesOn(h, WideChoice(ps), seen, snap, source, target);
    forall u | u in source.g.obsels && TNode(h, u) in target.g.obsels ensures u in Kept(snap.g, ChoiceOf(ps)) {
      var v :| v in Kept(snap.g, ChoiceOf(ps)) && TNode(h, v) == TNode(h, u);
      assert v == u;
    }
  }

  lemma PseudoAfterExact(h: Hop, ps: Params, seen: Seen, st: State, snap: Coll, source: Coll, target: Coll)
    requires Ready(h, ps, seen, st, snap, source, target) && ChooseMode(seen, source) == PseudoMon
    requires Owned(snap.g, h.src) && target.g == View(h, snap.g, ChoiceOf(ps))
    ensures Harmless(h, ps, PseudoMon, st, source, target)
            <==> NothingLate(h, ChoiceOf(ps), snap.g, source.g) && BoundHarmless(h, ps, st, source, target)
  {
    hide IsPart, Remembers, Synced, View;
    ExactTarget(h, ps, seen, st, snap, source, target);
    if BoundHarmless(h, ps, st, source, target) {
      LateIfSkipped(h, ps, PseudoMon, st, snap, source, target);
    }
  }

  /** Where what was found is skipped, a late relation is one that is not copied. */
  lemma LateIfSkipped(h: Hop, ps: Params, mode: Mode, st: State, snap: Coll, source: Coll, target: Coll)
    requires mode == LogicMon || mode == PseudoMon
    requires Owned(source.g, h.src) && PlainGrowth(snap.g, source.g)
    requires forall u <- source.g.obsels :: TNode(h, u) in target.g.obsels <==> u in Kept(snap.g, ChoiceOf(ps))
    requires forall r <- source.g.rels ::
               TRel(h, r) in target.g.rels <==> r in snap.g.rels && Linked(h, Kept(snap.g, ChoiceOf(ps)), r)
    requires forall u <- Kept(source.g, ChoiceOf(ps)) ::
               TNode(h, u) in target.g.obsels || Queries(ps, mode, st, source, u)
    ensures NothingLate(h, ChoiceOf(ps), snap.g, source.g)
            <==> forall r <- source.g.rels :: Linked(h, Kept(source.g, ChoiceOf(ps)), r) ==>
                   || TRel(h, r) in target.g.rels
                   || CopiesNow(h, ps, mode, st, source, target, r.s)
                   || CopiesNow(h, ps, mode, st, source, target, r.o)
  {
    hide Queries;
    var kept0, kept := Kept(snap.g, ChoiceOf(ps)), Kept(source.g, ChoiceOf(ps));
    assert kept0 <= kept;
    forall u ensures Queries(ps, mode, st, source, u) ==> u in source.g.obsels {
      QueriedIsObsel(ps, mode, st, source, u);
    }
    forall r | r in source.g.rels && Linked(h, kept, r) && !Linked(h, kept0, r)
      ensures CopiesNow(h, ps, mode, st, source, target, r.s) || CopiesNow(h, ps, mode, st, source, target, r.o)
    {
    }
  }

  lemma LogicAfterExact(h: Hop, ps: Params, seen: Seen, st: State, snap: Coll, source: Coll, target: Coll)
    requires Ready(h, ps, seen, st, snap, source, target) && ChooseMode(seen, source) == LogicMon
    requires Owned(snap.g, h.src) && target.g == View(h, snap.g, ChoiceOf(ps))
    ensures Harmless(h, ps, LogicMon, st, source, target) <==> NothingLate(h, ChoiceOf(ps), snap.g, source.g)
  {
    hide IsPart, Remembers, Synced, View;
    ExactTarget(h, ps, seen, st, snap, source, target);
    LateIfSkipped(h, ps, LogicMon, st, snap, source, target);
  }

  lemma StrictAfterExact(h: Hop, ps: Params, seen: Seen, st: State, snap: Coll, source: Coll, target: Coll)
    requires Ready(h, ps, seen, st, snap, source, target) && ChooseMode(seen, source) == StrictMon
    requires Owned(snap.g, h.src) && target.g == View(h, snap.g, ChoiceOf(ps))
    ensures Harmless(h, ps, StrictMon, st, source, target) <==> st.passed || AnchorHarmless(ps, st, source)
  {
    hide IsPart, View, Inv, NothingLeftOut, Clean, Promise;
    ExactTarget(h, ps, seen, st, snap, source, target);
    StrictReaches(h, ps, seen, st, snap, source, target);
    StrictLeavesNothingOut(h, ps, seen, st, snap, source, target);
  }

  lemma StrictLeavesNothingOut(h: Hop, ps: Params, seen: Seen, st: State, snap: Coll, source: Coll, target: Coll)
    requires Ready(h, ps, seen, st, snap, source, target) && ChooseMode(seen, source) == StrictMon
    requires Owned(snap.g, h.src) && target.g == View(h, snap.g, ChoiceOf(ps))
    ensures NothingLeftOut(h, ps, StrictMon, st, source, target)
  {
    hide IsPart, View, Inv, Queries, Remembers, ChoiceOf;
    var g, choice := source.g, ChoiceOf(ps);
    ExactTarget(h, ps, seen, st, snap, source, target);
    ModeReliesOn(h, WideChoice(ps), seen, snap, source, target);
    StrictReaches(h, ps, seen, st, snap, source, target);
    forall r | r in g.rels && Linked(h, Kept(g, choice), r) && TRel(h, r) !in target.g.rels
      ensures CopiesNow(h, ps, StrictMon, st, source, target, r.s)
                  || CopiesNow(h, ps, StrictMon, st, source, target, r.o)
    {
      assert r in snap.g.rels ==> !Linked(h, Kept(snap.g, choice), r);
      var u :| (u == r.s || u == r.o) && u in Kept(g, choice) && u !in snap.g.obsels;
    }
  }

  /** A strict refresh queries every new obsel to keep; once the window was passed, there
      is none. */
  lemma StrictReaches(h: Hop, ps: Params, seen: Seen, st: State, snap: Coll, source: Coll, target: Coll)
    requires Ready(h, ps, seen, st, snap, source, target) && ChooseMode(seen, source) == StrictMon
    ensures forall u <- Kept(source.g, ChoiceOf(ps)) :: u !in snap.g.obsels ==> Queries(ps, StrictMon, st, source, u)
  {
    hide IsPart, Inv, Clean;
    ModeReliesOn(h, WideChoice(ps), seen, snap, source, target);
    if st.passed {
      var v :| v in snap.g.obsels && !UntilMax(ps, snap.g.obsels[v]);
      assert forall u <- source.g.obsels :: u !in snap.g.obsels ==> Less(KeyAt(snap.g, v), KeyAt(source.g, u));
    }
  }

  /** If the last refresh was exact, the next one is harmless if and only if: a logical or
      pseudo-monotonic one has no late relation to skip; the bound that replaces the
      filter's own in a pseudo-monotonic one, and the anchor of a strict one that does not
      exit early, do no harm. */
  lemma HarmlessAfterExact(h: Hop, ps: Params, seen: Seen, st: State, snap: Coll, source: Coll, target: Coll)
    requires Ready(h, ps, seen, st, snap, source, target)
    requires seen != UNSEEN ==> Owned(snap.g, h.src) && target.g == View(h, snap.g, ChoiceOf(ps))
    ensures var mode := ChooseMode(seen, source);
            Harmless(h, ps, mode, st, source, target) <==>
              match mode
              case NotMon => true
              case LogicMon => NothingLate(h, ChoiceOf(ps), snap.g, source.g)
              case PseudoMon =>
                NothingLate(h, ChoiceOf(ps), snap.g, source.g) && BoundHarmless(h, ps, st, source, target)
              case StrictMon => st.passed || AnchorHarmless(ps, st, source)
  {
    hide Ready, View, NothingLate, BoundHarmless, AnchorHarmless, Harmless;
    match ChooseMode(seen, source) {
      case NotMon => ScratchIsHarmless(h, ps, st, source, target);
      case LogicMon => LogicAfterExact(h, ps, seen, st, snap, source, target);
      case PseudoMon => PseudoAfterExact(h, ps, seen, st, snap, source, target);
      case StrictMon => StrictAfterExact(h, ps, seen, st, snap, source, target);
    }
  }

  /* ---------- the next refresh ---------- */

  ghost predicate Instants(g: Graph) {
    forall u <- g.obsels :: g.obsels[u].begin == g.obsels[u].end
  }

  /** Instantaneous obsels, no `after` bound, and an unchanged range: if the last refresh
      did not miss an obsel, the next one does not either, and leaves none out. */
  lemma InstantsAreReached(h: Hop, ps: Params, seen: Seen, st: State, snap: Coll, source: Coll, target: Coll)
    requires Ready(h, ps, seen, st, snap, source, target)
    requires Instants(source.g) && ps.mintime.None? && 0 <= source.range
    requires seen != UNSEEN ==>
               && source.range == snap.range
               && forall u <- Kept(snap.g, WideChoice(ps)) :: TNode(h, u) in target.g.obsels
    ensures var mode := ChooseMode(seen, source);
            && (forall u <- Kept(source.g, WideChoice(ps)) ::
                  TNode(h, u) in Left(mode, target).obsels || Queries(ps, mode, st, source, u))
            && forall u <- Kept(source.g, WideChoice(ps)) ::
                 TNode(h, u) in Compute(h, ps, mode, st, source, target).0.g.obsels
  {
    hide Part, IsPart, Compute, Clean, View;
    var mode, g := ChooseMode(seen, source), source.g;
    if mode != NotMon { ModeReliesOn(h, WideChoice(ps), seen, snap, source, target); }
    if mode == StrictMon { StrictReaches(h, ps, seen, st, snap, source, target); }
    forall u | u in Kept(g, WideChoice(ps))
      ensures TNode(h, u) in Left(mode, target).obsels || Queries(ps, mode, st, source, u)
    {
    }
    var cp := RefreshCopies(h, ps, seen, st, snap, source, target);
    SyncedMeans(h, WideChoice(ps), seen, snap, source, target);
    forall u | u in Kept(g, WideChoice(ps)) ensures TNode(h, u) in Compute(h, ps, mode, st, source, target).0.g.obsels {
      InTargetIffDone(h, g, WideChoice(ps), cp, u);
    }
  }

  lemma RememberedStays(ps: Params, st: State, snap: Coll, source: Coll)
    requires Remembers(ps, st, snap) && PlainGrowth(snap.g, source.g)
    ensures Remembers(ps, st, source)
  {
  }

  lemma NewestRemembered(ps: Params, st: State, source: Coll, begin: Option<int>)
    requires Remembers(ps, st, source) && Owned(source.g, source.trace)
    ensures Remembers(ps, State(Passed(ps, source.g, begin, st.passed), Advance(source.trace, source.g, begin, st.at)),
                      source)
  {
    hide NewestRows;
    NewestInGraph(source.trace, source.g, begin);
    if NewestRows(source.g, begin) != [] {
      assert NewestRows(source.g, begin)[0] in NewestRows(source.g, begin);
    }
  }

  /** What is remembered is about the source as it was computed on. */
  lemma RemembersAfter(h: Hop, ps: Params, seen: Seen, st: State, snap: Coll, source: Coll, target: Coll)
    requires Ready(h, ps, seen, st, snap, source, target)
    ensures Remembers(ps, Compute(h, ps, ChooseMode(seen, source), st, source, target).1, source)
  {
    hide IsPart, Promise, Clean, CopyRows, Passed, Advance;
    var mode := ChooseMode(seen, source);
    var st0 := if mode == NotMon then INITIAL else st;
    if mode != NotMon {
      ModeReliesOn(h, WideChoice(ps), seen, snap, source, target);
      RememberedStays(ps, st, snap, source);
    }
    NewestRemembered(ps, st0, source, BeginBound(mode, st.at, source.range, ps.mintime));
  }

  lemma TargetEvolves(h: Hop, ps: Params, seen: Seen, st: State, snap: Coll, source: Coll, target: Coll)
    requires Ready(h, ps, seen, st, snap, source, target)
    ensures var target' := Compute(h, ps, ChooseMode(seen, source), st, source, target).0;
            Evolves(target, target') && Inv(target') && target'.trace == target.trace
  {
    if ExitsEarly(ChooseMode(seen, source), st) {
      EvolvesRefl(target);
    } else {
      ComputeCopies(h, ps, seen, st, snap, source, target);
    }
  }

  /** Every refresh, harmless or not, leaves the trace ready for the next one, and consumers
      of the target can rely on its tags. */
  lemma ReadyAgain(h: Hop, ps: Params, seen: Seen, st: State, snap: Coll, source: Coll, target: Coll)
    requires Ready(h, ps, seen, st, snap, source, target)
    ensures var (target', st') := Compute(h, ps, ChooseMode(seen, source), st, source, target);
            && Evolves(target, target')
            && Ready(h, ps, TagsOf(source), st', source, source, target')
  {
    hide Part, IsPart, Promise, Compute, Remembers, Clean, Queries, CopiesNow;
    TargetEvolves(h, ps, seen, st, snap, source, target);
    RemembersAfter(h, ps, seen, st, snap, source, target);
    var cp := RefreshCopies(h, ps, seen, st, snap, source, target);
    PartIsPart(h, source.g, WideChoice(ps), cp);
    SyncedAfterComputing(h, WideChoice(ps), source, Compute(h, ps, ChooseMode(seen, source), st, source, target).0);
  }

  /* ---------- runs ---------- */

  /* ---------- the computed trace as an object ---------- */

  class FilterTrace {
    const source: TO.TraceObsels
    const target: TO.TraceObsels
    const ps: Params
    var seen: Seen
    var st: State
    ghost var snap: Coll  // the source at the last computation

    ghost function Between(): Hop {
      Hop(source.trace, target.trace)
    }

    ghost predicate Valid()
      reads this, source, target
    {
      && source != target
      && source.Closed() && target.Closed()
      && Synced(Between(), WideChoice(ps), seen, snap, source.State(), target.State())
      && (seen != UNSEEN ==> Remembers(ps, st, snap))
    }

    constructor (source: TO.TraceObsels, target: TO.TraceObsels, ps: Params)
      requires source != target && source.Closed() && target.Closed()
      ensures Valid() && this.source == source && this.target == target && this.ps == ps
    {
      this.source, this.target, this.ps := source, target, ps;
      seen, st := UNSEEN, INITIAL;
      snap := source.State();
    }

    /** compute_obsels: whatever earlier refreshes missed or wrongly accepted, the target
        ends up as filtered from nothing exactly when this refresh is harmless; in any case
        the trace is ready for the next one. */
    method ComputeObsels(fromScratch: bool)
      requires Valid() && Clean(Between(), source.State().g)
      modifies this, target
      ensures Valid()
      ensures source.State() == old(source.State()) && seen == TagsOf(source.State()) && snap == source.State()
      ensures var mode := ChooseMode(if fromScratch then UNSEEN else old(seen), source.State());
              && (target.State(), st) == Compute(Between(), ps, mode, old(st), source.State(), old(target.State()))
              && (target.State().g == View(Between(), source.State().g, ChoiceOf(ps))
                  <==> Harmless(Between(), ps, mode, old(st), source.State(), old(target.State())))
    {
      hide Synced, Remembers, Inv, Compute, View, Clean, ChoiceOf, Harmless;
      ghost var s0, t0 := source.State(), target.State();
      SyncedFromScratch(Between(), WideChoice(ps), seen, snap, s0, t0);
      if fromScratch { seen := UNSEEN; }
      var mode := ModeFor(seen, Seen(Some(source.str), Some(source.pse), Some(source.log)));
      RefreshExact(Between(), ps, seen, st, snap, s0, t0);
      ReadyAgain(Between(), ps, seen, st, snap, s0, t0);
      DoComputeObsels(mode);
      seen := Seen(Some(source.str), Some(source.pse), Some(source.log));
      snap := s0;
    }

    method DoComputeObsels(mode: Mode)
      requires source != target && source.Closed() && target.Closed()
      requires Ready(Between(), ps, seen, st, snap, source.State(), target.State())
      requires mode == ChooseMode(seen, source.State())
      modifies this`st, target
      ensures target.Closed()
      ensures (target.State(), st) == Compute(Between(), ps, mode, old(st), source.State(), old(target.State()))
    {
      hide Synced, Remembers, Inv, OpenInv, View, Clean, ChoiceOf, CopyRows, Rows, Valid, Ready, Copying, NewestRows;
      if st.passed && mode == StrictMon {
        return;
      }
      var passed, lastSeenU, lastSeenB := st.passed, st.at.lastSeenU, st.at.lastSeenB;
      var begin, after: Option<Uri> := ps.mintime, None;
      if mode == NotMon {
        passed, lastSeenU, lastSeenB := false, None, None;
      } else if mode == StrictMon {
        if lastSeenU.Some? { after := lastSeenU; }
      } else if mode == PseudoMon {
        if lastSeenB.Some? { begin := Some(lastSeenB.value - source.range); }
      }
      var g := Graph(source.obsels, source.rels);
      var rows := Rows(g, ALL.(begin := begin, end := ps.maxtime, after := after), ps.keep);
      assert rows == RowsFor(g, ps, mode, st.at, source.range);
      RowsMeaning(Between(), ps, seen, st, snap, source.State(), target.State());
      ghost var found := Found(mode, Between(), source.State().g, target.State().g);
      Begin(mode);
      CopyRowsInto(mode, rows, found);
      target.ExitAddOnly();
      var newest := NewestRows(g, begin);
      if newest != [] {
        lastSeenU, lastSeenB := Some(RowUri(source.trace, newest[0])), Some(newest[0].begin);
        passed := ps.maxtime.Some? && newest[0].end > ps.maxtime.value;
      }
      st := State(passed, Cursor(lastSeenU, lastSeenB));
    }

    /** Empties the target if nothing in it can be kept, and enters the edit context. */
    method Begin(mode: Mode)
      requires source != target && source.Closed() && target.Closed()
      requires Ready(Between(), ps, seen, st, snap, source.State(), target.State())
      requires mode == ChooseMode(seen, source.State())
      modifies target
      ensures target.InContext() && target.before == Base(mode, old(target.State()))
      ensures target.Current() == Open(target.before.g, Prepare(target.before, true))
      ensures Copying(Between(), source.State().g, WideChoice(ps), target.before, target.Current(),
                      Found(mode, Between(), source.State().g, old(target.State()).g))
    {
      hide Synced, Promise, Clean, ChoiceOf, WideChoice, Part;
      StartCopying(Between(), WideChoice(ps), seen, snap, source.State(), target.State());
      if mode == NotMon {
        target.Empty();
      }
      target.EnterAddOnly();
    }

    /** The loop over the selected obsels. */
    method CopyRowsInto(mode: Mode, rows: seq<Key>, ghost found: Copied)
      requires source != target && target.InContext()
      requires Copying(Between(), source.State().g, WideChoice(ps), target.before, target.Current(), found)
      requires InGraph(source.trace, source.State().g, rows)
      requires forall k <- rows :: WideChoice(ps)(source.obsels[RowUri(source.trace, k)]).Some?
      modifies target
      ensures target.InContext() && target.before == old(target.before) && target.Current().p.log
      ensures target.Current()
              == CopyRows(Between(), source.State().g, target.before.range, mode, old(target.Current()), rows)
    {
      hide OpenInv, Inv, Part, Chosen, Clean, Describes, WideChoice;
      var h := Hop(source.trace, target.trace);
      var g := Graph(source.obsels, source.rels);
      ghost var c := target.before;
      ghost var cp := found;
      assert rows[0..] == rows;
      for k := 0 to |rows|
        invariant target.InContext() && target.before == c
        invariant Copying(h, g, WideChoice(ps), c, target.Current(), cp)
        invariant CopyRows(h, g, c.range, mode, target.Current(), rows[k..])
                  == CopyRows(h, g, c.range, mode, old(target.Current()), rows)
      {
        assert rows[k..][0] == rows[k] && rows[k..][1..] == rows[k + 1..];
        var u := RowUri(h.src, rows[k]);
        assert rows[k] in rows;
        CopyRowStep(h, g, ps, mode, c, target.Current(), cp, u);
        var w := TNode(h, u);
        if mode == StrictMon || w !in target.obsels {
          var og := CopyObselGraph(h, g, Graph(target.obsels, target.rels), u, g.obsels[u].types);
          target.AddObselGraph(og);
        }
        cp := cp.(redone := cp.redone + Recopied(mode, cp, {u}));
      }
      assert rows[|rows|..] == [];
    }
  }

  /** The rows of the query, before the loop starts. */
  lemma RowsMeaning(h: Hop, ps: Params, seen: Seen, st: State, snap: Coll, source: Coll, target: Coll)
    requires Ready(h, ps, seen, st, snap, source, target) && !ExitsEarly(ChooseMode(seen, source), st)
    ensures var mode := ChooseMode(seen, source);
            var rows := RowsFor(source.g, ps, mode, st.at, source.range);
            && InGraph(h.src, source.g, rows)
            && forall k <- rows :: WideChoice(ps)(source.g.obsels[RowUri(h.src, k)]).Some?
  {
    hide IsPart, Less, Rows, Selected;
    var mode := ChooseMode(seen, source);
    SelectedMeaning(h, ps, seen, st, snap, source, target);
    RowsAreSelected(h, ps, mode, st, source);
    assert forall k <- RowsFor(source.g, ps, mode, st.at, source.range) ::
           RowUri(h.src, k) in Selected(ps, mode, st, source);
  }
}
