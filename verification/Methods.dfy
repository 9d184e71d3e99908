/**
 What all transformation methods with one source share (AbstractMonosourceMethod):
 the tags seen at the last computation, the mode chosen by comparing them with the
 tags of the source, and what each mode may rely on.
 */
module Methods {
  import opened Obsels
  import opened Tags
  import opened Select
  import opened Views

  datatype Mode = NotMon | LogicMon | PseudoMon | StrictMon

  /** The tags in the computation state; None before the first computation. */
  datatype Seen = Seen(str: Option<nat>, pse: Option<nat>, log: Option<nat>)

  const UNSEEN := Seen(None, None, None)

  function TagsOf(c: Coll): Seen {
    Seen(Some(c.str), Some(c.pse), Some(c.log))
  }

  function ModeFor(seen: Seen, now: Seen): Mode {
    if seen.str == now.str then StrictMon
    else if seen.pse == now.pse then PseudoMon
    else if seen.log == now.log then LogicMon
    else NotMon
  }

  function ChooseMode(seen: Seen, source: Coll): Mode {
    ModeFor(seen, TagsOf(source))
  }

  /* ---------- where the last computation stopped ---------- */

  /** The part of the computation state about the last obsel seen. */
  datatype Cursor = Cursor(lastSeenU: Option<Uri>, lastSeenB: Option<int>)

  const START := Cursor(None, None)

  /** A strict refresh resumes after the last obsel seen. */
  function After(mode: Mode, at: Cursor): Option<Uri> {
    if mode == StrictMon then at.lastSeenU else None
  }

  /** A pseudo-monotonic refresh replaces the lower bound of the method. */
  function BeginBound(mode: Mode, at: Cursor, range: int, bound: Option<int>): Option<int> {
    if mode == PseudoMon && at.lastSeenB.Some? then Some(at.lastSeenB.value - range) else bound
  }

  function Restart(mode: Mode, at: Cursor): Cursor {
    if mode == NotMon then START else at
  }

  /** The newest obsel from `begin` on is remembered; if there is none, the old cursor is. */
  function Advance(trace: TraceId, g: Graph, begin: Option<int>, at: Cursor): Cursor {
    var rows := NewestRows(g, begin);
    if rows == [] then at else Cursor(Some(RowUri(trace, rows[0])), Some(rows[0].begin))
  }

  ghost predicate FromBound(begin: Option<int>, o: Obsel) {
    begin.Some? ==> begin.value <= o.begin
  }

  lemma NewestInGraph(trace: TraceId, g: Graph, begin: Option<int>)
    requires Owned(g, trace)
    ensures forall k <- NewestRows(g, begin) :: RowUri(trace, k) in g.obsels && k == KeyAt(g, RowUri(trace, k))
  {
    var q := ALL.(begin := begin, reverse := true, limit := Some(1));
    RowsOfSet(g, trace, Matching(g, q, (o: Obsel) => true));
  }

  /** The newest obsel from `begin` on is the one remembered. */
  lemma NewestIs(g: Graph, begin: Option<int>, u: Uri)
    requires Owned(g, u.trace) && u in g.obsels && FromBound(begin, g.obsels[u])
    requires forall v <- g.obsels :: v != u && FromBound(begin, g.obsels[v]) ==> Less(KeyAt(g, v), KeyAt(g, u))
    ensures forall at :: Advance(u.trace, g, begin, at) == Cursor(Some(u), Some(g.obsels[u].begin))
  {
    hide Rows, Less;
    var q := ALL.(begin := begin, reverse := true, limit := Some(1));
    LastRow(g, u.trace, q, (o: Obsel) => true);
    assert u in Matching(g, q, (o: Obsel) => true);
    NewestInGraph(u.trace, g, begin);
    var row := NewestRows(g, begin)[0];
    assert row in NewestRows(g, begin);
    if RowUri(u.trace, row) != u {
      assert Less(KeyAt(g, u), KeyAt(g, RowUri(u.trace, row)));
      LessIsStrict(KeyAt(g, u), KeyAt(g, RowUri(u.trace, row)));
      assert false;
    }
  }

  /** After a computation the cursor is at the latest of the obsels that begin from the
      bound on, which a pseudo-monotonic one counts back from the begin remembered; if
      there are none, it stays, or is unset when everything was computed anew. */
  lemma CursorSays(trace: TraceId, g: Graph, mode: Mode, at: Cursor, range: int, bound: Option<int>)
    requires Owned(g, trace)
    ensures var at' := Advance(trace, g, BeginBound(mode, at, range, bound), Restart(mode, at));
            var low := if mode == PseudoMon && at.lastSeenB.Some? then Some(at.lastSeenB.value - range) else bound;
            if forall v <- g.obsels :: low.Some? && g.obsels[v].begin < low.value
            then at' == (if mode == NotMon then Cursor(None, None) else at)
            else && at'.lastSeenU.Some? && at'.lastSeenU.value in g.obsels
                 && var u := at'.lastSeenU.value;
                    && at'.lastSeenB == Some(g.obsels[u].begin) && (low.Some? ==> low.value <= g.obsels[u].begin)
                    && forall v <- g.obsels :: v != u && (low.Some? ==> low.value <= g.obsels[v].begin) ==>
                         var a, b := g.obsels[v], g.obsels[u];
                         || a.end < b.end
                         || (a.end == b.end && a.begin < b.begin)
                         || (a.end == b.end && a.begin == b.begin && v.id < u.id)
  {
    hide Rows;
    var begin := BeginBound(mode, at, range, bound);
    var q := ALL.(begin := begin, reverse := true, limit := Some(1));
    LastRow(g, trace, q, (o: Obsel) => true);
    NewestInGraph(trace, g, begin);
    if v :| v in g.obsels && (begin.Some? ==> begin.value <= g.obsels[v].begin) {
      assert v in Matching(g, q, (o: Obsel) => true);
      assert NewestRows(g, begin)[0] in NewestRows(g, begin);
    }
  }

  lemma LessIsStrict(a: Key, b: Key)
    ensures !(Less(a, b) && Less(b, a))
  {
  }

  /* ---------- how collections evolve ---------- */

  /** What happens to a collection between two moments, by edits or by recomputation: the
      tags keep their promises, and as long as one survives the descriptions of obsels stay. */
  ghost predicate Evolves(c0: Coll, c1: Coll) {
    && Inv(c1) && Promise(c0, c1) && Renewed(c0, c1)
    && (c1.str == c0.str || c1.pse == c0.pse || c1.log == c0.log ==> PlainGrowth(c0.g, c1.g))
  }

  lemma EvolvesRefl(c: Coll)
    requires Inv(c)
    ensures Evolves(c, c)
  {
  }

  lemma EvolvesTrans(c0: Coll, c1: Coll, c2: Coll)
    requires Inv(c0) && Evolves(c0, c1) && Evolves(c1, c2)
    ensures Evolves(c0, c2)
  {
    PromiseTrans(c0, c1, c2);
  }

  lemma EvolvesKeepsTrace(c: Coll, c': Coll)
    requires Evolves(c, c')
    ensures Inv(c') && c'.trace == c.trace
  {
  }

  /** Graphs that repeat what is known, or add relations to it, or describe a new obsel. */
  ghost predicate PlainAdds(g: Graph, ogs: seq<ObselGraph>)
    decreases |ogs|
  {
    ogs == [] ||
    ((ogs[0].uri in g.obsels ==> ogs[0].obs == g.obsels[ogs[0].uri]) && PlainAdds(AddGraph(g, ogs[0]), ogs[1..]))
  }

  /** The edits that methods are proved to cope with. */
  ghost predicate PlainEdit(c: Coll, e: Edit)
    requires c.last.Some? ==> c.last.value in c.g.obsels
  {
    Valid(c, e) && (e.AddOnly? ==> PlainAdds(c.g, e.ogs))
  }

  lemma {:induction false} PlainAddAll(range: int, g0: Graph, o: Open, ogs: seq<ObselGraph>)
    requires PlainGrowth(g0, o.g) && PlainAdds(o.g, ogs)
    ensures PlainGrowth(g0, AddAll(range, o, ogs).g)
    decreases |ogs|
  {
    if ogs != [] {
      PlainAddAll(range, g0, AddStep(range, o, ogs[0]), ogs[1..]);
    }
  }

  lemma EditEvolves(c: Coll, e: Edit)
    requires Inv(c) && PlainEdit(c, e)
    ensures Evolves(c, Apply(c, e))
  {
    ApplyKeeps(c, e);
    if e.AddOnly? {
      PlainAddAll(c.range, c.g, Open(c.g, Prepare(c, true)), e.ogs);
    }
  }

  /** The mode of a refresh after any run of edits is that of the strongest tag that
      survived: strict, pseudo-monotonic or logical; from scratch if all were renewed. */
  lemma ModeSays(c: Coll, es: seq<Edit>)
    requires Inv(c) && ValidRun(c, es)
    ensures var d := Run(c, es);
            var mode := ChooseMode(TagsOf(c), d);
            && (mode == StrictMon <==> d.str == c.str)
            && (mode == PseudoMon <==> d.str > c.etag && d.pse == c.pse)
            && (mode == LogicMon <==> d.str > c.etag && d.pse > c.etag && d.log == c.log)
            && (mode == NotMon <==> d.str > c.etag && d.pse > c.etag && d.log > c.etag)
            && ChooseMode(UNSEEN, d) == NotMon
  {
    RunKeeps(c, es);
  }

  /** Leaving an add-only context. */
  lemma AckEvolves(c: Coll, o: Open)
    requires Inv(c) && OpenInv(c, o) && PlainGrowth(c.g, o.g) && o.p.log
    ensures Evolves(c, Ack(c, o))
  {
  }

  /* ---------- what a mode may rely on ---------- */

  /** The target is part of what the method makes of the source as it was at the last
      computation (`snap`), and the source has evolved since. */
  ghost predicate Synced(h: Hop, choice: Choice, seen: Seen, snap: Coll, source: Coll, target: Coll) {
    && Inv(source) && source.trace == h.src
    && Inv(target) && target.trace == h.tgt
    && (seen != UNSEEN ==>
          && seen == TagsOf(snap)
          && Inv(snap) && snap.trace == h.src && Evolves(snap, source)
          && IsPart(h, snap.g, choice, target.g))
  }

  /** What the method must copy, given what is in the target already. */
  lemma ModeReliesOn(h: Hop, choice: Choice, seen: Seen, snap: Coll, source: Coll, target: Coll)
    requires Synced(h, choice, seen, snap, source, target) && ChooseMode(seen, source) != NotMon
    requires Clean(h, source.g)
    ensures seen == TagsOf(snap) && PlainGrowth(snap.g, source.g)
    ensures IsPart(h, source.g, choice, target.g)
    ensures FoundIn(h, source.g, target.g).start == FoundIn(h, snap.g, target.g).start
    ensures ChooseMode(seen, source) == StrictMon ==> StrictGrowth(snap.g, source.g)
  {
    PartGrows(h, snap.g, source.g, choice, target.g);
  }

  lemma SyncedAfterEvolution(h: Hop, choice: Choice, seen: Seen, snap: Coll, source: Coll, source': Coll, target: Coll)
    requires Synced(h, choice, seen, snap, source, target) && Evolves(source, source')
    ensures Synced(h, choice, seen, snap, source', target)
  {
    if seen != UNSEEN {
      EvolvesTrans(snap, source, source');
    }
  }

  lemma SyncedFromScratch(h: Hop, choice: Choice, seen: Seen, snap: Coll, source: Coll, target: Coll)
    requires Synced(h, choice, seen, snap, source, target)
    ensures Synced(h, choice, UNSEEN, snap, source, target)
    ensures Inv(source) && Inv(target) && source.trace == h.src && target.trace == h.tgt
  {
  }

  lemma SyncedMeans(h: Hop, choice: Choice, seen: Seen, snap: Coll, source: Coll, target: Coll)
    requires Synced(h, choice, seen, snap, source, target)
    ensures Owned(source.g, h.src) && (target.last.Some? ==> target.last.value in target.g.obsels)
  {
  }

  lemma SyncedAfterComputing(h: Hop, choice: Choice, source: Coll, target: Coll)
    requires Inv(source) && source.trace == h.src && Inv(target) && target.trace == h.tgt
    requires IsPart(h, source.g, choice, target.g)
    ensures Synced(h, choice, TagsOf(source), source, source, target)
  {
    EvolvesRefl(source);
  }

  /* ---------- copying into the target ---------- */

  /** The target during a computation that began on `c`: what `cp` says is there. */
  ghost predicate Copying(h: Hop, g: Graph, choice: Choice, c: Coll, o: Open, cp: Copied) {
    && Clean(h, g) && Chosen(g, choice, Done(cp))
    && Inv(c) && c.trace == h.tgt
    && OpenInv(c, o) && PlainGrowth(c.g, o.g) && o.p.log
    && o.g == Part(h, g, choice, cp)
  }

  /** Copying a chosen obsel, new or not, with the types chosen for it. */
  lemma CopyStep(h: Hop, g: Graph, choice: Choice, c: Coll, o: Open, cp: Copied, u: Uri)
    requires Copying(h, g, choice, c, o, cp) && u in g.obsels && choice(g.obsels[u]).Some?
    ensures var og := CopyObsel(h, g, o.g, u, choice(g.obsels[u]).value);
            && Describes(o.g, h.tgt, og)
            && Copying(h, g, choice, c, AddStep(c.range, o, og), cp.(redone := cp.redone + {u}))
  {
    hide ImageObsels, PartRels, OpenInv;
    CopyStepGraph(h, g, choice, cp, u);
    AddStepKeeps(c, o, CopyObsel(h, g, o.g, u, choice(g.obsels[u]).value));
  }

  lemma InTargetIffDone(h: Hop, g: Graph, choice: Choice, cp: Copied, u: Uri)
    requires Owned(g, h.src) && Chosen(g, choice, Done(cp)) && u.trace == h.src
    ensures TNode(h, u) in Part(h, g, choice, cp).obsels <==> u in Done(cp)
  {
  }

  lemma CopyingShows(h: Hop, g: Graph, choice: Choice, c: Coll, o: Open, cp: Copied, u: Uri)
    requires Copying(h, g, choice, c, o, cp) && u in g.obsels
    ensures Owned(g, h.src)
    ensures TNode(h, u) in o.g.obsels <==> u in Done(cp)
  {
    hide Part, OpenInv, Inv;
    InTargetIffDone(h, g, choice, cp, u);
  }

  /** What a computation finds in the target; nothing, if the mode calls for _empty. */
  function Found(mode: Mode, h: Hop, g: Graph, t: Graph): Copied {
    if mode == NotMon then NOTHING else FoundIn(h, g, t)
  }

  /** The target after _empty, when the mode calls for it. */
  ghost function Base(mode: Mode, target: Coll): Coll
    requires target.last.Some? ==> target.last.value in target.g.obsels
  {
    if mode == NotMon then Apply(target, Full(EMPTY, None)) else target
  }

  /** The target of a computation as it starts, emptied or not. */
  lemma StartCopying(h: Hop, choice: Choice, seen: Seen, snap: Coll, source: Coll, target: Coll)
    requires Synced(h, choice, seen, snap, source, target) && Clean(h, source.g)
    ensures var mode := ChooseMode(seen, source);
            var c := Base(mode, target);
            && (mode == NotMon ==> Valid(target, Full(EMPTY, None)))
            && Evolves(target, c)
            && Copying(h, source.g, choice, c, Open(c.g, Prepare(c, true)),
                       Found(mode, h, source.g, target.g))
  {
    hide Part, View, Clean;
    if ChooseMode(seen, source) != NotMon {
      ModeReliesOn(h, choice, seen, snap, source, target);
    } else {
      NothingCopied(h, source.g, choice);
    }
  }

  lemma NothingCopied(h: Hop, g: Graph, choice: Choice)
    requires Owned(g, h.src)
    ensures Chosen(g, choice, Done(NOTHING)) && Part(h, g, choice, NOTHING) == EMPTY
  {
  }

  /* ---------- graphs about new obsels ---------- */

  /** An added graph is about a new obsel, or adds nothing. */
  ghost predicate FreshlyDescribes(g: Graph, trace: TraceId, og: ObselGraph) {
    Describes(g, trace, og) && (og.uri in g.obsels ==> og.obs == g.obsels[og.uri] && og.rels <= g.rels)
  }

  ghost predicate FreshAdds(g: Graph, trace: TraceId, ogs: seq<ObselGraph>)
    decreases |ogs|
  {
    ogs == [] || (FreshlyDescribes(g, trace, ogs[0]) && FreshAdds(AddGraph(g, ogs[0]), trace, ogs[1..]))
  }

  /** An edit that posting obsels, which must be new, may make; or any other one. */
  ghost predicate FreshEdit(c: Coll, e: Edit)
    requires c.last.Some? ==> c.last.value in c.g.obsels
  {
    Valid(c, e) && (e.AddOnly? ==> FreshAdds(c.g, c.trace, e.ogs))
  }

  /** Any surviving tag means that every relation added touches an added obsel. */
  ghost predicate EvolvesFresh(c0: Coll, c1: Coll) {
    c1.str == c0.str || c1.pse == c0.pse || c1.log == c0.log ==> FreshGrowth(c0.g, c1.g)
  }

  lemma FreshTrans(g0: Graph, g1: Graph, g2: Graph)
    requires FreshGrowth(g0, g1) && FreshGrowth(g1, g2)
    ensures FreshGrowth(g0, g2)
  {
  }

  lemma EvolvesFreshTrans(c0: Coll, c1: Coll, c2: Coll)
    requires Inv(c0) && Evolves(c0, c1) && Evolves(c1, c2) && EvolvesFresh(c0, c1) && EvolvesFresh(c1, c2)
    ensures EvolvesFresh(c0, c2)
  {
  }

  lemma FreshStep(g: Graph, trace: TraceId, og: ObselGraph)
    requires FreshlyDescribes(g, trace, og)
    ensures FreshGrowth(g, AddGraph(g, og))
  {
  }

  lemma {:induction false} FreshAddAll(range: int, g0: Graph, trace: TraceId, o: Open, ogs: seq<ObselGraph>)
    requires FreshGrowth(g0, o.g) && FreshAdds(o.g, trace, ogs)
    ensures FreshGrowth(g0, AddAll(range, o, ogs).g)
    decreases |ogs|
  {
    if ogs != [] {
      FreshStep(o.g, trace, ogs[0]);
      FreshTrans(g0, o.g, AddGraph(o.g, ogs[0]));
      FreshAddAll(range, g0, trace, AddStep(range, o, ogs[0]), ogs[1..]);
    }
  }

  lemma {:induction false} FreshIsPlain(g: Graph, trace: TraceId, ogs: seq<ObselGraph>)
    requires FreshAdds(g, trace, ogs)
    ensures PlainAdds(g, ogs)
    decreases |ogs|
  {
    if ogs != [] {
      FreshIsPlain(AddGraph(g, ogs[0]), trace, ogs[1..]);
    }
  }

  lemma FreshEditEvolves(c: Coll, e: Edit)
    requires Inv(c) && FreshEdit(c, e)
    ensures Evolves(c, Apply(c, e)) && EvolvesFresh(c, Apply(c, e))
  {
    if e.AddOnly? { FreshIsPlain(c.g, c.trace, e.ogs); }
    EditEvolves(c, e);
    if e.AddOnly? {
      FreshAddAll(c.range, c.g, c.trace, Open(c.g, Prepare(c, true)), e.ogs);
    }
  }

  /** After such edits only, an incremental refresh finds no late relation. */
  lemma FreshRefresh(h: Hop, choice: Choice, seen: Seen, snap: Coll, source: Coll, target: Coll)
    requires Synced(h, choice, seen, snap, source, target) && ChooseMode(seen, source) != NotMon
    requires EvolvesFresh(snap, source)
    ensures NothingLate(h, choice, snap.g, source.g)
  {
    FreshIsNotLate(h, choice, snap.g, source.g);
  }
}
