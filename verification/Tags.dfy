/**
 The state of an obsel collection and what each edit does to it: the last obsel and
 the four tags. A tag that an edit does not renew is a promise to whoever read it;
 this module states the promises and proves that every run of edits keeps them.

 A new tag is made from a new etag, which is modelled by a counter: it differs from
 every earlier one.
 */
module Tags {
  import opened Obsels

  /** The graph given to add_obsel_graph: one obsel, and triples that touch it. */
  datatype ObselGraph = ObselGraph(uri: Uri, obs: Obsel, rels: set<Rel>)

  datatype Coll = Coll(trace: TraceId, g: Graph, range: int, last: Option<Uri>,
                       etag: nat, str: nat, pse: nat, log: nat)

  /** What prepare_edit remembers, and what add_obsel_graph updates. */
  datatype Prepared = Prepared(last: Option<Uri>, lastBegin: int, lastEnd: int,
                               str: bool, pse: bool, log: bool)

  /** A collection in the middle of an edit context. */
  datatype Open = Open(g: Graph, p: Prepared)

  datatype Edit =
    | AddOnly(ogs: seq<ObselGraph>)             // add_obsel_graph, in an edit context with add_obsels_only
    | Declared(g: Graph)                        // an edit context with add_obsels_only that changes the graph by itself
    | Full(g: Graph, last: Option<Uri>)         // any other edit context; `last` is the answer of FIND_LAST_OBSEL
    | SetRange(range: int, last: Option<Uri>)   // an edit of the trace's pseudo-monotonicity range

  /* ---------- the edits ---------- */

  function Prepare(c: Coll, addOnly: bool): Prepared
    requires c.last.Some? ==> c.last.value in c.g.obsels
  {
    match c.last
    case None => Prepared(None, 0, 0, addOnly, addOnly, addOnly)
    case Some(l) => Prepared(c.last, c.g.obsels[l].begin, c.g.obsels[l].end, addOnly, addOnly, addOnly)
  }

  function AddGraph(g: Graph, og: ObselGraph): Graph {
    Graph(g.obsels[og.uri := og.obs], g.rels + og.rels)
  }

  /** The obsels that an added graph changes: the new one and those it is related to. */
  ghost predicate Touched(g: Graph, og: ObselGraph, v: Uri) {
    v in g.obsels && (v == og.uri || exists r <- og.rels :: Touches(r, v))
  }

  function LastKey(p: Prepared): Key
    requires p.last.Some?
  {
    Key(p.lastEnd, p.lastBegin, p.last.value.id)
  }

  predicate TooOld(o: Obsel, p: Prepared, range: int) {
    || (o.end < p.lastEnd && o.end < p.lastEnd - range)
    || (o.end == p.lastEnd && o.begin < p.lastBegin && o.begin < p.lastBegin - range)
  }

  /** The flags and the last obsel after `og` went into `g`. */
  ghost function Detect(g: Graph, range: int, p: Prepared, og: ObselGraph): Prepared
    requires og.uri in g.obsels
  {
    var last := p.(last := Some(og.uri), lastBegin := g.obsels[og.uri].begin, lastEnd := g.obsels[og.uri].end);
    if p.last.None? then last else
      var str := forall v <- g.obsels :: Touched(g, og, v) ==> Less(LastKey(p), KeyAt(g, v));
      var pse := forall v <- g.obsels :: Touched(g, og, v) ==> !TooOld(g.obsels[v], p, range);
      var q := if Less(LastKey(p), KeyAt(g, og.uri)) then last else p;
      q.(str := p.str && str, pse := p.pse && pse)
  }

  ghost function AddStep(range: int, o: Open, og: ObselGraph): Open {
    var g := AddGraph(o.g, og);
    Open(g, Detect(g, range, o.p, og))
  }

  ghost function AddAll(range: int, o: Open, ogs: seq<ObselGraph>): Open
    decreases |ogs|
  {
    if ogs == [] then o else AddAll(range, AddStep(range, o, ogs[0]), ogs[1..])
  }

  /** ack_edit: a new etag, and a new tag for every kind of monotonicity that was lost. */
  function Ack(c: Coll, o: Open): Coll {
    var token := c.etag + 1;
    c.(g := o.g, last := o.p.last, etag := token,
       str := if o.p.str then c.str else token,
       pse := if o.p.pse then c.pse else token,
       log := if o.p.log then c.log else token)
  }

  ghost function Apply(c: Coll, e: Edit): Coll
    requires c.last.Some? ==> c.last.value in c.g.obsels
  {
    match e
    case AddOnly(ogs) => Ack(c, AddAll(c.range, Open(c.g, Prepare(c, true)), ogs))
    case Declared(g) => Ack(c, Open(g, Prepare(c, true)))
    case Full(g, last) => Ack(c, Open(g, Prepare(c, false).(last := last)))
    case SetRange(r, last) =>
      if r > c.range then Ack(c.(range := r), Open(c.g, Prepare(c, false).(last := last)))
      else c.(range := r)
  }

  /* ---------- finding the last obsel after a full edit ---------- */

  /** The ends below which FIND_LAST_OBSEL looks at nothing: it is bound to the end
      that the previous last obsel had before the edit, if that obsel still exists. */
  predicate Considered(c: Coll, g: Graph, u: Uri)
    requires u in g.obsels
    requires c.last.Some? ==> c.last.value in c.g.obsels
  {
    c.last.Some? && c.last.value in g.obsels ==> c.g.obsels[c.last.value].end <= g.obsels[u].end
  }

  /** `last` is an answer the query may give: an obsel of greatest end among those considered. */
  ghost predicate FindsLast(c: Coll, g: Graph, last: Option<Uri>)
    requires c.last.Some? ==> c.last.value in c.g.obsels
  {
    match last
    case None => forall u <- g.obsels :: !Considered(c, g, u)
    case Some(l) => l in g.obsels && Considered(c, g, l)
                    && forall u <- g.obsels :: Considered(c, g, u) ==> g.obsels[u].end <= g.obsels[l].end
  }

  /** One obsel ends after all the others, and not before the previous last obsel did,
      unless that one is gone. */
  ghost predicate ClearLast(c: Coll, g: Graph)
    requires c.last.Some? ==> c.last.value in c.g.obsels
  {
    g.obsels == map[] ||
    exists u <- g.obsels ::
      && (c.last.Some? && c.last.value in g.obsels ==> c.g.obsels[c.last.value].end <= g.obsels[u].end)
      && forall v <- g.obsels :: v != u ==> g.obsels[v].end < g.obsels[u].end
  }

  lemma {:induction false} LatestEnd(g: Graph, s: set<Uri>) returns (u: Uri)
    requires s != {} && s <= g.obsels.Keys
    ensures u in s && forall v <- s :: g.obsels[v].end <= g.obsels[u].end
  {
    u :| u in s;
    if s != {u} {
      assert s == (s - {u}) + {u};
      var w := LatestEnd(g, s - {u});
      if g.obsels[u].end < g.obsels[w].end { u := w; }
    }
  }

  lemma SomeConsidered(c: Coll, g: Graph)
    requires c.last.Some? ==> c.last.value in c.g.obsels
    requires g.obsels != map[] && (FindsLast(c, g, None) ==> IsLast(g, None))
    ensures exists u <- g.obsels :: Considered(c, g, u)
  {
  }

  /** FIND_LAST_OBSEL returns the (end, begin, uri) maximum, whatever obsel the store
      picks among those that end together, exactly when the last obsel is clear. */
  lemma FindLastExact(c: Coll, g: Graph)
    requires c.last.Some? ==> c.last.value in c.g.obsels
    ensures (forall last :: FindsLast(c, g, last) ==> IsLast(g, last)) <==> ClearLast(c, g)
  {
    if (forall last :: FindsLast(c, g, last) ==> IsLast(g, last)) && g.obsels != map[] {
      SomeConsidered(c, g);
      var s := set u | u in g.obsels && Considered(c, g, u);
      var w :| w in g.obsels && Considered(c, g, w);
      assert w in s;
      var u := LatestEnd(g, s);
      assert forall v <- g.obsels :: Considered(c, g, v) ==> v in s;
      assert FindsLast(c, g, Some(u));
      forall v | v in g.obsels && v != u ensures g.obsels[v].end < g.obsels[u].end {
        assert g.obsels[v].end == g.obsels[u].end ==> FindsLast(c, g, Some(v));
      }
    }
    if ClearLast(c, g) && g.obsels != map[] {
      var u :| u in g.obsels && Considered(c, g, u)
               && forall v <- g.obsels :: v != u ==> g.obsels[v].end < g.obsels[u].end;
      forall last | FindsLast(c, g, last) ensures IsLast(g, last) {
        assert last == Some(u);
      }
    }
  }

  /* ---------- invariants ---------- */

  ghost predicate Inv(c: Coll) {
    && Owned(c.g, c.trace)
    && IsLast(c.g, c.last)
    && c.str <= c.etag && c.pse <= c.etag && c.log <= c.etag
  }

  /** More triples about the same obsel. */
  predicate Extends(a: Obsel, b: Obsel) {
    && b.begin == a.begin && b.end == a.end
    && a.types <= b.types && a.attrs <= b.attrs && (a.source.Some? ==> b.source == a.source)
  }

  /** `og` describes an obsel of the trace; if it is known, `og.obs` is what its triples
      become when those of `og` are added. */
  ghost predicate Describes(g: Graph, trace: TraceId, og: ObselGraph) {
    && og.uri.trace == trace
    && (og.uri in g.obsels ==> Extends(g.obsels[og.uri], og.obs))
    && forall r <- og.rels :: Touches(r, og.uri)
  }

  ghost predicate ValidAdds(g: Graph, trace: TraceId, ogs: seq<ObselGraph>)
    decreases |ogs|
  {
    ogs == [] || (Describes(g, trace, ogs[0]) && ValidAdds(AddGraph(g, ogs[0]), trace, ogs[1..]))
  }

  /** Nothing is removed, and nothing is added that is an obsel or touches one. */
  ghost predicate LeavesObsels(g0: Graph, g1: Graph) {
    && g1.obsels == g0.obsels
    && g0.rels <= g1.rels
    && forall r, u :: r in g1.rels && r !in g0.rels && u in g0.obsels ==> !Touches(r, u)
  }

  /** The edits considered. An edit that only declares to add obsels must leave them
      alone: DeclaredExact says that nothing less will do. After a full edit the query must
      have found the right last obsel: FindLastExact says when it is sure to, and
      StrPromiseNeedsLast that nothing less will do. */
  ghost predicate Valid(c: Coll, e: Edit)
    requires c.last.Some? ==> c.last.value in c.g.obsels
  {
    match e
    case AddOnly(ogs) => ValidAdds(c.g, c.trace, ogs)
    case Declared(g) => LeavesObsels(c.g, g)
    case Full(g, last) => Owned(g, c.trace) && FindsLast(c, g, last) && IsLast(g, last)
    case SetRange(r, last) => r > c.range ==> FindsLast(c, c.g, last) && IsLast(c.g, last)
  }

  /* ---------- promises ---------- */

  /** Nothing was removed. */
  ghost predicate LogicGrowth(g0: Graph, g1: Graph) {
    && (forall u <- g0.obsels :: u in g1.obsels && Extends(g0.obsels[u], g1.obsels[u]))
    && g0.rels <= g1.rels
  }

  /** Nothing was removed, and the descriptions of obsels were not touched. */
  ghost predicate PlainGrowth(g0: Graph, g1: Graph) {
    && (forall u <- g0.obsels :: u in g1.obsels && g1.obsels[u] == g0.obsels[u])
    && g0.rels <= g1.rels
  }

  /** The obsel was added, or more was said about it. */
  predicate Changed(g0: Graph, g1: Graph, u: Uri) {
    u in g1.obsels && (u in g0.obsels ==> g1.obsels[u] != g0.obsels[u])
  }

  /** Only obsels after all those of `g0` were added, and nothing about the obsels of `g0`. */
  ghost predicate StrictGrowth(g0: Graph, g1: Graph) {
    && PlainGrowth(g0, g1)
    && (forall u, v :: u in g0.obsels && v in g1.obsels && v !in g0.obsels ==> Less(KeyAt(g0, u), KeyAt(g1, v)))
    && (forall r, u :: r in g1.rels && r !in g0.rels && u in g0.obsels ==> !Touches(r, u))
  }

  /** In the order by end, then begin, `a` is not after `b`. */
  predicate NoLater(a: Obsel, b: Obsel) {
    a.end < b.end || (a.end == b.end && a.begin <= b.begin)
  }

  /** What may change without renewing pse_mon_tag, when `last` is the last obsel: an
      obsel that ends within the range or, when there is no range, that `last` is not after. */
  predicate Recent(o: Obsel, last: Obsel, range: int) {
    if range > 0 then last.end - range <= o.end else NoLater(last, o)
  }

  /** Something was added about recent obsels only, old or new. */
  ghost predicate PseudoGrowth(g0: Graph, last: Obsel, range: int, g1: Graph) {
    && LogicGrowth(g0, g1)
    && (forall v <- g1.obsels :: Changed(g0, g1, v) ==> Recent(g1.obsels[v], last, range))
    && (forall r, v :: r in g1.rels && r !in g0.rels && v in g1.obsels && Touches(r, v) ==>
          Recent(g1.obsels[v], last, range))
  }

  function LastObsel(c: Coll): Obsel
    requires c.last.Some? && c.last.value in c.g.obsels
  {
    c.g.obsels[c.last.value]
  }

  /** What an unchanged tag promises at `c1` to someone who read it at `c0`. */
  ghost predicate Promise(c0: Coll, c1: Coll) {
    && c0.trace == c1.trace
    && c0.etag <= c1.etag
    && (c1.str == c0.str ==> StrictGrowth(c0.g, c1.g))
    && (c1.pse == c0.pse && c0.last.Some? && c0.last.value in c0.g.obsels ==>
          && c1.last.Some? && c1.last.value in c1.g.obsels
          && PseudoGrowth(c0.g, LastObsel(c0), c0.range, c1.g)
          && NoLater(LastObsel(c0), LastObsel(c1))
          && c1.range <= c0.range)
    && (c1.log == c0.log || c1.pse == c0.pse ==> LogicGrowth(c0.g, c1.g))
  }

  /** The promises during an edit context that began on `c`. */
  ghost predicate OpenInv(c: Coll, o: Open) {
    && Owned(o.g, c.trace)
    && IsLast(o.g, o.p.last)
    && (o.p.last.Some? ==> o.p.lastBegin == o.g.obsels[o.p.last.value].begin
                           && o.p.lastEnd == o.g.obsels[o.p.last.value].end)
    && LogicGrowth(c.g, o.g)
    && (c.last.Some? ==>
          && c.last.value in c.g.obsels && o.p.last.Some?
          && NoLater(LastObsel(c), o.g.obsels[o.p.last.value]))
    && (o.p.str ==> StrictGrowth(c.g, o.g))
    && (o.p.pse && c.last.Some? ==> PseudoGrowth(c.g, LastObsel(c), c.range, o.g))
  }

  lemma StrictStep(g: Graph, p: Prepared, og: ObselGraph, trace: TraceId)
    requires Owned(g, trace) && IsLast(g, p.last) && Describes(g, trace, og)
    requires p.last.Some? ==> LastKey(p) == KeyAt(g, p.last.value)
    requires p.last.Some? ==> forall v <- AddGraph(g, og).obsels :: Touched(AddGraph(g, og), og, v) ==>
                                Less(LastKey(p), KeyAt(AddGraph(g, og), v))
    ensures StrictGrowth(g, AddGraph(g, og))
  {
  }

  lemma PseudoStep(g: Graph, p: Prepared, og: ObselGraph, trace: TraceId, range: int)
    requires Describes(g, trace, og) && p.last.Some? && p.last.value in g.obsels
    requires LastKey(p) == KeyAt(g, p.last.value)
    requires forall v <- AddGraph(g, og).obsels :: Touched(AddGraph(g, og), og, v) ==>
                                !TooOld(AddGraph(g, og).obsels[v], p, range)
    ensures PseudoGrowth(g, g.obsels[p.last.value], range, AddGraph(g, og))
  {
  }

  lemma StrictTrans(g0: Graph, g1: Graph, g2: Graph)
    requires StrictGrowth(g0, g1) && StrictGrowth(g1, g2)
    ensures StrictGrowth(g0, g2)
  {
  }

  lemma PseudoTrans(g0: Graph, l0: Obsel, r0: int, g1: Graph, l1: Obsel, r1: int, g2: Graph)
    requires PseudoGrowth(g0, l0, r0, g1) && PseudoGrowth(g1, l1, r1, g2) && NoLater(l0, l1) && r1 <= r0
    ensures PseudoGrowth(g0, l0, r0, g2)
  {
  }

  lemma LastStep(g: Graph, trace: TraceId, range: int, p: Prepared, og: ObselGraph)
    requires Owned(g, trace) && IsLast(g, p.last) && Describes(g, trace, og)
    requires p.last.Some? ==> LastKey(p) == KeyAt(g, p.last.value)
    ensures var o := AddStep(range, Open(g, p), og);
            IsLast(o.g, o.p.last) && o.p.last.Some? && LastKey(o.p) == KeyAt(o.g, o.p.last.value)
            && (p.last.Some? ==> NoLater(g.obsels[p.last.value], o.g.obsels[o.p.last.value]))
  {
  }

  lemma AddStepKeeps(c: Coll, o: Open, og: ObselGraph)
    requires Inv(c) && OpenInv(c, o) && Describes(o.g, c.trace, og)
    ensures OpenInv(c, AddStep(c.range, o, og))
  {
    var o1 := AddStep(c.range, o, og);
    LastStep(o.g, c.trace, c.range, o.p, og);
    if o1.p.str {
      StrictStep(o.g, o.p, og, c.trace);
      StrictTrans(c.g, o.g, o1.g);
    }
    if o1.p.pse && c.last.Some? {
      PseudoStep(o.g, o.p, og, c.trace, c.range);
      PseudoTrans(c.g, LastObsel(c), c.range, o.g, o.g.obsels[o.p.last.value], c.range, o1.g);
    }
  }

  lemma {:induction false} AddAllKeeps(c: Coll, o: Open, ogs: seq<ObselGraph>)
    requires Inv(c) && OpenInv(c, o) && ValidAdds(o.g, c.trace, ogs)
    ensures OpenInv(c, AddAll(c.range, o, ogs))
    decreases |ogs|
  {
    if ogs != [] {
      AddStepKeeps(c, o, ogs[0]);
      AddAllKeeps(c, AddStep(c.range, o, ogs[0]), ogs[1..]);
    }
  }

  lemma {:induction false} AddAllKeepsLog(range: int, o: Open, ogs: seq<ObselGraph>)
    ensures AddAll(range, o, ogs).p.log == o.p.log
    decreases |ogs|
  {
    if ogs != [] {
      AddAllKeepsLog(range, AddStep(range, o, ogs[0]), ogs[1..]);
    }
  }

  /** Every edit keeps the invariant, and keeps the promises of the tags it does not renew. */
  lemma ApplyKeeps(c: Coll, e: Edit)
    requires Inv(c) && Valid(c, e)
    ensures Inv(Apply(c, e)) && Promise(c, Apply(c, e))
  {
    match e
    case AddOnly(ogs) =>
      AddAllKeeps(c, Open(c.g, Prepare(c, true)), ogs);
      AddAllKeepsLog(c.range, Open(c.g, Prepare(c, true)), ogs);
    case Declared(g) =>
    case Full(g, last) =>
    case SetRange(r, last) =>
  }

  /** add_obsels_only is taken at its word: an edit context with this parameter renews no
      monotonicity tag and keeps the last obsel, whatever it does to the graph. The
      invariant and the promises survive it exactly when it leaves the obsels alone. */
  lemma DeclaredExact(c: Coll, g: Graph)
    requires Inv(c)
    ensures Inv(Apply(c, Declared(g))) && Promise(c, Apply(c, Declared(g))) <==> LeavesObsels(c.g, g)
  {
    var d := Apply(c, Declared(g));
    if Inv(d) && Promise(c, d) {
      forall v | v in g.obsels ensures v in c.g.obsels {
        assert c.last.Some? && v !in c.g.obsels ==> Less(KeyAt(c.g, c.last.value), KeyAt(g, v));
      }
    }
  }

  /** Replacing the graph by an empty one, in such a context, removes every obsel and
      leaves all three monotonicity tags as they were. */
  lemma DeclaredEmptying(c: Coll)
    requires Inv(c) && c.last.Some?
    ensures var d := Apply(c, Declared(EMPTY));
            && d.str == c.str && d.pse == c.pse && d.log == c.log && d.last == c.last
            && !(Sorted(Keys(c.g)) <= Sorted(Keys(d.g)))
            && !LogicGrowth(c.g, d.g)
  {
    assert KeyAt(c.g, c.last.value) in Keys(c.g);
    assert Keys(EMPTY) == {};
  }

  lemma PromiseTrans(c0: Coll, c1: Coll, c2: Coll)
    requires Inv(c0) && Inv(c1) && Inv(c2) && Promise(c0, c1) && Promise(c1, c2)
    requires Renewed(c1, c2)
    ensures Promise(c0, c2)
  {
    if c2.str == c0.str {
      StrictTrans(c0.g, c1.g, c2.g);
    }
    if c2.pse == c0.pse && c0.last.Some? {
      PseudoTrans(c0.g, LastObsel(c0), c0.range, c1.g, LastObsel(c1), c1.range, c2.g);
    }
  }

  /** A tag is either unchanged or newer than everything before. */
  predicate Renewed(c0: Coll, c1: Coll) {
    && (c1.str == c0.str || c1.str > c0.etag)
    && (c1.pse == c0.pse || c1.pse > c0.etag)
    && (c1.log == c0.log || c1.log > c0.etag)
  }

  /* ---------- runs ---------- */

  ghost predicate ValidRun(c: Coll, es: seq<Edit>)
    requires Inv(c)
    decreases |es|
  {
    es == [] || (Valid(c, es[0]) && (ApplyKeeps(c, es[0]); ValidRun(Apply(c, es[0]), es[1..])))
  }

  ghost function Run(c: Coll, es: seq<Edit>): Coll
    requires Inv(c) && ValidRun(c, es)
    decreases |es|
  {
    if es == [] then c else (ApplyKeeps(c, es[0]); Run(Apply(c, es[0]), es[1..]))
  }

  lemma {:induction false} RunKeeps(c: Coll, es: seq<Edit>)
    requires Inv(c) && ValidRun(c, es)
    ensures Inv(Run(c, es)) && Promise(c, Run(c, es)) && Renewed(c, Run(c, es))
    decreases |es|
  {
    if es != [] {
      ApplyKeeps(c, es[0]);
      RunKeeps(Apply(c, es[0]), es[1..]);
      FirstThenRest(c, es[0], Run(c, es));
    }
  }

  lemma FirstThenRest(c: Coll, e: Edit, d: Coll)
    requires Inv(c) && Valid(c, e) && Inv(d)
    requires Promise(Apply(c, e), d) && Renewed(Apply(c, e), d)
    ensures Promise(c, d) && Renewed(c, d)
  {
    ApplyKeeps(c, e);
    PromiseTrans(c, Apply(c, e), d);
  }

  /** Which tags an edit renews, but for what add_obsel_graph does to str_mon_tag and
      pse_mon_tag: StrTagExact and PseTagExact say that. A wider range renews them all and
      leaves the graph alone; a narrower one does nothing else. */
  lemma RenewedExactly(c: Coll, e: Edit)
    requires Inv(c)
    ensures var d := Apply(c, e);
            match e
            case AddOnly(_) => d.etag > c.etag && d.log == c.log && d.range == c.range
            case Declared(g) => d.etag > c.etag && d == c.(g := g, etag := d.etag)
            case Full(g, last) =>
              && d.etag > c.etag && d.str > c.etag && d.pse > c.etag && d.log > c.etag
              && d.g == g && d.last == last && d.range == c.range
            case SetRange(r, last) =>
              if r <= c.range then d == c.(range := r)
              else && d.etag > c.etag && d.str > c.etag && d.pse > c.etag && d.log > c.etag
                   && d.g == c.g && d.last == last && d.range == r
  {
    if e.AddOnly? {
      AddAllKeepsLog(c.range, Open(c.g, Prepare(c, true)), e.ogs);
    }
  }

  lemma RunRenews(c: Coll, es: seq<Edit>)
    requires Inv(c) && ValidRun(c, es)
    ensures Renewed(c, Run(c, es)) && c.str <= c.etag && c.pse <= c.etag
  {
    RunKeeps(c, es);
  }

  /* ---------- what an unchanged tag means, over any run of edits ---------- */

  function About(g: Graph, u: Uri): set<Rel> {
    set r | r in g.rels && Touches(r, u)
  }

  /** An equal str_mon_tag: the earlier listing of obsels is a prefix of the later one,
      and the triples about an earlier obsel are the same. */
  lemma StrTagKeepsPrefix(c: Coll, es: seq<Edit>)
    requires Inv(c) && ValidRun(c, es) && Run(c, es).str == c.str
    ensures Sorted(Keys(c.g)) <= Sorted(Keys(Run(c, es).g))
    ensures forall u <- c.g.obsels :: u in Run(c, es).g.obsels && Run(c, es).g.obsels[u] == c.g.obsels[u]
    ensures forall u <- c.g.obsels :: About(Run(c, es).g, u) == About(c.g, u)
  {
    RunKeeps(c, es);
    StrictlyLater(c.g, Run(c, es).g);
  }

  /** After strict growth, the earlier listing is a prefix of the later one. */
  lemma StrictlyLater(g0: Graph, g1: Graph)
    requires StrictGrowth(g0, g1)
    ensures Sorted(Keys(g0)) <= Sorted(Keys(g1))
  {
    hide Less, Sorted;
    var added := set v | v in g1.obsels && v !in g0.obsels :: KeyAt(g1, v);
    forall k ensures k in Keys(g1) <==> k in Keys(g0) + added {
      if k in Keys(g0) {
        var u :| u in g0.obsels && k == KeyAt(g0, u);
        assert u in g1.obsels && k == KeyAt(g1, u);
      }
      if k in Keys(g1) {
        var v :| v in g1.obsels && k == KeyAt(g1, v);
        assert v in g0.obsels ==> k == KeyAt(g0, v);
      }
    }
    assert Keys(g1) == Keys(g0) + added;
    SortedSplit(Keys(g0), added);
  }

  ghost function EndingBefore(g: Graph, limit: int): map<Uri, Obsel> {
    map u | u in g.obsels && g.obsels[u].end < limit :: g.obsels[u]
  }

  /** An equal pse_mon_tag: the obsels that end before the pseudo-monotonicity range of
      the earlier last obsel, and all triples about them, are the same, even if the
      range was edited meanwhile. */
  lemma PseTagKeepsOldObsels(c: Coll, es: seq<Edit>)
    requires Inv(c) && ValidRun(c, es) && Run(c, es).pse == c.pse && c.last.Some?
    ensures var limit := LastObsel(c).end - if c.range > 0 then c.range else 0;
            && EndingBefore(Run(c, es).g, limit) == EndingBefore(c.g, limit)
            && forall u <- EndingBefore(c.g, limit) :: About(Run(c, es).g, u) == About(c.g, u)
  {
    RunKeeps(c, es);
  }

  /** After any run, the stored last obsel is the latest: it ends after every other one, or
      with it and begins after it, or begins with it, too, and has a greater URI. */
  lemma LastIsLatest(c: Coll, es: seq<Edit>)
    requires Inv(c) && ValidRun(c, es)
    ensures var d := Run(c, es);
            match d.last
            case None => d.g.obsels == map[]
            case Some(l) =>
              && l in d.g.obsels
              && forall v <- d.g.obsels :: v != l ==>
                   var a, b := d.g.obsels[v], d.g.obsels[l];
                   || a.end < b.end
                   || (a.end == b.end && a.begin < b.begin)
                   || (a.end == b.end && a.begin == b.begin && v.id < l.id)
  {
    RunKeeps(c, es);
  }

  /** An equal log_mon_tag: obsels and triples were only added. */
  lemma LogTagOnlyGrows(c: Coll, es: seq<Edit>)
    requires Inv(c) && ValidRun(c, es) && Run(c, es).log == c.log
    ensures LogicGrowth(c.g, Run(c, es).g)
  {
    RunKeeps(c, es);
  }

  /** Adding a new obsel keeps str_mon_tag exactly when the change is strictly monotonic. */
  lemma StrTagExact(c: Coll, og: ObselGraph)
    requires Inv(c) && Describes(c.g, c.trace, og)
    requires og.uri !in c.g.obsels && og.rels !! c.g.rels
    ensures Apply(c, AddOnly([og])).str == c.str <==> StrictGrowth(c.g, AddGraph(c.g, og))
  {
    var g1 := AddGraph(c.g, og);
    var o := Open(c.g, Prepare(c, true));
    AddOne(c.range, o, og);
    if Apply(c, AddOnly([og])).str == c.str {
      StrictStep(c.g, o.p, og, c.trace);
    }
    if StrictGrowth(c.g, g1) && c.last.Some? {
      forall v | v in g1.obsels && Touched(g1, og, v) ensures Less(LastKey(o.p), KeyAt(g1, v)) {
        assert Less(KeyAt(c.g, c.last.value), KeyAt(g1, og.uri));
      }
    }
  }

  /** Whatever is added, pse_mon_tag survives exactly when neither the obsel nor any obsel
      related to it is older than the range allows: ends before the last one by more than
      the range, or ends with it and begins before it by more than the range. The first
      obsel of a collection renews no monotonicity tag. */
  lemma PseTagExact(c: Coll, og: ObselGraph)
    requires Inv(c) && Describes(c.g, c.trace, og)
    ensures c.last.None? ==>
              var d := Apply(c, AddOnly([og])); d.str == c.str && d.pse == c.pse && d.last == Some(og.uri)
    ensures c.last.Some? ==>
              var last, obsels := c.g.obsels[c.last.value], c.g.obsels[og.uri := og.obs];
              Apply(c, AddOnly([og])).pse == c.pse <==>
                forall v <- obsels :: v == og.uri || (exists r <- og.rels :: r.s == v || r.o == v) ==>
                  && !(obsels[v].end < last.end && obsels[v].end < last.end - c.range)
                  && !(obsels[v].end == last.end && obsels[v].begin < last.begin
                       && obsels[v].begin < last.begin - c.range)
  {
    var o := Open(c.g, Prepare(c, true));
    AddOne(c.range, o, og);
    if c.last.Some? {
      var g := AddGraph(c.g, og);
      forall v | v in g.obsels
        ensures Touched(g, og, v) <==> v == og.uri || exists r <- og.rels :: r.s == v || r.o == v
      {
        if r :| r in og.rels && (r.s == v || r.o == v) { assert Touches(r, v); }
      }
    }
  }

  lemma AddOne(range: int, o: Open, og: ObselGraph)
    ensures AddAll(range, o, [og]) == AddStep(range, o, og)
  {
  }

  lemma {:induction false} IdsBounded(s: set<Uri>) returns (n: int)
    ensures forall u <- s :: u.id < n
  {
    if s == {} { n := 0; } else {
      var u :| u in s;
      n := IdsBounded(s - {u});
      if n <= u.id { n := u.id + 1; }
    }
  }

  /** The promise of str_mon_tag depends on the stored last obsel being the right one:
      it holds of every added obsel if and only if `last` is the (end, begin, uri) maximum. */
  lemma StrPromiseNeedsLast(c: Coll)
    requires Owned(c.g, c.trace) && c.str <= c.etag
    requires c.last.Some? ==> c.last.value in c.g.obsels
    ensures (forall og :: Describes(c.g, c.trace, og) && Apply(c, AddOnly([og])).str == c.str
                          ==> StrictGrowth(c.g, AddGraph(c.g, og)))
            <==> IsLast(c.g, c.last)
  {
    var o := Open(c.g, Prepare(c, true));
    forall og | Describes(c.g, c.trace, og) ensures AddAll(c.range, o, [og]) == AddStep(c.range, o, og) {
      AddOne(c.range, o, og);
    }
    if IsLast(c.g, c.last) {
      forall og | Describes(c.g, c.trace, og) && Apply(c, AddOnly([og])).str == c.str
        ensures StrictGrowth(c.g, AddGraph(c.g, og))
      {
        StrictStep(c.g, o.p, og, c.trace);
      }
    } else {
      var v :| v in c.g.obsels && (c.last.Some? ==> Less(KeyAt(c.g, c.last.value), KeyAt(c.g, v)));
      var n := IdsBounded(c.g.obsels.Keys + (set r | r in c.g.rels :: r.s));
      var uri := Uri(c.trace, n);
      var end := if c.last.Some? then o.p.lastEnd + 1 else 0;
      var og := ObselGraph(uri, Obsel(end, end, {}, {}, None), {Rel(uri, 0, v)});
      var g1 := AddGraph(c.g, og);
      assert AddStep(c.range, o, og).p.str;
      assert Rel(uri, 0, v) in g1.rels && Rel(uri, 0, v) !in c.g.rels;
      assert !StrictGrowth(c.g, g1);
      assert Describes(c.g, c.trace, og) && Apply(c, AddOnly([og])).str == c.str;
    }
  }

  /* ---------- batching ---------- */

  function Singles(ogs: seq<ObselGraph>): seq<Edit> {
    seq(|ogs|, i requires 0 <= i < |ogs| => AddOnly([ogs[i]]))
  }

  /** Flags lost before a batch stay lost, and change nothing else. */
  lemma {:induction false} FlagsAreConjunctive(range: int, o: Open, s: bool, p: bool, ogs: seq<ObselGraph>)
    ensures var a := AddAll(range, o, ogs);
            AddAll(range, o.(p := o.p.(str := s && o.p.str, pse := p && o.p.pse)), ogs)
            == a.(p := a.p.(str := s && a.p.str, pse := p && a.p.pse))
    decreases |ogs|
  {
    if ogs != [] {
      var o' := o.(p := o.p.(str := s && o.p.str, pse := p && o.p.pse));
      var n := AddStep(range, o, ogs[0]);
      assert AddStep(range, o', ogs[0]) == n.(p := n.p.(str := s && n.p.str, pse := p && n.p.pse));
      FlagsAreConjunctive(range, n, s, p, ogs[1..]);
    }
  }

  /** Splitting the first graph off a batch changes no graph, no last obsel, and no flag. */
  lemma FirstOfBatch(c: Coll, ogs: seq<ObselGraph>)
    requires Inv(c) && ogs != [] && ValidAdds(c.g, c.trace, ogs)
    ensures Valid(c, AddOnly([ogs[0]])) && Inv(Apply(c, AddOnly([ogs[0]])))
    ensures Apply(c, AddOnly([ogs[0]])).log == c.log
    ensures var c1 := Apply(c, AddOnly([ogs[0]]));
            var a, b := AddAll(c.range, Open(c.g, Prepare(c, true)), ogs),
                        AddAll(c1.range, Open(c1.g, Prepare(c1, true)), ogs[1..]);
            && ValidAdds(c1.g, c1.trace, ogs[1..])
            && a.g == b.g && a.p.last == b.p.last && a.p.log == b.p.log
            && a.p.str == (c1.str == c.str && b.p.str)
            && a.p.pse == (c1.pse == c.pse && b.p.pse)
  {
    var og := ogs[0];
    var start := Open(c.g, Prepare(c, true));
    AddOne(c.range, start, og);
    AddAllKeepsLog(c.range, start, [og]);
    assert ValidAdds(c.g, c.trace, [og]) by { assert [og][1..] == []; }
    ApplyKeeps(c, AddOnly([og]));
    var c1 := Apply(c, AddOnly([og]));
    var o1 := AddStep(c.range, start, og);
    LastStep(c.g, c.trace, c.range, start.p, og);
    FlagsAreConjunctive(c.range, Open(c1.g, Prepare(c1, true)), o1.p.str, o1.p.pse, ogs[1..]);
    assert Open(c1.g, Prepare(c1, true).(str := o1.p.str, pse := o1.p.pse)) == o1;
  }

  /** k calls to add_obsel_graph inside one edit context, and k separate calls, give the
      same graph, the same last obsel and the same surviving tags. */
  lemma {:induction false} BatchingIsInvisible(c: Coll, ogs: seq<ObselGraph>)
    requires Inv(c) && ValidAdds(c.g, c.trace, ogs)
    ensures ValidRun(c, Singles(ogs))
    ensures var one, many := Apply(c, AddOnly(ogs)), Run(c, Singles(ogs));
            && one.g == many.g && one.last == many.last
            && (one.str == c.str <==> many.str == c.str)
            && (one.pse == c.pse <==> many.pse == c.pse)
            && one.log == c.log && many.log == c.log
    decreases |ogs|
  {
    AddAllKeepsLog(c.range, Open(c.g, Prepare(c, true)), ogs);
    if ogs != [] {
      FirstOfBatch(c, ogs);
      var c1 := Apply(c, AddOnly([ogs[0]]));
      BatchingIsInvisible(c1, ogs[1..]);
      assert Singles(ogs)[0] == AddOnly([ogs[0]]) && Singles(ogs)[1..] == Singles(ogs[1..]);
      RunRenews(c1, Singles(ogs[1..]));
    }
  }
}
