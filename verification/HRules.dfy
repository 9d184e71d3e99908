/**
 The hrules method: ranked rules choose the type of each copy, and an incremental
 computation in four modes keeps the target equal to the one computed from nothing.
 */
module HRules {
  import opened Obsels
  import opened Tags
  import opened Select
  import opened Views
  import opened Methods
  import TO = TraceObsels

  /* ---------- rules ---------- */

  datatype Op = Eq | Ne | Lt | Le | Gt | Ge

  datatype Cond = Cond(attr: Name, op: Op, value: int)

  /** `text` is the rank, in the order of strings, of the query text made for the sub-rule. */
  datatype SubRule = SubRule(typ: Option<Name>, conds: seq<Cond>, text: int)

  datatype Rule = Rule(id: Name, visible: bool, rules: seq<SubRule>)

  /** A sub-rule as init_state stores it: its rank, the type it gives, and its test.
      `pos` is the position of its rule. */
  datatype Bgp = Bgp(rank: int, newType: Name, sub: SubRule, pos: nat)

  predicate Compare(op: Op, a: int, b: int) {
    match op
    case Eq => a == b
    case Ne => a != b
    case Lt => a < b
    case Le => a <= b
    case Gt => a > b
    case Ge => a >= b
  }

  predicate Holds(sub: SubRule, o: Obsel) {
    && (sub.typ.Some? ==> sub.typ.value in o.types)
    && forall c <- sub.conds :: exists a <- o.attrs :: a.name == c.attr && Compare(c.op, a.value, c.value)
  }

  function RankOf(typed: bool, nattrs: nat, pos: nat): int {
    (if typed then 1000000 else 0) + 1000 * nattrs - pos
  }

  function RankOfSub(sub: SubRule, pos: nat): int {
    RankOf(sub.typ.Some?, |sub.conds|, pos)
  }

  function BgpsOfRule(rule: Rule, pos: nat): seq<Bgp> {
    if !rule.visible then [] else
      seq(|rule.rules|, i requires 0 <= i < |rule.rules| =>
        Bgp(RankOfSub(rule.rules[i], pos), rule.id, rule.rules[i], pos))
  }

  function BgpsFrom(rules: seq<Rule>, pos: nat): seq<Bgp>
    requires pos <= |rules|
    decreases |rules| - pos
  {
    if pos == |rules| then [] else BgpsOfRule(rules[pos], pos) + BgpsFrom(rules, pos + 1)
  }

  predicate Ranked(q: seq<Bgp>) {
    forall i, j :: 0 <= i < j < |q| ==> q[i].rank >= q[j].rank
  }

  /** The order of lists [rank, new_type, bgp]. */
  predicate AtLeast(a: Bgp, b: Bgp) {
    || a.rank > b.rank
    || (a.rank == b.rank && a.newType > b.newType)
    || (a.rank == b.rank && a.newType == b.newType && a.sub.text >= b.sub.text)
  }

  predicate Descending(q: seq<Bgp>) {
    forall i, j :: 0 <= i < j < |q| ==> AtLeast(q[i], q[j])
  }

  /** `bgps.sort(reverse=True)` */
  function Insert(b: Bgp, q: seq<Bgp>): seq<Bgp> {
    if q == [] || AtLeast(b, q[0]) then [b] + q else [q[0]] + Insert(b, q[1..])
  }

  function SortRanked(q: seq<Bgp>): seq<Bgp> {
    if q == [] then [] else Insert(q[0], SortRanked(q[1..]))
  }

  lemma {:induction false} InsertKeeps(b: Bgp, q: seq<Bgp>)
    ensures multiset(Insert(b, q)) == multiset(q) + multiset{b}
    ensures forall x :: x in Insert(b, q) <==> x == b || x in q
    decreases |q|
  {
    if q != [] && !AtLeast(b, q[0]) {
      assert q == [q[0]] + q[1..];
      InsertKeeps(b, q[1..]);
    }
  }

  lemma {:induction false} InsertDescends(b: Bgp, q: seq<Bgp>)
    requires Descending(q)
    ensures Descending(Insert(b, q))
    decreases |q|
  {
    if q != [] && !AtLeast(b, q[0]) {
      InsertDescends(b, q[1..]);
      InsertKeeps(b, q[1..]);
      var rest := Insert(b, q[1..]);
      forall i | 0 <= i < |rest| ensures AtLeast(q[0], rest[i]) {
        assert rest[i] in rest;
      }
    }
  }

  lemma {:induction false} SortRankedSorts(q: seq<Bgp>)
    ensures Descending(SortRanked(q)) && Ranked(SortRanked(q)) && multiset(SortRanked(q)) == multiset(q)
    decreases |q|
  {
    if q != [] {
      assert q == [q[0]] + q[1..];
      SortRankedSorts(q[1..]);
      InsertKeeps(q[0], SortRanked(q[1..]));
      InsertDescends(q[0], SortRanked(q[1..]));
    }
  }

  method RankSubRule(sub: SubRule, pos: nat) returns (rank: int)
    ensures rank == RankOfSub(sub, pos)
  {
    rank := 0;
    if sub.typ.Some? { rank := rank + 1000000; }
    for j := 0 to |sub.conds|
      invariant rank == (if sub.typ.Some? then 1000000 else 0) + 1000 * j
    {
      rank := rank + 1000;
    }
    rank := rank - pos;
  }

  method RankRule(rule: Rule, pos: nat) returns (ranked: seq<Bgp>)
    ensures ranked == BgpsOfRule(rule, pos)
  {
    ranked := [];
    if !rule.visible { return; }
    for i := 0 to |rule.rules|
      invariant ranked == BgpsOfRule(rule, pos)[..i]
    {
      var rank := RankSubRule(rule.rules[i], pos);
      ranked := ranked + [Bgp(rank, rule.id, rule.rules[i], pos)];
    }
  }

  /** init_state: ranks the sub-rules of the visible rules and sorts them. */
  method InitState(rules: seq<Rule>) returns (bgps: seq<Bgp>)
    ensures bgps == SortRanked(BgpsFrom(rules, 0))
    ensures Descending(bgps) && multiset(bgps) == multiset(BgpsFrom(rules, 0))
  {
    hide BgpsOfRule, Descending;
    bgps := [];
    for pos := 0 to |rules|
      invariant BgpsFrom(rules, 0) == bgps + BgpsFrom(rules, pos)
    {
      var ranked := RankRule(rules[pos], pos);
      bgps := bgps + ranked;
    }
    assert bgps == BgpsFrom(rules, 0);
    bgps := SortRanked(bgps);
    SortRankedSorts(BgpsFrom(rules, 0));
  }

  /** Typed before untyped, then more attributes first, then earlier rules first. */
  predicate Precedes(typed: bool, nattrs: nat, pos: nat, typed': bool, nattrs': nat, pos': nat) {
    || (typed && !typed')
    || (typed == typed' && nattrs > nattrs')
    || (typed == typed' && nattrs == nattrs' && pos < pos')
  }

  /** The integer rank orders sub-rules as intended exactly up to 1000 rules and 999
      attributes a sub-rule. */
  lemma RankExact(nrules: nat, maxAttrs: nat)
    requires nrules >= 1 && maxAttrs >= 1
    ensures (forall t, n: nat, p: nat, t', n': nat, p': nat ::
               n <= maxAttrs && p < nrules && n' <= maxAttrs && p' < nrules ==>
               (RankOf(t, n, p) > RankOf(t', n', p') <==> Precedes(t, n, p, t', n', p')))
            <==> nrules <= 1000 && maxAttrs <= 999
  {
    if nrules > 1000 {
      assert RankOf(false, 1, 1000) == RankOf(false, 0, 0);
      assert Precedes(false, 1, 1000, false, 0, 0);
    }
    if maxAttrs > 999 {
      assert RankOf(true, 0, 0) == RankOf(false, 1000, 0);
      assert Precedes(true, 0, 0, false, 1000, 0);
    }
  }

  /* ---------- the choice made by the rules ---------- */

  /** The type given by the first sub-rule that holds. */
  function FirstMatch(bgps: seq<Bgp>, o: Obsel): Option<set<Name>> {
    if bgps == [] then None
    else if Holds(bgps[0].sub, o) then Some({bgps[0].newType})
    else FirstMatch(bgps[1..], o)
  }

  ghost function ChoiceOf(bgps: seq<Bgp>): Choice {
    o => FirstMatch(bgps, o)
  }

  lemma {:induction false} FirstMatchIs(bgps: seq<Bgp>, o: Obsel, i: nat)
    requires i < |bgps| && Holds(bgps[i].sub, o)
    requires forall j | 0 <= j < i :: !Holds(bgps[j].sub, o)
    ensures ChoiceOf(bgps)(o) == FirstMatch(bgps, o) == Some({bgps[i].newType})
    decreases i
  {
    if i > 0 {
      assert bgps[1..][i - 1] == bgps[i];
      FirstMatchIs(bgps[1..], o, i - 1);
    }
  }

  lemma {:induction false} FirstMatchNone(bgps: seq<Bgp>, o: Obsel)
    ensures FirstMatch(bgps, o).None? <==> forall b <- bgps :: !Holds(b.sub, o)
    decreases |bgps|
  {
    if bgps != [] {
      assert bgps == [bgps[0]] + bgps[1..];
      FirstMatchNone(bgps[1..], o);
    }
  }

  /** A copied obsel gets the type of a sub-rule that holds and that no other holding
      sub-rule precedes. */
  lemma {:induction false} FirstMatchIsHighest(bgps: seq<Bgp>, o: Obsel)
    requires Ranked(bgps) && FirstMatch(bgps, o).Some?
    requires forall b <- bgps :: b.rank == RankOfSub(b.sub, b.pos) && b.pos < 1000 && |b.sub.conds| <= 999
    ensures exists b <- bgps ::
              && FirstMatch(bgps, o) == Some({b.newType}) && Holds(b.sub, o)
              && forall b' <- bgps :: Holds(b'.sub, o) ==>
                   !Precedes(b'.sub.typ.Some?, |b'.sub.conds|, b'.pos, b.sub.typ.Some?, |b.sub.conds|, b.pos)
    decreases |bgps|
  {
    assert bgps == [bgps[0]] + bgps[1..];
    RankExact(1000, 999);
    if Holds(bgps[0].sub, o) {
      var b := bgps[0];
      forall b' | b' in bgps && Holds(b'.sub, o)
        ensures !Precedes(b'.sub.typ.Some?, |b'.sub.conds|, b'.pos, b.sub.typ.Some?, |b.sub.conds|, b.pos)
      {
        var i :| 0 <= i < |bgps| && bgps[i] == b';
        assert b.rank >= b'.rank;
      }
    } else {
      FirstMatchIsHighest(bgps[1..], o);
    }
  }

  /** The sub-rules that count: those of the visible rules. */
  predicate IsSubRule(rules: seq<Rule>, p: nat, i: nat) {
    p < |rules| && rules[p].visible && i < |rules[p].rules|
  }

  function BgpAt(rules: seq<Rule>, p: nat, i: nat): Bgp
    requires IsSubRule(rules, p, i)
  {
    Bgp(RankOfSub(rules[p].rules[i], p), rules[p].id, rules[p].rules[i], p)
  }

  lemma BgpsOfRuleAre(rules: seq<Rule>, p: nat, b: Bgp)
    requires p < |rules|
    ensures b in BgpsOfRule(rules[p], p) <==> exists i: nat :: IsSubRule(rules, p, i) && b == BgpAt(rules, p, i)
  {
    var own := BgpsOfRule(rules[p], p);
    if b in own {
      var i :| 0 <= i < |own| && own[i] == b;
      assert IsSubRule(rules, p, i) && b == BgpAt(rules, p, i);
    }
    if i: nat :| IsSubRule(rules, p, i) && b == BgpAt(rules, p, i) {
      assert own[i] == b;
    }
  }

  lemma PosOfBgp(rule: Rule, pos: nat, b: Bgp)
    requires b in BgpsOfRule(rule, pos)
    ensures b.pos == pos
  {
  }

  lemma {:induction false} BgpsFromAre(rules: seq<Rule>, pos: nat, b: Bgp)
    requires pos <= |rules|
    ensures b in BgpsFrom(rules, pos) <==> pos <= b.pos < |rules| && b in BgpsOfRule(rules[b.pos], b.pos)
    decreases |rules| - pos
  {
    hide BgpsOfRule;
    if pos < |rules| {
      if b in BgpsOfRule(rules[pos], pos) { PosOfBgp(rules[pos], pos, b); }
      BgpsFromAre(rules, pos + 1, b);
    }
  }

  lemma SortedBgpsAre(rules: seq<Rule>, b: Bgp)
    ensures b in SortRanked(BgpsFrom(rules, 0))
            <==> exists p: nat, i: nat :: IsSubRule(rules, p, i) && b == BgpAt(rules, p, i)
  {
    hide BgpsOfRule, SortRanked, BgpsFrom;
    SortRankedSorts(BgpsFrom(rules, 0));
    assert b in multiset(SortRanked(BgpsFrom(rules, 0))) <==> b in multiset(BgpsFrom(rules, 0));
    BgpsFromAre(rules, 0, b);
    if b.pos < |rules| { BgpsOfRuleAre(rules, b.pos, b); }
  }

  predicate Outranks(rules: seq<Rule>, p: nat, i: nat, p': nat, i': nat)
    requires IsSubRule(rules, p, i) && IsSubRule(rules, p', i')
  {
    var a, b := rules[p].rules[i], rules[p'].rules[i'];
    Precedes(a.typ.Some?, |a.conds|, p, b.typ.Some?, |b.conds|, p')
  }

  lemma IsSorted(rules: seq<Rule>, p: nat, i: nat)
    requires IsSubRule(rules, p, i)
    ensures BgpAt(rules, p, i) in SortRanked(BgpsFrom(rules, 0))
  {
    SortedBgpsAre(rules, BgpAt(rules, p, i));
  }

  /** An obsel is copied if and only if a sub-rule of a visible rule holds of it. */
  lemma CopiedIffSomeRuleHolds(rules: seq<Rule>, o: Obsel)
    ensures FirstMatch(SortRanked(BgpsFrom(rules, 0)), o).Some?
            <==> exists p: nat, i: nat :: IsSubRule(rules, p, i) && Holds(rules[p].rules[i], o)
  {
    hide Holds, SortRanked, BgpsFrom;
    var bgps := SortRanked(BgpsFrom(rules, 0));
    FirstMatchNone(bgps, o);
    if b :| b in bgps && Holds(b.sub, o) {
      SortedBgpsAre(rules, b);
      var p: nat, i: nat :| IsSubRule(rules, p, i) && b == BgpAt(rules, p, i);
      assert Holds(rules[p].rules[i], o);
    }
    if p: nat, i: nat :| IsSubRule(rules, p, i) && Holds(rules[p].rules[i], o) {
      IsSorted(rules, p, i);
      assert BgpAt(rules, p, i) in bgps;
    }
  }

  /** Up to 1000 rules, and 999 attributes a sub-rule, the copy of an obsel has the type of
      a holding sub-rule that no other holding sub-rule outranks. */
  lemma CopiedTypeIsHighestRanked(rules: seq<Rule>, o: Obsel) returns (p: nat, i: nat)
    requires |rules| <= 1000
    requires forall p: nat, i: nat :: IsSubRule(rules, p, i) ==> |rules[p].rules[i].conds| <= 999
    requires FirstMatch(SortRanked(BgpsFrom(rules, 0)), o).Some?
    ensures IsSubRule(rules, p, i) && Holds(rules[p].rules[i], o)
    ensures FirstMatch(SortRanked(BgpsFrom(rules, 0)), o) == Some({rules[p].id})
    ensures forall p': nat, i': nat :: IsSubRule(rules, p', i') && Holds(rules[p'].rules[i'], o) ==>
                !Outranks(rules, p', i', p, i)
  {
    hide Holds, Precedes, RankOf, SortRanked, BgpsFrom;
    var bgps := SortRanked(BgpsFrom(rules, 0));
    SortRankedSorts(BgpsFrom(rules, 0));
    forall b | b in bgps ensures b.rank == RankOfSub(b.sub, b.pos) && b.pos < 1000 && |b.sub.conds| <= 999 {
      SortedBgpsAre(rules, b);
    }
    FirstMatchIsHighest(bgps, o);
    var b :| b in bgps && FirstMatch(bgps, o) == Some({b.newType}) && Holds(b.sub, o)
             && forall b' <- bgps :: Holds(b'.sub, o) ==>
                  !Precedes(b'.sub.typ.Some?, |b'.sub.conds|, b'.pos, b.sub.typ.Some?, |b.sub.conds|, b.pos);
    SortedBgpsAre(rules, b);
    p, i :| IsSubRule(rules, p, i) && b == BgpAt(rules, p, i);
    forall p': nat, i': nat | IsSubRule(rules, p', i') && Holds(rules[p'].rules[i'], o)
      ensures !Outranks(rules, p', i', p, i)
    {
      IsSorted(rules, p', i');
    }
  }

  /** The six operators, as comparisons of numbers: three pairs of complements. */
  lemma OperatorsSay(a: int, b: int)
    ensures Compare(Lt, a, b) <==> b - a > 0
    ensures Compare(Gt, a, b) <==> a - b > 0
    ensures Compare(Eq, a, b) <==> a - b == 0
    ensures Compare(Ge, a, b) <==> !Compare(Lt, a, b)
    ensures Compare(Le, a, b) <==> !Compare(Gt, a, b)
    ensures Compare(Ne, a, b) <==> !Compare(Eq, a, b)
  {
  }

  /** The graph that the rules make of a source has the copy of an obsel if and only if some
      sub-rule of a visible rule asks for nothing that the obsel lacks: its type, if it
      names one, and for each condition an attribute of that name with a value on the right
      side of the one given. */
  lemma CopiedExactly(rules: seq<Rule>, h: Hop, g: Graph, u: Uri)
    requires Owned(g, h.src) && u in g.obsels
    ensures var o := g.obsels[u];
            Uri(h.tgt, u.id) in View(h, g, ChoiceOf(SortRanked(BgpsFrom(rules, 0)))).obsels <==>
              exists p: nat, i: nat ::
                && p < |rules| && rules[p].visible && i < |rules[p].rules|
                && var sub := rules[p].rules[i];
                   && (sub.typ.Some? ==> sub.typ.value in o.types)
                   && forall c <- sub.conds :: exists a <- o.attrs ::
                        && a.name == c.attr
                        && (c.op == Eq ==> a.value == c.value) && (c.op == Ne ==> a.value != c.value)
                        && (c.op == Lt ==> a.value < c.value) && (c.op == Le ==> a.value <= c.value)
                        && (c.op == Gt ==> a.value > c.value) && (c.op == Ge ==> a.value >= c.value)
  {
    hide View, SortRanked, BgpsFrom, FirstMatch;
    var o := g.obsels[u];
    ViewSays(h, g, ChoiceOf(SortRanked(BgpsFrom(rules, 0))));
    CopiedIffSomeRuleHolds(rules, o);
    assert Uri(h.src, u.id) == u;
    if p: nat, i: nat :| IsSubRule(rules, p, i) && Holds(rules[p].rules[i], o) {
      HoldsExactly(rules[p].rules[i], o);
    }
    forall p: nat, i: nat | IsSubRule(rules, p, i) ensures Holds(rules[p].rules[i], o) <==>
        var sub := rules[p].rules[i];
        && (sub.typ.Some? ==> sub.typ.value in o.types)
        && forall c <- sub.conds :: exists a <- o.attrs ::
             && a.name == c.attr
             && (c.op == Eq ==> a.value == c.value) && (c.op == Ne ==> a.value != c.value)
             && (c.op == Lt ==> a.value < c.value) && (c.op == Le ==> a.value <= c.value)
             && (c.op == Gt ==> a.value > c.value) && (c.op == Ge ==> a.value >= c.value)
    {
      HoldsExactly(rules[p].rules[i], o);
    }
  }

  lemma HoldsExactly(sub: SubRule, o: Obsel)
    ensures Holds(sub, o) <==>
              && (sub.typ.Some? ==> sub.typ.value in o.types)
              && forall c <- sub.conds :: exists a <- o.attrs ::
                   && a.name == c.attr
                   && (c.op == Eq ==> a.value == c.value) && (c.op == Ne ==> a.value != c.value)
                   && (c.op == Lt ==> a.value < c.value) && (c.op == Le ==> a.value <= c.value)
                   && (c.op == Gt ==> a.value > c.value) && (c.op == Ge ==> a.value >= c.value)
  {
  }

  /** Rules that all ask for one type copy no obsel without it. */
  lemma OtherTypesAreNotCopied(rules: seq<Rule>, typ: Name, h: Hop, g: Graph, u: Uri)
    requires Owned(g, h.src) && u in g.obsels && typ !in g.obsels[u].types
    requires forall r <- rules :: forall sub <- r.rules :: sub.typ == Some(typ)
    ensures Uri(h.tgt, u.id) !in View(h, g, ChoiceOf(SortRanked(BgpsFrom(rules, 0)))).obsels
  {
    hide View, SortRanked, BgpsFrom, FirstMatch;
    CopiedExactly(rules, h, g, u);
    forall p: nat, i: nat | p < |rules| && i < |rules[p].rules| ensures rules[p].rules[i].typ == Some(typ) {
      assert rules[p] in rules && rules[p].rules[i] in rules[p].rules;
    }
  }

  lemma {:induction false} FirstMatchIsGreatest(bgps: seq<Bgp>, o: Obsel) returns (b: Bgp)
    requires Descending(bgps) && FirstMatch(bgps, o).Some?
    ensures b in bgps && FirstMatch(bgps, o) == Some({b.newType}) && Holds(b.sub, o)
    ensures forall b' <- bgps :: Holds(b'.sub, o) ==> b' == b || AtLeast(b, b')
    decreases |bgps|
  {
    hide Holds, AtLeast;
    assert bgps == [bgps[0]] + bgps[1..];
    if Holds(bgps[0].sub, o) {
      b := bgps[0];
    } else {
      b := FirstMatchIsGreatest(bgps[1..], o);
    }
  }

  /** For any number of rules and attributes, the copy has the greatest type among those of
      greatest rank, of the sub-rules of visible rules that hold; the rank counts a million
      for a type, a thousand for each attribute, and one less for each rule before. */
  lemma CopiedTypeExactly(rules: seq<Rule>, o: Obsel) returns (p: nat, i: nat)
    requires FirstMatch(SortRanked(BgpsFrom(rules, 0)), o).Some?
    ensures p < |rules| && rules[p].visible && i < |rules[p].rules| && Holds(rules[p].rules[i], o)
    ensures FirstMatch(SortRanked(BgpsFrom(rules, 0)), o) == Some({rules[p].id})
    ensures forall q: nat, j: nat ::
              q < |rules| && rules[q].visible && j < |rules[q].rules| && Holds(rules[q].rules[j], o) ==>
                var a, b := rules[p].rules[i], rules[q].rules[j];
                var more := (if a.typ.Some? then 1000000 else 0) + 1000 * |a.conds| - p
                            - ((if b.typ.Some? then 1000000 else 0) + 1000 * |b.conds| - q);
                more > 0 || (more == 0 && rules[p].id >= rules[q].id)
  {
    hide Holds, SortRanked, BgpsFrom, FirstMatch;
    var bgps := SortRanked(BgpsFrom(rules, 0));
    SortRankedSorts(BgpsFrom(rules, 0));
    var b := FirstMatchIsGreatest(bgps, o);
    SortedBgpsAre(rules, b);
    p, i :| IsSubRule(rules, p, i) && b == BgpAt(rules, p, i);
    forall q: nat, j: nat | IsSubRule(rules, q, j) && Holds(rules[q].rules[j], o)
      ensures BgpAt(rules, q, j) == b || AtLeast(b, BgpAt(rules, q, j))
    {
      IsSorted(rules, q, j);
    }
  }

  /* ---------- the incremental computation ---------- */

  /** The target in the middle of a computation, and the obsels inserted so far. */
  datatype Progress = Progress(o: Open, inserted: set<Uri>)

  function RowsFor(g: Graph, after: Option<Uri>, b: Bgp): seq<Key> {
    Rows(g, ALL.(after := after), (o: Obsel) => Holds(b.sub, o))
  }

  ghost function CopyRow(h: Hop, g: Graph, range: int, mode: Mode, newType: Name, p: Progress, u: Uri): Progress
    requires u in g.obsels
  {
    var w := TNode(h, u);
    if (mode == PseudoMon && w in p.o.g.obsels) || w in p.inserted then p
    else Progress(AddStep(range, p.o, CopyObsel(h, g, p.o.g, u, {newType})), p.inserted + {w})
  }

  ghost function CopyRows(h: Hop, g: Graph, range: int, mode: Mode, newType: Name, p: Progress,
        rows: seq<Key>): Progress
    requires InGraph(h.src, g, rows)
    decreases |rows|
  {
    if rows == [] then p else
      CopyRows(h, g, range, mode, newType, CopyRow(h, g, range, mode, newType, p, RowUri(h.src, rows[0])), rows[1..])
  }

  lemma RowsInGraph(trace: TraceId, g: Graph, after: Option<Uri>, b: Bgp)
    requires Owned(g, trace)
    ensures InGraph(trace, g, RowsFor(g, after, b))
  {
  }

  ghost function CopyBgps(h: Hop, g: Graph, range: int, mode: Mode, after: Option<Uri>, p: Progress,
        bgps: seq<Bgp>): Progress
    requires Owned(g, h.src)
    decreases |bgps|
  {
    if bgps == [] then p else
      RowsInGraph(h.src, g, after, bgps[0]);
      CopyBgps(h, g, range, mode, after,
               CopyRows(h, g, range, mode, bgps[0].newType, p, RowsFor(g, after, bgps[0])), bgps[1..])
  }

  ghost function Compute(h: Hop, bgps: seq<Bgp>, mode: Mode, at: Cursor, source: Coll, target: Coll): (Coll, Cursor)
    requires Owned(source.g, h.src)
    requires target.last.Some? ==> target.last.value in target.g.obsels
  {
    var c := Base(mode, target);
    var p := CopyBgps(h, source.g, c.range, mode, After(mode, at),
                      Progress(Open(c.g, Prepare(c, true)), {}), bgps);
    (Ack(c, p.o), Advance(h.src, source.g, BeginBound(mode, at, source.range, None), Restart(mode, at)))
  }

  /* ---------- correctness of the incremental computation ---------- */

  /** The last obsel remembered, if any, was in the source at the last computation. */
  ghost predicate Remembers(at: Cursor, snap: Coll) {
    match at.lastSeenU
    case None => at.lastSeenB.None? && snap.g.obsels == map[]
    case Some(u) => u in snap.g.obsels
  }

  ghost predicate InRange(g: Graph, after: Option<Uri>, u: Uri)
    requires u in g.obsels
  {
    after.Some? ==> after.value in g.obsels && Less(KeyAt(g, after.value), KeyAt(g, u))
  }

  /** What the target holds: what was found in it, and what was inserted since. */
  function Holding(h: Hop, g: Graph, found: Copied, inserted: set<Uri>): Copied {
    found.(redone := set u | u in g.obsels && TNode(h, u) in inserted)
  }

  /** The obsels inserted are in range, and include every obsel in range that an earlier
      sub-rule holds of, unless it was found in the target and the mode is pseudo-monotonic;
      then nothing that was found is inserted. */
  ghost predicate Progressing(h: Hop, g: Graph, bgps: seq<Bgp>, i: nat, mode: Mode, after: Option<Uri>,
                              c: Coll, p: Progress, found: Copied)
    requires i <= |bgps|
  {
    var cp := Holding(h, g, found, p.inserted);
    && Copying(h, g, ChoiceOf(bgps), c, p.o, cp)
    && (forall u <- cp.redone :: InRange(g, after, u))
    && (mode == PseudoMon ==> cp.redone !! found.start)
    && forall u, j | 0 <= j < i && u in g.obsels && InRange(g, after, u) && Holds(bgps[j].sub, g.obsels[u]) ::
         u in cp.redone || (mode == PseudoMon && u in found.start)
  }

  lemma HoldingMore(h: Hop, g: Graph, found: Copied, inserted: set<Uri>, u: Uri)
    requires Owned(g, h.src) && u in g.obsels
    ensures var cp := Holding(h, g, found, inserted);
            && cp.start == found.start
            && (u in cp.redone <==> TNode(h, u) in inserted)
            && Holding(h, g, found, inserted + {TNode(h, u)}) == cp.(redone := cp.redone + {u})
  {
  }

  /** One row. */
  lemma RowStep(h: Hop, g: Graph, bgps: seq<Bgp>, i: nat, mode: Mode, after: Option<Uri>,
                c: Coll, p: Progress, found: Copied, u: Uri)
    requires i < |bgps| && Progressing(h, g, bgps, i, mode, after, c, p, found)
    requires u in g.obsels && InRange(g, after, u) && Holds(bgps[i].sub, g.obsels[u])
    ensures var p' := CopyRow(h, g, c.range, mode, bgps[i].newType, p, u);
            && Progressing(h, g, bgps, i, mode, after, c, p', found)
            && (TNode(h, u) in p'.inserted || (mode == PseudoMon && u in found.start))
            && p.inserted <= p'.inserted
            && (p' != p ==> Describes(p.o.g, h.tgt, CopyObsel(h, g, p.o.g, u, {bgps[i].newType})))
  {
    hide Copying, Describes, Holds, Holding, InRange, ChoiceOf;
    var cp := Holding(h, g, found, p.inserted);
    CopyingShows(h, g, ChoiceOf(bgps), c, p.o, cp, u);
    HoldingMore(h, g, found, p.inserted, u);
    if !((mode == PseudoMon && TNode(h, u) in p.o.g.obsels) || TNode(h, u) in p.inserted) {
      FirstMatchIs(bgps, g.obsels[u], i);
      CopyStep(h, g, ChoiceOf(bgps), c, p.o, cp, u);
    }
  }

  lemma {:induction false} RowsStep(h: Hop, g: Graph, bgps: seq<Bgp>, i: nat, mode: Mode, after: Option<Uri>,
                                    c: Coll, p: Progress, found: Copied, rows: seq<Key>)
    requires i < |bgps| && Progressing(h, g, bgps, i, mode, after, c, p, found)
    requires InGraph(h.src, g, rows)
    requires forall k <- rows :: InRange(g, after, RowUri(h.src, k)) && Holds(bgps[i].sub, g.obsels[RowUri(h.src, k)])
    ensures var p' := CopyRows(h, g, c.range, mode, bgps[i].newType, p, rows);
            && Progressing(h, g, bgps, i, mode, after, c, p', found)
            && p.inserted <= p'.inserted
            && forall k <- rows :: TNode(h, RowUri(h.src, k)) in p'.inserted
                                   || (mode == PseudoMon && RowUri(h.src, k) in found.start)
    decreases |rows|
  {
    hide Progressing, InRange, Holds;
    if rows != [] {
      var u := RowUri(h.src, rows[0]);
      assert rows == [rows[0]] + rows[1..];
      RowStep(h, g, bgps, i, mode, after, c, p, found, u);
      RowsStep(h, g, bgps, i, mode, after, c, CopyRow(h, g, c.range, mode, bgps[i].newType, p, u), found, rows[1..]);
    }
  }

  lemma KeepsLog(h: Hop, g: Graph, bgps: seq<Bgp>, mode: Mode, after: Option<Uri>, c: Coll, p: Progress, found: Copied)
    requires Progressing(h, g, bgps, |bgps|, mode, after, c, p, found)
    ensures p.o.p.log
  {
  }

  /** The rows of a sub-rule are the obsels in range that it holds of. */
  lemma RowsMeaning(trace: TraceId, g: Graph, after: Option<Uri>, b: Bgp)
    requires Owned(g, trace) && (after.Some? ==> after.value in g.obsels)
    ensures InGraph(trace, g, RowsFor(g, after, b))
    ensures forall k <- RowsFor(g, after, b) :: InRange(g, after, RowUri(trace, k))
                                                     && Holds(b.sub, g.obsels[RowUri(trace, k)])
    ensures forall u | u in g.obsels && InRange(g, after, u) && Holds(b.sub, g.obsels[u]) ::
              KeyAt(g, u) in RowsFor(g, after, b) && RowUri(trace, KeyAt(g, u)) == u
  {
    hide Holds, Rows, Sorted, Less;
    var q := ALL.(after := after);
    RowsAreMatching(g, trace, q, (o: Obsel) => Holds(b.sub, o));
    FilterExact(q, AnchorKey(g, after), None);
    assert forall k :: Accepts(q, AnchorKey(g, after), None, k) <==> Intended(q, AnchorKey(g, after), None, k);
  }

  /** All rows of one sub-rule. */
  lemma BgpStep(h: Hop, g: Graph, bgps: seq<Bgp>, i: nat, mode: Mode, after: Option<Uri>,
                c: Coll, p: Progress, found: Copied)
    requires i < |bgps| && Progressing(h, g, bgps, i, mode, after, c, p, found)
    requires Owned(g, h.src) && (after.Some? ==> after.value in g.obsels)
    requires InGraph(h.src, g, RowsFor(g, after, bgps[i]))
    ensures Progressing(h, g, bgps, i + 1, mode, after, c,
                        CopyRows(h, g, c.range, mode, bgps[i].newType, p, RowsFor(g, after, bgps[i])), found)
  {
    hide Copying, CopyRows, Rows, Holds;
    RowsMeaning(h.src, g, after, bgps[i]);
    var rows := RowsFor(g, after, bgps[i]);
    RowsStep(h, g, bgps, i, mode, after, c, p, found, rows);
    forall u | u in g.obsels && InRange(g, after, u) && Holds(bgps[i].sub, g.obsels[u]) ensures KeyAt(g, u) in rows {
    }
  }

  /** All sub-rules. */
  lemma {:induction false} BgpsStep(h: Hop, g: Graph, bgps: seq<Bgp>, i: nat, mode: Mode, after: Option<Uri>,
                                    c: Coll, p: Progress, found: Copied)
    requires i <= |bgps| && Progressing(h, g, bgps, i, mode, after, c, p, found)
    requires Owned(g, h.src) && (after.Some? ==> after.value in g.obsels)
    ensures Progressing(h, g, bgps, |bgps|, mode, after, c,
                        CopyBgps(h, g, c.range, mode, after, p, bgps[i..]), found)
    decreases |bgps| - i
  {
    hide Progressing, CopyRows, RowsFor;
    if i < |bgps| {
      assert bgps[i..][0] == bgps[i] && bgps[i..][1..] == bgps[i + 1..];
      RowsInGraph(h.src, g, after, bgps[i]);
      var rows := RowsFor(g, after, bgps[i]);
      BgpStep(h, g, bgps, i, mode, after, c, p, found);
      BgpsStep(h, g, bgps, i + 1, mode, after, c, CopyRows(h, g, c.range, mode, bgps[i].newType, p, rows), found);
    } else {
      assert bgps[i..] == [];
    }
  }

  /** At the end everything kept is there. What was inserted is what was in range, but for
      obsels that were found and that the pseudo-monotonic mode skipped. */
  lemma AllCopied(h: Hop, bgps: seq<Bgp>, mode: Mode, after: Option<Uri>, g: Graph, c: Coll, p: Progress,
                  found: Copied)
    requires Progressing(h, g, bgps, |bgps|, mode, after, c, p, found)
    requires forall u <- Kept(g, ChoiceOf(bgps)) :: !InRange(g, after, u) ==> u in found.start
    ensures var cp, kept := Holding(h, g, found, p.inserted), Kept(g, ChoiceOf(bgps));
            && Done(cp) == kept
            && forall u :: u in cp.redone <==>
                 u in kept && InRange(g, after, u) && !(mode == PseudoMon && u in found.start)
  {
    hide Copying, Holds, InRange;
    var cp := Holding(h, g, found, p.inserted);
    assert Chosen(g, ChoiceOf(bgps), Done(cp)) by { CopyingIsChosen(h, g, ChoiceOf(bgps), c, p.o, cp); }
    forall u | u in Kept(g, ChoiceOf(bgps)) && InRange(g, after, u)
      ensures u in cp.redone || (mode == PseudoMon && u in found.start)
    {
      FirstMatchNone(bgps, g.obsels[u]);
      var j :| 0 <= j < |bgps| && Holds(bgps[j].sub, g.obsels[u]);
    }
  }

  lemma CopyingIsChosen(h: Hop, g: Graph, choice: Choice, c: Coll, o: Open, cp: Copied)
    requires Copying(h, g, choice, c, o, cp)
    ensures Chosen(g, choice, Done(cp))
  {
  }

  /** How a computed trace and its source stand to each other between refreshes: the
      target is part of what the rules make of the source as it was, with all obsels, and
      the cursor is about that source. */
  ghost predicate InStep(h: Hop, bgps: seq<Bgp>, seen: Seen, at: Cursor, snap: Coll, source: Coll, target: Coll) {
    && Synced(h, ChoiceOf(bgps), seen, snap, source, target)
    && (seen != UNSEEN ==>
          Remembers(at, snap) && FoundIn(h, snap.g, target.g).start == Kept(snap.g, ChoiceOf(bgps)))
  }

  lemma InStepFromScratch(h: Hop, bgps: seq<Bgp>, seen: Seen, at: Cursor, snap: Coll, source: Coll, target: Coll)
    requires InStep(h, bgps, seen, at, snap, source, target)
    ensures InStep(h, bgps, UNSEEN, at, snap, source, target)
  {
  }

  lemma InStepAfterEvolution(h: Hop, bgps: seq<Bgp>, seen: Seen, at: Cursor, snap: Coll, source: Coll, source': Coll,
                             target: Coll)
    requires InStep(h, bgps, seen, at, snap, source, target) && Evolves(source, source')
    ensures InStep(h, bgps, seen, at, snap, source', target)
  {
    SyncedAfterEvolution(h, ChoiceOf(bgps), seen, snap, source, source', target);
  }

  /** Edits of the target that leave its graph alone do not matter. */
  lemma InStepSameGraph(h: Hop, bgps: seq<Bgp>, seen: Seen, at: Cursor, snap: Coll, source: Coll, target: Coll,
                        target': Coll)
    requires InStep(h, bgps, seen, at, snap, source, target) && Evolves(target, target') && target'.g == target.g
    ensures InStep(h, bgps, seen, at, snap, source, target')
  {
  }

  /** The situation of a refresh. */
  ghost predicate Ready(h: Hop, bgps: seq<Bgp>, seen: Seen, at: Cursor, snap: Coll, source: Coll, target: Coll) {
    InStep(h, bgps, seen, at, snap, source, target) && Clean(h, source.g)
  }

  /** The anchor of a strict refresh is in the source, and whatever is not after it was
      found in the target. */
  lemma AnchorIsOld(h: Hop, bgps: seq<Bgp>, seen: Seen, at: Cursor, snap: Coll, source: Coll, target: Coll)
    requires Ready(h, bgps, seen, at, snap, source, target)
    ensures var mode := ChooseMode(seen, source);
            var after := After(mode, at);
            && (after.Some? ==> mode == StrictMon && after.value in source.g.obsels)
            && forall u <- Kept(source.g, ChoiceOf(bgps)) ::
                 !InRange(source.g, after, u) ==> u in Found(mode, h, source.g, target.g).start
  {
    hide IsPart, Clean;
    if ChooseMode(seen, source) == StrictMon {
      ModeReliesOn(h, ChoiceOf(bgps), seen, snap, source, target);
    }
  }

  /** A refresh copies the obsel: it is to be kept, the queries reach it, and it is not
      skipped for being in the target. */
  ghost predicate CopiesNow(h: Hop, bgps: seq<Bgp>, mode: Mode, at: Cursor, source: Coll, target: Coll, u: Uri) {
    && u in Kept(source.g, ChoiceOf(bgps)) && InRange(source.g, After(mode, at), u)
    && !(mode == PseudoMon && TNode(h, u) in target.g.obsels)
  }

  /** What a refresh leaves in the target: the copies of all obsels to keep, and the
      relations among them that were there or that have an end among the obsels it copied. */
  lemma ComputeCopies(h: Hop, bgps: seq<Bgp>, seen: Seen, at: Cursor, snap: Coll, source: Coll, target: Coll)
    returns (cp: Copied)
    requires Ready(h, bgps, seen, at, snap, source, target)
    ensures var mode, choice := ChooseMode(seen, source), ChoiceOf(bgps);
            var (target', _) := Compute(h, bgps, mode, at, source, target);
            && cp.base == Found(mode, h, source.g, target.g).base
            && Done(cp) == Kept(source.g, choice)
            && (forall u :: u in cp.redone <==> CopiesNow(h, bgps, mode, at, source, target, u))
            && target'.g == Part(h, source.g, choice, cp)
            && Evolves(target, target')
  {
    hide Inv, OpenInv, Promise, Synced, Clean, InRange, ChoiceOf, Remembers, CopyBgps;
    var mode, choice, g := ChooseMode(seen, source), ChoiceOf(bgps), source.g;
    var after, found := After(mode, at), Found(mode, h, source.g, target.g);
    AnchorIsOld(h, bgps, seen, at, snap, source, target);
    SyncedMeans(h, choice, seen, snap, source, target);
    StartCopying(h, choice, seen, snap, source, target);
    var c := Base(mode, target);
    var p := Progress(Open(c.g, Prepare(c, true)), {});
    assert Holding(h, g, found, {}) == found;
    assert Progressing(h, g, bgps, 0, mode, after, c, p, found);
    assert bgps[0..] == bgps;
    BgpsStep(h, g, bgps, 0, mode, after, c, p, found);
    var p' := CopyBgps(h, g, c.range, mode, after, p, bgps);
    AllCopied(h, bgps, mode, after, g, c, p', found);
    cp := Holding(h, g, found, p'.inserted);
    AckEvolves(c, p'.o);
    SyncedFromScratch(h, choice, seen, snap, source, target);
    EvolvesTrans(target, c, Ack(c, p'.o));
  }

  /** After any refresh the target has the copies of the obsels to keep and no others, each
      with the begin, the end and the attributes of its obsel, the type chosen and its
      source; and its last obsel is the copy of the last one kept. */
  lemma RefreshedTargetSays(h: Hop, bgps: seq<Bgp>, seen: Seen, at: Cursor, snap: Coll, source: Coll, target: Coll)
    requires Ready(h, bgps, seen, at, snap, source, target)
    ensures var t := Compute(h, bgps, ChooseMode(seen, source), at, source, target).0;
            var kept := Kept(source.g, ChoiceOf(bgps));
            && (forall w :: w in t.g.obsels <==> w.trace == h.tgt && Uri(h.src, w.id) in kept)
            && (forall u <- kept ::
                  && Uri(h.tgt, u.id) in t.g.obsels
                  && var o, copy := source.g.obsels[u], t.g.obsels[Uri(h.tgt, u.id)];
                     copy == Obsel(o.begin, o.end, FirstMatch(bgps, o).value, o.attrs, Some(u)))
            && (t.last == None <==> kept == {})
            && (t.last.Some? ==>
                  && t.last.value.trace == h.tgt && Uri(h.src, t.last.value.id) in kept
                  && forall v <- kept :: v != Uri(h.src, t.last.value.id) ==>
                       Less(KeyAt(source.g, v), KeyAt(source.g, Uri(h.src, t.last.value.id))))
  {
    hide Synced, Promise, Compute, Remembers, Clean, Less, ImageObsels, CopiesNow, FirstMatch;
    var choice := ChoiceOf(bgps);
    var cp := ComputeCopies(h, bgps, seen, at, snap, source, target);
    SyncedMeans(h, choice, seen, snap, source, target);
    CopiesSay(h, source.g, choice, Done(cp));
    var t := Compute(h, bgps, ChooseMode(seen, source), at, source, target).0;
    LastCopy(h, source.g, choice, Done(cp), t.g, t.last);
  }

  /** And the image of a relation among them is there exactly if it was there, in a target
      that was not emptied, or if one of its ends is copied now: any obsel to keep, from
      scratch and in a logical refresh; one not yet there, in a pseudo-monotonic one; one
      after the obsel remembered, in a strict one. */
  lemma RefreshedRelationsSay(h: Hop, bgps: seq<Bgp>, seen: Seen, at: Cursor, snap: Coll, source: Coll, target: Coll)
    requires Ready(h, bgps, seen, at, snap, source, target)
    ensures var mode, g, kept := ChooseMode(seen, source), source.g, Kept(source.g, ChoiceOf(bgps));
            var t := Compute(h, bgps, mode, at, source, target).0;
            forall r <- g.rels :: Linked(h, kept, r) ==>
              (TRel(h, r) in t.g.rels <==>
                || (mode != NotMon && TRel(h, r) in target.g.rels)
                || exists u ::
                     && (u == r.s || u == r.o) && u in kept
                     && (mode == PseudoMon ==> Uri(h.tgt, u.id) !in target.g.obsels)
                     && (mode == StrictMon && at.lastSeenU.Some? ==>
                           && at.lastSeenU.value in g.obsels
                           && var l, o := g.obsels[at.lastSeenU.value], g.obsels[u];
                              || l.end < o.end
                              || (l.end == o.end && l.begin < o.begin)
                              || (l.end == o.end && l.begin == o.begin && at.lastSeenU.value.id < u.id)))
  {
    hide Synced, Promise, Compute, Remembers, Clean, ImageObsels, FirstMatch, IsPart, Part;
    var mode, g, kept := ChooseMode(seen, source), source.g, Kept(source.g, ChoiceOf(bgps));
    var cp := ComputeCopies(h, bgps, seen, at, snap, source, target);
    SyncedMeans(h, ChoiceOf(bgps), seen, snap, source, target);
    PartIsPart(h, g, ChoiceOf(bgps), cp);
    forall r | r in g.rels && Linked(h, kept, r)
      ensures Carried(cp, r) <==>
                || (mode != NotMon && TRel(h, r) in target.g.rels)
                || exists u :: (u == r.s || u == r.o) && CopiesNow(h, bgps, mode, at, source, target, u)
    {
    }
  }

  /** Every relation among obsels to keep is in the target already, or has an end among the
      obsels that the refresh copies. */
  ghost predicate Harmless(h: Hop, bgps: seq<Bgp>, mode: Mode, at: Cursor, source: Coll, target: Coll) {
    forall r <- source.g.rels :: Linked(h, Kept(source.g, ChoiceOf(bgps)), r) ==>
      || (mode != NotMon && TRel(h, r) in target.g.rels)
      || CopiesNow(h, bgps, mode, at, source, target, r.s)
      || CopiesNow(h, bgps, mode, at, source, target, r.o)
  }

  /** A refresh, in whichever mode, whatever happened to the source and whatever earlier
      refreshes missed, gives the graph computed from nothing if and only if it is harmless. */
  lemma ComputeExact(h: Hop, bgps: seq<Bgp>, seen: Seen, at: Cursor, snap: Coll, source: Coll, target: Coll)
    requires Ready(h, bgps, seen, at, snap, source, target)
    ensures var mode := ChooseMode(seen, source);
            Compute(h, bgps, mode, at, source, target).0.g == View(h, source.g, ChoiceOf(bgps))
            <==> Harmless(h, bgps, mode, at, source, target)
  {
    hide Inv, Promise, Compute, Remembers, ChoiceOf, Part, Image, CopiesNow;
    var mode, choice, g := ChooseMode(seen, source), ChoiceOf(bgps), source.g;
    var cp := ComputeCopies(h, bgps, seen, at, snap, source, target);
    PartExact(h, g, choice, cp, Kept(g, choice));
    forall r | r in g.rels
      ensures Carried(cp, r) <==>
                || (mode != NotMon && TRel(h, r) in target.g.rels)
                || CopiesNow(h, bgps, mode, at, source, target, r.s)
                || CopiesNow(h, bgps, mode, at, source, target, r.o)
    {
    }
  }

  /** A refresh from scratch or a logical one copies everything again, so it is harmless,
      and makes good what earlier refreshes missed. */
  lemma ScratchAndLogicAreHarmless(h: Hop, bgps: seq<Bgp>, mode: Mode, at: Cursor, source: Coll, target: Coll)
    requires mode == NotMon || mode == LogicMon
    ensures Harmless(h, bgps, mode, at, source, target)
  {
  }

  lemma {:induction false} RowsSkipCopies(h: Hop, g: Graph, range: int, newType: Name, p: Progress, rows: seq<Key>,
                                          w: Uri)
    requires InGraph(h.src, g, rows) && w in p.o.g.obsels
    ensures var g' := CopyRows(h, g, range, PseudoMon, newType, p, rows).o.g;
            w in g'.obsels && g'.obsels[w] == p.o.g.obsels[w]
    decreases |rows|
  {
    if rows != [] {
      RowsSkipCopies(h, g, range, newType, CopyRow(h, g, range, PseudoMon, newType, p, RowUri(h.src, rows[0])),
                     rows[1..], w);
    }
  }

  lemma {:induction false} BgpsSkipCopies(h: Hop, g: Graph, range: int, after: Option<Uri>, p: Progress,
                                          bgps: seq<Bgp>, w: Uri)
    requires Owned(g, h.src) && w in p.o.g.obsels
    ensures var g' := CopyBgps(h, g, range, PseudoMon, after, p, bgps).o.g;
            w in g'.obsels && g'.obsels[w] == p.o.g.obsels[w]
    decreases |bgps|
  {
    if bgps != [] {
      var rows := RowsFor(g, after, bgps[0]);
      RowsInGraph(h.src, g, after, bgps[0]);
      RowsSkipCopies(h, g, range, bgps[0].newType, p, rows, w);
      BgpsSkipCopies(h, g, range, after, CopyRows(h, g, range, PseudoMon, bgps[0].newType, p, rows), bgps[1..], w);
    }
  }

  /** A pseudo-monotonic refresh touches no description that is in the target, whatever
      happened to the source. So it cannot be exact once more was said about an obsel
      copied before. */
  lemma CopiesStay(h: Hop, bgps: seq<Bgp>, at: Cursor, source: Coll, target: Coll)
    requires Owned(source.g, h.src) && (target.last.Some? ==> target.last.value in target.g.obsels)
    ensures var g', view := Compute(h, bgps, PseudoMon, at, source, target).0.g, View(h, source.g, ChoiceOf(bgps));
            && (forall w <- target.g.obsels :: w in g'.obsels && g'.obsels[w] == target.g.obsels[w])
            && (g' == view ==>
                  forall w <- target.g.obsels :: w in view.obsels && view.obsels[w] == target.g.obsels[w])
  {
    hide View, CopyBgps;
    var p := Progress(Open(target.g, Prepare(target, true)), {});
    forall w | w in target.g.obsels
      ensures w in CopyBgps(h, source.g, target.range, PseudoMon, None, p, bgps).o.g.obsels
      ensures CopyBgps(h, source.g, target.range, PseudoMon, None, p, bgps).o.g.obsels[w] == target.g.obsels[w]
    {
      BgpsSkipCopies(h, source.g, target.range, None, p, bgps, w);
    }
  }

  /** If the last refresh was exact, the next one is harmless unless it is pseudo-monotonic
      and a relation was added late. */
  lemma HarmlessAfterExact(h: Hop, bgps: seq<Bgp>, seen: Seen, at: Cursor, snap: Coll, source: Coll, target: Coll)
    requires Ready(h, bgps, seen, at, snap, source, target)
    requires seen != UNSEEN ==> Owned(snap.g, h.src) && target.g == View(h, snap.g, ChoiceOf(bgps))
    ensures var mode := ChooseMode(seen, source);
            Harmless(h, bgps, mode, at, source, target)
            <==> mode == PseudoMon ==> NothingLate(h, ChoiceOf(bgps), snap.g, source.g)
  {
    hide Inv, Promise, ChoiceOf, IsPart;
    var mode, choice, g := ChooseMode(seen, source), ChoiceOf(bgps), source.g;
    if mode == PseudoMon || mode == StrictMon {
      ModeReliesOn(h, choice, seen, snap, source, target);
      AnchorIsOld(h, bgps, seen, at, snap, source, target);
      forall r | r in g.rels && Linked(h, Kept(g, choice), r)
        ensures TRel(h, r) in target.g.rels <==> r in snap.g.rels && Linked(h, Kept(snap.g, choice), r)
      {
      }
    }
    if mode == StrictMon {
      StrictAfterExact(h, bgps, seen, at, snap, source, target);
    }
  }

  lemma StrictAfterExact(h: Hop, bgps: seq<Bgp>, seen: Seen, at: Cursor, snap: Coll, source: Coll, target: Coll)
    requires Ready(h, bgps, seen, at, snap, source, target) && ChooseMode(seen, source) == StrictMon
    requires Owned(snap.g, h.src) && target.g == View(h, snap.g, ChoiceOf(bgps))
    ensures Harmless(h, bgps, StrictMon, at, source, target)
  {
    hide Inv, Promise, ChoiceOf, IsPart;
    var choice, g := ChoiceOf(bgps), source.g;
    ModeReliesOn(h, choice, seen, snap, source, target);
    forall r | r in g.rels && Linked(h, Kept(g, choice), r) && TRel(h, r) !in target.g.rels
      ensures CopiesNow(h, bgps, StrictMon, at, source, target, r.s)
                  || CopiesNow(h, bgps, StrictMon, at, source, target, r.o)
    {
      assert r in snap.g.rels ==> !Linked(h, Kept(snap.g, choice), r);
      var u :| (u == r.s || u == r.o) && u in Kept(g, choice) && u !in snap.g.obsels;
    }
  }

  lemma RemembersAfter(h: Hop, bgps: seq<Bgp>, seen: Seen, at: Cursor, snap: Coll, source: Coll, target: Coll)
    requires Ready(h, bgps, seen, at, snap, source, target)
    ensures Remembers(Compute(h, bgps, ChooseMode(seen, source), at, source, target).1, source)
  {
    hide IsPart, Promise, Less, CopyBgps, Clean;
    var mode := ChooseMode(seen, source);
    if mode != NotMon { ModeReliesOn(h, ChoiceOf(bgps), seen, snap, source, target); }
    var begin := BeginBound(mode, at, source.range, None);
    var q := ALL.(begin := begin, reverse := true, limit := Some(1));
    LastRow(source.g, h.src, q, (o: Obsel) => true);
    if begin.None? && source.g.obsels != map[] {
      var u :| u in source.g.obsels;
      assert u in Matching(source.g, q, (o: Obsel) => true);
    }
  }

  /** Every refresh, harmless or not, leaves the trace and its source in step for the next
      one, and consumers of the target can rely on its tags. */
  lemma ComputeCorrect(h: Hop, bgps: seq<Bgp>, seen: Seen, at: Cursor, snap: Coll, source: Coll, target: Coll)
    requires Ready(h, bgps, seen, at, snap, source, target)
    ensures var (target', at') := Compute(h, bgps, ChooseMode(seen, source), at, source, target);
            && Evolves(target, target')
            && Ready(h, bgps, TagsOf(source), at', source, source, target')
  {
    hide Inv, Promise, Compute, Remembers, ChoiceOf, Part, Clean, CopiesNow, IsPart;
    var mode := ChooseMode(seen, source);
    var cp := ComputeCopies(h, bgps, seen, at, snap, source, target);
    RemembersAfter(h, bgps, seen, at, snap, source, target);
    SyncedMeans(h, ChoiceOf(bgps), seen, snap, source, target);
    SyncedFromScratch(h, ChoiceOf(bgps), seen, snap, source, target);
    EvolvesKeepsTrace(target, Compute(h, bgps, mode, at, source, target).0);
    PartIsPart(h, source.g, ChoiceOf(bgps), cp);
    SyncedAfterComputing(h, ChoiceOf(bgps), source, Compute(h, bgps, mode, at, source, target).0);
  }

  /* ---------- sources that only get graphs about new obsels ---------- */

  /** The last refresh was exact, and every relation added since is about an added obsel. */
  ghost predicate UpToDate(h: Hop, bgps: seq<Bgp>, seen: Seen, snap: Coll, source: Coll, target: Coll) {
    seen != UNSEEN ==>
      Owned(snap.g, h.src) && target.g == View(h, snap.g, ChoiceOf(bgps)) && EvolvesFresh(snap, source)
  }

  /** Then no refresh skips anything. */
  lemma FreshIsHarmless(h: Hop, bgps: seq<Bgp>, seen: Seen, at: Cursor, snap: Coll, source: Coll, target: Coll)
    requires Ready(h, bgps, seen, at, snap, source, target) && UpToDate(h, bgps, seen, snap, source, target)
    ensures Harmless(h, bgps, ChooseMode(seen, source), at, source, target)
  {
    hide Harmless, IsPart, Remembers;
    HarmlessAfterExact(h, bgps, seen, at, snap, source, target);
    if ChooseMode(seen, source) != NotMon {
      FreshRefresh(h, ChoiceOf(bgps), seen, snap, source, target);
    }
  }

  /** And the target, too, only gets relations about new obsels. */
  lemma FreshTarget(h: Hop, bgps: seq<Bgp>, seen: Seen, at: Cursor, snap: Coll, source: Coll, target: Coll)
    requires Ready(h, bgps, seen, at, snap, source, target) && UpToDate(h, bgps, seen, snap, source, target)
    ensures EvolvesFresh(target, Compute(h, bgps, ChooseMode(seen, source), at, source, target).0)
  {
    hide Compute, ChoiceOf, View, Clean, Remembers, Harmless, IsPart;
    var mode := ChooseMode(seen, source);
    FreshIsHarmless(h, bgps, seen, at, snap, source, target);
    ComputeExact(h, bgps, seen, at, snap, source, target);
    if mode != NotMon {
      ViewGrowsFresh(h, snap.g, source.g, ChoiceOf(bgps));
    } else {
      ScratchRenews(h, bgps, at, source, target);
    }
  }

  lemma ScratchRenews(h: Hop, bgps: seq<Bgp>, at: Cursor, source: Coll, target: Coll)
    requires Inv(target) && Owned(source.g, h.src)
    ensures EvolvesFresh(target, Compute(h, bgps, NotMon, at, source, target).0)
  {
  }

  /* ---------- the computed trace as an object ---------- */

  class HRulesTrace {
    const source: TO.TraceObsels
    const target: TO.TraceObsels
    const bgps: seq<Bgp>
    var seen: Seen
    var at: Cursor
    ghost var snap: Coll  // the source at the last computation

    ghost function Between(): Hop {
      Hop(source.trace, target.trace)
    }

    ghost predicate Valid()
      reads this, source, target
    {
      && source != target
      && source.Closed() && target.Closed()
      && InStep(Between(), bgps, seen, at, snap, source.State(), target.State())
    }

    constructor (source: TO.TraceObsels, target: TO.TraceObsels, rules: seq<Rule>)
      requires source != target && source.Closed() && target.Closed()
      ensures Valid() && this.source == source && this.target == target
      ensures bgps == SortRanked(BgpsFrom(rules, 0))
    {
      this.source, this.target := source, target;
      var ranked := InitState(rules);
      this.bgps := ranked;
      seen, at := UNSEEN, START;
      snap := source.State();
    }

    /** compute_obsels with do_compute_obsels: whatever earlier refreshes missed, the target
        ends up as computed from nothing exactly when this refresh is harmless; in any case
        the trace is ready for the next one. */
    method ComputeObsels(fromScratch: bool)
      requires Valid() && Clean(Between(), source.State().g)
      modifies this, target
      ensures Valid()
      ensures source.State() == old(source.State()) && seen == TagsOf(source.State()) && snap == source.State()
      ensures var mode := ChooseMode(if fromScratch then UNSEEN else old(seen), source.State());
              && (target.State(), at) == Compute(Between(), bgps, mode, old(at), source.State(), old(target.State()))
              && (target.State().g == View(Between(), source.State().g, ChoiceOf(bgps))
                  <==> Harmless(Between(), bgps, mode, old(at), source.State(), old(target.State())))
    {
      hide InStep, Inv, Compute, View, Clean, ChoiceOf, Evolves, Harmless, IsPart;
      ghost var s0, t0 := source.State(), target.State();
      InStepFromScratch(Between(), bgps, seen, at, snap, s0, t0);
      if fromScratch { seen := UNSEEN; }
      var mode := ModeFor(seen, Seen(Some(source.str), Some(source.pse), Some(source.log)));
      ComputeExact(Between(), bgps, seen, at, snap, s0, t0);
      ComputeCorrect(Between(), bgps, seen, at, snap, s0, t0);
      DoComputeObsels(mode);
      seen := Seen(Some(source.str), Some(source.pse), Some(source.log));
      snap := s0;
    }

    method DoComputeObsels(mode: Mode)
      requires source != target && source.Closed() && target.Closed()
      requires Ready(Between(), bgps, seen, at, snap, source.State(), target.State())
      requires mode == ChooseMode(seen, source.State())
      modifies this`at, target
      ensures target.Closed()
      ensures (target.State(), at) == Compute(Between(), bgps, mode, old(at), source.State(), old(target.State()))
    {
      hide Ready, Inv, OpenInv, Progressing, Clean, CopyBgps, Rows, Remembers;
      var lastSeenU, lastSeenB := at.lastSeenU, at.lastSeenB;
      var begin: Option<int>, after: Option<Uri> := None, None;
      if mode == NotMon {
        lastSeenU, lastSeenB := None, None;
      } else if mode == StrictMon {
        if lastSeenU.Some? { after := lastSeenU; }
      } else if mode == PseudoMon {
        if lastSeenB.Some? { begin := Some(lastSeenB.value - source.range); }
      }
      ghost var found := Found(mode, Between(), source.State().g, target.State().g);
      Begin(mode, after);
      CopyMatching(mode, after, found);
      target.ExitAddOnly();
      var newest := NewestRows(Graph(source.obsels, source.rels), begin);
      if newest != [] {
        lastSeenU, lastSeenB := Some(RowUri(source.trace, newest[0])), Some(newest[0].begin);
      }
      at := Cursor(lastSeenU, lastSeenB);
    }

    /** Empties the target if nothing in it can be kept, and enters the edit context. */
    method Begin(mode: Mode, after: Option<Uri>)
      requires source != target && source.Closed() && target.Closed()
      requires Ready(Between(), bgps, seen, at, snap, source.State(), target.State())
      requires mode == ChooseMode(seen, source.State()) && after == After(mode, at)
      modifies target
      ensures target.InContext() && target.before == Base(mode, old(target.State()))
      ensures target.Current() == Open(target.before.g, Prepare(target.before, true))
      ensures Progressing(Between(), source.State().g, bgps, 0, mode, after, target.before,
                          Progress(target.Current(), {}),
                          Found(mode, Between(), source.State().g, old(target.State()).g))
      ensures after.Some? ==> after.value in source.obsels
    {
      hide Synced, Inv, OpenInv, Promise, Clean, Remembers, ChoiceOf, InRange;
      ghost var found := Found(mode, Between(), source.State().g, target.State().g);
      StartCopying(Between(), ChoiceOf(bgps), seen, snap, source.State(), target.State());
      AnchorIsOld(Between(), bgps, seen, at, snap, source.State(), target.State());
      if mode == NotMon {
        target.Empty();
      }
      target.EnterAddOnly();
      assert Holding(Between(), source.State().g, found, {}) == found;
    }

    /** The loop over the ranked sub-rules. */
    method CopyMatching(mode: Mode, after: Option<Uri>, ghost found: Copied)
      requires source != target && source.Closed() && target.InContext()
      requires Progressing(Between(), source.State().g, bgps, 0, mode, after, target.before,
                   Progress(target.Current(), {}), found)
      requires after.Some? ==> after.value in source.obsels
      modifies target
      ensures target.InContext() && target.before == old(target.before)
      ensures target.Current() == CopyBgps(Between(), source.State().g, target.before.range, mode, after,
                                           Progress(old(target.Current()), {}), bgps).o
      ensures target.Current().p.log
    {
      hide OpenInv, Promise, Rows, Progressing;
      var h := Hop(source.trace, target.trace);
      var g := Graph(source.obsels, source.rels);
      ghost var c := target.before;
      var inserted: set<Uri> := {};
      ghost var start := Progress(target.Current(), inserted);
      assert bgps[0..] == bgps;
      for i := 0 to |bgps|
        invariant target.InContext() && target.before == c
        invariant Progressing(h, g, bgps, i, mode, after, c, Progress(target.Current(), inserted), found)
        invariant CopyBgps(h, g, c.range, mode, after, Progress(target.Current(), inserted), bgps[i..])
                  == CopyBgps(h, g, c.range, mode, after, start, bgps)
      {
        assert bgps[i..][0] == bgps[i] && bgps[i..][1..] == bgps[i + 1..];
        RowsInGraph(h.src, g, after, bgps[i]);
        BgpStep(h, g, bgps, i, mode, after, c, Progress(target.Current(), inserted), found);
        inserted := CopyRowsOf(i, mode, after, inserted, found);
      }
      assert bgps[|bgps|..] == [];
      KeepsLog(h, g, bgps, mode, after, c, Progress(target.Current(), inserted), found);
    }

    /** The loop over the rows of one sub-rule. */
    method CopyRowsOf(i: nat, mode: Mode, after: Option<Uri>, inserted0: set<Uri>, ghost found: Copied)
      returns (inserted: set<Uri>)
      requires source != target && source.Closed() && target.InContext() && i < |bgps|
      requires Progressing(Between(), source.State().g, bgps, i, mode, after, target.before,
                   Progress(target.Current(), inserted0), found)
      requires after.Some? ==> after.value in source.obsels
      requires InGraph(source.trace, source.State().g, RowsFor(source.State().g, after, bgps[i]))
      modifies target
      ensures target.InContext() && target.before == old(target.before)
      ensures Progress(target.Current(), inserted)
              == CopyRows(Between(), source.State().g, target.before.range, mode, bgps[i].newType,
                          Progress(old(target.Current()), inserted0), RowsFor(source.State().g, after, bgps[i]))
    {
      hide OpenInv, Promise, Progressing, InRange, Holds;
      var h := Hop(source.trace, target.trace);
      var g := Graph(source.obsels, source.rels);
      var newType := bgps[i].newType;
      var rows := RowsFor(g, after, bgps[i]);
      ghost var c := target.before;
      inserted := inserted0;
      ghost var p0 := Progress(target.Current(), inserted);
      RowsMeaning(h.src, g, after, bgps[i]);
      assert rows[0..] == rows;
      for k := 0 to |rows|
        invariant target.InContext() && target.before == c
        invariant Progressing(h, g, bgps, i, mode, after, c, Progress(target.Current(), inserted), found)
        invariant CopyRows(h, g, c.range, mode, newType, Progress(target.Current(), inserted), rows[k..])
                  == CopyRows(h, g, c.range, mode, newType, p0, rows)
      {
        assert rows[k..][0] == rows[k] && rows[k..][1..] == rows[k + 1..];
        assert rows[k] in rows;
        var u := RowUri(h.src, rows[k]);
        RowStep(h, g, bgps, i, mode, after, c, Progress(target.Current(), inserted), found, u);
        inserted := CopyRowOf(h, g, mode, newType, inserted, u);
      }
      assert rows[|rows|..] == [];
    }

    /** The body of that loop. */
    method CopyRowOf(h: Hop, g: Graph, mode: Mode, newType: Name, inserted0: set<Uri>, u: Uri)
      returns (inserted: set<Uri>)
      requires target.InContext() && h.tgt == target.trace && u in g.obsels
      requires var p := Progress(target.Current(), inserted0);
               CopyRow(h, g, target.before.range, mode, newType, p, u) != p ==>
                 Describes(p.o.g, h.tgt, CopyObsel(h, g, p.o.g, u, {newType}))
      modifies target
      ensures target.InContext() && target.before == old(target.before)
      ensures Progress(target.Current(), inserted)
              == CopyRow(h, g, target.before.range, mode, newType, Progress(old(target.Current()), inserted0), u)
    {
      inserted := inserted0;
      var w := TNode(h, u);
      if (mode == PseudoMon && w in target.obsels) || w in inserted {
        return; // already there
      }
      var og := CopyObselGraph(h, g, Graph(target.obsels, target.rels), u, g.obsels[u].types);
      og := og.(obs := og.obs.(types := {newType}));
      target.AddObselGraph(og);
      inserted := inserted + {w};
    }
  }
}
