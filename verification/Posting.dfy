/**
 Posting a graph that describes several related obsels as blank nodes (post_graph of a
 stored trace): each is described, given a URI and stored in turn, and renamed in the
 graph that is left.
 */
module Posting {
  import opened Nodes

  /** The candidates `cs` are distinct blank nodes; the URIs `us` minted for them are
      distinct and occur nowhere in the graph; predicates are not blank. */
  ghost predicate ValidPost(g: set<Triple>, cs: seq<Node>, us: seq<Node>) {
    && |us| == |cs|
    && (forall i :: 0 <= i < |cs| ==> cs[i].Blank? && us[i].Iri? && !Falsy(us[i]))
    && (forall i, j :: 0 <= i < j < |cs| ==> cs[i] != cs[j] && us[i] != us[j])
    && (forall t, i | t in g && 0 <= i < |us| :: !Occurs(us[i], t))
    && (forall t <- g :: !t.p.Blank?)
  }

  ghost function Candidates(cs: seq<Node>): set<Node> {
    set c | c in cs
  }

  /** The renaming after the first `k` candidates were posted. */
  ghost function Rho(cs: seq<Node>, us: seq<Node>, k: nat, n: Node): Node
    requires k <= |cs| && |us| == |cs|
  {
    if j :| 0 <= j < k && cs[j] == n then us[j] else n
  }

  ghost function RhoTriple(cs: seq<Node>, us: seq<Node>, k: nat, t: Triple): Triple
    requires k <= |cs| && |us| == |cs|
  {
    Triple(Rho(cs, us, k, t.s), t.p, Rho(cs, us, k, t.o))
  }

  ghost function RhoAll(cs: seq<Node>, us: seq<Node>, k: nat, g: set<Triple>): set<Triple>
    requires k <= |cs| && |us| == |cs|
  {
    set t | t in g :: RhoTriple(cs, us, k, t)
  }

  /** The triples about a candidate: those incident to it or to a blank node that belongs
      to its description. */
  ghost function Own(g: set<Triple>, cs: seq<Node>, c: Node): set<Triple> {
    Description(g, Candidates(cs), c)
  }

  /** A relation with a candidate that has not been posted yet. */
  ghost predicate WithLater(cs: seq<Node>, i: nat, t: Triple)
    requires i < |cs|
  {
    exists j :: i < j < |cs| && ((t.s == cs[i] && t.o == cs[j]) || (t.s == cs[j] && t.o == cs[i]))
  }

  /** What is stored for the i-th candidate. */
  ghost function Stored(g: set<Triple>, cs: seq<Node>, us: seq<Node>, i: nat): set<Triple>
    requires i < |cs| && |us| == |cs|
  {
    set t | t in Own(g, cs, cs[i]) && !WithLater(cs, i, t) :: RhoTriple(cs, us, i + 1, t)
  }

  ghost function StoredUpTo(g: set<Triple>, cs: seq<Node>, us: seq<Node>, k: nat): set<Triple>
    requires k <= |cs| && |us| == |cs|
  {
    if k == 0 then {} else StoredUpTo(g, cs, us, k - 1) + Stored(g, cs, us, k - 1)
  }

  /* ---------- the renaming ---------- */

  lemma RhoIs(cs: seq<Node>, us: seq<Node>, g: set<Triple>, k: nat, n: Node)
    requires ValidPost(g, cs, us) && k <= |cs|
    ensures forall j :: 0 <= j < k && cs[j] == n ==> Rho(cs, us, k, n) == us[j]
    ensures n !in cs[..k] ==> Rho(cs, us, k, n) == n
    ensures Rho(cs, us, k, n).Blank? ==> Rho(cs, us, k, n) == n && n !in cs[..k]
  {
  }

  /** Renaming one more candidate, by substitution. */
  lemma RhoNext(cs: seq<Node>, us: seq<Node>, g: set<Triple>, k: nat, t: Triple)
    requires ValidPost(g, cs, us) && k < |cs| && t in g
    ensures SubstTriple(cs[k], us[k], RhoTriple(cs, us, k, t)) == RhoTriple(cs, us, k + 1, t)
    ensures RhoTriple(cs, us, k, t).p != cs[k]
  {
  }

  lemma RhoAllNext(cs: seq<Node>, us: seq<Node>, g: set<Triple>, k: nat)
    requires ValidPost(g, cs, us) && k < |cs|
    ensures SparseResult(cs[k], us[k], RhoAll(cs, us, k, g)) == RhoAll(cs, us, k + 1, g)
  {
    forall t | t in g ensures SubstTriple(cs[k], us[k], RhoTriple(cs, us, k, t)) == RhoTriple(cs, us, k + 1, t)
                              && RhoTriple(cs, us, k, t).p != cs[k] {
      RhoNext(cs, us, g, k, t);
    }
    var r := RhoAll(cs, us, k, g);
    SparseExact(cs[k], us[k], r);
    assert SubstAll(cs[k], us[k], r) == RhoAll(cs, us, k + 1, g) by {
      forall x ensures x in SubstAll(cs[k], us[k], r) <==> x in RhoAll(cs, us, k + 1, g) {
        if x in RhoAll(cs, us, k + 1, g) {
          var t :| t in g && x == RhoTriple(cs, us, k + 1, t);
          assert RhoTriple(cs, us, k, t) in r;
        }
      }
    }
  }

  lemma RhoNone(cs: seq<Node>, us: seq<Node>, g: set<Triple>)
    requires |us| == |cs|
    ensures RhoAll(cs, us, 0, g) == g
  {
  }

  /* ---------- the description of one candidate ---------- */

  ghost function Later(cs: seq<Node>, i: nat): set<Node>
    requires i < |cs|
  {
    Candidates(cs[i + 1..])
  }

  lemma LaterAt(cs: seq<Node>, i: nat)
    requires i < |cs|
    ensures forall n :: n in Later(cs, i) <==> exists j :: i < j < |cs| && cs[j] == n
  {
  }

  /** Steps between blank nodes are the same in the renamed graph, except that the
      candidates already posted are no longer blank. */
  lemma AdjacentRenamed(g: set<Triple>, cs: seq<Node>, us: seq<Node>, i: nat, a: Node, b: Node)
    requires ValidPost(g, cs, us) && i < |cs| && a.Blank? && b.Blank?
    ensures Adjacent(RhoAll(cs, us, i, g), a, b) <==> Adjacent(g, a, b) && a !in cs[..i] && b !in cs[..i]
  {
  }

  lemma PlaceOf(cs: seq<Node>, i: nat, n: Node)
    requires i < |cs|
    ensures n in Candidates(cs) <==> n in cs[..i] || n == cs[i] || n in Later(cs, i)
  {
  }

  lemma {:induction false} ReachedIsBlank(g: set<Triple>, prune: set<Node>, start: Node, n: Node)
    requires Reached(g, prune, start, n)
    ensures n == start || (n.Blank? && n !in prune)
  {
  }

  lemma SameReached(g: set<Triple>, cs: seq<Node>, us: seq<Node>, i: nat, n: Node)
    requires ValidPost(g, cs, us) && i < |cs|
    ensures Reached(RhoAll(cs, us, i, g), Later(cs, i), cs[i], n) <==> Reached(g, Candidates(cs), cs[i], n)
  {
    if Reached(g, Candidates(cs), cs[i], n) {
      ReachedForward(g, cs, us, i, n);
    }
    if Reached(RhoAll(cs, us, i, g), Later(cs, i), cs[i], n) {
      ReachedBackward(g, cs, us, i, n);
    }
  }

  lemma ReachedForward(g: set<Triple>, cs: seq<Node>, us: seq<Node>, i: nat, n: Node)
    requires ValidPost(g, cs, us) && i < |cs|
    requires Reached(g, Candidates(cs), cs[i], n)
    ensures Reached(RhoAll(cs, us, i, g), Later(cs, i), cs[i], n)
  {
  }

  lemma ReachedBackward(g: set<Triple>, cs: seq<Node>, us: seq<Node>, i: nat, n: Node)
    requires ValidPost(g, cs, us) && i < |cs|
    requires Reached(RhoAll(cs, us, i, g), Later(cs, i), cs[i], n)
    ensures Reached(g, Candidates(cs), cs[i], n)
  {
    var r, c, all, later := RhoAll(cs, us, i, g), cs[i], Candidates(cs), Later(cs, i);
    var path: seq<Node> :| IsPath(r, later, c, path) && path[|path| - 1] == n;
    var s := NodesOf(g) + {c};
    var reached := set m | m in s && Reached(g, all, c, m);
    ReachedStart(g, all, c);
    forall a, b | a in reached && Adjacent(r, a, b) && Expanded(b, later) ensures b in reached {
      ReachedIsBlank(g, all, c, a);
      AdjacentRenamed(g, cs, us, i, a, b);
      AdjacentNodes(g, a, b);
      PlaceOf(cs, i, b);
      if b != c {
        ReachedStep(g, all, c, a, b);
      }
    }
    ClosedContains(r, later, c, reached, path);
  }

  /** The description extracted for the i-th candidate is what belongs to it, renamed. */
  lemma DescriptionRenamed(g: set<Triple>, cs: seq<Node>, us: seq<Node>, i: nat)
    requires ValidPost(g, cs, us) && i < |cs|
    ensures Description(RhoAll(cs, us, i, g), Later(cs, i), cs[i]) == RhoAll(cs, us, i, Own(g, cs, cs[i]))
  {
    var r, c, all, later := RhoAll(cs, us, i, g), cs[i], Candidates(cs), Later(cs, i);
    forall n ensures Reached(r, later, c, n) <==> Reached(g, all, c, n) {
      SameReached(g, cs, us, i, n);
    }
    forall t | t in g
      ensures Incident(r, later, c, RhoTriple(cs, us, i, t)) <==> Incident(g, all, c, t)
    {
      EndRenamed(g, cs, us, i, t.s);
      EndRenamed(g, cs, us, i, t.o);
    }
    forall x ensures x in Description(r, later, c) <==> x in RhoAll(cs, us, i, Own(g, cs, c)) {
      if x in Description(r, later, c) {
        var t :| t in g && x == RhoTriple(cs, us, i, t);
        assert Incident(g, all, c, t);
      }
    }
  }

  lemma EndRenamed(g: set<Triple>, cs: seq<Node>, us: seq<Node>, i: nat, n: Node)
    requires ValidPost(g, cs, us) && i < |cs|
    ensures Reached(g, Candidates(cs), cs[i], Rho(cs, us, i, n)) <==> Reached(g, Candidates(cs), cs[i], n)
  {
  }

  /* ---------- post_graph ---------- */

  /** Removing the relations with the candidates still to come. */
  method RemoveRelations(obs: set<Triple>, c: Node, others: set<Node>) returns (rest: set<Triple>)
    ensures rest == set t | t in obs && !((t.s == c && t.o in others) || (t.s in others && t.o == c))
  {
    rest := obs;
    var todo := others;
    while todo != {}
      invariant todo <= others
      invariant rest == set t | t in obs && !((t.s == c && t.o in others - todo) || (t.s in others - todo && t.o == c))
      decreases todo
    {
      var other :| other in todo;
      todo := todo - {other};
      rest := rest - (set t | t in rest && t.s == c && t.o == other);
      rest := rest - (set t | t in rest && t.s == other && t.o == c);
    }
  }

  /** What is left of the description, with the candidate renamed, is what is stored. */
  lemma StoredIs(g: set<Triple>, cs: seq<Node>, us: seq<Node>, i: nat, rest: set<Triple>)
    requires ValidPost(g, cs, us) && i < |cs|
    requires rest == set t | t in RhoAll(cs, us, i, Own(g, cs, cs[i])) &&
                             !((t.s == cs[i] && t.o in Later(cs, i)) || (t.s in Later(cs, i) && t.o == cs[i]))
    ensures SubstAll(cs[i], us[i], rest) == Stored(g, cs, us, i)
  {
    forall t | t in g
      ensures SubstTriple(cs[i], us[i], RhoTriple(cs, us, i, t)) == RhoTriple(cs, us, i + 1, t)
      ensures var x := RhoTriple(cs, us, i, t);
              ((x.s == cs[i] && x.o in Later(cs, i)) || (x.s in Later(cs, i) && x.o == cs[i])) <==> WithLater(cs, i, t)
    {
      RhoNext(cs, us, g, i, t);
      LaterRenamed(g, cs, us, i, t);
    }
    forall y ensures y in SubstAll(cs[i], us[i], rest) <==> y in Stored(g, cs, us, i) {
      if y in Stored(g, cs, us, i) {
        var t :| t in Own(g, cs, cs[i]) && !WithLater(cs, i, t) && y == RhoTriple(cs, us, i + 1, t);
        assert RhoTriple(cs, us, i, t) in rest;
      }
    }
  }

  lemma LaterRenamed(g: set<Triple>, cs: seq<Node>, us: seq<Node>, i: nat, t: Triple)
    requires ValidPost(g, cs, us) && i < |cs|
    ensures var x := RhoTriple(cs, us, i, t);
            ((x.s == cs[i] && x.o in Later(cs, i)) || (x.s in Later(cs, i) && x.o == cs[i])) <==> WithLater(cs, i, t)
  {
  }

  /** post_graph. `us` are the URIs minted for the candidates, in order. */
  method PostGraph(graph: GraphObject, store: GraphObject, cs: seq<Node>, us: seq<Node>)
    requires graph != store && ValidPost(graph.triples, cs, us)
    modifies graph, store
    ensures store.triples == old(store.triples) + StoredUpTo(old(graph.triples), cs, us, |cs|)
    ensures graph.triples == RhoAll(cs, us, |cs|, old(graph.triples))
  {
    hide ValidPost, RhoAll, Stored, SparseResult, SubstAll, Description;
    ghost var g := graph.triples;
    assert |us| == |cs| by { SameLength(g, cs, us); }
    var bnodeCandidates := set c | c in cs;
    RhoNone(cs, us, g);
    for i := 0 to |cs|
      invariant i < |cs| ==> bnodeCandidates == Later(cs, i) + {cs[i]}
      invariant i == |cs| ==> bnodeCandidates == {}
      invariant graph.triples == RhoAll(cs, us, i, g)
      invariant store.triples == old(store.triples) + StoredUpTo(g, cs, us, i)
    {
      var candidate := cs[i];
      bnodeCandidates := bnodeCandidates - {candidate};
      LaterIs(g, cs, us, i);
      var description := BoundedDescription(candidate, graph.triples, {}, bnodeCandidates);
      DescriptionRenamed(g, cs, us, i);
      var obsGraph := RemoveRelations(description, candidate, bnodeCandidates);
      var posted := new GraphObject();
      posted.triples := obsGraph;
      ReplaceNodeDense(posted, candidate, us[i]);
      StoredIs(g, cs, us, i, obsGraph);
      store.triples := store.triples + posted.triples;
      RhoAllNext(cs, us, g, i);
      ReplaceNodeSparse(graph, candidate, us[i]);
    }
  }

  lemma SameLength(g: set<Triple>, cs: seq<Node>, us: seq<Node>)
    requires ValidPost(g, cs, us)
    ensures |us| == |cs|
  {
  }

  lemma LaterIs(g: set<Triple>, cs: seq<Node>, us: seq<Node>, i: nat)
    requires ValidPost(g, cs, us) && i < |cs|
    ensures cs[i] !in Later(cs, i)
    ensures i + 1 < |cs| ==> Later(cs, i) == Later(cs, i + 1) + {cs[i + 1]}
    ensures i + 1 == |cs| ==> Later(cs, i) == {}
  {
  }

  /* ---------- what post_graph guarantees ---------- */

  ghost function Posted(g: set<Triple>, cs: seq<Node>): set<Triple> {
    set t | t in g && exists c <- cs :: Incident(g, Candidates(cs), c, t)
  }

  /** No blank node that is not a candidate is shared by two descriptions: another
      candidate appears in the description of a candidate only as related to it. */
  ghost predicate NotShared(g: set<Triple>, cs: seq<Node>) {
    forall i, j, t | 0 <= i < j < |cs| && t in Own(g, cs, cs[i]) && (t.s == cs[j] || t.o == cs[j]) ::
        t.s == cs[i] || t.o == cs[i]
  }

  lemma {:induction false} StoredUpToHas(g: set<Triple>, cs: seq<Node>, us: seq<Node>, k: nat, x: Triple)
    requires k <= |cs| && |us| == |cs|
    ensures x in StoredUpTo(g, cs, us, k) <==> exists i :: 0 <= i < k && x in Stored(g, cs, us, i)
  {
    if k > 0 {
      StoredUpToHas(g, cs, us, k - 1, x);
    }
  }

  /** A triple that mentions no later candidate gets its final form at once. */
  lemma FinalForm(g: set<Triple>, cs: seq<Node>, us: seq<Node>, i: nat, n: Node)
    requires ValidPost(g, cs, us) && i < |cs| && n !in Later(cs, i)
    ensures Rho(cs, us, i + 1, n) == Rho(cs, us, |cs|, n)
  {
  }

  /** When no blank node is shared, posting stores exactly the posted triples under one
      renaming, and no relation is lost. */
  lemma StoresThePostedTriples(g: set<Triple>, cs: seq<Node>, us: seq<Node>)
    requires ValidPost(g, cs, us) && NotShared(g, cs)
    ensures StoredUpTo(g, cs, us, |cs|) == RhoAll(cs, us, |cs|, Posted(g, cs))
  {
    forall x ensures x in StoredUpTo(g, cs, us, |cs|) <==> x in RhoAll(cs, us, |cs|, Posted(g, cs)) {
      StoredUpToHas(g, cs, us, |cs|, x);
      if x in StoredUpTo(g, cs, us, |cs|) {
        var i :| 0 <= i < |cs| && x in Stored(g, cs, us, i);
        var t :| t in Own(g, cs, cs[i]) && !WithLater(cs, i, t) && x == RhoTriple(cs, us, i + 1, t);
        NoLaterLeft(g, cs, us, i, t);
        FinalForm(g, cs, us, i, t.s);
        FinalForm(g, cs, us, i, t.o);
        assert t in Posted(g, cs);
      }
      if x in RhoAll(cs, us, |cs|, Posted(g, cs)) {
        var t :| t in Posted(g, cs) && x == RhoTriple(cs, us, |cs|, t);
        var i := LastOwner(g, cs, us, t);
        FinalForm(g, cs, us, i, t.s);
        FinalForm(g, cs, us, i, t.o);
        assert x in Stored(g, cs, us, i);
      }
    }
  }

  /** Whether or not blank nodes are shared, the triples of a candidate are stored with its
      URI, those with a literal or a resource as well as those with another candidate. */
  lemma OwnTriplesAreStored(g: set<Triple>, cs: seq<Node>, us: seq<Node>, i: nat, t: Triple)
    requires ValidPost(g, cs, us) && i < |cs| && t in g
    ensures var stored := StoredUpTo(g, cs, us, |cs|);
            && (t.s == cs[i] && !t.o.Blank? ==> Triple(us[i], t.p, t.o) in stored)
            && (t.o == cs[i] && !t.s.Blank? ==> Triple(t.s, t.p, us[i]) in stored)
            && forall j :: 0 <= j < |cs| && t.s == cs[i] && t.o == cs[j] ==> Triple(us[i], t.p, us[j]) in stored
  {
    hide StoredUpTo, Description, Stored;
    if t.s == cs[i] || t.o == cs[i] {
      assert t in Posted(g, cs) by { OwnIsPosted(g, cs, i, t); }
      var k := LastOwner(g, cs, us, t);
      FinalForm(g, cs, us, k, t.s);
      FinalForm(g, cs, us, k, t.o);
      assert RhoTriple(cs, us, |cs|, t) in Stored(g, cs, us, k) by { StoredWithLastOwner(g, cs, us, k, t); }
      StoredUpToHas(g, cs, us, |cs|, RhoTriple(cs, us, |cs|, t));
      RhoIs(cs, us, g, |cs|, t.s);
      RhoIs(cs, us, g, |cs|, t.o);
      NotBlankNotCandidate(g, cs, us, t.s);
      NotBlankNotCandidate(g, cs, us, t.o);
      assert cs[..|cs|] == cs;
    }
  }

  lemma NotBlankNotCandidate(g: set<Triple>, cs: seq<Node>, us: seq<Node>, n: Node)
    requires ValidPost(g, cs, us)
    ensures n.Blank? || n !in cs
  {
  }

  lemma StoredWithLastOwner(g: set<Triple>, cs: seq<Node>, us: seq<Node>, k: nat, t: Triple)
    requires ValidPost(g, cs, us) && k < |cs| && t in Own(g, cs, cs[k]) && !WithLater(cs, k, t)
    requires RhoTriple(cs, us, k + 1, t) == RhoTriple(cs, us, |cs|, t)
    ensures RhoTriple(cs, us, |cs|, t) in Stored(g, cs, us, k)
  {
    hide Description;
  }

  /** And nothing is stored but posted triples, in which a candidate is left as it is or
      replaced by its own URI. */
  lemma StoredComesFromPosted(g: set<Triple>, cs: seq<Node>, us: seq<Node>, x: Triple) returns (t: Triple)
    requires ValidPost(g, cs, us) && x in StoredUpTo(g, cs, us, |cs|)
    ensures t in g && t.p == x.p
    ensures x.s == t.s || exists i :: 0 <= i < |cs| && t.s == cs[i] && x.s == us[i]
    ensures x.o == t.o || exists i :: 0 <= i < |cs| && t.o == cs[i] && x.o == us[i]
  {
    hide StoredUpTo, Description, ValidPost;
    SameLength(g, cs, us);
    StoredUpToHas(g, cs, us, |cs|, x);
    var i :| 0 <= i < |cs| && x in Stored(g, cs, us, i);
    t :| t in Own(g, cs, cs[i]) && !WithLater(cs, i, t) && x == RhoTriple(cs, us, i + 1, t);
    assert t in g by { OwnIsIn(g, cs, cs[i]); }
  }

  lemma OwnIsIn(g: set<Triple>, cs: seq<Node>, c: Node)
    ensures Own(g, cs, c) <= g
  {
  }

  lemma OwnIsPosted(g: set<Triple>, cs: seq<Node>, i: nat, t: Triple)
    requires i < |cs| && t in g && (t.s == cs[i] || t.o == cs[i])
    ensures t in Posted(g, cs)
  {
    OwnsRelation(g, cs, i, t);
    assert cs[i] in cs && Incident(g, Candidates(cs), cs[i], t);
  }

  /** A relation between two candidates is stored with the later one, and not before. */
  lemma RelationStoredWithLaterEnd(g: set<Triple>, cs: seq<Node>, us: seq<Node>, i: nat, k: nat, t: Triple)
    requires ValidPost(g, cs, us) && i < k < |cs| && t in g
    requires (t.s == cs[i] && t.o == cs[k]) || (t.s == cs[k] && t.o == cs[i])
    ensures RhoTriple(cs, us, |cs|, t) in Stored(g, cs, us, k)
    ensures RhoTriple(cs, us, |cs|, t) !in StoredUpTo(g, cs, us, k)
  {
    hide StoredUpTo, Description, Incident;
    var x := RhoTriple(cs, us, |cs|, t);
    LaterAt(cs, k);
    FinalForm(g, cs, us, k, t.s);
    FinalForm(g, cs, us, k, t.o);
    assert !WithLater(cs, k, t);
    OwnsRelation(g, cs, k, t);
    assert x in Stored(g, cs, us, k);
    RhoIs(cs, us, g, |cs|, cs[k]);
    StoredUpToHas(g, cs, us, k, x);
    forall m: nat | m < k ensures x !in Stored(g, cs, us, m) {
      MintedLater(g, cs, us, m, k);
    }
  }

  lemma OwnsRelation(g: set<Triple>, cs: seq<Node>, k: nat, t: Triple)
    requires k < |cs| && t in g && (t.s == cs[k] || t.o == cs[k])
    ensures t in Own(g, cs, cs[k])
  {
    ReachedStart(g, Candidates(cs), cs[k]);
  }

  /** What is stored for an earlier candidate does not mention the URI of a later one. */
  lemma MintedLater(g: set<Triple>, cs: seq<Node>, us: seq<Node>, m: nat, k: nat)
    requires ValidPost(g, cs, us) && m < k < |cs|
    ensures forall y <- Stored(g, cs, us, m) :: y.s != us[k] && y.o != us[k]
  {
    forall y | y in Stored(g, cs, us, m) ensures y.s != us[k] && y.o != us[k] {
      var t :| t in Own(g, cs, cs[m]) && y == RhoTriple(cs, us, m + 1, t);
      assert !Occurs(us[k], t);
      NotYetMinted(g, cs, us, m + 1, k, t.s);
      NotYetMinted(g, cs, us, m + 1, k, t.o);
    }
  }

  lemma NotYetMinted(g: set<Triple>, cs: seq<Node>, us: seq<Node>, m: nat, k: nat, n: Node)
    requires ValidPost(g, cs, us) && m <= k < |cs| && n != us[k]
    ensures Rho(cs, us, m, n) != us[k]
  {
    RhoIs(cs, us, g, m, n);
    if n in cs[..m] {
      var j :| 0 <= j < m && cs[..m][j] == n;
      assert cs[j] == n;
    }
  }

  lemma NoLaterLeft(g: set<Triple>, cs: seq<Node>, us: seq<Node>, i: nat, t: Triple)
    requires ValidPost(g, cs, us) && NotShared(g, cs) && i < |cs|
    requires t in Own(g, cs, cs[i]) && !WithLater(cs, i, t)
    ensures t.s !in Later(cs, i) && t.o !in Later(cs, i)
  {
  }

  /** The last candidate that a posted triple belongs to: none of its ends comes later. */
  lemma LastOwner(g: set<Triple>, cs: seq<Node>, us: seq<Node>, t: Triple) returns (i: nat)
    requires ValidPost(g, cs, us) && t in Posted(g, cs)
    ensures i < |cs| && t in Own(g, cs, cs[i]) && !WithLater(cs, i, t)
    ensures t.s !in Later(cs, i) && t.o !in Later(cs, i)
  {
    var c :| c in cs && Incident(g, Candidates(cs), c, t);
    i :| 0 <= i < |cs| && cs[i] == c;
    var k := i + 1;
    while k < |cs|
      invariant i < k <= |cs| && t in Own(g, cs, cs[i])
      invariant forall j :: i < j < k ==> t.s != cs[j] && t.o != cs[j]
    {
      if t.s == cs[k] || t.o == cs[k] {
        ReachedStart(g, Candidates(cs), cs[k]);
        i := k;
      }
      k := k + 1;
    }
    LaterAt(cs, i);
  }

  ghost predicate NoLeak(g: set<Triple>, cs: seq<Node>, us: seq<Node>)
    requires |us| == |cs|
  {
    forall x, c | x in StoredUpTo(g, cs, us, |cs|) && c in cs :: x.s != c && x.o != c
  }

  /** No candidate leaks into the store as a blank node, exactly when no blank node is
      shared by two descriptions. */
  lemma NoLeakExact(g: set<Triple>, cs: seq<Node>, us: seq<Node>)
    requires ValidPost(g, cs, us)
    ensures NoLeak(g, cs, us) <==> NotShared(g, cs)
  {
    if NotShared(g, cs) {
      NotSharedNoLeak(g, cs, us);
    } else {
      var i, j, t :| 0 <= i < j < |cs| && t in Own(g, cs, cs[i]) && (t.s == cs[j] || t.o == cs[j])
                     && t.s != cs[i] && t.o != cs[i];
      SharedLeaks(g, cs, us, i, j, t);
    }
  }

  lemma NotSharedNoLeak(g: set<Triple>, cs: seq<Node>, us: seq<Node>)
    requires ValidPost(g, cs, us) && NotShared(g, cs)
    ensures NoLeak(g, cs, us)
  {
    hide StoredUpTo, NotShared, Posted;
    StoresThePostedTriples(g, cs, us);
    forall x, c | x in StoredUpTo(g, cs, us, |cs|) && c in cs ensures x.s != c && x.o != c {
      var t :| t in Posted(g, cs) && x == RhoTriple(cs, us, |cs|, t);
      RhoIs(cs, us, g, |cs|, t.s);
      RhoIs(cs, us, g, |cs|, t.o);
      assert cs[..|cs|] == cs;
    }
  }

  lemma SharedLeaks(g: set<Triple>, cs: seq<Node>, us: seq<Node>, i: nat, j: nat, t: Triple)
    requires ValidPost(g, cs, us) && i < j < |cs| && t in Own(g, cs, cs[i])
    requires (t.s == cs[j] || t.o == cs[j]) && t.s != cs[i] && t.o != cs[i]
    ensures !NoLeak(g, cs, us)
  {
    hide Own, Description;
    var x := RhoTriple(cs, us, i + 1, t);
    assert x in Stored(g, cs, us, i);
    StoredUpToHas(g, cs, us, |cs|, x);
    assert cs[j] !in cs[..i + 1];
    RhoIs(cs, us, g, i + 1, cs[j]);
    assert x.s == cs[j] || x.o == cs[j];
    assert cs[j] in cs;
  }

  /** The renaming is injective on the nodes of the posted graph. */
  lemma RenamingInjective(g: set<Triple>, cs: seq<Node>, us: seq<Node>, m: Node, n: Node)
    requires ValidPost(g, cs, us) && m in NodesOf(g) && n in NodesOf(g)
    ensures Rho(cs, us, |cs|, m) == Rho(cs, us, |cs|, n) ==> m == n
  {
  }
}
