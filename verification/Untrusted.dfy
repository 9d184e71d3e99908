/**
 Untrusted edits on a store that is not transaction-aware: the edited copy is checked
 against the reserved namespaces, then installed triple by triple.
 */
module Untrusted {
  import opened Nodes

  /** The exceptions a class makes to its reserved namespaces, at edit time. */
  datatype Policy = Policy(uri: Node, rdfType: Node, reserved: Node -> bool, types: set<Node>, ins: set<Node>,
        outs: set<Node>)

  /** May the triple be added or removed? */
  predicate MayChange(pol: Policy, t: Triple) {
    if t.s == pol.uri then
      if t.p == pol.rdfType then !(pol.reserved(t.o) && t.o !in pol.types)
      else !(pol.reserved(t.p) && t.p !in pol.outs)
    else if t.o == pol.uri then !(pol.reserved(t.p) && t.p !in pol.ins)
    else true
  }

  /** The reserved types of the resource, its reserved out-triples, and the reserved
      in-triples from other subjects, that are not editable. */
  function Protected(pol: Policy, g: set<Triple>): set<Triple> {
    set t | t in g && !MayChange(pol, t)
  }

  function Changes(g: set<Triple>, edited: set<Triple>): set<Triple> {
    (g - edited) + (edited - g)
  }

  /** __check_triples over the removed and the added triples. */
  method CheckTriples(pol: Policy, triples: set<Triple>) returns (ok: bool)
    ensures ok <==> forall t <- triples :: MayChange(pol, t)
    ensures ok <==> forall t <- triples ::
              !(|| (t.s == pol.uri && t.p == pol.rdfType && pol.reserved(t.o) && t.o !in pol.types)
                || (t.s == pol.uri && t.p != pol.rdfType && pol.reserved(t.p) && t.p !in pol.outs)
                || (t.s != pol.uri && t.o == pol.uri && pol.reserved(t.p) && t.p !in pol.ins))
  {
    ok := true;
    var todo := triples;
    while todo != {}
      invariant todo <= triples
      invariant ok <==> forall t <- triples - todo :: MayChange(pol, t)
      decreases todo
    {
      var t :| t in todo;
      ghost var done := triples - todo;
      todo := todo - {t};
      assert triples - todo == done + {t};
      if t.s == pol.uri {
        if t.p == pol.rdfType {
          if pol.reserved(t.o) && t.o !in pol.types { ok := false; }
        } else if pol.reserved(t.p) && t.p !in pol.outs {
          ok := false;
        }
      } else if t.o == pol.uri {
        if pol.reserved(t.p) && t.p !in pol.ins { ok := false; }
      }
    }
  }

  /** An edit is accepted exactly when it leaves the protected triples as they are. */
  lemma AcceptedExact(pol: Policy, g: set<Triple>, edited: set<Triple>)
    ensures (forall t <- Changes(g, edited) :: MayChange(pol, t)) <==> Protected(pol, edited) == Protected(pol, g)
  {
    if Protected(pol, edited) == Protected(pol, g) {
      forall t | t in Changes(g, edited) ensures MayChange(pol, t) {
        assert t in Protected(pol, edited) <==> t in Protected(pol, g);
      }
    }
  }

  /** One untrusted edit: `raised` if its body raises an exception, `valid` if the other
      checks accept `edited`, the copy after the body and the completion. */
  datatype Edit = Edit(edited: set<Triple>, raised: bool, valid: bool)

  ghost predicate Accepted(pol: Policy, g: set<Triple>, e: Edit) {
    !e.raised && e.valid && Protected(pol, e.edited) == Protected(pol, g)
  }

  ghost function Result(pol: Policy, g: set<Triple>, e: Edit): set<Triple> {
    if Accepted(pol, g, e) then e.edited else g
  }

  /** The graph is either left untouched or becomes exactly the edited one. */
  method EditUntrusted(graph: GraphObject, pol: Policy, e: Edit) returns (ok: bool)
    modifies graph
    ensures ok <==> Accepted(pol, old(graph.triples), e)
    ensures graph.triples == if ok then e.edited else old(graph.triples)
    ensures graph.triples == Result(pol, old(graph.triples), e)
    ensures Protected(pol, graph.triples) == Protected(pol, old(graph.triples))
  {
    if e.raised { return false; }
    AcceptedExact(pol, graph.triples, e.edited);
    ok := CheckTriples(pol, (graph.triples - e.edited) + (e.edited - graph.triples));
    ok := ok && e.valid;
    if !ok { return; }
    ghost var g := graph.triples;
    var todo := graph.triples;
    while todo != {}
      invariant todo <= g
      invariant graph.triples == (g * e.edited) + (todo - e.edited)
      decreases todo
    {
      var t :| t in todo;
      todo := todo - {t};
      if t !in e.edited {
        graph.Remove(t);
      }
    }
    AddAll(graph, e.edited);
  }

  ghost function RunEdits(pol: Policy, g: set<Triple>, es: seq<Edit>): set<Triple>
    decreases |es|
  {
    if es == [] then g else RunEdits(pol, Result(pol, g, es[0]), es[1..])
  }

  /** Over any run of untrusted edits the protected triples never change, and the graph is
      always one of the edited graphs, or the first one. */
  lemma {:induction false} ProtectedForever(pol: Policy, g: set<Triple>, es: seq<Edit>)
    ensures Protected(pol, RunEdits(pol, g, es)) == Protected(pol, g)
    ensures RunEdits(pol, g, es) == g || exists e <- es :: !e.raised && e.valid && RunEdits(pol, g, es) == e.edited
    decreases |es|
  {
    if es != [] {
      ProtectedForever(pol, Result(pol, g, es[0]), es[1..]);
      assert es == [es[0]] + es[1..];
    }
  }

  /** One edit: it happens exactly when its body raises nothing, the other checks accept it,
      and it neither adds nor removes: a reserved type of the resource that is not editable;
      another triple from it with such a predicate; or a triple to it, from elsewhere, with
      such a predicate. */
  lemma EditHappensExactly(pol: Policy, g: set<Triple>, e: Edit)
    ensures Result(pol, g, e) ==
              if && !e.raised && e.valid
                 && forall t :: (t in g) != (t in e.edited) ==>
                      !(|| (t.s == pol.uri && t.p == pol.rdfType && pol.reserved(t.o) && t.o !in pol.types)
                        || (t.s == pol.uri && t.p != pol.rdfType && pol.reserved(t.p) && t.p !in pol.outs)
                        || (t.s != pol.uri && t.o == pol.uri && pol.reserved(t.p) && t.p !in pol.ins))
              then e.edited else g
  {
    AcceptedExact(pol, g, e.edited);
    assert forall t :: t in Changes(g, e.edited) <==> (t in g) != (t in e.edited);
  }

  /** Over any run of untrusted edits, no triple of these three kinds appears or goes. */
  lemma {:induction false} ReservedForever(pol: Policy, g: set<Triple>, es: seq<Edit>, t: Triple)
    requires || (t.s == pol.uri && t.p == pol.rdfType && pol.reserved(t.o) && t.o !in pol.types)
             || (t.s == pol.uri && t.p != pol.rdfType && pol.reserved(t.p) && t.p !in pol.outs)
             || (t.s != pol.uri && t.o == pol.uri && pol.reserved(t.p) && t.p !in pol.ins)
    ensures t in RunEdits(pol, g, es) <==> t in g
    decreases |es|
  {
    if es != [] {
      EditHappensExactly(pol, g, es[0]);
      ReservedForever(pol, Result(pol, g, es[0]), es[1..], t);
    }
  }
}
