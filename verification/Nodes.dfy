/**
 Graphs as sets of triples, and the helper functions that work on them: replacing a
 node, and extracting the bounded description of a node.
 */
module Nodes {
  import opened Sets

  /** Iri(0) stands for the empty URI. A literal has the truth of its Python value: that of
      an empty string, of a zero or of `false` is false. */
  datatype Node = Blank(id: nat) | Iri(id: nat) | Lit(id: nat, truth: bool)

  datatype Triple = Triple(s: Node, p: Node, o: Node)

  class GraphObject {
    var triples: set<Triple>

    constructor ()
      ensures triples == {}
    {
      triples := {};
    }

    method Add(t: Triple)
      modifies this
      ensures triples == old(triples) + {t}
    {
      triples := triples + {t};
    }

    method Remove(t: Triple)
      modifies this
      ensures triples == old(triples) - {t}
    {
      triples := triples - {t};
    }
  }

  /* ---------- replacing a node ---------- */

  /** What Python takes for false. */
  predicate Falsy(n: Node) {
    n == Iri(0) || (n.Lit? && !n.truth)
  }

  /** `(x == old_node) and new_node or x` */
  function Subst(old_: Node, new_: Node, x: Node): Node {
    if x == old_ && !Falsy(new_) then new_ else x
  }

  function SubstTriple(old_: Node, new_: Node, t: Triple): Triple {
    Triple(Subst(old_, new_, t.s), Subst(old_, new_, t.p), Subst(old_, new_, t.o))
  }

  function SubstAll(old_: Node, new_: Node, g: set<Triple>): set<Triple> {
    set t | t in g :: SubstTriple(old_, new_, t)
  }

  /** The simultaneous replacement of one node by another. */
  function Renamed(old_: Node, new_: Node, t: Triple): Triple {
    var f := (x: Node) => if x == old_ then new_ else x;
    Triple(f(t.s), f(t.p), f(t.o))
  }

  function RenamedAll(old_: Node, new_: Node, g: set<Triple>): set<Triple> {
    set t | t in g :: Renamed(old_, new_, t)
  }

  predicate Occurs(n: Node, t: Triple) {
    t.s == n || t.p == n || t.o == n
  }

  /** One round of the loop below: the triple that is removed may be one that was added
      for an earlier triple, and is then added again. */
  lemma DenseStep(old_: Node, new_: Node, g: set<Triple>, todo: set<Triple>, t: Triple)
    requires t in todo && todo <= g
    ensures (SubstAll(old_, new_, g - todo) + todo) - {t} + {SubstTriple(old_, new_, t)}
            == SubstAll(old_, new_, g - (todo - {t})) + (todo - {t})
  {
  }

  /** replace_node_dense, in place. */
  method ReplaceNodeDense(graph: GraphObject, old_: Node, new_: Node)
    modifies graph
    ensures graph.triples == SubstAll(old_, new_, old(graph.triples))
  {
    hide SubstAll;
    ghost var g := graph.triples;
    var todo := graph.triples;
    assert graph.triples == SubstAll(old_, new_, g - todo) + todo by { NothingToReplace(old_, new_, g); }
    while todo != {}
      invariant todo <= g
      invariant graph.triples == SubstAll(old_, new_, g - todo) + todo
      decreases todo
    {
      var t :| t in todo;
      DenseStep(old_, new_, g, todo, t);
      todo := todo - {t};
      graph.Remove(t);
      graph.Add(SubstTriple(old_, new_, t));
    }
    assert g - todo == g;
  }

  lemma NothingToReplace(old_: Node, new_: Node, g: set<Triple>)
    ensures SubstAll(old_, new_, g - g) == {}
  {
  }

  method RemoveAll(graph: GraphObject, todel: set<Triple>)
    modifies graph
    ensures graph.triples == old(graph.triples) - todel
  {
    var todo := todel;
    while todo != {}
      invariant todo <= todel
      invariant graph.triples == old(graph.triples) - (todel - todo)
      decreases todo
    {
      var t :| t in todo;
      todo := todo - {t};
      graph.Remove(t);
    }
  }

  method AddAll(graph: GraphObject, toadd: set<Triple>)
    modifies graph
    ensures graph.triples == old(graph.triples) + toadd
  {
    var todo := toadd;
    while todo != {}
      invariant todo <= toadd
      invariant graph.triples == old(graph.triples) + (toadd - todo)
      decreases todo
    {
      var t :| t in todo;
      todo := todo - {t};
      graph.Add(t);
    }
  }

  /** replace_node_sparse, in place: only triples found by their subject or object. */
  method ReplaceNodeSparse(graph: GraphObject, old_: Node, new_: Node)
    modifies graph
    ensures graph.triples == SparseResult(old_, new_, old(graph.triples))
  {
    hide SubstTriple;
    var todel := (set t | t in graph.triples && t.s == old_)
        + (set t | t in graph.triples && t.o == old_ && t.s != old_);
    var toadd := set t | t in todel :: SubstTriple(old_, new_, t);
    assert toadd == set t | t in graph.triples && (t.s == old_ || t.o == old_) :: SubstTriple(old_, new_, t);
    RemoveAll(graph, todel);
    AddAll(graph, toadd);
  }

  function SparseResult(old_: Node, new_: Node, g: set<Triple>): set<Triple> {
    (set t | t in g && t.s != old_ && t.o != old_)
    + (set t | t in g && (t.s == old_ || t.o == old_) :: SubstTriple(old_, new_, t))
  }

  lemma EmptyReplacesNothing(old_: Node, new_: Node, g: set<Triple>)
    requires Falsy(new_)
    ensures SubstAll(old_, new_, g) == g
  {
  }

  lemma NothingRenamed(old_: Node, new_: Node, g: set<Triple>)
    requires old_ == new_ || forall t <- g :: !Occurs(old_, t)
    ensures RenamedAll(old_, new_, g) == g
  {
  }

  /** Dense replacement is simultaneous substitution exactly when the new node is not one
      that Python takes for false, or there is nothing to replace. */
  lemma DenseExact(old_: Node, new_: Node, g: set<Triple>)
    ensures SubstAll(old_, new_, g) == RenamedAll(old_, new_, g)
            <==> || (new_ != Iri(0) && !(new_.Lit? && !new_.truth))
                 || old_ == new_
                 || forall t <- g :: t.s != old_ && t.p != old_ && t.o != old_
  {
    if !Falsy(new_) {
      assert forall t :: SubstTriple(old_, new_, t) == Renamed(old_, new_, t);
    } else {
      EmptyReplacesNothing(old_, new_, g);
      if old_ == new_ || forall t <- g :: !Occurs(old_, t) {
        NothingRenamed(old_, new_, g);
      } else {
        assert forall t <- RenamedAll(old_, new_, g) :: !Occurs(old_, t);
      }
    }
  }

  /** The two replacements agree exactly when the old node is nowhere only a predicate. */
  lemma SparseExact(old_: Node, new_: Node, g: set<Triple>)
    requires !Falsy(new_) && old_ != new_
    ensures SparseResult(old_, new_, g) == SubstAll(old_, new_, g)
            <==> forall t <- g :: t.p == old_ ==> t.s == old_ || t.o == old_
  {
    if t0 :| t0 in g && t0.p == old_ && t0.s != old_ && t0.o != old_ {
      assert t0 in SparseResult(old_, new_, g);
      assert forall t <- SubstAll(old_, new_, g) :: !Occurs(old_, t);
    } else {
      forall t ensures t in SparseResult(old_, new_, g) <==> t in SubstAll(old_, new_, g) {
        if t in g && t.s != old_ && t.o != old_ {
          assert SubstTriple(old_, new_, t) == t;
        }
        if t in SubstAll(old_, new_, g) {
          var t0 :| t0 in g && SubstTriple(old_, new_, t0) == t;
          assert t0.s != old_ && t0.o != old_ ==> t0 == t;
        }
      }
    }
  }

  /** In any case, a triple with the old node at an end is replaced by the renamed one, and
      any other is left as it is. */
  lemma SparseSays(old_: Node, new_: Node, g: set<Triple>, x: Triple)
    requires !Falsy(new_)
    ensures x in SparseResult(old_, new_, g) <==>
              || (x in g && x.s != old_ && x.o != old_)
              || exists t <- g :: (t.s == old_ || t.o == old_) && Renamed(old_, new_, t) == x
  {
    assert forall t :: SubstTriple(old_, new_, t) == Renamed(old_, new_, t);
  }

  /* ---------- bounded description ---------- */

  predicate Expanded(n: Node, prune: set<Node>) {
    n.Blank? && n !in prune
  }

  predicate Adjacent(g: set<Triple>, a: Node, b: Node) {
    exists t <- g :: (t.s == a && t.o == b) || (t.s == b && t.o == a)
  }

  /** A path that continues through blank nodes that are not pruned. */
  ghost predicate IsPath(g: set<Triple>, prune: set<Node>, start: Node, path: seq<Node>) {
    && |path| > 0 && path[0] == start
    && forall i :: 0 < i < |path| ==> Expanded(path[i], prune) && Adjacent(g, path[i - 1], path[i])
  }

  ghost predicate Reached(g: set<Triple>, prune: set<Node>, start: Node, n: Node) {
    exists path :: IsPath(g, prune, start, path) && path[|path| - 1] == n
  }

  ghost predicate Incident(g: set<Triple>, prune: set<Node>, start: Node, t: Triple) {
    t in g && (Reached(g, prune, start, t.s) || Reached(g, prune, start, t.o))
  }

  /** All triples incident to the start or to a node reached from it. */
  ghost function Description(g: set<Triple>, prune: set<Node>, start: Node): set<Triple> {
    set t | t in g && Incident(g, prune, start, t)
  }

  lemma ReachedStart(g: set<Triple>, prune: set<Node>, start: Node)
    ensures Reached(g, prune, start, start)
  {
    assert IsPath(g, prune, start, [start]);
  }

  lemma ReachedStep(g: set<Triple>, prune: set<Node>, start: Node, a: Node, b: Node)
    requires Reached(g, prune, start, a) && Adjacent(g, a, b) && Expanded(b, prune)
    ensures Reached(g, prune, start, b)
  {
    var path :| IsPath(g, prune, start, path) && path[|path| - 1] == a;
    assert IsPath(g, prune, start, path + [b]);
    assert (path + [b])[|path + [b]| - 1] == b;
  }

  /** A set that contains the start and is closed under steps contains all that is reached. */
  lemma {:induction false} ClosedContains(g: set<Triple>, prune: set<Node>, start: Node, s: set<Node>, path: seq<Node>)
    requires start in s
    requires forall a, b :: a in s && Adjacent(g, a, b) && Expanded(b, prune) ==> b in s
    requires IsPath(g, prune, start, path)
    ensures path[|path| - 1] in s
    decreases |path|
  {
    if |path| > 1 {
      ClosedContains(g, prune, start, s, path[..|path| - 1]);
    }
  }

  /** The bounded description, without paths: it holds every triple incident to the start;
      with a triple, all those incident to a blank node of it that is not pruned; and it is
      the least set of that kind. */
  lemma DescriptionIsLeast(g: set<Triple>, prune: set<Node>, start: Node)
    ensures var d := Description(g, prune, start);
            && d <= g
            && (forall t <- g :: t.s == start || t.o == start ==> t in d)
            && (forall t, n, x ::
                  && t in d && (t.s == n || t.o == n) && n.Blank? && n !in prune
                  && x in g && (x.s == n || x.o == n) ==>
                    x in d)
    ensures forall s: set<Triple> ::
              && (forall t <- g :: t.s == start || t.o == start ==> t in s)
              && (forall t, n, x ::
                    && t in s && t in g && (t.s == n || t.o == n) && n.Blank? && n !in prune
                    && x in g && (x.s == n || x.o == n) ==>
                      x in s) ==>
                Description(g, prune, start) <= s
  {
    hide Reached;
    ReachedStart(g, prune, start);
    var d := Description(g, prune, start);
    forall t, n, x | t in d && (t.s == n || t.o == n) && n.Blank? && n !in prune && x in g && (x.s == n || x.o == n)
      ensures x in d
    {
      var m := if Reached(g, prune, start, t.s) then t.s else t.o;
      if m != n { ReachedStep(g, prune, start, m, n); }
    }
    forall s: set<Triple> |
      && (forall t <- g :: t.s == start || t.o == start ==> t in s)
      && (forall t, n, x ::
            && t in s && t in g && (t.s == n || t.o == n) && n.Blank? && n !in prune
            && x in g && (x.s == n || x.o == n) ==>
              x in s)
      ensures d <= s
    {
      DescribedWithin(g, prune, start, s);
    }
  }

  lemma DescribedWithin(g: set<Triple>, prune: set<Node>, start: Node, s: set<Triple>)
    requires forall t <- g :: t.s == start || t.o == start ==> t in s
    requires forall t, n, x ::
               && t in s && t in g && (t.s == n || t.o == n) && n.Blank? && n !in prune
               && x in g && (x.s == n || x.o == n) ==>
                 x in s
    ensures Description(g, prune, start) <= s
  {
    var done := set n | n in NodesOf(g) + {start} && forall x <- g :: x.s == n || x.o == n ==> x in s;
    forall t | t in Description(g, prune, start) ensures t in s {
      var n := if Reached(g, prune, start, t.s) then t.s else t.o;
      var path :| IsPath(g, prune, start, path) && path[|path| - 1] == n;
      ClosedContains(g, prune, start, done, path);
    }
  }

  ghost function NodesOf(g: set<Triple>): set<Node> {
    (set t | t in g :: t.s) + (set t | t in g :: t.o)
  }

  ghost predicate Frontier(g: set<Triple>, prune: set<Node>, seen: set<Node>, waiting: set<Node>) {
    forall a, b :: a in seen && Adjacent(g, a, b) && Expanded(b, prune) ==> b in seen + waiting
  }

  /** bounded_description: exactly the triples incident to the nodes reached through blank
      nodes that are not pruned. A blank node with a triple to itself is queued a second
      time while it is visited; the second visit queues nothing, so the loop ends. */
  method BoundedDescription(node: Node, g: set<Triple>, fill: set<Triple>, prune: set<Node>) returns (ret: set<Triple>)
    ensures ret == fill + Description(g, prune, node)
  {
    ret := fill;
    var waiting := {node};
    var seen: set<Node> := {};
    hide Reached, Adjacent, NodesOf, Frontier;
    ReachedStart(g, prune, node);
    assert Frontier(g, prune, {}, {node}) by { NothingSeen(g, prune, node); }
    while waiting != {}
      invariant node in seen + waiting
      invariant forall n <- seen + waiting :: Reached(g, prune, node, n)
      invariant seen + waiting <= NodesOf(g) + {node}
      invariant Frontier(g, prune, seen, waiting)
      invariant ret == fill + Around(g, seen)
      decreases |NodesOf(g) + {node} - seen|, |waiting|
    {
      ghost var seen0, waiting0 := seen, waiting;
      var n :| n in waiting;
      waiting := waiting - {n};
      ret, waiting := VisitNode(n, g, prune, seen, ret, waiting);
      seen := seen + {n};
      VisitKeeps(g, prune, node, n, seen0, waiting0, waiting);
    }
    AllReachedSeen(g, prune, node, seen);
  }

  lemma NothingSeen(g: set<Triple>, prune: set<Node>, node: Node)
    ensures Frontier(g, prune, {}, {node})
  {
  }

  /** The triples incident to some nodes. */
  function Around(g: set<Triple>, nodes: set<Node>): set<Triple> {
    set t | t in g && (t.s in nodes || t.o in nodes)
  }

  lemma AllReachedSeen(g: set<Triple>, prune: set<Node>, node: Node, seen: set<Node>)
    requires node in seen && Frontier(g, prune, seen, {})
    requires forall n <- seen :: Reached(g, prune, node, n)
    ensures Around(g, seen) == Description(g, prune, node)
  {
    forall m | Reached(g, prune, node, m) ensures m in seen {
      var path :| IsPath(g, prune, node, path) && path[|path| - 1] == m;
      ClosedContains(g, prune, node, seen, path);
    }
  }

  lemma AdjacentNodes(g: set<Triple>, a: Node, b: Node)
    requires Adjacent(g, a, b)
    ensures a in NodesOf(g) && b in NodesOf(g)
  {
  }

  /** What one visit does to the nodes seen and waiting. */
  lemma VisitKeeps(g: set<Triple>, prune: set<Node>, node: Node, n: Node, seen0: set<Node>, waiting0: set<Node>,
          waiting: set<Node>)
    requires n in waiting0 && node in seen0 + waiting0 && seen0 + waiting0 <= NodesOf(g) + {node}
    requires forall m <- seen0 + waiting0 :: Reached(g, prune, node, m)
    requires Frontier(g, prune, seen0, waiting0)
    requires forall m :: m in waiting <==>
               m in waiting0 - {n} || (Adjacent(g, n, m) && Expanded(m, prune) && m !in seen0)
    ensures var seen := seen0 + {n};
            && node in seen + waiting && seen + waiting <= NodesOf(g) + {node}
            && (forall m <- seen + waiting :: Reached(g, prune, node, m))
            && Frontier(g, prune, seen, waiting)
            && var before, after := |NodesOf(g) + {node} - seen0|, |NodesOf(g) + {node} - seen|;
               after < before || (after == before && |waiting| < |waiting0|)
  {
    hide Reached, Adjacent, NodesOf;
    var seen := seen0 + {n};
    forall m | m in waiting ensures Reached(g, prune, node, m) && m in NodesOf(g) + {node} {
      if m !in waiting0 {
        AdjacentNodes(g, n, m);
        ReachedStep(g, prune, node, n, m);
      }
    }
    if n in seen0 {
      assert seen == seen0;
      assert waiting == waiting0 - {n};
      SmallerSet(waiting, waiting0);
    } else {
      assert n in NodesOf(g) + {node} - seen0;
      SmallerSet(NodesOf(g) + {node} - seen, NodesOf(g) + {node} - seen0);
    }
  }

  /** The body of the loop: the triples into and out of `n`. */
  method VisitNode(n: Node, g: set<Triple>, prune: set<Node>, seen: set<Node>, ret0: set<Triple>, waiting0: set<Node>)
    returns (ret: set<Triple>, waiting: set<Node>)
    ensures ret == ret0 + Around(g, {n})
    ensures forall m :: m in waiting <==> m in waiting0 || (Adjacent(g, n, m) && Expanded(m, prune) && m !in seen)
  {
    ret, waiting := ret0, waiting0;
    var incoming := set t | t in g && t.o == n;
    var todo := incoming;
    while todo != {}
      invariant todo <= incoming
      invariant ret == ret0 + (incoming - todo)
      invariant waiting == waiting0 + set t | t in incoming - todo && Expanded(t.s, prune) && t.s !in seen :: t.s
      decreases todo
    {
      var t :| t in todo;
      todo := todo - {t};
      ret := ret + {t};
      if t.s.Blank? && t.s !in prune {
        if t.s !in seen {
          waiting := waiting + {t.s};
        }
      }
    }
    ghost var ret1, waiting1 := ret, waiting;
    var outgoing := set t | t in g && t.s == n;
    todo := outgoing;
    while todo != {}
      invariant todo <= outgoing
      invariant ret == ret1 + (outgoing - todo)
      invariant waiting == waiting1 + set t | t in outgoing - todo && Expanded(t.o, prune) && t.o !in seen :: t.o
      decreases todo
    {
      var t :| t in todo;
      todo := todo - {t};
      ret := ret + {t};
      if t.o.Blank? && t.o !in prune {
        if t.o !in seen {
          waiting := waiting + {t.o};
        }
      }
    }
  }
}
