/**
 The obsel collection as an object that is updated in place. Each method is proved to
 do to the state of the collection what module Tags says the edit does.
 */
module TraceObsels {
  import opened Obsels
  import opened Tags

  /** The other ends of the relations of an added graph. */
  function Related(og: ObselGraph): set<Uri> {
    (set r | r in og.rels && r.s == og.uri :: r.o) + (set r | r in og.rels && r.o == og.uri :: r.s)
  }

  class TraceObsels {
    const trace: TraceId
    var obsels: map<Uri, Obsel>
    var rels: set<Rel>
    var range: int
    var last: Option<Uri>
    var etag: nat
    var str: nat
    var pse: nat
    var log: nat
    var prepared: Option<Prepared>  // set inside an edit context with add_obsels_only
    ghost var before: Coll          // the state in which that context was entered

    ghost function State(): Coll
      reads this
    {
      Coll(trace, Graph(obsels, rels), range, last, etag, str, pse, log)
    }

    ghost function Current(): Open
      requires prepared.Some?
      reads this
    {
      Open(Graph(obsels, rels), prepared.value)
    }

    ghost predicate Closed()
      reads this
    {
      prepared.None? && Inv(State())
    }

    /** Inside an edit context only the graph has changed since it was entered. */
    ghost predicate InContext()
      reads this
    {
      && prepared.Some?
      && Inv(before) && OpenInv(before, Current())
      && State() == before.(g := Current().g)
    }

    constructor (trace: TraceId, range: int)
      ensures Closed() && State() == Coll(trace, EMPTY, range, None, 0, 0, 0, 0)
    {
      this.trace := trace;
      this.obsels, this.rels, this.range, this.last := map[], {}, range, None;
      this.etag, this.str, this.pse, this.log := 0, 0, 0, 0;
      this.prepared := None;
    }

    /** Enters `edit({"add_obsels_only": 1}, _trust=True)`. */
    method EnterAddOnly()
      requires Closed()
      modifies this
      ensures InContext() && before == old(State()) && State() == old(State())
      ensures Current() == Open(before.g, Prepare(before, true))
    {
      before := State();
      match last {
        case None => prepared := Some(Prepared(None, 0, 0, true, true, true));
        case Some(l) => prepared := Some(Prepared(last, obsels[l].begin, obsels[l].end, true, true, true));
      }
    }

    /** Leaves the context entered by EnterAddOnly. */
    method ExitAddOnly()
      requires InContext()
      modifies this
      ensures prepared == None && State() == Ack(old(before), old(Current()))
      ensures old(Current()).p.log ==> Closed()
    {
      var p := prepared.value;
      etag := etag + 1;
      if !p.str { str := etag; }
      if !p.pse { pse := etag; }
      if !p.log { log := etag; }
      last := p.last;
      prepared := None;
    }

    /** Compares an obsel of this trace with the last one. */
    method CompareWithLast(obs: Uri, p: Prepared) returns (strMon: bool, pseMon: bool)
      requires p.last.Some? && obs in obsels
      ensures strMon <==> Less(LastKey(p), KeyAt(Graph(obsels, rels), obs))
      ensures pseMon <==> !TooOld(obsels[obs], p, range)
      ensures var o := obsels[obs];
              && (strMon <==> || o.end > p.lastEnd
                              || (o.end == p.lastEnd && o.begin > p.lastBegin)
                              || (o.end == p.lastEnd && o.begin == p.lastBegin && obs.id > p.last.value.id))
              && (pseMon <==> && !(o.end < p.lastEnd && o.end < p.lastEnd - range)
                              && !(o.end == p.lastEnd && o.begin < p.lastBegin && o.begin < p.lastBegin - range))
    {
      strMon, pseMon := true, true;
      var end := obsels[obs].end;
      if end < p.lastEnd {
        strMon := false;
        if end < p.lastEnd - range { pseMon := false; }
      } else if end == p.lastEnd {
        var begin := obsels[obs].begin;
        if begin < p.lastBegin {
          strMon := false;
          if begin < p.lastBegin - range { pseMon := false; }
        } else if begin == p.lastBegin {
          if obs.id <= p.last.value.id { strMon := false; }
        }
      }
    }

    /** Called after `og` was added: loses the monotonicity flags that `og` violates. */
    method DetectMonChange(og: ObselGraph)
      requires prepared.Some? && Owned(Graph(obsels, rels), trace) && og.uri in obsels
      requires forall r <- og.rels :: Touches(r, og.uri)
      modifies this`prepared
      ensures prepared == Some(Detect(Graph(obsels, rels), range, old(prepared.value), og))
    {
      hide Less, TooOld, Touched, Related;
      var p := prepared.value;
      if p.last.None? {
        prepared := Some(p.(last := Some(og.uri), lastBegin := obsels[og.uri].begin, lastEnd := obsels[og.uri].end));
        return;
      }
      var q := p;
      var strMon, pseMon := true, true;
      var waiting := Related(og);
      var first := true;
      ghost var g := Graph(obsels, rels);
      ghost var checked: set<Uri> := {};
      while first || waiting != {}
        invariant first ==> checked == {} && waiting == Related(og)
        invariant !first ==> checked + waiting == Related(og) + {og.uri} && og.uri in checked
        invariant strMon <==> forall v <- checked :: v in obsels ==> Less(LastKey(p), KeyAt(g, v))
        invariant pseMon <==> forall v <- checked :: v in obsels ==> !TooOld(obsels[v], p, range)
        invariant q == if og.uri in checked && Less(LastKey(p), KeyAt(g, og.uri))
                       then p.(last := Some(og.uri), lastBegin := obsels[og.uri].begin, lastEnd := obsels[og.uri].end)
                       else p
        decreases first, waiting
      {
        var obs := og.uri;
        if first {
          first := false;
        } else {
          obs :| obs in waiting;
          waiting := waiting - {obs};
        }
        checked := checked + {obs};
        if obs.trace != trace {
          continue; // not an obsel of this trace
        }
        if obs !in obsels {
          continue; // not an obsel
        }
        var s, e := CompareWithLast(obs, p);
        strMon, pseMon := strMon && s, pseMon && e;
        if obs == og.uri && strMon {
          q := q.(last := Some(og.uri), lastBegin := obsels[obs].begin, lastEnd := obsels[obs].end);
        }
      }
      CheckedIsDetected(g, range, p, og, strMon, pseMon, q);
      prepared := Some(q.(str := q.str && strMon, pse := q.pse && pseMon));
    }

    /** Adds an obsel, opening an edit context unless one is open. */
    method AddObselGraph(og: ObselGraph)
      requires Closed() || InContext()
      requires Describes(Graph(obsels, rels), trace, og)
      modifies this
      ensures old(prepared).None? ==> Closed() && State() == Apply(old(State()), AddOnly([og]))
      ensures old(prepared).Some? ==> InContext() && before == old(before)
                                      && Current() == AddStep(range, old(Current()), og)
    {
      var outermost := prepared.None?;
      if outermost { EnterAddOnly(); }
      ghost var o := Current();
      AddStepKeeps(before, o, og);
      obsels := obsels[og.uri := og.obs];
      rels := rels + og.rels;
      DetectMonChange(og);
      if outermost {
        AddOne(range, o, og);
        AddAllKeepsLog(range, o, [og]);
        ExitAddOnly();
      }
    }

    /** Several calls to add_obsel_graph inside one edit context. */
    method AddObselGraphs(ogs: seq<ObselGraph>)
      requires Closed() && ValidAdds(Graph(obsels, rels), trace, ogs)
      modifies this
      ensures Closed() && State() == Apply(old(State()), AddOnly(ogs))
    {
      EnterAddOnly();
      ghost var o := Current();
      ghost var c := before;
      for i := 0 to |ogs|
        invariant InContext() && before == c
        invariant ValidAdds(Current().g, trace, ogs[i..])
        invariant AddAll(range, Current(), ogs[i..]) == AddAll(range, o, ogs)
      {
        assert ogs[i..][0] == ogs[i] && ogs[i..][1..] == ogs[i + 1..];
        AddObselGraph(ogs[i]);
      }
      AddAllKeepsLog(range, o, ogs);
      ExitAddOnly();
    }

    /** An edit context with add_obsels_only that replaces the graph by itself, which an
        untrusted edit may do: no flag is lost, and the last obsel is kept. */
    method DeclaredEdit(g: Graph)
      requires Closed()
      modifies this
      ensures prepared == None && State() == Apply(old(State()), Declared(g))
      ensures Closed() && Promise(old(State()), State()) <==> LeavesObsels(old(State()).g, g)
    {
      DeclaredExact(State(), g);
      obsels, rels := g.obsels, g.rels;
      etag := etag + 1;
    }

    /** Any edit context without add_obsels_only: `g` is the edited graph and `answer`
        what FIND_LAST_OBSEL returns. */
    method FullEdit(g: Graph, answer: Option<Uri>)
      requires Closed() && FindsLast(State(), g, answer)
      modifies this
      ensures prepared == None && State() == Apply(old(State()), Full(g, answer))
      ensures Closed() <==> old(Valid(State(), Full(g, answer)))
    {
      obsels, rels := g.obsels, g.rels;
      etag := etag + 1;
      str, pse, log := etag, etag, etag;
      last := answer;
    }

    /** _empty: removes every obsel. */
    method Empty()
      requires Closed()
      modifies this
      ensures Closed() && State() == Apply(old(State()), Full(EMPTY, None))
    {
      FullEdit(EMPTY, None);
    }

    /** The trace acknowledges a new range: a wider one renews all tags. */
    method SetRange(r: int, answer: Option<Uri>)
      requires Closed() && (r > range ==> FindsLast(State(), State().g, answer))
      modifies this
      ensures prepared == None && State() == Apply(old(State()), Edit.SetRange(r, answer))
      ensures Closed() <==> old(Valid(State(), Edit.SetRange(r, answer)))
    {
      var wider := r > range;
      range := r;
      if wider {
        etag := etag + 1;
        str, pse, log := etag, etag, etag;
        last := answer;
      }
    }
  }

  /** Comparing the added obsel and those related to it with the last one is what Detect does. */
  lemma CheckedIsDetected(g: Graph, range: int, p: Prepared, og: ObselGraph, strMon: bool, pseMon: bool, q: Prepared)
    requires p.last.Some? && og.uri in g.obsels && forall r <- og.rels :: Touches(r, og.uri)
    requires strMon <==> forall v <- Related(og) + {og.uri} :: v in g.obsels ==> Less(LastKey(p), KeyAt(g, v))
    requires pseMon <==> forall v <- Related(og) + {og.uri} :: v in g.obsels ==> !TooOld(g.obsels[v], p, range)
    requires q == if Less(LastKey(p), KeyAt(g, og.uri))
                  then p.(last := Some(og.uri), lastBegin := g.obsels[og.uri].begin, lastEnd := g.obsels[og.uri].end)
                  else p
    ensures Detect(g, range, p, og) == q.(str := q.str && strMon, pse := q.pse && pseMon)
  {
    hide Less, TooOld, Touched, Related;
    TouchedIsChecked(g, og);
  }

  lemma TouchedIsChecked(g: Graph, og: ObselGraph)
    requires forall r <- og.rels :: Touches(r, og.uri)
    ensures forall v <- g.obsels :: Touched(g, og, v) <==> v in Related(og) + {og.uri}
  {
  }
}
