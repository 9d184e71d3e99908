/**
 Copying obsels from a source trace to a computed trace (copy_obsel), and what a
 computed trace should contain: the copies of the chosen obsels, and the images of
 the relations among them.
 */
module Views {
  import opened Obsels
  import opened Tags

  /** The obsels a method keeps, with the types of their copies. */
  type Choice = Obsel -> Option<set<Name>>

  /** The two traces that a copy goes between. */
  datatype Hop = Hop(src: TraceId, tgt: TraceId)

  /** translate_node, for a method with a single source. */
  function TNode(h: Hop, u: Uri): Uri {
    if u.trace == h.src then Uri(h.tgt, u.id) else u
  }

  function TRel(h: Hop, r: Rel): Rel {
    Rel(TNode(h, r.s), r.p, TNode(h, r.o))
  }

  /** check_new: the node occurs in no triple of the graph. */
  predicate CheckNew(g: Graph, u: Uri) {
    u !in g.obsels && forall r <- g.rels :: !Touches(r, u)
  }

  /** A related node is skipped when it should be in the target trace but is not. */
  predicate Present(h: Hop, target: Graph, v: Uri) {
    v.trace != h.src || !CheckNew(target, TNode(h, v))
  }

  function CopiedRels(h: Hop, g: Graph, target: Graph, u: Uri): set<Rel> {
    (set r | r in g.rels && r.s == u && Present(h, target, r.o) :: TRel(h, r))
    + (set r | r in g.rels && r.o == u && Present(h, target, r.s) :: TRel(h, r))
  }

  function CopiedObsel(u: Uri, o: Obsel, types: set<Name>): Obsel {
    Obsel(o.begin, o.end, types, o.attrs, Some(u))
  }

  function CopyObsel(h: Hop, g: Graph, target: Graph, u: Uri, types: set<Name>): ObselGraph
    requires u in g.obsels
  {
    ObselGraph(TNode(h, u), CopiedObsel(u, g.obsels[u], types), CopiedRels(h, g, target, u))
  }

  /** copy_obsel, as the loops over outgoing and incoming triples that fill a graph. */
  method CopyObselGraph(h: Hop, g: Graph, target: Graph, u: Uri, types: set<Name>) returns (og: ObselGraph)
    requires u in g.obsels
    ensures og == CopyObsel(h, g, target, u, types)
    ensures og.obs.begin == g.obsels[u].begin && og.obs.end == g.obsels[u].end && og.obs.attrs == g.obsels[u].attrs
    ensures og.obs.types == types && og.obs.source == Some(u)
    ensures u.trace == h.src ==> og.uri == Uri(h.tgt, u.id)
  {
    var rels: set<Rel> := {};
    var outgoing := set r | r in g.rels && r.s == u;
    var todo := outgoing;
    while todo != {}
      invariant todo <= outgoing
      invariant rels == set r | r in outgoing - todo && Present(h, target, r.o) :: TRel(h, r)
      decreases todo
    {
      var r :| r in todo;
      todo := todo - {r};
      if r.o.trace != h.src || !CheckNew(target, TNode(h, r.o)) {
        rels := rels + {TRel(h, r)};
      }
    }
    assert rels == set r | r in g.rels && r.s == u && Present(h, target, r.o) :: TRel(h, r);
    ghost var first := rels;
    var incoming := set r | r in g.rels && r.o == u;
    todo := incoming;
    while todo != {}
      invariant todo <= incoming
      invariant rels == first + set r | r in incoming - todo && Present(h, target, r.s) :: TRel(h, r)
      decreases todo
    {
      var r :| r in todo;
      todo := todo - {r};
      if r.s.trace != h.src || !CheckNew(target, TNode(h, r.s)) {
        rels := rels + {TRel(h, r)};
      }
    }
    assert rels == CopiedRels(h, g, target, u);
    og := ObselGraph(TNode(h, u), CopiedObsel(u, g.obsels[u], types), rels);
  }

  /* ---------- what a computed trace should contain ---------- */

  ghost function Kept(g: Graph, choice: Choice): set<Uri> {
    set u | u in g.obsels && choice(g.obsels[u]).Some?
  }

  /** Both ends of the relation are available, one of them as a copied obsel. */
  predicate Linked(h: Hop, done: set<Uri>, r: Rel) {
    && r.s != r.o
    && (r.s in done || r.o in done)
    && (r.s.trace == h.src ==> r.s in done)
    && (r.o.trace == h.src ==> r.o in done)
  }

  ghost function ImageRels(h: Hop, g: Graph, done: set<Uri>): set<Rel> {
    set r | r in g.rels && Linked(h, done, r) :: TRel(h, r)
  }

  ghost predicate Chosen(g: Graph, choice: Choice, done: set<Uri>) {
    forall u <- done :: u in g.obsels && choice(g.obsels[u]).Some?
  }

  function Preimage(h: Hop, v: Uri): Uri {
    Uri(h.src, v.id)
  }

  ghost function ImageObsels(h: Hop, g: Graph, choice: Choice, done: set<Uri>): map<Uri, Obsel>
    requires Chosen(g, choice, done) && Owned(g, h.src)
  {
    map v | v in (set u | u in done :: TNode(h, u)) ::
      CopiedObsel(Preimage(h, v), g.obsels[Preimage(h, v)], choice(g.obsels[Preimage(h, v)]).value)
  }

  /** The target graph once the obsels in `done` have been copied. */
  ghost function Image(h: Hop, g: Graph, choice: Choice, done: set<Uri>): Graph
    requires Chosen(g, choice, done) && Owned(g, h.src)
  {
    Graph(ImageObsels(h, g, choice, done), ImageRels(h, g, done))
  }

  /** The target graph computed from nothing. */
  ghost function View(h: Hop, g: Graph, choice: Choice): Graph
    requires Owned(g, h.src)
  {
    Image(h, g, choice, Kept(g, choice))
  }

  /** The two traces differ, no obsel is related to itself, and no relation mentions a
      node of the target trace. */
  ghost predicate Clean(h: Hop, g: Graph) {
    && h.src != h.tgt
    && Owned(g, h.src)
    && (forall r <- g.rels :: r.s.trace == h.src ==> r.s != r.o)
    && (forall r <- g.rels :: r.s.trace != h.tgt && r.o.trace != h.tgt)
  }

  /* ---------- a target that is being brought up to date ---------- */

  /** What has been copied: the obsels of `start` and the relations of `base` by earlier
      computations, and the obsels of `redone`, which may be among those of `start`, by
      this one. */
  datatype Copied = Copied(start: set<Uri>, base: set<Rel>, redone: set<Uri>)

  const NOTHING := Copied({}, {}, {})

  function Done(cp: Copied): set<Uri> {
    cp.start + cp.redone
  }

  /** The relation was carried over, earlier or with one of its ends. */
  predicate Carried(cp: Copied, r: Rel) {
    r in cp.base || r.s in cp.redone || r.o in cp.redone
  }

  ghost function PartRels(h: Hop, g: Graph, cp: Copied): set<Rel> {
    set r | r in g.rels && Linked(h, Done(cp), r) && Carried(cp, r) :: TRel(h, r)
  }

  ghost function Part(h: Hop, g: Graph, choice: Choice, cp: Copied): Graph
    requires Chosen(g, choice, Done(cp)) && Owned(g, h.src)
  {
    Graph(ImageObsels(h, g, choice, Done(cp)), PartRels(h, g, cp))
  }

  /** A node of the source trace is present exactly when it has been copied. */
  lemma PresentIffDone(h: Hop, g: Graph, choice: Choice, cp: Copied, v: Uri)
    requires Clean(h, g) && Chosen(g, choice, Done(cp)) && v.trace == h.src
    ensures Present(h, Part(h, g, choice, cp), v) <==> v in Done(cp)
  {
  }

  /** Copying one more obsel, or the same one again, carries over all relations between
      it and what is there. */
  lemma CopyStepRels(h: Hop, g: Graph, choice: Choice, cp: Copied, u: Uri)
    requires Clean(h, g) && Chosen(g, choice, Done(cp)) && u in g.obsels
    ensures PartRels(h, g, cp) + CopiedRels(h, g, Part(h, g, choice, cp), u)
            == PartRels(h, g, cp.(redone := cp.redone + {u}))
  {
    var t, more := Part(h, g, choice, cp), cp.(redone := cp.redone + {u});
    forall v: Uri | v.trace == h.src ensures Present(h, t, v) <==> v in Done(cp) {
      PresentIffDone(h, g, choice, cp, v);
    }
    assert Done(more) == Done(cp) + {u};
    forall r | r in PartRels(h, g, more) ensures r in t.rels + CopiedRels(h, g, t, u) {
      var r0 :| r0 in g.rels && Linked(h, Done(more), r0) && Carried(more, r0) && TRel(h, r0) == r;
      if r0.s == u {
        assert Present(h, t, r0.o);
      } else if r0.o == u {
        assert Present(h, t, r0.s);
      } else {
        assert Linked(h, Done(cp), r0) && Carried(cp, r0);
      }
    }
    forall r | r in CopiedRels(h, g, t, u) ensures r in PartRels(h, g, more) {
      var r0 :| r0 in g.rels && TRel(h, r0) == r
                && ((r0.s == u && Present(h, t, r0.o)) || (r0.o == u && Present(h, t, r0.s)));
      assert Linked(h, Done(more), r0) && Carried(more, r0);
    }
    forall r | r in t.rels ensures r in PartRels(h, g, more) {
      var r0 :| r0 in g.rels && Linked(h, Done(cp), r0) && Carried(cp, r0) && TRel(h, r0) == r;
      assert Linked(h, Done(more), r0) && Carried(more, r0);
    }
  }

  lemma CopyStepGraph(h: Hop, g: Graph, choice: Choice, cp: Copied, u: Uri)
    requires Clean(h, g) && Chosen(g, choice, Done(cp))
    requires u in g.obsels && choice(g.obsels[u]).Some?
    ensures var t, more := Part(h, g, choice, cp), cp.(redone := cp.redone + {u});
            var og := CopyObsel(h, g, t, u, choice(g.obsels[u]).value);
            && Chosen(g, choice, Done(more))
            && AddGraph(t, og) == Part(h, g, choice, more)
            && (og.uri in t.obsels ==> t.obsels[og.uri] == og.obs)
  {
    var t, more := Part(h, g, choice, cp), cp.(redone := cp.redone + {u});
    var og := CopyObsel(h, g, t, u, choice(g.obsels[u]).value);
    hide CopiedRels, PartRels, Clean, Carried;
    CopyStepRels(h, g, choice, cp, u);
    assert Done(more) == Done(cp) + {u};
    var a, b := AddGraph(t, og).obsels, ImageObsels(h, g, choice, Done(more));
    assert a.Keys == b.Keys by {
      assert (set w | w in Done(more) :: TNode(h, w)) == (set w | w in Done(cp) :: TNode(h, w)) + {TNode(h, u)};
    }
    forall v | v in a ensures a[v] == b[v] {
      if v == TNode(h, u) {
        assert Preimage(h, v) == u;
      }
    }
    assert a == b;
  }

  /* ---------- what the copies say ---------- */

  /** Each copy has the URI of its obsel below the target trace, its begin, its end and its
      attributes, and names it as its source; its types are those chosen. There is nothing
      else. */
  lemma CopiesSay(h: Hop, g: Graph, choice: Choice, done: set<Uri>)
    requires Owned(g, h.src) && Chosen(g, choice, done)
    ensures var copies := ImageObsels(h, g, choice, done);
            && (forall w :: w in copies <==> w.trace == h.tgt && Uri(h.src, w.id) in done)
            && forall u <- done ::
                 && Uri(h.tgt, u.id) in copies
                 && var copy := copies[Uri(h.tgt, u.id)];
                    && copy.begin == g.obsels[u].begin && copy.end == g.obsels[u].end
                    && copy.attrs == g.obsels[u].attrs && copy.source == Some(u)
                    && Some(copy.types) == choice(g.obsels[u])
  {
    forall u | u in done ensures TNode(h, u) == Uri(h.tgt, u.id) && Preimage(h, TNode(h, u)) == u {
    }
    forall w: Uri | w.trace == h.tgt && Uri(h.src, w.id) in done ensures w in ImageObsels(h, g, choice, done) {
      assert w == TNode(h, Uri(h.src, w.id));
    }
  }

  /** Copies are in the order of their obsels. */
  lemma CopiesKeepOrder(h: Hop, g: Graph, choice: Choice, done: set<Uri>, u: Uri, v: Uri)
    requires Owned(g, h.src) && Chosen(g, choice, done) && u in done && v in done
    ensures var copies := ImageObsels(h, g, choice, done);
            && Uri(h.tgt, u.id) in copies && Uri(h.tgt, v.id) in copies
            && var a, b := Uri(h.tgt, u.id), Uri(h.tgt, v.id);
               Less(KeyOf(a, copies[a]), KeyOf(b, copies[b])) <==> Less(KeyAt(g, u), KeyAt(g, v))
  {
    CopiesSay(h, g, choice, done);
  }

  /** So the last of the copies is the copy of the last obsel copied. */
  lemma LastCopy(h: Hop, g: Graph, choice: Choice, done: set<Uri>, t: Graph, last: Option<Uri>)
    requires Owned(g, h.src) && Chosen(g, choice, done) && t.obsels == ImageObsels(h, g, choice, done)
    ensures IsLast(t, last) <==>
              match last
              case None => done == {}
              case Some(l) =>
                && l.trace == h.tgt && Uri(h.src, l.id) in done
                && forall v <- done :: v != Uri(h.src, l.id) ==> Less(KeyAt(g, v), KeyAt(g, Uri(h.src, l.id)))
  {
    hide Less, ImageObsels;
    CopiesSay(h, g, choice, done);
    forall u, v | u in done && v in done
      ensures Less(KeyAt(t, Uri(h.tgt, u.id)), KeyAt(t, Uri(h.tgt, v.id))) <==> Less(KeyAt(g, u), KeyAt(g, v))
    {
      CopiesKeepOrder(h, g, choice, done, u, v);
    }
    if last.None? {
      assert done == {} ==> t.obsels == map[];
      if u :| u in done { assert Uri(h.tgt, u.id) in t.obsels; }
    } else {
      var l := last.value;
      forall v | v in done ensures Uri(h.tgt, v.id) in t.obsels && v == Uri(h.src, Uri(h.tgt, v.id).id) {
      }
    }
  }

  /** The graph computed from nothing: which obsels it has, and what is said of them. */
  lemma ViewSays(h: Hop, g: Graph, choice: Choice)
    requires Owned(g, h.src)
    ensures var view := View(h, g, choice);
            && (forall w :: w in view.obsels <==>
                  && w.trace == h.tgt && Uri(h.src, w.id) in g.obsels
                  && choice(g.obsels[Uri(h.src, w.id)]).Some?)
            && forall w <- view.obsels ::
                 var o := g.obsels[Uri(h.src, w.id)];
                 view.obsels[w] == Obsel(o.begin, o.end, choice(o).value, o.attrs, Some(Uri(h.src, w.id)))
  {
    hide ImageObsels;
    CopiesSay(h, g, choice, Kept(g, choice));
  }

  /** The relations among obsels to keep, and between them and other resources, are those
      among the copies, and between them and the same resources. */
  lemma ViewRelates(h: Hop, g: Graph, choice: Choice)
    requires Clean(h, g)
    ensures var rels, kept := View(h, g, choice).rels, Kept(g, choice);
            && (forall u, p, v :: u in kept && v in kept ==>
                  (Rel(Uri(h.tgt, u.id), p, Uri(h.tgt, v.id)) in rels <==> Rel(u, p, v) in g.rels))
            && (forall u, p, f: Uri :: u in kept && f.trace != h.src && f.trace != h.tgt ==>
                  && (Rel(Uri(h.tgt, u.id), p, f) in rels <==> Rel(u, p, f) in g.rels)
                  && (Rel(f, p, Uri(h.tgt, u.id)) in rels <==> Rel(f, p, u) in g.rels))
            && forall x <- rels ::
                 && (x.s.trace == h.tgt || x.o.trace == h.tgt) && x.s.trace != h.src && x.o.trace != h.src
                 && (x.s.trace == h.tgt ==> Uri(h.src, x.s.id) in kept)
                 && (x.o.trace == h.tgt ==> Uri(h.src, x.o.id) in kept)
  {
    var rels, kept := View(h, g, choice).rels, Kept(g, choice);
    forall r | r in g.rels && Linked(h, kept, r) ensures TRel(h, r) in rels {
    }
    forall r | TRel(h, r) in rels && r.s.trace != h.tgt && r.o.trace != h.tgt ensures r in g.rels {
      var r0 :| r0 in g.rels && Linked(h, kept, r0) && TRel(h, r0) == TRel(h, r);
      assert r0 == r;
    }
    forall u, p, v | u in kept && v in kept
      ensures Rel(Uri(h.tgt, u.id), p, Uri(h.tgt, v.id)) in rels <==> Rel(u, p, v) in g.rels
    {
      assert TRel(h, Rel(u, p, v)) == Rel(Uri(h.tgt, u.id), p, Uri(h.tgt, v.id));
    }
    forall u, p, f: Uri | u in kept && f.trace != h.src && f.trace != h.tgt
      ensures Rel(Uri(h.tgt, u.id), p, f) in rels <==> Rel(u, p, f) in g.rels
      ensures Rel(f, p, Uri(h.tgt, u.id)) in rels <==> Rel(f, p, u) in g.rels
    {
      assert TRel(h, Rel(u, p, f)) == Rel(Uri(h.tgt, u.id), p, f);
      assert TRel(h, Rel(f, p, u)) == Rel(f, p, Uri(h.tgt, u.id));
    }
  }

  /* ---------- a target as it is found ---------- */

  /** What is in a target: obsels of `g` whose copies are there, and relations of `g` whose
      images are. */
  function FoundIn(h: Hop, g: Graph, t: Graph): Copied {
    Copied(set u | u in g.obsels && TNode(h, u) in t.obsels, set r | r in g.rels && TRel(h, r) in t.rels, {})
  }

  /** A target as computations may have left it, complete or not: it holds the copies of
      some obsels that the method chooses, some relations among them, and nothing else. */
  ghost predicate IsPart(h: Hop, g: Graph, choice: Choice, t: Graph)
    requires Owned(g, h.src)
  {
    Chosen(g, choice, Done(FoundIn(h, g, t))) && t == Part(h, g, choice, FoundIn(h, g, t))
  }

  /** Whatever was copied, it can be read off the target. */
  lemma PartIsPart(h: Hop, g: Graph, choice: Choice, cp: Copied)
    requires Clean(h, g) && Chosen(g, choice, Done(cp))
    ensures var t := Part(h, g, choice, cp);
            && IsPart(h, g, choice, t)
            && FoundIn(h, g, t).start == Done(FoundIn(h, g, t)) == Done(cp)
            && forall r <- g.rels :: Linked(h, Done(cp), r) ==> (TRel(h, r) in t.rels <==> Carried(cp, r))
  {
    var t := Part(h, g, choice, cp);
    var found := FoundIn(h, g, t);
    forall u ensures u in found.start <==> u in Done(cp) {
      if u in Done(cp) {
        assert TNode(h, u) in t.obsels;
      }
    }
    assert found.start == Done(found) == Done(cp);
    forall r | r in g.rels && Linked(h, Done(cp), r) ensures TRel(h, r) in t.rels <==> Carried(cp, r) {
      if TRel(h, r) in t.rels {
        var r0 :| r0 in g.rels && Linked(h, Done(cp), r0) && Carried(cp, r0) && TRel(h, r0) == TRel(h, r);
        assert r0 == r;
      }
    }
    assert PartRels(h, g, found) == t.rels;
  }

  /** While the source only grows, a target that was a part remains one: what may be
      missing besides is relations added since, and new obsels. */
  lemma PartGrows(h: Hop, g0: Graph, g1: Graph, choice: Choice, t: Graph)
    requires PlainGrowth(g0, g1) && Owned(g0, h.src) && Clean(h, g1) && IsPart(h, g0, choice, t)
    ensures IsPart(h, g1, choice, t)
    ensures FoundIn(h, g1, t).start == FoundIn(h, g0, t).start
  {
    var f0, f1 := FoundIn(h, g0, t), FoundIn(h, g1, t);
    forall u ensures u in f1.start <==> u in f0.start {
      if u in f1.start {
        var v :| v in Done(f0) && TNode(h, v) == TNode(h, u);
        assert v == u;
      }
    }
    assert f1.start == f0.start && Done(f1) == Done(f0);
    forall x ensures x in t.rels <==> x in PartRels(h, g1, f1) {
      if x in t.rels {
        var r :| r in g0.rels && Linked(h, Done(f0), r) && Carried(f0, r) && TRel(h, r) == x;
        assert r in f1.base && Linked(h, Done(f1), r);
      }
    }
    assert ImageObsels(h, g1, choice, Done(f1)) == ImageObsels(h, g0, choice, Done(f0));
  }

  /** A target in which all chosen obsels are is the one computed from nothing exactly when
      the relations among them are there, too. */
  lemma ExactIff(h: Hop, g: Graph, choice: Choice, t: Graph)
    requires Clean(h, g) && IsPart(h, g, choice, t)
    ensures t == View(h, g, choice)
            <==> FoundIn(h, g, t).start == Kept(g, choice)
                 && forall r <- g.rels :: Linked(h, Kept(g, choice), r) ==> TRel(h, r) in t.rels
  {
    var found := FoundIn(h, g, t);
    assert Done(found) == found.start;
    PartExact(h, g, choice, found, Kept(g, choice));
  }

  /** A part is the whole image of some obsels exactly when these are the obsels copied,
      and all relations among them were carried over. */
  lemma PartExact(h: Hop, g: Graph, choice: Choice, cp: Copied, all: set<Uri>)
    requires Clean(h, g) && Chosen(g, choice, Done(cp)) && Chosen(g, choice, all)
    ensures Part(h, g, choice, cp) == Image(h, g, choice, all)
            <==> Done(cp) == all && forall r <- g.rels :: Linked(h, all, r) ==> Carried(cp, r)
  {
    var part, image := Part(h, g, choice, cp), Image(h, g, choice, all);
    if part == image {
      forall u: Uri | u.trace == h.src ensures u in Done(cp) <==> u in all {
        assert TNode(h, u) in part.obsels <==> u in Done(cp);
        assert TNode(h, u) in image.obsels <==> u in all;
      }
      assert forall u <- Done(cp) :: u.trace == h.src;
      assert forall u <- all :: u.trace == h.src;
      forall r | r in g.rels && Linked(h, all, r) ensures Carried(cp, r) {
        assert TRel(h, r) in part.rels;
        var r0 :| r0 in g.rels && Linked(h, Done(cp), r0) && Carried(cp, r0) && TRel(h, r0) == TRel(h, r);
        assert r0 == r;
      }
    }
  }

  /** Copying one more obsel, or the same again, yields the image of one more obsel. */
  lemma CopyNew(h: Hop, g: Graph, choice: Choice, done: set<Uri>, u: Uri)
    requires Clean(h, g) && Chosen(g, choice, done)
    requires u in g.obsels && choice(g.obsels[u]).Some?
    ensures var t := Image(h, g, choice, done);
            AddGraph(t, CopyObsel(h, g, t, u, choice(g.obsels[u]).value)) == Image(h, g, choice, done + {u})
  {
    var cp := Copied(done, g.rels, {});
    assert Done(cp) == done && Done(cp.(redone := {} + {u})) == done + {u};
    PartExact(h, g, choice, cp, done);
    PartExact(h, g, choice, cp.(redone := {} + {u}), done + {u});
    CopyStepGraph(h, g, choice, cp, u);
  }

  /** Copying an obsel again changes nothing, as long as it is not related to itself. */
  lemma CopyAgain(h: Hop, g: Graph, choice: Choice, done: set<Uri>, u: Uri)
    requires Clean(h, g) && Chosen(g, choice, done) && u in done
    ensures var t := Image(h, g, choice, done);
            var og := CopyObsel(h, g, t, u, choice(g.obsels[u]).value);
            og.uri in t.obsels && t.obsels[og.uri] == og.obs && og.rels <= t.rels && AddGraph(t, og) == t
  {
  }

  /* ---------- a source that grows ---------- */

  /** Every relation added touches an added obsel, or none. */
  ghost predicate FreshGrowth(g0: Graph, g1: Graph) {
    && PlainGrowth(g0, g1)
    && forall r :: r in g1.rels && r !in g0.rels ==>
         || (r.s in g1.obsels && r.s !in g0.obsels) || (r.o in g1.obsels && r.o !in g0.obsels)
         || forall u <- g0.obsels :: !Touches(r, u)
  }

  /** No relation was added that links obsels kept before, to one another or to a node of
      another trace. */
  ghost predicate NothingLate(h: Hop, choice: Choice, g0: Graph, g1: Graph) {
    forall r :: r in g1.rels && r !in g0.rels ==> !Linked(h, Kept(g0, choice), r)
  }

  lemma FreshIsNotLate(h: Hop, choice: Choice, g0: Graph, g1: Graph)
    requires FreshGrowth(g0, g1) && Owned(g1, h.src)
    ensures NothingLate(h, choice, g0, g1)
  {
  }

  /** A target computed from a source that only grew in this way grew in this way itself. */
  lemma ViewGrowsFresh(h: Hop, g0: Graph, g1: Graph, choice: Choice)
    requires FreshGrowth(g0, g1) && Owned(g0, h.src) && Owned(g1, h.src)
    ensures FreshGrowth(View(h, g0, choice), View(h, g1, choice))
  {
    var v0, v1 := View(h, g0, choice), View(h, g1, choice);
    forall u | u in Kept(g0, choice) ensures u in Kept(g1, choice) {
    }
    forall x | x in v1.rels && x !in v0.rels
      ensures (x.s in v1.obsels && x.s !in v0.obsels) || (x.o in v1.obsels && x.o !in v0.obsels)
    {
      var r :| r in g1.rels && Linked(h, Kept(g1, choice), r) && TRel(h, r) == x;
      assert r in g0.rels ==> !Linked(h, Kept(g0, choice), r);
      assert (r.s in Kept(g1, choice) && r.s !in g0.obsels) || (r.o in Kept(g1, choice) && r.o !in g0.obsels);
    }
    assert PlainGrowth(v0, v1) by {
      assert forall r :: Linked(h, Kept(g0, choice), r) ==> Linked(h, Kept(g1, choice), r);
    }
  }

  /* ---------- any order of copying ---------- */

  ghost function CopyAll(h: Hop, g: Graph, choice: Choice, target: Graph, order: seq<Uri>): Graph
    requires forall u <- order :: u in g.obsels && choice(g.obsels[u]).Some?
    decreases |order|
  {
    if order == [] then target else
      var u := order[0];
      CopyAll(h, g, choice, AddGraph(target, CopyObsel(h, g, target, u, choice(g.obsels[u]).value)), order[1..])
  }

  /** Whatever the order in which obsels are copied, and however often, the target ends
      up with exactly the copies and with exactly the images of the relations between them. */
  lemma {:induction false} CopyOrderIrrelevant(h: Hop, g: Graph, choice: Choice, done: set<Uri>, order: seq<Uri>)
    requires Clean(h, g) && Chosen(g, choice, done)
    requires forall u <- order :: u in g.obsels && choice(g.obsels[u]).Some?
    ensures var all := done + (set u | u in order);
            && Chosen(g, choice, all)
            && CopyAll(h, g, choice, Image(h, g, choice, done), order) == Image(h, g, choice, all)
    decreases |order|
  {
    if order == [] {
      assert done + (set u | u in order) == done;
    } else {
      var u := order[0];
      CopyNew(h, g, choice, done, u);
      CopyOrderIrrelevant(h, g, choice, done + {u}, order[1..]);
      assert order == [u] + order[1..];
      assert done + {u} + (set v | v in order[1..]) == done + (set v | v in order);
    }
  }

  /** When the traces differ and the source mentions no node of the target, copying a
      kept obsel a second time is harmless exactly when it is not related to itself:
      a self-relation is skipped by the first copy and added by the second. */
  lemma SelfRelationExact(h: Hop, g: Graph, choice: Choice, u: Uri)
    requires h.src != h.tgt && Owned(g, h.src) && u in Kept(g, choice)
    requires forall r <- g.rels :: r.s.trace != h.tgt && r.o.trace != h.tgt
    ensures var once := CopyAll(h, g, choice, EMPTY, [u]);
            CopyAll(h, g, choice, once, [u]) == once <==> forall r <- g.rels :: r.s == u ==> r.o != u
  {
    var types := choice(g.obsels[u]).value;
    var og1 := CopyObsel(h, g, EMPTY, u, types);
    var once := AddGraph(EMPTY, og1);
    assert CopyAll(h, g, choice, EMPTY, [u]) == CopyAll(h, g, choice, once, [u][1..]) == once;
    var og2 := CopyObsel(h, g, once, u, types);
    assert CopyAll(h, g, choice, once, [u]) == CopyAll(h, g, choice, AddGraph(once, og2), [u][1..])
           == AddGraph(once, og2);
    forall r | r in og1.rels ensures r.s != r.o {
      var r0 :| r0 in g.rels && TRel(h, r0) == r
                && ((r0.s == u && Present(h, EMPTY, r0.o)) || (r0.o == u && Present(h, EMPTY, r0.s)));
    }
    if r :| r in g.rels && r.s == u && r.o == u {
      assert Present(h, once, u);
      assert TRel(h, r) in og2.rels && TRel(h, r) !in once.rels;
    } else {
      forall v: Uri | v.trace == h.src && v != u ensures !Present(h, once, v) {
        forall r1 | r1 in once.rels ensures !Touches(r1, TNode(h, v)) {
          var r2 :| r2 in g.rels && TRel(h, r2) == r1
              && ((r2.s == u && Present(h, EMPTY, r2.o)) || (r2.o == u && Present(h, EMPTY, r2.s)));
        }
      }
      forall r | r in og2.rels ensures r in og1.rels {
        var r0 :| r0 in g.rels && TRel(h, r0) == r
            && ((r0.s == u && Present(h, once, r0.o)) || (r0.o == u && Present(h, once, r0.s)));
      }
      assert AddGraph(once, og2) == once;
    }
  }
}
