/**
 URIs as strings: why the other modules may represent the URI of an obsel by its trace
 and the rank of its last segment.
 */
module Uris {

  predicate StartsWith(s: string, prefix: string) {
    |prefix| <= |s| && s[..|prefix|] == prefix
  }

  /** What `rsplit("/", 1)` puts after the last slash. */
  function LastSegment(s: string): (r: string)
    ensures '/' !in r && |r| <= |s| && s[|s| - |r|..] == r
  {
    if s == [] || s[|s| - 1] == '/' then []
    else LastSegment(s[..|s| - 1]) + [s[|s| - 1]]
  }

  lemma LastSegmentMore(s: string, c: char)
    requires c != '/'
    ensures LastSegment(s + [c]) == LastSegment(s) + [c]
  {
    assert (s + [c])[..|s|] == s;
  }

  /** translate_node, for a single source. */
  function Translate(node: string, src: string, tgt: string): string {
    if StartsWith(node, src) then tgt + LastSegment(node) else node
  }

  /** The URI of a trace ends with a slash. */
  predicate IsTraceUri(s: string) {
    s != [] && s[|s| - 1] == '/'
  }

  lemma {:induction false} LastSegmentOf(base: string, id: string)
    requires IsTraceUri(base) && '/' !in id
    ensures LastSegment(base + id) == id
    decreases |id|
  {
    if id == [] {
      assert base + id == base;
    } else {
      var shorter, c := id[..|id| - 1], id[|id| - 1];
      assert id == shorter + [c];
      assert base + id == (base + shorter) + [c];
      LastSegmentOf(base, shorter);
      LastSegmentMore(base + shorter, c);
    }
  }

  /** A node below the source trace keeps what follows the trace's URI exactly when it is
      directly below it, as obsels are. */
  lemma TranslateExact(src: string, tgt: string, x: string)
    requires IsTraceUri(src)
    ensures Translate(src + x, src, tgt) == tgt + x <==> '/' !in x
  {
    var r := LastSegment(src + x);
    assert (tgt + x)[|tgt|..] == x && (tgt + r)[|tgt|..] == r;
    if '/' !in x {
      LastSegmentOf(src, x);
    }
  }

  /** Translation leaves alone what is not below the source trace; below it, only what
      follows the last slash counts. */
  lemma TranslateOther(src: string, tgt: string, node: string, a: string, b: string)
    requires IsTraceUri(src) && '/' !in b
    ensures !(src <= node) ==> Translate(node, src, tgt) == node
    ensures Translate(src + a + "/" + b, src, tgt) == tgt + b
  {
    assert src <= node <==> StartsWith(node, src);
    var deep := src + a + "/";
    assert deep[|deep| - 1] == '/';
    LastSegmentOf(deep, b);
    assert (deep + b)[..|src|] == src;
  }

  /** Translation is injective on obsels. */
  lemma TranslateInjective(src: string, tgt: string, a: string, b: string)
    requires IsTraceUri(src) && '/' !in a && '/' !in b
    ensures Translate(src + a, src, tgt) == Translate(src + b, src, tgt) <==> a == b
  {
    TranslateExact(src, tgt, a);
    TranslateExact(src, tgt, b);
    assert (tgt + a)[|tgt|..] == a && (tgt + b)[|tgt|..] == b;
  }

  /** Strings are compared by their first difference. */
  predicate Before(a: string, b: string) {
    if b == [] then false
    else if a == [] then true
    else a[0] < b[0] || (a[0] == b[0] && Before(a[1..], b[1..]))
  }

  /** That is: up to some place they are the same, and there the first one ends, or has the
      smaller character. */
  lemma {:induction false} BeforeExactly(a: string, b: string)
    ensures Before(a, b) <==>
              exists n: nat :: n <= |a| && n < |b| && a[..n] == b[..n] && (n < |a| ==> a[n] < b[n])
    decreases |a|
  {
    if a != [] && b != [] && a[0] == b[0] {
      BeforeExactly(a[1..], b[1..]);
      if n: nat :| n <= |a| && n < |b| && a[..n] == b[..n] && (n < |a| ==> a[n] < b[n]) {
        assert n > 0;
        assert a[1..][..n - 1] == a[..n][1..] && b[1..][..n - 1] == b[..n][1..];
      }
      if m: nat :| m < |a| && m < |b| - 1 && a[1..][..m] == b[1..][..m] && (m < |a| - 1 ==> a[1..][m] < b[1..][m]) {
        assert a[..m + 1] == [a[0]] + a[1..][..m] && b[..m + 1] == [b[0]] + b[1..][..m];
      }
    } else if a != [] && b != [] {
      SameStart(a, b);
      assert a[..0] == b[..0];
    } else if b != [] {
      assert a[..0] == b[..0];
    }
  }

  lemma SameStart(a: string, b: string)
    requires a != [] && b != []
    ensures forall n: nat :: 0 < n <= |a| && n <= |b| && a[..n] == b[..n] ==> a[0] == b[0]
  {
    forall n: nat | 0 < n <= |a| && n <= |b| && a[..n] == b[..n] ensures a[0] == b[0] {
      assert a[..n][0] == b[..n][0];
    }
  }

  lemma {:induction false} BeforePrefixed(p: string, a: string, b: string)
    ensures Before(p + a, p + b) <==> Before(a, b)
    decreases |p|
  {
    if p == [] {
      assert p + a == a && p + b == b;
    } else {
      assert (p + a)[1..] == p[1..] + a && (p + b)[1..] == p[1..] + b;
      BeforePrefixed(p[1..], a, b);
    }
  }

  /** The obsels of a trace are ordered as their last segments, and so are their copies
      in any other trace. */
  lemma TranslateKeepsOrder(src: string, tgt: string, a: string, b: string)
    requires IsTraceUri(src) && '/' !in a && '/' !in b
    ensures Before(src + a, src + b) <==> Before(a, b)
    ensures Before(Translate(src + a, src, tgt), Translate(src + b, src, tgt)) <==> Before(src + a, src + b)
  {
    TranslateExact(src, tgt, a);
    TranslateExact(src, tgt, b);
    BeforePrefixed(src, a, b);
    BeforePrefixed(tgt, a, b);
  }

  /** The order is total and strict, so segments can be represented by their ranks. */
  lemma {:induction false} BeforeIsTotal(a: string, b: string)
    ensures (Before(a, b) && a != b && !Before(b, a)) || (Before(b, a) && a != b && !Before(a, b))
            || (a == b && !Before(a, b))
    decreases |a|
  {
    if a != [] && b != [] && a[0] == b[0] {
      BeforeIsTotal(a[1..], b[1..]);
      assert a == [a[0]] + a[1..] && b == [b[0]] + b[1..];
    }
  }

  lemma {:induction false} BeforeIsTransitive(a: string, b: string, c: string)
    requires Before(a, b) && Before(b, c)
    ensures Before(a, c)
    decreases |a|
  {
    if a != [] && a[0] == b[0] && b[0] == c[0] {
      BeforeIsTransitive(a[1..], b[1..], c[1..]);
    }
  }
}
