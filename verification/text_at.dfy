/** Where a piece of text sits inside a larger one. The round trip reasons about a
    printed tree embedded in the text being parsed through these facts. */
module TextAt {
  import opened CharClasses

  /** The `n`-th character of `t`. Text positions are stated through it so that
      they come into play only where a proof names them. */
  function Char(t: string, n: int): char
    requires 0 <= n < |t|
  {
    t[n]
  }

  /** `t` occurs in `src` at `i`. */
  predicate At(src: string, i: nat, t: string) {
    i + |t| <= |src| && forall n {:trigger Char(t, n)} | 0 <= n < |t| :: src[i + n] == Char(t, n)
  }

  lemma AtSplit(src: string, i: nat, a: string, b: string)
    requires At(src, i, a + b)
    ensures At(src, i, a) && At(src, i + |a|, b)
  {
    forall n | 0 <= n < |a|
      ensures src[i + n] == Char(a, n)
    {
      assert Char(a + b, n) == a[n];
    }
    forall n | 0 <= n < |b|
      ensures src[i + |a| + n] == Char(b, n)
    {
      assert Char(a + b, |a| + n) == b[n];
    }
  }

  lemma AtJoin(src: string, i: nat, a: string, b: string)
    requires At(src, i, a) && At(src, i + |a|, b)
    ensures At(src, i, a + b)
  {
    forall n | 0 <= n < |a + b|
      ensures src[i + n] == Char(a + b, n)
    {
      if n < |a| {
        assert src[i + n] == Char(a, n);
      } else {
        assert src[i + |a| + (n - |a|)] == Char(b, n - |a|);
      }
    }
  }

  lemma AtIndex(src: string, i: nat, t: string, n: nat)
    requires At(src, i, t) && n < |t|
    ensures i + n < |src| && src[i + n] == t[n]
  {
    assert src[i + n] == Char(t, n);
  }

  lemma AtTail(src: string, i: nat, t: string)
    requires At(src, i, t) && |t| > 0
    ensures src[i] == t[0] && At(src, i + 1, t[1..])
  {
    AtIndex(src, i, t, 0);
    forall n | 0 <= n < |t| - 1
      ensures src[i + 1 + n] == Char(t[1..], n)
    {
      assert src[i + (n + 1)] == Char(t, n + 1);
    }
  }

  lemma AtSlice(src: string, i: nat, t: string)
    requires At(src, i, t)
    ensures i + |t| <= |src| && src[i..i + |t|] == t
  {
    forall n | 0 <= n < |t|
      ensures src[i..i + |t|][n] == t[n]
    {
      AtIndex(src, i, t, n);
    }
  }

  lemma AtWhole(src: string)
    ensures At(src, 0, src)
  {
    forall n | 0 <= n < |src|
      ensures src[0 + n] == Char(src, n)
    {
    }
  }

  predicate AllSpace(w: string) {
    forall k | 0 <= k < |w| :: IsSpace(w[k])
  }

  lemma AllSpaceConcat(a: string, b: string)
    requires AllSpace(a) && AllSpace(b)
    ensures AllSpace(a + b)
  {
  }

  /** White space at `i` is skipped the same way from its start as from its end. */
  lemma {:induction false} SkipSpaces(src: string, i: nat, w: string)
    requires At(src, i, w) && AllSpace(w)
    ensures SpaceRunEnd(src, i) == SpaceRunEnd(src, i + |w|)
    decreases |w|
  {
    if |w| > 0 {
      AtTail(src, i, w);
      SkipSpaces(src, i + 1, w[1..]);
    }
  }

  /** At a non-space character, nothing is skipped. */
  lemma NoSpaceAt(src: string, i: nat)
    requires i < |src| && !IsSpace(src[i])
    ensures SpaceRunEnd(src, i) == i
  {
  }
}
