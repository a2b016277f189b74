/** The host's in-place radix-2 transform, loop for loop, against the transform of module Fourier. */
module Fft {
  import opened ComplexNumbers
  import opened Fourier
  import BitReversal

  ghost function Zip(re: seq<real>, im: seq<real>): (z: seq<Complex>)
    requires |re| == |im|
    ensures |z| == |re|
    ensures forall k :: 0 <= k < |z| ==> z[k] == Complex(re[k], im[k])
  {
    seq(|re|, k requires 0 <= k < |re| => Complex(re[k], im[k]))
  }

  /** `i` is one of 0, len, 2*len, ... */
  ghost predicate Aligned(i: nat, len: nat) {
    i == 0 || (0 < len <= i && Aligned(i - len, len))
  }

  lemma {:induction false} AlignedFits(i: nat, n: nat, len: nat)
    requires Aligned(i, len) && Aligned(n, len) && i < n
    ensures i + len <= n && Aligned(i + len, len)
    decreases i
  {
    if i == 0 {
    } else {
      AlignedFits(i - len, n - len, len);
    }
  }

  lemma {:induction false} AlignedHalves(i: nat, h: nat)
    requires 0 < h && Aligned(i, 2 * h)
    ensures Aligned(i, h) && Aligned(i + h, h)
  {
    if i == 0 {
    } else {
      AlignedHalves(i - 2 * h, h);
      assert Aligned(i - h, h);
    }
  }

  lemma {:induction false} AlignedAdds(i: nat, j: nat, len: nat)
    requires Aligned(i, len) && Aligned(j, len)
    ensures Aligned(i + j, len)
  {
    if i == 0 {
    } else {
      AlignedAdds(i - len, j, len);
    }
  }

  lemma {:induction false} PowersAlign(n: nat, len: nat)
    requires IsPowerOfTwo(n) && IsPowerOfTwo(len) && len <= n
    ensures Aligned(n, len)
    ensures len < n ==> 2 * len <= n
    decreases n
  {
    if len < n {
      assert len <= n / 2 by {
        if len > 1 { PowersAlign(n / 2, len / 2); }
      }
      PowersAlign(n / 2, len);
      AlignedAdds(n / 2, n / 2, len);
    } else {
      assert Aligned(0, len);
    }
  }

  /** Slot k of a half-finished butterfly pass over the block at `i`. */
  ghost predicate Combined(z: seq<Complex>, was: seq<Complex>, i: nat, h: nat, w: Complex, k: nat)
    requires i + 2 * h <= |z| == |was| && k < h
  {
    && z[i + k] == Add(was[i + k], Mul(was[i + h + k], Pow(w, k)))
    && z[i + h + k] == Sub(was[i + k], Mul(was[i + h + k], Pow(w, k)))
  }

  /** The innermost statements: one butterfly on slots a and b with twiddle (cr, ci). */
  method Cross(re: array<real>, im: array<real>, a: nat, b: nat, cr: real, ci: real)
    requires re.Length == im.Length && a < re.Length && b < re.Length && a != b && re != im
    modifies re, im
    ensures Zip(re[..], im[..]) == old(
      var z := Zip(re[..], im[..]);
      var x := Mul(z[b], Complex(cr, ci));
      z[a := Add(z[a], x)][b := Sub(z[a], x)])
  {
    ghost var z := Zip(re[..], im[..]);
    var xr := re[b] * cr - im[b] * ci;
    var xi := re[b] * ci + im[b] * cr;
    assert Complex(xr, xi) == Mul(z[b], Complex(cr, ci));
    hide Mul;
    re[b] := re[a] - xr;
    im[b] := im[a] - xi;
    re[a] := re[a] + xr;
    im[a] := im[a] + xi;
    var x := Complex(xr, xi);
    assert Zip(re[..], im[..]) == z[a := Add(z[a], x)][b := Sub(z[a], x)];
  }

  /** The running twiddle, multiplied by the stage's root. */
  method Turn(cr: real, ci: real, w: Complex) returns (ncr: real, nci: real)
    ensures Complex(ncr, nci) == Mul(Complex(cr, ci), w)
  {
    ncr := cr * w.re - ci * w.im;
    nci := cr * w.im + ci * w.re;
  }

  /** The block at `i` with the butterflies of slots below `k` done and nothing else touched. */
  ghost predicate CombinedBelow(z: seq<Complex>, was: seq<Complex>, i: nat, h: nat, w: Complex, k: nat)
    requires i + 2 * h <= |z| == |was| && k <= h
  {
    && (forall p :: 0 <= p < k ==> Combined(z, was, i, h, w, p))
    && (forall p :: 0 <= p < |was| && !(i <= p < i + k) && !(i + h <= p < i + h + k) ==> z[p] == was[p])
  }

  lemma CombineStep(z: seq<Complex>, was: seq<Complex>, i: nat, h: nat, w: Complex, k: nat, x: Complex)
    requires i + 2 * h <= |z| == |was| && k < h && CombinedBelow(z, was, i, h, w, k)
    requires x == Mul(was[i + h + k], Pow(w, k))
    ensures z[i + k] == was[i + k] && z[i + h + k] == was[i + h + k]
    ensures CombinedBelow(z[i + k := Add(z[i + k], x)][i + h + k := Sub(z[i + k], x)], was, i, h, w, k + 1)
  {
    hide Mul, Add, Sub, Pow;
    var z' := z[i + k := Add(z[i + k], x)][i + h + k := Sub(z[i + k], x)];
    forall p | 0 <= p < k + 1
      ensures Combined(z', was, i, h, w, p)
    {
      if p < k {
        assert Combined(z, was, i, h, w, p);
      }
    }
  }

  /** The `k` loop: one block of size `len` starting at `i`. */
  method Block(re: array<real>, im: array<real>, i: nat, len: nat, w: Complex)
    requires re.Length == im.Length && re != im && i + len <= re.Length && len % 2 == 0
    modifies re, im
    ensures var z := old(Zip(re[..], im[..])); var z' := Zip(re[..], im[..]);
      z'[..i] == z[..i] && z'[i + len..] == z[i + len..] && z'[i..i + len] == Combine(z[i..i + len], w)
  {
    hide Combine, CombinedBelow, Mul, Add, Sub;
    ghost var was := Zip(re[..], im[..]);
    var h := len / 2;
    var cr, ci := 1.0, 0.0;
    var k := 0;
    CombineNone(was, i, h, w);
    while k < h
      invariant 0 <= k <= h && Complex(cr, ci) == Pow(w, k)
      invariant CombinedBelow(Zip(re[..], im[..]), was, i, h, w, k)
    {
      var a, b := i + k, i + k + h;
      ghost var c := Complex(cr, ci);
      CombineStep(Zip(re[..], im[..]), was, i, h, w, k, Mul(was[b], c));
      Cross(re, im, a, b, cr, ci);
      cr, ci := Turn(cr, ci, w);
      MulLaws(c, w, w);
      k := k + 1;
    }
    CombineAll(Zip(re[..], im[..]), was, i, h, w);
  }

  lemma CombineNone(was: seq<Complex>, i: nat, h: nat, w: Complex)
    requires i + 2 * h <= |was|
    ensures CombinedBelow(was, was, i, h, w, 0)
  {
  }

  lemma CombineAll(z: seq<Complex>, was: seq<Complex>, i: nat, h: nat, w: Complex)
    requires i + 2 * h <= |z| == |was| && CombinedBelow(z, was, i, h, w, h)
    ensures z[..i] == was[..i] && z[i + 2 * h..] == was[i + 2 * h..]
    ensures z[i..i + 2 * h] == Combine(was[i..i + 2 * h], w)
  {
    hide Mul, Add, Sub, Combine, Pow;
    var y := was[i..i + 2 * h];
    var c := Combine(y, w);
    assert |y| / 2 == h;
    forall p | 0 <= p < 2 * h
      ensures z[i + p] == c[p]
    {
      if p < h {
        assert Combined(z, was, i, h, w, p);
        CombineAt(y, w, p);
      } else {
        assert Combined(z, was, i, h, w, p - h);
        CombineAt(y, w, p - h);
      }
    }
  }

  /** Each aligned block of size `len` of `z` is one butterfly pass over the same block of `was`. */
  ghost predicate PassBelow(z: seq<Complex>, was: seq<Complex>, len: nat, w: Complex, i: nat)
    requires |z| == |was| && len % 2 == 0
  {
    forall p: nat :: p < i && p + len <= |z| && Aligned(p, len) ==>
      z[p..p + len] == Combine(was[p..p + len], w)
  }

  /** The `i` loop: one pass over all blocks of size `len`. */
  method Pass(re: array<real>, im: array<real>, n: nat, len: nat, w: Complex)
    requires re.Length == im.Length == n && re != im && len >= 2 && len % 2 == 0 && Aligned(n, len)
    modifies re, im
    ensures PassBelow(Zip(re[..], im[..]), old(Zip(re[..], im[..])), len, w, n)
  {
    hide Combine, PassBelow;
    ghost var was := Zip(re[..], im[..]);
    var i := 0;
    PassNone(was, len, w);
    while i < n
      invariant 0 <= i <= n && Aligned(i, len)
      invariant PassBelow(Zip(re[..], im[..]), was, len, w, i)
      invariant Zip(re[..], im[..])[i..] == was[i..]
    {
      AlignedFits(i, n, len);
      ghost var z := Zip(re[..], im[..]);
      Block(re, im, i, len, w);
      assert Zip(re[..], im[..])[i + len..] == z[i..][len..] == was[i + len..];
      PassExtends(Zip(re[..], im[..]), z, was, len, w, i);
      i := i + len;
    }
  }

  lemma PassNone(was: seq<Complex>, len: nat, w: Complex)
    requires len % 2 == 0
    ensures PassBelow(was, was, len, w, 0)
  {
  }

  lemma PassExtends(z': seq<Complex>, z: seq<Complex>, was: seq<Complex>, len: nat, w: Complex, i: nat)
    requires |z'| == |z| == |was| && len >= 2 && len % 2 == 0 && Aligned(i, len) && i + len <= |z|
    requires PassBelow(z, was, len, w, i)
    requires z[i..] == was[i..] && z'[..i] == z[..i]
    requires z'[i..i + len] == Combine(z[i..i + len], w)
    ensures PassBelow(z', was, len, w, i + len)
  {
    hide Combine, Aligned;
    assert z[i..i + len] == z[i..][..len] == was[i..i + len];
    forall p: nat | p < i + len && p + len <= |z| && Aligned(p, len)
      ensures z'[p..p + len] == Combine(was[p..p + len], w)
    {
      if p < i {
        AlignedFits(p, i, len);
        SlicesAgree(z', z, i, p, p + len);
      } else if p > i {
        AlignedFits(i, p, len);
      }
    }
  }

  lemma SlicesAgree<T>(a: seq<T>, b: seq<T>, i: nat, lo: nat, hi: nat)
    requires lo <= hi <= i <= |a| && i <= |b| && a[..i] == b[..i]
    ensures a[lo..hi] == b[lo..hi]
  {
    assert a[lo..hi] == a[..i][lo..hi] == b[lo..hi];
  }

  /** Each aligned block of size `len` of `z` is the full butterfly transform of that block of `y`. */
  ghost predicate Transformed(z: seq<Complex>, y: seq<Complex>, len: nat, w: nat -> Complex)
    requires |z| == |y| && IsPowerOfTwo(len)
  {
    forall p: nat :: p + len <= |z| && Aligned(p, len) ==> z[p..p + len] == Butterfly(y[p..p + len], w)
  }

  lemma Doubled(z': seq<Complex>, z: seq<Complex>, y: seq<Complex>, h: nat, w: nat -> Complex)
    requires |z'| == |z| == |y| && IsPowerOfTwo(h) && IsPowerOfTwo(2 * h)
    requires Transformed(z, y, h, w) && PassBelow(z', z, 2 * h, w(2 * h), |z|)
    ensures Transformed(z', y, 2 * h, w)
  {
    hide Combine, Aligned, Butterfly;
    forall p: nat | p + 2 * h <= |z| && Aligned(p, 2 * h)
      ensures z'[p..p + 2 * h] == Butterfly(y[p..p + 2 * h], w)
    {
      AlignedHalves(p, h);
      assert z'[p..p + 2 * h] == Combine(z[p..p + 2 * h], w(2 * h));
      DoubledAt(z, y, p, h, w);
    }
  }

  lemma DoubledAt(z: seq<Complex>, y: seq<Complex>, p: nat, h: nat, w: nat -> Complex)
    requires |z| == |y| && IsPowerOfTwo(h) && IsPowerOfTwo(2 * h) && p + 2 * h <= |z|
    requires z[p..p + h] == Butterfly(y[p..p + h], w)
    requires z[p + h..p + h + h] == Butterfly(y[p + h..p + h + h], w)
    ensures Butterfly(y[p..p + 2 * h], w) == Combine(z[p..p + 2 * h], w(2 * h))
  {
    hide Combine, Butterfly, IsPowerOfTwo;
    var b := y[p..p + 2 * h];
    ButterflyUnfolds(b, h, w);
    assert b[..h] == y[p..p + h];
    assert b[h..] == y[p + h..p + h + h];
    assert z[p..p + 2 * h] == z[p..p + h] + z[p + h..p + h + h];
  }

  /**
   The whole transform. `w` stands for the (cosf, sinf) pair of each block size. Slot k ends up
   holding the k-th value of the discrete Fourier transform of the input.
   */
  method Transform(re: array<real>, im: array<real>, n: nat, w: nat -> Complex)
    requires IsPowerOfTwo(n) && re.Length == im.Length == n && re != im
    requires IsTwiddleFamily(w)
    modifies re, im
    ensures forall k :: 0 <= k < n ==>
      Complex(re[k], im[k]) == Dft(old(Zip(re[..], im[..])), w(n), k)
  {
    hide Combine, Butterfly, Reversed, Dft, IsTwiddleFamily, Transformed, PassBelow, Aligned;
    ghost var x := Zip(re[..], im[..]);
    ghost var re0, im0 := re[..], im[..];
    BitReversal.Permute(re, im, n);
    ghost var y := Zip(re[..], im[..]);
    ZipReversed(re0, im0);
    var len := 2;
    SinglesTransformed(y, w);
    while len <= n
      invariant len >= 2 && len % 2 == 0 && IsPowerOfTwo(len) && IsPowerOfTwo(len / 2) && len / 2 <= n
      invariant Transformed(Zip(re[..], im[..]), y, len / 2, w)
    {
      ghost var z := Zip(re[..], im[..]);
      PowersAlign(n, len);
      Pass(re, im, n, len, w(len));
      Doubled(Zip(re[..], im[..]), z, y, len / 2, w);
      len := len * 2;
    }
    PowersAlign(n, len / 2);
    TransformedIsDft(Zip(re[..], im[..]), x, w);
  }

  lemma TransformedIsDft(z: seq<Complex>, x: seq<Complex>, w: nat -> Complex)
    requires IsTwiddleFamily(w) && |z| == |x| && IsPowerOfTwo(|x|) && Transformed(z, Reversed(x), |x|, w)
    ensures forall k :: 0 <= k < |x| ==> z[k] == Dft(x, w(|x|), k)
  {
    hide Butterfly, Reversed, Dft, IsTwiddleFamily;
    var y, n := Reversed(x), |x|;
    assert Aligned(0, n);
    assert z == z[0..0 + n] && y == y[0..0 + n];
    forall k | 0 <= k < n
      ensures z[k] == Dft(x, w(n), k)
    {
      ButterflyIsDft(x, w, k);
    }
  }

  lemma SinglesTransformed(y: seq<Complex>, w: nat -> Complex)
    ensures Transformed(y, y, 1, w)
  {
  }

  lemma {:induction false} ZipReversed(re: seq<real>, im: seq<real>)
    requires |re| == |im| && IsPowerOfTwo(|re|)
    ensures Zip(Reversed(re), Reversed(im)) == Reversed(Zip(re, im))
  {
    hide Reversed;
    forall k | 0 <= k < |re|
      ensures Zip(Reversed(re), Reversed(im))[k] == Reversed(Zip(re, im))[k]
    {
      BitReversal.ReversedAt(re, k);
      BitReversal.ReversedAt(im, k);
      BitReversal.ReversedAt(Zip(re, im), k);
    }
  }
}
