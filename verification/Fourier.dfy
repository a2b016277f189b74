/**
 The discrete Fourier transform three ways: as the defining sum, as a polynomial evaluated at a
 power of the root, and as the recursive even/odd transform on a bit-reversed input. The
 in-place loops of the host are proved against the last one, in module Fft.
 */
module Fourier {
  import opened ComplexNumbers

  ghost predicate IsPowerOfTwo(n: nat) {
    n == 1 || (n >= 2 && n % 2 == 0 && IsPowerOfTwo(n / 2))
  }

  /** What the host's cosf/sinf supply: the principal root of each power-of-two order. */
  ghost predicate IsTwiddleFamily(w: nat -> Complex) {
    && w(2) == MINUS_ONE
    && forall len: nat :: len >= 4 && IsPowerOfTwo(len) ==> Mul(w(len), w(len)) == w(len / 2)
  }

  /** `twice` is the cosine and sine of twice the angle of `z`. */
  ghost predicate DoublesAngle(z: Complex, twice: Complex) {
    twice.re == z.re * z.re - z.im * z.im && twice.im == 2.0 * z.re * z.im
  }

  lemma SquareDoubles(z: Complex, twice: Complex)
    requires DoublesAngle(z, twice)
    ensures Mul(z, z) == twice
  {
    hide Mul;
    SquareLaw(z.re, z.im);
  }

  /** Cosine and sine pairs qualify: all that is used of them is the half turn and the double-angle laws. */
  lemma CosinesAndSinesQualify(w: nat -> Complex)
    requires w(2) == MINUS_ONE
    requires forall len: nat :: len >= 4 && IsPowerOfTwo(len) ==> DoublesAngle(w(len), w(len / 2))
    ensures IsTwiddleFamily(w)
  {
    hide Mul, DoublesAngle;
    forall len: nat | len >= 4 && IsPowerOfTwo(len)
      ensures Mul(w(len), w(len)) == w(len / 2)
    {
      SquareDoubles(w(len), w(len / 2));
    }
  }

  /** The first `m` terms of the sum over t of x[t] * w^(t*k). */
  ghost function DftSum(x: seq<Complex>, w: Complex, k: nat, m: nat): Complex
    requires m <= |x|
  {
    if m == 0 then ZERO else Add(DftSum(x, w, k, m - 1), Mul(x[m - 1], Pow(w, (m - 1) * k)))
  }

  ghost function Dft(x: seq<Complex>, w: Complex, k: nat): Complex {
    DftSum(x, w, k, |x|)
  }

  /** The same prefix sum as a polynomial in z. */
  ghost function Eval(x: seq<Complex>, z: Complex, m: nat): Complex
    requires m <= |x|
  {
    if m == 0 then ZERO else Add(Eval(x, z, m - 1), Mul(x[m - 1], Pow(z, m - 1)))
  }

  lemma {:induction false} DftIsEval(x: seq<Complex>, w: Complex, k: nat, m: nat)
    requires m <= |x|
    ensures DftSum(x, w, k, m) == Eval(x, Pow(w, k), m)
  {
    hide Mul, Add;
    if m == 0 {
    } else {
      DftIsEval(x, w, k, m - 1);
      PowOfPow(w, k, m - 1);
    }
  }

  ghost function Evens<T>(x: seq<T>): (e: seq<T>)
    requires |x| % 2 == 0
    ensures |e| == |x| / 2
    ensures forall i :: 0 <= i < |e| ==> e[i] == x[2 * i]
  {
    seq(|x| / 2, i requires 0 <= i < |x| / 2 => x[2 * i])
  }

  ghost function Odds<T>(x: seq<T>): (o: seq<T>)
    requires |x| % 2 == 0
    ensures |o| == |x| / 2
    ensures forall i :: 0 <= i < |o| ==> o[i] == x[2 * i + 1]
  {
    seq(|x| / 2, i requires 0 <= i < |x| / 2 => x[2 * i + 1])
  }

  /** Splitting a polynomial by the parity of the exponent. */
  lemma {:induction false} EvalSplits(x: seq<Complex>, z: Complex, m: nat)
    requires |x| % 2 == 0 && m <= |x| / 2
    ensures Eval(x, z, 2 * m) == Add(Eval(Evens(x), Mul(z, z), m), Mul(z, Eval(Odds(x), Mul(z, z), m)))
  {
    hide Mul, Add, Evens, Odds;
    var zz := Mul(z, z);
    if m == 0 {
      UnitLaws(z);
      UnitLaws(ZERO);
    } else {
      var i, j := 2 * m - 2, m - 1;
      var q := Pow(zz, j);
      EvalSplits(x, z, j);
      assert Pow(z, i) == q by {
        PowOfSquare(z, j);
        PowAdds(z, j, j);
        assert j + j == i;
      }
      assert Eval(x, z, i + 1) == Add(Eval(x, z, i), Mul(x[i], q));
      assert Eval(x, z, i + 2) == Add(Eval(x, z, i + 1), Mul(x[i + 1], Mul(z, q)));
      SplitStep(Eval(Evens(x), zz, j), Eval(Odds(x), zz, j), x[i], x[i + 1], z, q);
    }
  }

  /** One even and one odd term moved into their own sums. */
  lemma SplitStep(a: Complex, b: Complex, e: Complex, o: Complex, z: Complex, q: Complex)
    ensures Add(Add(Add(a, Mul(z, b)), Mul(e, q)), Mul(o, Mul(z, q)))
         == Add(Add(a, Mul(e, q)), Mul(z, Add(b, Mul(o, q))))
  {
    hide Mul;
    MulLaws(z, b, Mul(o, q));
    MulLaws(o, z, q);
    MulLaws(z, o, q);
  }

  lemma SubNegated(e: Complex, z: Complex, o: Complex)
    ensures Add(e, Mul(Neg(z), o)) == Sub(e, Mul(z, o))
  {
  }

  lemma EvalNegated(x: seq<Complex>, z: Complex)
    requires |x| % 2 == 0
    ensures Eval(x, Neg(z), |x|)
         == Sub(Eval(Evens(x), Mul(z, z), |x| / 2), Mul(z, Eval(Odds(x), Mul(z, z), |x| / 2)))
  {
    hide Mul, Add, Sub, Neg, Evens, Odds;
    UnitLaws(z);
    EvalSplits(x, Neg(z), |x| / 2);
    SubNegated(Eval(Evens(x), Mul(z, z), |x| / 2), z, Eval(Odds(x), Mul(z, z), |x| / 2));
  }

  /** One butterfly pass over a block whose halves are already transformed. */
  ghost function Combine(y: seq<Complex>, w: Complex): (r: seq<Complex>)
    requires |y| % 2 == 0
    ensures |r| == |y|
  {
    var h := |y| / 2;
    seq(h, k requires 0 <= k < h => Add(y[k], Mul(y[h + k], Pow(w, k)))) +
    seq(h, k requires 0 <= k < h => Sub(y[k], Mul(y[h + k], Pow(w, k))))
  }

  lemma CombineAt(y: seq<Complex>, w: Complex, k: nat)
    requires |y| % 2 == 0 && k < |y| / 2
    ensures Combine(y, w)[k] == Add(y[k], Mul(y[|y| / 2 + k], Pow(w, k)))
    ensures Combine(y, w)[|y| / 2 + k] == Sub(y[k], Mul(y[|y| / 2 + k], Pow(w, k)))
  {
    hide Add, Sub, Mul, Pow;
  }

  /** All butterfly passes on one power-of-two block. */
  ghost function Butterfly(y: seq<Complex>, w: nat -> Complex): (r: seq<Complex>)
    requires IsPowerOfTwo(|y|)
    ensures |r| == |y|
    decreases |y|
  {
    if |y| == 1 then y
    else
      var h := |y| / 2;
      Combine(Butterfly(y[..h], w) + Butterfly(y[h..], w), w(|y|))
  }

  lemma ButterflyUnfolds(y: seq<Complex>, h: nat, w: nat -> Complex)
    requires |y| == 2 * h && IsPowerOfTwo(h) && IsPowerOfTwo(2 * h)
    ensures Butterfly(y, w) == Combine(Butterfly(y[..h], w) + Butterfly(y[h..], w), w(2 * h))
  {
    hide Combine;
    assert |y| / 2 == h;
  }

  /** The bit-reversed listing of a power-of-two sequence. */
  ghost function Reversed<T>(x: seq<T>): (r: seq<T>)
    requires IsPowerOfTwo(|x|)
    ensures |r| == |x|
    decreases |x|
  {
    if |x| == 1 then x else Reversed(Evens(x)) + Reversed(Odds(x))
  }

  lemma {:induction false} HalfTurn(w: nat -> Complex, n: nat)
    requires IsTwiddleFamily(w) && IsPowerOfTwo(n) && n >= 2
    ensures Pow(w(n), n / 2) == MINUS_ONE
    decreases n
  {
    hide Mul;
    if n == 2 {
      assert Pow(w(2), 1) == Mul(w(2), Pow(w(2), 0));
      UnitLaws(w(2));
    } else {
      HalfTurn(w, n / 2);
      PowOfSquare(w(n), n / 4);
      PowAdds(w(n), n / 4, n / 4);
      assert n / 4 + n / 4 == n / 2;
    }
  }

  /** Squaring and negating the k-th power of the root of order n. */
  lemma RootLaws(w: nat -> Complex, n: nat, k: nat)
    requires IsTwiddleFamily(w) && IsPowerOfTwo(n) && n >= 2 && k < n / 2
    ensures Pow(w(n / 2), k) == Mul(Pow(w(n), k), Pow(w(n), k))
    ensures Pow(w(n), n / 2 + k) == Neg(Pow(w(n), k))
  {
    hide Mul, Neg;
    HalfTurn(w, n);
    PowAdds(w(n), n / 2, k);
    UnitLaws(Pow(w(n), k));
    if n == 2 {
      UnitLaws(ONE);
    } else {
      PowOfSquare(w(n), k);
    }
  }

  /** The last pass, spelled out for one output slot in each half. */
  lemma ButterflyStep(x: seq<Complex>, w: nat -> Complex, k: nat, e: Complex, o: Complex)
    requires IsPowerOfTwo(|x|) && |x| >= 2 && k < |x| / 2
    requires e == Butterfly(Reversed(Evens(x)), w)[k] && o == Butterfly(Reversed(Odds(x)), w)[k]
    ensures Butterfly(Reversed(x), w)[k] == Add(e, Mul(o, Pow(w(|x|), k)))
    ensures Butterfly(Reversed(x), w)[|x| / 2 + k] == Sub(e, Mul(o, Pow(w(|x|), k)))
  {
    var h := |x| / 2;
    assert 2 * h == |x| && IsPowerOfTwo(h);
    hide Mul, Add, Sub, Combine, Butterfly, Reversed, IsPowerOfTwo;
    var y := Reversed(x);
    ReversedHalves(x);
    ButterflyUnfolds(y, h, w);
    CombineAt(Butterfly(y[..h], w) + Butterfly(y[h..], w), w(|x|), k);
  }

  lemma ReversedHalves<T>(x: seq<T>)
    requires IsPowerOfTwo(|x|) && |x| >= 2
    ensures Reversed(x)[..|x| / 2] == Reversed(Evens(x)) && Reversed(x)[|x| / 2..] == Reversed(Odds(x))
  {
  }

  /** The butterflies turn the bit-reversed input into the polynomial's values at the roots. */
  lemma {:induction false} ButterflyEvaluates(x: seq<Complex>, w: nat -> Complex, k: nat)
    requires IsTwiddleFamily(w) && IsPowerOfTwo(|x|) && k < |x|
    ensures Butterfly(Reversed(x), w)[k] == Eval(x, Pow(w(|x|), k), |x|)
    decreases |x|
  {
    hide Mul, Add, Sub, Neg, Evens, Odds, Combine;
    var n, h := |x|, |x| / 2;
    if n == 1 {
      UnitLaws(x[0]);
      assert Eval(x, ONE, 1) == Add(Eval(x, ONE, 0), Mul(x[0], Pow(ONE, 0)));
    } else {
      var j := if k < h then k else k - h;
      var z := Pow(w(n), j);
      var e, o := Eval(Evens(x), Mul(z, z), h), Eval(Odds(x), Mul(z, z), h);
      RootLaws(w, n, j);
      assert Butterfly(Reversed(Evens(x)), w)[j] == e by { ButterflyEvaluates(Evens(x), w, j); }
      assert Butterfly(Reversed(Odds(x)), w)[j] == o by { ButterflyEvaluates(Odds(x), w, j); }
      ButterflyStep(x, w, j, e, o);
      MulLaws(o, z, z);
      if k < h {
        EvalSplits(x, z, h);
        assert 2 * h == n;
      } else {
        EvalNegated(x, z);
        assert k == h + j;
      }
    }
  }

  /** Main result about the specification: bit reversal followed by the butterflies is the DFT. */
  lemma ButterflyIsDft(x: seq<Complex>, w: nat -> Complex, k: nat)
    requires IsTwiddleFamily(w) && IsPowerOfTwo(|x|) && k < |x|
    ensures Butterfly(Reversed(x), w)[k] == Dft(x, w(|x|), k)
  {
    hide Butterfly, Mul;
    ButterflyEvaluates(x, w, k);
    DftIsEval(x, w(|x|), k, |x|);
  }
}
