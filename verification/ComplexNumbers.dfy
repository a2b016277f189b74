/**
 Complex numbers in exact arithmetic. Only the ring laws below look inside the operations; every
 other proof hides them and works from the laws alone.
 */
module ComplexNumbers {

  datatype Complex = Complex(re: real, im: real)

  const ZERO := Complex(0.0, 0.0)
  const ONE := Complex(1.0, 0.0)
  const MINUS_ONE := Complex(-1.0, 0.0)

  function Add(a: Complex, b: Complex): Complex {
    Complex(a.re + b.re, a.im + b.im)
  }

  function Sub(a: Complex, b: Complex): Complex {
    Complex(a.re - b.re, a.im - b.im)
  }

  function Neg(a: Complex): Complex {
    Complex(-a.re, -a.im)
  }

  function Mul(a: Complex, b: Complex): Complex {
    Complex(a.re * b.re - a.im * b.im, a.re * b.im + a.im * b.re)
  }

  function Pow(w: Complex, e: nat): Complex {
    if e == 0 then ONE else Mul(w, Pow(w, e - 1))
  }

  lemma MulAssociates(a: Complex, b: Complex, c: Complex)
    ensures Mul(a, Mul(b, c)) == Mul(Mul(a, b), c)
  {
  }

  lemma MulLaws(a: Complex, b: Complex, c: Complex)
    ensures Mul(a, Mul(b, c)) == Mul(Mul(a, b), c)
    ensures Mul(a, b) == Mul(b, a)
    ensures Mul(a, Add(b, c)) == Add(Mul(a, b), Mul(a, c))
  {
    MulAssociates(a, b, c);
  }

  /** The double-angle law, which tells this product from others with the same ring laws. */
  lemma SquareLaw(c: real, s: real)
    ensures Mul(Complex(c, s), Complex(c, s)) == Complex(c * c - s * s, 2.0 * c * s)
    ensures Mul(Complex(0.0, 1.0), Complex(0.0, 1.0)) == MINUS_ONE
  {
  }

  lemma UnitLaws(a: Complex)
    ensures Mul(a, ONE) == Mul(ONE, a) == a
    ensures Mul(a, ZERO) == ZERO
    ensures Add(ZERO, a) == a
    ensures Mul(MINUS_ONE, a) == Neg(a)
    ensures Mul(Neg(a), Neg(a)) == Mul(a, a)
  {
  }

  lemma {:induction false} PowAdds(w: Complex, a: nat, b: nat)
    ensures Pow(w, a + b) == Mul(Pow(w, a), Pow(w, b))
  {
    hide Mul;
    if a == 0 {
      UnitLaws(Pow(w, b));
    } else {
      PowAdds(w, a - 1, b);
      MulLaws(w, Pow(w, a - 1), Pow(w, b));
    }
  }

  lemma {:induction false} PowOfSquare(w: Complex, e: nat)
    ensures Pow(Mul(w, w), e) == Mul(Pow(w, e), Pow(w, e))
  {
    hide Mul;
    if e == 0 {
      UnitLaws(ONE);
    } else {
      var p := Pow(w, e - 1);
      PowOfSquare(w, e - 1);
      MulLaws(Mul(w, w), p, p);
      MulLaws(w, w, p);
      MulLaws(w, p, w);
      MulLaws(Mul(w, p), w, p);
    }
  }

  lemma {:induction false} PowOfPow(w: Complex, k: nat, t: nat)
    ensures Pow(Pow(w, k), t) == Pow(w, t * k)
  {
    hide Mul;
    if t == 0 {
    } else {
      PowOfPow(w, k, t - 1);
      assert t * k == k + (t - 1) * k;
      PowAdds(w, k, (t - 1) * k);
    }
  }
}
