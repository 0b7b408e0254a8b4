/** Arithmetic in GF(2^8) as used by AES (FIPS 197, section 4.2).

    A field element is a polynomial over GF(2) of degree below 8; `Poly` holds
    its eight coefficients, and a byte stands for the polynomial whose
    coefficient of x^i is bit i. Products are reduced modulo the irreducible
    polynomial m(x) = x^8 + x^4 + x^3 + x + 1.

    `GMul` is the product on bytes as the standard defines it: the XOR, over
    the bits i of `b` that are set, of `a` multiplied by x i times. The method
    `GMult` is the shift-and-add loop of the C helper `gmult`, proved to
    compute `GMul`. The identities of the field are proved on `Poly`, where
    addition and multiplication are plain functions of the coefficients, and
    carried over to bytes by `GMulIsMul`. */
module GF256 {

  /** A polynomial over GF(2) of degree below 8: `ci` is the coefficient of x^i. */
  datatype Poly = Poly(c0: bool, c1: bool, c2: bool, c3: bool,
                       c4: bool, c5: bool, c6: bool, c7: bool)

  const Zero: Poly := Poly(false, false, false, false, false, false, false, false)
  const One: Poly := Poly(true, false, false, false, false, false, false, false)

  /** The coefficient of x^i. */
  function Coeff(p: Poly, i: nat): bool
    requires i < 8
  {
    if i == 0 then p.c0 else if i == 1 then p.c1 else if i == 2 then p.c2
    else if i == 3 then p.c3 else if i == 4 then p.c4 else if i == 5 then p.c5
    else if i == 6 then p.c6 else p.c7
  }

  /** Addition in GF(2^8): coefficient-wise addition modulo 2 (XOR). */
  function Add(p: Poly, q: Poly): Poly
  {
    Poly(p.c0 != q.c0, p.c1 != q.c1, p.c2 != q.c2, p.c3 != q.c3,
         p.c4 != q.c4, p.c5 != q.c5, p.c6 != q.c6, p.c7 != q.c7)
  }

  /** x * p modulo m(x): every coefficient moves up one place, and the x^8
      term that c7 would produce is replaced by x^4 + x^3 + x + 1. */
  function XTime(p: Poly): Poly
  {
    Poly(p.c7, p.c0 != p.c7, p.c1, p.c2 != p.c7, p.c3 != p.c7, p.c4, p.c5, p.c6)
  }

  /** p * x^i modulo m(x). */
  function XTimes(p: Poly, i: nat): Poly
  {
    if i == 0 then p else XTime(XTimes(p, i - 1))
  }

  /** The term a * b_i * x^i of the product. */
  function Term(a: Poly, b: Poly, i: nat): Poly
    requires i < 8
  {
    if Coeff(b, i) then XTimes(a, i) else Zero
  }

  /** The sum of a * x^i over the coefficients b_i = 1 with i < n. */
  function Partial(a: Poly, b: Poly, n: nat): Poly
    requires n <= 8
  {
    if n == 0 then Zero else Add(Partial(a, b, n - 1), Term(a, b, n - 1))
  }

  /** The product of `a` and `b` in GF(2^8). */
  function Mul(a: Poly, b: Poly): Poly
  {
    Partial(a, b, 8)
  }

  // ---------------------------------------------------------------------
  // Bytes as polynomials

  /** The polynomial whose coefficient of x^i is bit i of `a`. */
  function ToPoly(a: bv8): Poly
  {
    Poly(a & 0x01 == 0x01, a & 0x02 == 0x02, a & 0x04 == 0x04, a & 0x08 == 0x08,
         a & 0x10 == 0x10, a & 0x20 == 0x20, a & 0x40 == 0x40, a & 0x80 == 0x80)
  }

  /** A byte is determined by its polynomial. */
  lemma ToPolyInjective(a: bv8, c: bv8)
    requires ToPoly(a) == ToPoly(c)
    ensures a == c
  {
  }

  /** XOR of bytes is addition of polynomials. */
  lemma ToPolyXor(a: bv8, c: bv8)
    ensures ToPoly(a ^ c) == Add(ToPoly(a), ToPoly(c))
  {
  }

  /** The byte update of `a` in one round of `gmult`: shift left one place
      and, when the high bit falls off, XOR with 0x1b. This is `xtime` of
      FIPS 197 section 4.2.1. */
  function XTimeByte(a: bv8): bv8
  {
    if a & 0x80 != 0 then (a << 1) ^ 0x1b else a << 1
  }

  /** `xtime` applied i times: a * x^i. */
  function XTimesByte(a: bv8, i: nat): bv8
  {
    if i == 0 then a else XTimeByte(XTimesByte(a, i - 1))
  }

  /** Bit i of `b`. */
  function Bit(b: bv8, i: nat): bool
    requires i < 8
  {
    (b >> i) & 1 == 1
  }

  /** a * x^i when bit i of `b` is set, else 0. */
  function ByteTerm(a: bv8, b: bv8, i: nat): bv8
    requires i < 8
  {
    if Bit(b, i) then XTimesByte(a, i) else 0
  }

  /** The XOR of a * x^i over the bits i < n of `b` that are set. */
  function MulUpTo(a: bv8, b: bv8, n: nat): bv8
    requires n <= 8
  {
    if n == 0 then 0 else MulUpTo(a, b, n - 1) ^ ByteTerm(a, b, n - 1)
  }

  /** The product of two bytes in GF(2^8), the value `gmult` returns. */
  function GMul(a: bv8, b: bv8): bv8
  {
    MulUpTo(a, b, 8)
  }

  /** The loop of `gmult`: before round i, `a` holds a0 * x^i, `b` holds b0
      shifted right i places, and `p` holds the XOR of a0 * x^j over the
      bits j < i of b0 that are set. */
  method GMult(a0: bv8, b0: bv8) returns (p: bv8)
    ensures p == GMul(a0, b0)
  {
    var a, b := a0, b0;
    p := 0;
    for i := 0 to 8
      invariant a == XTimesByte(a0, i)
      invariant b == b0 >> i
      invariant p == MulUpTo(a0, b0, i)
    {
      ShiftShift(b0, i);
      assert ByteTerm(a0, b0, i) == if b & 1 == 1 then a else 0;
      p, a, b := Round(p, a, b);
    }
  }

  /** One round of the loop of `gmult`: when bit 0 of `b` is set, `a` is
      added into the product; `a` is shifted left, and reduced by XOR with
      0x1b when its high bit falls off, which is `xtime`; `b` moves one place
      to the right. */
  method Round(p0: bv8, a0: bv8, b0: bv8) returns (p: bv8, a: bv8, b: bv8)
    ensures p == p0 ^ (if b0 & 1 == 1 then a0 else 0)
    ensures a == XTimeByte(a0)
    ensures b == b0 >> 1
  {
    p := if b0 & 1 != 0 then p0 ^ a0 else p0;
    var hbs := a0 & 0x80;
    a := if hbs != 0 then (a0 << 1) ^ 0x1b else a0 << 1;
    b := b0 >> 1;
  }

  /** Shifting right i places and then one more is shifting i + 1 places. */
  lemma ShiftShift(b: bv8, i: nat)
    requires i < 8
    ensures (b >> i) >> 1 == b >> (i + 1)
  {
  }

  /** The shift and conditional XOR with 0x1b of one round is `xtime` of
      FIPS 197 section 4.2.1, multiplication by x modulo m(x). */
  lemma ShiftXTime(a: bv8)
    ensures ToPoly(XTimeByte(a)) == XTime(ToPoly(a))
  {
  }

  // ---------------------------------------------------------------------
  // Identities of the reference product

  lemma XTimeLinear(p: Poly, q: Poly)
    ensures XTime(Add(p, q)) == Add(XTime(p), XTime(q))
  {
  }

  lemma {:induction false} XTimesLinear(p: Poly, q: Poly, i: nat)
    ensures XTimes(Add(p, q), i) == Add(XTimes(p, i), XTimes(q, i))
  {
    if i > 0 {
      XTimesLinear(p, q, i - 1);
      XTimeLinear(XTimes(p, i - 1), XTimes(q, i - 1));
    }
  }

  lemma {:induction false} XTimesZero(i: nat)
    ensures XTimes(Zero, i) == Zero
  {
    if i > 0 {
      XTimesZero(i - 1);
    }
  }

  /** Multiplying by x first or last gives the same p * x^(i+1). */
  lemma {:induction false} XTimesOfXTime(p: Poly, i: nat)
    ensures XTimes(XTime(p), i) == XTime(XTimes(p, i))
  {
    if i > 0 {
      XTimesOfXTime(p, i - 1);
    }
  }

  /** The polynomial x^i, for i < 8. */
  function Unit(i: nat): Poly
    requires i < 8
  {
    Poly(i == 0, i == 1, i == 2, i == 3, i == 4, i == 5, i == 6, i == 7)
  }

  /** Below x^8 no reduction happens: 1 * x^i is x^i. */
  lemma {:induction false} XTimesOne(i: nat)
    requires i < 8
    ensures XTimes(One, i) == Unit(i)
  {
    if i > 0 {
      XTimesOne(i - 1);
    }
  }

  /** The terms of `b` of degree below n. */
  function Truncate(b: Poly, n: nat): Poly
  {
    Poly(0 < n && b.c0, 1 < n && b.c1, 2 < n && b.c2, 3 < n && b.c3,
         4 < n && b.c4, 5 < n && b.c5, 6 < n && b.c6, 7 < n && b.c7)
  }

  /** Addition is associative and commutative, so four terms can be regrouped. */
  lemma AddSwap(p: Poly, q: Poly, r: Poly, t: Poly)
    ensures Add(Add(p, q), Add(r, t)) == Add(Add(p, r), Add(q, t))
  {
  }

  lemma AddZero(p: Poly)
    ensures Add(p, Zero) == p
  {
  }

  lemma TermLinear(a: Poly, c: Poly, b: Poly, i: nat)
    requires i < 8
    ensures Term(Add(a, c), b, i) == Add(Term(a, b, i), Term(c, b, i))
  {
    if Coeff(b, i) {
      XTimesLinear(a, c, i);
    } else {
      AddZero(Zero);
    }
  }

  lemma {:induction false} PartialLinearLeft(a: Poly, c: Poly, b: Poly, n: nat)
    requires n <= 8
    ensures Partial(Add(a, c), b, n) == Add(Partial(a, b, n), Partial(c, b, n))
  {
    if n > 0 {
      PartialLinearLeft(a, c, b, n - 1);
      TermLinear(a, c, b, n - 1);
      AddSwap(Partial(a, b, n - 1), Partial(c, b, n - 1), Term(a, b, n - 1), Term(c, b, n - 1));
    }
  }

  lemma {:induction false} PartialZeroLeft(b: Poly, n: nat)
    requires n <= 8
    ensures Partial(Zero, b, n) == Zero
  {
    if n > 0 {
      PartialZeroLeft(b, n - 1);
      XTimesZero(n - 1);
    }
  }

  lemma {:induction false} PartialZeroRight(a: Poly, n: nat)
    requires n <= 8
    ensures Partial(a, Zero, n) == Zero
  {
    if n > 0 {
      PartialZeroRight(a, n - 1);
    }
  }

  lemma {:induction false} PartialXTimeLeft(c: Poly, a: Poly, n: nat)
    requires n <= 8
    ensures Partial(XTime(c), a, n) == XTime(Partial(c, a, n))
  {
    if n > 0 {
      PartialXTimeLeft(c, a, n - 1);
      XTimesOfXTime(c, n - 1);
      XTimeLinear(Partial(c, a, n - 1), Term(c, a, n - 1));
    }
  }

  /** Adding the term of degree n to the terms of degree below n gives the
      terms of degree below n + 1. */
  lemma TruncateStep(b: Poly, n: nat)
    requires n < 8
    ensures Truncate(b, n + 1) == Add(Truncate(b, n), if Coeff(b, n) then Unit(n) else Zero)
  {
  }

  /** Summing x^i over the coefficients b_i = 1 with i < n gives back the
      terms of `b` of degree below n. */
  lemma {:induction false} PartialOneLeft(b: Poly, n: nat)
    requires n <= 8
    ensures Partial(One, b, n) == Truncate(b, n)
  {
    if n > 0 {
      PartialOneLeft(b, n - 1);
      XTimesOne(n - 1);
      TruncateStep(b, n - 1);
    }
  }

  /** Multiplication distributes over addition in its first argument. */
  lemma MulLinearLeft(a: Poly, c: Poly, b: Poly)
    ensures Mul(Add(a, c), b) == Add(Mul(a, b), Mul(c, b))
  {
    PartialLinearLeft(a, c, b, 8);
  }

  lemma MulZeroLeft(b: Poly)
    ensures Mul(Zero, b) == Zero
  {
    PartialZeroLeft(b, 8);
  }

  lemma MulZeroRight(a: Poly)
    ensures Mul(a, Zero) == Zero
  {
    PartialZeroRight(a, 8);
  }

  lemma MulOneLeft(b: Poly)
    ensures Mul(One, b) == b
  {
    PartialOneLeft(b, 8);
  }

  /** Multiplying the left factor by x^i multiplies the product by x^i. */
  lemma {:induction false} MulXTimesLeft(c: Poly, a: Poly, i: nat)
    ensures Mul(XTimes(c, i), a) == XTimes(Mul(c, a), i)
  {
    if i > 0 {
      MulXTimesLeft(c, a, i - 1);
      PartialXTimeLeft(XTimes(c, i - 1), a, 8);
    }
  }

  /** x^i * a is a * x^i. */
  lemma MulUnitLeft(i: nat, a: Poly)
    requires i < 8
    ensures Mul(XTimes(One, i), a) == XTimes(a, i)
  {
    MulXTimesLeft(One, a, i);
    MulOneLeft(a);
  }

  /** Multiplying the low n terms of `b`, on the left, by `a` gives the sum of
      a * x^i over those terms. */
  lemma {:induction false} MulOfPartial(b: Poly, a: Poly, n: nat)
    requires n <= 8
    ensures Mul(Partial(One, b, n), a) == Partial(a, b, n)
  {
    if n == 0 {
      MulZeroLeft(a);
    } else {
      MulOfPartial(b, a, n - 1);
      MulLinearLeft(Partial(One, b, n - 1), Term(One, b, n - 1), a);
      if Coeff(b, n - 1) {
        MulUnitLeft(n - 1, a);
      } else {
        MulZeroLeft(a);
      }
    }
  }

  /** The product is commutative. */
  lemma MulCommutes(a: Poly, b: Poly)
    ensures Mul(a, b) == Mul(b, a)
  {
    MulOfPartial(b, a, 8);
    MulOneLeft(b);
  }

  // ---------------------------------------------------------------------
  // From bytes to polynomials

  /** Bit i of a byte is the coefficient of x^i of its polynomial. */
  lemma BitIsCoeff(b: bv8, i: nat)
    requires i < 8
    ensures Bit(b, i) == Coeff(ToPoly(b), i)
  {
    if i == 0 {
    } else if i == 1 {
    } else if i == 2 {
    } else if i == 3 {
    } else if i == 4 {
    } else if i == 5 {
    } else if i == 6 {
    } else {
    }
  }

  /** `xtime` applied i times to a byte is multiplication by x^i. */
  lemma {:induction false} XTimesByteIsXTimes(a: bv8, i: nat)
    ensures ToPoly(XTimesByte(a, i)) == XTimes(ToPoly(a), i)
  {
    if i > 0 {
      XTimesByteIsXTimes(a, i - 1);
      ShiftXTime(XTimesByte(a, i - 1));
    }
  }

  /** The term for bit i in `MulUpTo` is the term a * b_i * x^i of the product. */
  lemma TermIsTerm(a: bv8, b: bv8, i: nat)
    requires i < 8
    ensures ToPoly(ByteTerm(a, b, i)) == Term(ToPoly(a), ToPoly(b), i)
  {
    BitIsCoeff(b, i);
    XTimesByteIsXTimes(a, i);
    assert ToPoly(0) == Zero;
  }

  /** The partial sums on bytes are the partial sums on polynomials. */
  lemma {:induction false} MulUpToIsPartial(a: bv8, b: bv8, n: nat)
    requires n <= 8
    ensures ToPoly(MulUpTo(a, b, n)) == Partial(ToPoly(a), ToPoly(b), n)
  {
    if n == 0 {
      assert ToPoly(0) == Zero;
    } else {
      MulUpToIsPartial(a, b, n - 1);
      MulUpToStep(a, b, n);
      var pa, pb := ToPoly(a), ToPoly(b);
      assert Partial(pa, pb, n) == Add(Partial(pa, pb, n - 1), Term(pa, pb, n - 1));
    }
  }

  /** One step of `MulUpTo` is one step of `Partial`. */
  lemma MulUpToStep(a: bv8, b: bv8, n: nat)
    requires 0 < n <= 8
    ensures ToPoly(MulUpTo(a, b, n)) == Add(ToPoly(MulUpTo(a, b, n - 1)), Term(ToPoly(a), ToPoly(b), n - 1))
  {
    TermIsTerm(a, b, n - 1);
    ToPolyXor(MulUpTo(a, b, n - 1), ByteTerm(a, b, n - 1));
  }

  /** The product of bytes is the product of their polynomials. */
  lemma GMulIsMul(a: bv8, b: bv8)
    ensures ToPoly(GMul(a, b)) == Mul(ToPoly(a), ToPoly(b))
  {
    MulUpToIsPartial(a, b, 8);
  }

  /** A product of bytes is known once it is known as polynomials. */
  lemma GMulByPoly(a: bv8, b: bv8, c: bv8)
    requires Mul(ToPoly(a), ToPoly(b)) == ToPoly(c)
    ensures GMul(a, b) == c
  {
    GMulIsMul(a, b);
    ToPolyInjective(GMul(a, b), c);
  }

  // ---------------------------------------------------------------------
  // The identities for `gmult` on bytes

  /** gmult(a, 0) == 0. */
  lemma GMulZero(a: bv8)
    ensures GMul(a, 0) == 0
  {
    assert ToPoly(0) == Zero;
    MulZeroRight(ToPoly(a));
    GMulByPoly(a, 0, 0);
  }

  /** gmult(a, 1) == a. */
  lemma GMulOne(a: bv8)
    ensures GMul(a, 1) == a
  {
    assert ToPoly(1) == One;
    MulCommutes(ToPoly(a), One);
    MulOneLeft(ToPoly(a));
    GMulByPoly(a, 1, a);
  }

  /** gmult(a, b) == gmult(b, a) for all 256 x 256 pairs. */
  lemma GMulCommutes(a: bv8, b: bv8)
    ensures GMul(a, b) == GMul(b, a)
  {
    MulCommutes(ToPoly(a), ToPoly(b));
    GMulIsMul(b, a);
    GMulByPoly(a, b, GMul(b, a));
  }

  /** Multiplication distributes over addition in its second argument. */
  lemma MulDistributes(a: Poly, b: Poly, c: Poly)
    ensures Mul(a, Add(b, c)) == Add(Mul(a, b), Mul(a, c))
  {
    MulCommutes(a, Add(b, c));
    MulLinearLeft(b, c, a);
    MulCommutes(b, a);
    MulCommutes(c, a);
  }

  /** gmult distributes over XOR: gmult(a, b ^ c) == gmult(a, b) ^ gmult(a, c). */
  lemma GMulDistributes(a: bv8, b: bv8, c: bv8)
    ensures GMul(a, b ^ c) == GMul(a, b) ^ GMul(a, c)
  {
    var x, y := GMul(a, b), GMul(a, c);
    GMulIsMul(a, b);
    GMulIsMul(a, c);
    ToPolyXor(b, c);
    ToPolyXor(x, y);
    MulDistributes(ToPoly(a), ToPoly(b), ToPoly(c));
    GMulByPoly(a, b ^ c, x ^ y);
  }

  /** The update of `a` in one round, shift left and conditional XOR with
      0x1b, is gmult(a, 0x02): multiplication by x. */
  lemma XTimeIsGMulByX(a: bv8)
    ensures XTimeByte(a) == GMul(a, 0x02)
  {
    ShiftXTime(a);
    assert ToPoly(0x02) == XTimes(One, 1);
    MulCommutes(ToPoly(a), ToPoly(0x02));
    MulUnitLeft(1, ToPoly(a));
    GMulByPoly(a, 0x02, XTimeByte(a));
  }

  /** Multiplication by {03} = {02} + {01}, as used by MixColumns. */
  lemma GMulByThree(a: bv8)
    ensures GMul(a, 0x03) == XTimeByte(a) ^ a
  {
    GMulDistributes(a, 0x02, 0x01);
    XTimeIsGMulByX(a);
    GMulOne(a);
  }

  // ---------------------------------------------------------------------
  // Worked examples

  /** {57} * {83} = {c1}, the worked example of FIPS 197 section 4.2. */
  lemma VectorMul()
    ensures GMul(0x57, 0x83) == 0xc1
  {
  }

  /** {57} * {13} = {fe}, the worked example of FIPS 197 section 4.2.1, by way
      of {57} * {02} = {ae}, {57} * {04} = {47}, {57} * {08} = {8e} and
      {57} * {10} = {07}. */
  lemma VectorXTime()
    ensures XTimesByte(0x57, 1) == 0xae
    ensures XTimesByte(0x57, 2) == 0x47
    ensures XTimesByte(0x57, 3) == 0x8e
    ensures XTimesByte(0x57, 4) == 0x07
    ensures GMul(0x57, 0x13) == 0xfe
  {
  }

  /** {53} and {ca} are multiplicative inverses. */
  lemma VectorInverse()
    ensures GMul(0x53, 0xca) == 0x01
  {
  }
}
