/** Multiplication of 4-byte words as polynomials over GF(2^8) modulo
    x^4 + 1 (FIPS 197, section 4.3).

    A word [a0, a1, a2, a3] stands for a3 x^3 + a2 x^2 + a1 x + a0 with byte
    coefficients. `CoefMult` is the C helper `coef_mult`, line by line; the
    reference `Reduced` multiplies the two polynomials out and then folds the
    coefficient of x^(k+4) onto that of x^k, since x^4 = 1 modulo x^4 + 1. */
module WordMult {
  import opened GF256

  /** Four bytes, the coefficient of x^0 first. */
  type Word = w: seq<bv8> | |w| == 4 witness [0, 0, 0, 0]

  /** One line of `coef_mult`: the products of a[i0], a[i1], a[i2], a[i3]
      with b[0], b[1], b[2], b[3], added up in that order. */
  function Line(a: Word, b: Word, i0: nat, i1: nat, i2: nat, i3: nat): bv8
    requires i0 < 4 && i1 < 4 && i2 < 4 && i3 < 4
  {
    GMul(a[i0], b[0]) ^ GMul(a[i1], b[1]) ^ GMul(a[i2], b[2]) ^ GMul(a[i3], b[3])
  }

  /** The four lines of `coef_mult`, with the same indices in the same order. */
  function CoefMult(a: Word, b: Word): Word
  {
    [Line(a, b, 0, 3, 2, 1), Line(a, b, 1, 0, 3, 2), Line(a, b, 2, 1, 0, 3), Line(a, b, 3, 2, 1, 0)]
  }

  /** The product a_i * b_(m-i) when both are coefficients, else 0. */
  function ProductTerm(a: Word, b: Word, i: nat, m: nat): bv8
    requires i < 4
  {
    if i <= m && m - i < 4 then GMul(a[i], b[m - i]) else 0
  }

  /** The coefficient of x^m in the unreduced product a(x) * b(x): the sum of
      a_i * b_(m-i) over i. */
  function Product(a: Word, b: Word, m: nat): bv8
  {
    ProductTerm(a, b, 0, m) ^ ProductTerm(a, b, 1, m) ^ ProductTerm(a, b, 2, m) ^ ProductTerm(a, b, 3, m)
  }

  /** The coefficient of x^k in a(x) * b(x) mod x^4 + 1: since x^4 = 1, the
      coefficient of x^(k+4) folds onto that of x^k. */
  function Reduced(a: Word, b: Word, k: nat): bv8
    requires k < 4
  {
    Product(a, b, k) ^ Product(a, b, k + 4)
  }

  /** `coef_mult` computes the product modulo x^4 + 1, coefficient by
      coefficient (FIPS 197, equations 4.11 and 4.12). */
  lemma CoefMultIsReduced(a: Word, b: Word, k: nat)
    requires k < 4
    ensures CoefMult(a, b)[k] == Reduced(a, b, k)
  {
    if k == 0 {
      Reduced0(a, b);
    } else if k == 1 {
      Reduced1(a, b);
    } else if k == 2 {
      Reduced2(a, b);
    } else {
      Reduced3(a, b);
    }
  }

  lemma Reduced0(a: Word, b: Word)
    ensures CoefMult(a, b)[0] == Reduced(a, b, 0)
  {
  }

  lemma Reduced1(a: Word, b: Word)
    ensures CoefMult(a, b)[1] == Reduced(a, b, 1)
  {
  }

  lemma Reduced2(a: Word, b: Word)
    ensures CoefMult(a, b)[2] == Reduced(a, b, 2)
  {
  }

  lemma Reduced3(a: Word, b: Word)
    ensures CoefMult(a, b)[3] == Reduced(a, b, 3)
  {
  }

  /** Products of words commute, because products of bytes do. */
  lemma CoefMultCommutes(a: Word, b: Word)
    ensures CoefMult(a, b) == CoefMult(b, a)
  {
    LineCommutes0(a, b);
    LineCommutes1(a, b);
    LineCommutes2(a, b);
    LineCommutes3(a, b);
  }

  /** The sum of four bytes in the orders in which `coef_mult` and its
      mirror image add up the same products. */
  lemma XorReorder(t0: bv8, t1: bv8, t2: bv8, t3: bv8)
    ensures t0 ^ t1 ^ t2 ^ t3 == t0 ^ t3 ^ t2 ^ t1
    ensures t0 ^ t1 ^ t2 ^ t3 == t1 ^ t0 ^ t3 ^ t2
    ensures t0 ^ t1 ^ t2 ^ t3 == t2 ^ t1 ^ t0 ^ t3
    ensures t0 ^ t1 ^ t2 ^ t3 == t3 ^ t2 ^ t1 ^ t0
  {
  }

  lemma LineCommutes0(a: Word, b: Word)
    ensures CoefMult(a, b)[0] == CoefMult(b, a)[0]
  {
    GMulCommutes(a[0], b[0]);
    GMulCommutes(a[3], b[1]);
    GMulCommutes(a[2], b[2]);
    GMulCommutes(a[1], b[3]);
    XorReorder(GMul(a[0], b[0]), GMul(a[3], b[1]), GMul(a[2], b[2]), GMul(a[1], b[3]));
  }

  lemma LineCommutes1(a: Word, b: Word)
    ensures CoefMult(a, b)[1] == CoefMult(b, a)[1]
  {
    GMulCommutes(a[1], b[0]);
    GMulCommutes(a[0], b[1]);
    GMulCommutes(a[3], b[2]);
    GMulCommutes(a[2], b[3]);
    XorReorder(GMul(a[1], b[0]), GMul(a[0], b[1]), GMul(a[3], b[2]), GMul(a[2], b[3]));
  }

  lemma LineCommutes2(a: Word, b: Word)
    ensures CoefMult(a, b)[2] == CoefMult(b, a)[2]
  {
    GMulCommutes(a[2], b[0]);
    GMulCommutes(a[1], b[1]);
    GMulCommutes(a[0], b[2]);
    GMulCommutes(a[3], b[3]);
    XorReorder(GMul(a[2], b[0]), GMul(a[1], b[1]), GMul(a[0], b[2]), GMul(a[3], b[3]));
  }

  lemma LineCommutes3(a: Word, b: Word)
    ensures CoefMult(a, b)[3] == CoefMult(b, a)[3]
  {
    GMulCommutes(a[3], b[0]);
    GMulCommutes(a[2], b[1]);
    GMulCommutes(a[1], b[2]);
    GMulCommutes(a[0], b[3]);
    XorReorder(GMul(a[3], b[0]), GMul(a[2], b[1]), GMul(a[1], b[2]), GMul(a[0], b[3]));
  }

  /** The word {01, 00, 00, 00} is the unit: coef_mult(a, 1) == a. */
  lemma CoefMultOne(a: Word)
    ensures CoefMult(a, [1, 0, 0, 0]) == a
  {
    GMulOne(a[0]); GMulZero(a[0]);
    GMulOne(a[1]); GMulZero(a[1]);
    GMulOne(a[2]); GMulZero(a[2]);
    GMulOne(a[3]); GMulZero(a[3]);
  }

  /** MixColumns multiplies each column by {03}x^3 + {01}x^2 + {01}x + {02}
      (FIPS 197, section 5.1.3); the column {db, 13, 53, 45} becomes
      {8e, 4d, a1, bc}. */
  lemma VectorMixColumn()
    ensures CoefMult([0x02, 0x01, 0x01, 0x03], [0xdb, 0x13, 0x53, 0x45]) == [0x8e, 0x4d, 0xa1, 0xbc]
  {
  }

  /** The InvMixColumns word {0b}x^3 + {0d}x^2 + {09}x + {0e} is the inverse
      of the MixColumns word (FIPS 197, section 5.3.3). */
  lemma VectorMixInverse()
    ensures CoefMult([0x02, 0x01, 0x01, 0x03], [0x0e, 0x09, 0x0d, 0x0b]) == [0x01, 0x00, 0x00, 0x00]
  {
  }

  /** `coef_mult` on arrays: it writes d[0..3] one line after the other and
      reads only a and b. When d is a different array from a and b, it ends up
      holding the product and a and b are left as they were. */
  method CoefMultArrays(a: array<bv8>, b: array<bv8>, d: array<bv8>)
    requires a.Length == 4 && b.Length == 4 && d.Length == 4
    requires d != a && d != b
    modifies d
    ensures d[..] == CoefMult(old(a[..]), old(b[..]))
    ensures a[..] == old(a[..]) && b[..] == old(b[..])
  {
    var x, y := a[..], b[..];
    d[0] := Line(x, y, 0, 3, 2, 1);
    d[1] := Line(x, y, 1, 0, 3, 2);
    d[2] := Line(x, y, 2, 1, 0, 3);
    d[3] := Line(x, y, 3, 2, 1, 0);
  }

  /** `coef_mult` called with d the same array as a: each line writes a
      coefficient of a that the following lines read again. */
  function CoefMultIntoA(a: Word, b: Word): (r: Word)
    ensures r[0] == CoefMult(a, b)[0]
  {
    var a1 := a[0 := Line(a, b, 0, 3, 2, 1)];
    var a2 := a1[1 := Line(a1, b, 1, 0, 3, 2)];
    var a3 := a2[2 := Line(a2, b, 2, 1, 0, 3)];
    a3[3 := Line(a3, b, 3, 2, 1, 0)]
  }

  /** Aliasing is harmless when b is a constant {c, 00, 00, 00}: each line
      then reads only the coefficient of a it is about to overwrite. */
  lemma AliasedConstant(a: Word, b: Word)
    requires b[1] == 0 && b[2] == 0 && b[3] == 0
    ensures CoefMultIntoA(a, b) == CoefMult(a, b)
  {
    var a1 := a[0 := Line(a, b, 0, 3, 2, 1)];
    var a2 := a1[1 := Line(a1, b, 1, 0, 3, 2)];
    var a3 := a2[2 := Line(a2, b, 2, 1, 0, 3)];
    LineOfConstant(a, b, 0, 3, 2, 1);
    LineOfConstant(a, b, 1, 0, 3, 2);
    LineOfConstant(a, b, 2, 1, 0, 3);
    LineOfConstant(a, b, 3, 2, 1, 0);
    LineOfConstant(a1, b, 1, 0, 3, 2);
    LineOfConstant(a2, b, 2, 1, 0, 3);
    LineOfConstant(a3, b, 3, 2, 1, 0);
  }

  /** Against a constant word only the first product of a line is nonzero. */
  lemma LineOfConstant(x: Word, b: Word, i0: nat, i1: nat, i2: nat, i3: nat)
    requires i0 < 4 && i1 < 4 && i2 < 4 && i3 < 4
    requires b[1] == 0 && b[2] == 0 && b[3] == 0
    ensures Line(x, b, i0, i1, i2, i3) == GMul(x[i0], b[0])
  {
    GMulZero(x[i1]);
    GMulZero(x[i2]);
    GMulZero(x[i3]);
  }

  /** With d aliasing a, the result is no longer the product: 1 * x is x,
      but the aliased call returns 0. */
  lemma AliasingDiffers()
    ensures CoefMult([1, 0, 0, 0], [0, 1, 0, 0]) == [0, 1, 0, 0]
    ensures CoefMultIntoA([1, 0, 0, 0], [0, 1, 0, 0]) == [0, 0, 0, 0]
  {
  }
}
