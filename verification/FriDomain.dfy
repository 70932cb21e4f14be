// The evaluation domains of verifier-py/scalar_verifier/fri.py: cosets of the
// two-power roots of unity, indexed in bit-reversed order.
module FriDomain {
  import opened ModArith
  import opened NumberTheory
  import opened Goldilocks
  import opened Gfp3

  // ----- Bit reversal -----

  /** The lowest `bits` bits of x, in reverse order. */
  function BitRev(x: int, bits: nat): (r: nat)
    ensures r < TwoPow(bits)
    decreases bits
  {
    if bits == 0 then 0 else (x % 2) * TwoPow(bits - 1) + BitRev(x / 2, bits - 1)
  }

  lemma ShiftIn(r: int, b: int, n: int, rest: int)
    ensures r * (2 * n) + (b * n + rest) == (2 * r + b) * n + rest
  {
  }

  /** bit_reverse: shift bits out of x and into the result. */
  method BitReverse(x: int, bits: nat) returns (r: nat)
    ensures r == BitRev(x, bits)
  {
    var rest, i := x, 0;
    r := 0;
    while i < bits
      invariant 0 <= i <= bits
      invariant r * TwoPow(bits - i) + BitRev(rest, bits - i) == BitRev(x, bits)
    {
      ShiftIn(r, rest % 2, TwoPow(bits - i - 1), BitRev(rest / 2, bits - i - 1));
      r := 2 * r + rest % 2;
      rest := rest / 2;
      i := i + 1;
    }
  }

  /** Appending a bit above the reversed ones. */
  lemma {:induction false} BitRevTop(x: nat, bits: nat, b: nat)
    requires x < TwoPow(bits) && b < 2
    ensures BitRev(b * TwoPow(bits) + x, bits + 1) == 2 * BitRev(x, bits) + b
    decreases bits
  {
    if bits == 0 {
      assert BitRev(b, 1) == (b % 2) * TwoPow(0) + BitRev(b / 2, 0);
    } else {
      var y := b * TwoPow(bits) + x;
      assert y == 2 * (b * TwoPow(bits - 1) + x / 2) + x % 2 by {
        assert b * TwoPow(bits) == 2 * (b * TwoPow(bits - 1));
      }
      assert y % 2 == x % 2 && y / 2 == b * TwoPow(bits - 1) + x / 2;
      BitRevTop(x / 2, bits - 1, b);
      assert (x % 2) * TwoPow(bits) == 2 * ((x % 2) * TwoPow(bits - 1));
    }
  }

  /** Bit reversal is an involution, hence a permutation, on [0, 2^bits). */
  lemma {:induction false} BitRevInvolution(x: nat, bits: nat)
    requires x < TwoPow(bits)
    ensures BitRev(BitRev(x, bits), bits) == x
    decreases bits
  {
    if bits > 0 {
      BitRevInvolution(x / 2, bits - 1);
      BitRevTop(BitRev(x / 2, bits - 1), bits - 1, x % 2);
    }
  }

  // ----- Roots of unity -----

  const GOLDILOCKS_GENERATOR: int := 7

  /** (P - 1) >> 32. */
  function OddPart(): nat { (P - 1) / 0x1_0000_0000 }

  /** g^((P-1)/2^32), raised to 2^(32-logN); for the generator 7 a root of unity of order 2^logN. */
  function TwoAdicRoot(g: int, logN: nat): int
    requires 0 < logN <= 32
  {
    Pow(Pow(g, OddPart()) % P, TwoPow(32 - logN)) % P
  }

  /** goldilocks_two_adic_generator; the source asserts 0 < log_n <= 32. */
  function TwoAdicGenerator(logN: nat): int
    requires 0 < logN <= 32
  {
    TwoAdicRoot(GOLDILOCKS_GENERATOR, logN)
  }

  lemma GeneratorExponent()
    ensures OddPart() == TwoPow(32) - 1
  {
    TwoPow32();
  }

  lemma BaseRootPower(g: int, w: int, t: nat)
    requires g % P == 7 && t == 31 && w == Pow(g, OddPart()) % P
    ensures Cong(Pow(w, TwoPow(t)), -1, P)
  {
    GeneratorExponent();
    GeneratorPower(g, t);
    CongMod(Pow(g, TwoPow(t + 1) - 1), P);
    PowCong(w, Pow(g, TwoPow(t + 1) - 1), TwoPow(t), P);
  }

  lemma PowerOfRoot(w: int, i: nat, j: nat, r: int)
    requires r == Pow(w, TwoPow(i)) % P
    ensures Cong(Pow(r, TwoPow(j)), Pow(w, TwoPow(i + j)), P)
  {
    CongMod(Pow(w, TwoPow(i)), P);
    PowCong(r, Pow(w, TwoPow(i)), TwoPow(j), P);
    PowMul(w, TwoPow(i), TwoPow(j));
    TwoPowAdd(i, j);
  }

  lemma RootHalf(g: int, logN: nat)
    requires g % P == 7 && 0 < logN <= 32
    ensures Cong(Pow(TwoAdicRoot(g, logN), TwoPow(logN - 1)), -1, P)
  {
    var w := Pow(g, OddPart()) % P;
    var t := 31;
    BaseRootPower(g, w, t);
    PowerOfRoot(w, 32 - logN, logN - 1, TwoAdicRoot(g, logN));
    assert 32 - logN + (logN - 1) == t;
  }

  lemma RootSquare(g: int, logN: nat)
    requires 0 < logN < 32
    ensures Cong(TwoAdicRoot(g, logN + 1) * TwoAdicRoot(g, logN + 1), TwoAdicRoot(g, logN), P)
  {
    var w := Pow(g, OddPart()) % P;
    var r := TwoAdicRoot(g, logN + 1);
    PowerOfRoot(w, 31 - logN, 1, r);
    assert Pow(r, TwoPow(1)) == r * Pow(r, 1) == r * (r * Pow(r, 0));
    CongMod(Pow(w, TwoPow(32 - logN)), P);
  }

  /** The half-order power of the generator of each domain is -1. */
  lemma GeneratorHalf(logN: nat)
    requires 0 < logN <= 32
    ensures Cong(Pow(TwoAdicGenerator(logN), TwoPow(logN - 1)), -1, P)
  {
    ModSmall(7, P);
    RootHalf(GOLDILOCKS_GENERATOR, logN);
  }

  /** The generators of successive domains are squares of one another. */
  lemma GeneratorSquare(logN: nat)
    requires 0 < logN < 32
    ensures Cong(TwoAdicGenerator(logN + 1) * TwoAdicGenerator(logN + 1), TwoAdicGenerator(logN), P)
  {
    RootSquare(GOLDILOCKS_GENERATOR, logN);
  }

  // ----- Domain points -----

  /** _domain_point_at_index: shift * omega^bit_reverse(index). */
  function Point(index: int, logH: nat, shift: int): int
    requires 0 < logH <= 32
  {
    FMul(shift, Pow(TwoAdicGenerator(logH), BitRev(index, logH)) % P)
  }

  lemma PointCong(index: int, logH: nat, shift: int)
    requires 0 < logH <= 32
    ensures Cong(Point(index, logH, shift), shift * Pow(TwoAdicGenerator(logH), BitRev(index, logH)), P)
    ensures 0 <= Point(index, logH, shift) < P
  {
    var w := Pow(TwoAdicGenerator(logH), BitRev(index, logH));
    CongMod(w, P);
    CongScale(shift, w % P, w, P);
    CongMod(shift * (w % P), P);
  }

  lemma PowZero(n: nat)
    requires n > 0
    ensures Pow(0, n) == 0
  {
  }

  lemma GeneratorNotZero(logN: nat)
    requires 0 < logN <= 32
    ensures TwoAdicGenerator(logN) % P != 0
  {
    var w := TwoAdicGenerator(logN);
    GeneratorHalf(logN);
    if w % P == 0 {
      var n := TwoPow(logN - 1);
      PowCong(w, 0, n, P);
      PowZero(n);
      CongIntro(P - 1, -1, 1, P);
      ModSmall(P - 1, P);
      ModSmall(0, P);
    }
  }

  lemma {:induction false} PowNotZero(w: int, e: nat)
    requires w % P != 0
    ensures Pow(w, e) % P != 0
    decreases e
  {
    if e == 0 {
      ModSmall(1, P);
    } else {
      PowNotZero(w, e - 1);
      GoldilocksPrime();
      if Pow(w, e) % P == 0 {
        Euclid(P, w, Pow(w, e - 1));
      }
    }
  }

  lemma ProductNotZero(a: int, b: int)
    requires a % P != 0 && b % P != 0
    ensures (a * b) % P != 0
  {
    GoldilocksPrime();
    if (a * b) % P == 0 {
      Euclid(P, a, b);
    }
  }

  /** No domain point is zero, so the folds never divide by zero. */
  lemma PointNotZero(index: int, logH: nat, shift: int)
    requires 0 < logH <= 32 && shift % P != 0
    ensures Point(index, logH, shift) % P != 0
  {
    PointCong(index, logH, shift);
    GeneratorNotZero(logH);
    PowNotZero(TwoAdicGenerator(logH), BitRev(index, logH));
    ProductNotZero(shift, Pow(TwoAdicGenerator(logH), BitRev(index, logH)));
  }

  lemma PairAlgebra(x0: int, x1: int, s: int, w: int, n: nat, r: nat, m: int)
    requires m > 0 && Cong(x0, s * Pow(w, r), m) && Cong(x1, s * Pow(w, n + r), m) && Cong(Pow(w, n), -1, m)
    ensures Cong(x1, -x0, m)
  {
    PowAdd(w, n, r);
    CongMul(Pow(w, n), -1, Pow(w, r), Pow(w, r), m);
    CongScale(s, Pow(w, n + r), -Pow(w, r), m);
    assert s * -Pow(w, r) == -(s * Pow(w, r));
    CongAdd(0, 0, x0, s * Pow(w, r), m);
  }

  lemma NegatedPoint(x: int, y: int, r: nat, r': nat, k: nat, shift: int)
    requires k < 32 && r' == TwoPow(k) + r
    requires Cong(x, shift * Pow(TwoAdicGenerator(k + 1), r), P)
    requires Cong(y, shift * Pow(TwoAdicGenerator(k + 1), r'), P)
    ensures Cong(y, -x, P)
  {
    GeneratorHalf(k + 1);
    PairAlgebra(x, y, shift, TwoAdicGenerator(k + 1), TwoPow(k), r, P);
  }

  /** Adjacent positions hold a point and its negative. */
  lemma PointPair(g: int, k: nat, shift: int)
    requires k < 32
    ensures Cong(Point(2 * g + 1, k + 1, shift), -Point(2 * g, k + 1, shift), P)
  {
    hide *;
    PointCong(2 * g, k + 1, shift);
    PointCong(2 * g + 1, k + 1, shift);
    BitRevPair(g, k);
    NegatedPoint(Point(2 * g, k + 1, shift), Point(2 * g + 1, k + 1, shift),
                 BitRev(2 * g, k + 1), BitRev(2 * g + 1, k + 1), k, shift);
  }

  lemma BitRevPair(g: int, bits: nat)
    ensures BitRev(2 * g, bits + 1) == BitRev(g, bits)
    ensures BitRev(2 * g + 1, bits + 1) == TwoPow(bits) + BitRev(g, bits)
  {
    BitRevStep(g, 0, bits);
    BitRevStep(g, 1, bits);
  }

  lemma BitRevStep(g: int, b: int, bits: nat)
    requires 0 <= b < 2
    ensures BitRev(2 * g + b, bits + 1) == b * TwoPow(bits) + BitRev(g, bits)
  {
    var x := 2 * g + b;
    assert x % 2 == b && x / 2 == g;
  }

  lemma SquareAlgebra(x: int, y: int, s: int, w: int, w': int, r: nat, m: int)
    requires m > 0 && Cong(x, s * Pow(w, r), m) && Cong(y, s * Pow(w', r), m) && Cong(w * w, w', m)
    ensures Cong(x * x, s * y, m)
  {
    hide Cong, Pow;
    var a, b := Pow(w, r), Pow(w', r);
    CongMul(x, s * a, x, s * a, m);
    MulSwap(s, a, s, a);
    PowProduct(w, w, r);
    PowCong(w * w, w', r, m);
    CongScale(s * s, a * a, b, m);
    MulAssoc(s, s, b);
    CongScale(s, y, s * b, m);
    CongTrans(x * x, (s * s) * (a * a), s * (s * b), m);
    CongTrans(x * x, s * (s * b), s * y, m);
  }

  /** Squaring the point at position 2g gives shift times the point at position g one level down. */
  lemma PointSquare(g: int, logH: nat, shift: int)
    requires 0 < logH < 32
    ensures Cong(Point(2 * g, logH + 1, shift) * Point(2 * g, logH + 1, shift), shift * Point(g, logH, shift), P)
  {
    BitRevPair(g, logH);
    PointCong(2 * g, logH + 1, shift);
    PointCong(g, logH, shift);
    GeneratorSquare(logH);
    SquareAlgebra(Point(2 * g, logH + 1, shift), Point(g, logH, shift), shift,
                  TwoAdicGenerator(logH + 1), TwoAdicGenerator(logH), BitRev(g, logH), P);
  }
}
