// ef_frobenius of verifier-py/scalar_verifier/gfp3.py is the P-th power, as it documents.
//
// The binomial coefficients C(P, k) with 0 < k < P are multiples of P, so the P-th power is
// additive; it is multiplicative, fixes the base field, and takes X to the first column of the matrix.
module Frobenius {
  import opened ModArith
  import opened NumberTheory
  import opened Goldilocks
  import opened Gfp3
  import opened Gfp3Field

  // ----- Binomial coefficients -----

  function Choose(n: nat, k: nat): nat
    decreases n, k
  {
    if k == 0 then 1 else if n == 0 then 0 else Choose(n - 1, k - 1) + Choose(n - 1, k)
  }

  lemma {:induction false} ChooseEnds(n: nat, k: nat)
    ensures Choose(n, 0) == 1 && Choose(n, n) == 1 && (k > n ==> Choose(n, k) == 0)
    decreases n, k
  {
    if n > 0 {
      ChooseEnds(n - 1, n);
      if k > n {
        ChooseEnds(n - 1, k - 1);
        ChooseEnds(n - 1, k);
      }
    }
  }

  /** k * C(n, k) = n * C(n - 1, k - 1). */
  lemma {:induction false} ChooseAbsorbs(n: nat, k: nat)
    requires n > 0 && k > 0
    ensures k * Choose(n, k) == n * Choose(n - 1, k - 1)
    decreases n, k
  {
    if n == 1 {
      ChooseEnds(0, k);
      ChooseEnds(0, k - 1);
    } else {
      var a, b := Choose(n - 1, k - 1), Choose(n - 1, k);
      ChooseAbsorbs(n - 1, k);
      MulDistributes(a, b, k);
      if k > 1 {
        ChooseAbsorbs(n - 1, k - 1);
        var c, d := Choose(n - 2, k - 2), Choose(n - 2, k - 1);
        assert a == c + d;
        MulDistributes(c, d, n - 1);
        MulDistributes(k - 1, 1, a);
        MulDistributes(n - 1, 1, a);
      } else {
        ChooseEnds(n - 1, 0);
        ChooseEnds(n - 2, 0);
      }
    }
  }

  lemma ChooseDivisible(p: int, k: nat)
    requires Prime(p) && 0 < k < p
    ensures Choose(p, k) % p == 0
  {
    ChooseAbsorbs(p, k);
    ModSmall(k, p);
    ModSmall(0, p);
    CongIntro(p * Choose(p - 1, k - 1), 0, Choose(p - 1, k - 1), p);
    Euclid(p, k, Choose(p, k));
  }

  // ----- Powers, unreduced -----

  function ZPower(a: EF, n: nat): EF
    decreases n, a
  {
    if n == 0 then ONE else ZMul(ZPower(a, n - 1), a)
  }

  lemma {:induction false} PowerReduced(a: EF, n: nat)
    ensures EfPower(a, n) == Red(ZPower(a, n))
    decreases n
  {
    hide ZMul, EfMul, Red;
    if n == 0 {
      RedIdempotent(ONE);
    } else {
      PowerReduced(a, n - 1);
      RedMul(EfPower(a, n - 1), a);
      RedIdempotent(ZPower(a, n - 1));
      RedMulLeft(EfPower(a, n - 1), ZPower(a, n - 1), a);
    }
  }

  lemma ZMulOne(a: EF)
    ensures ZMul(a, ONE) == a && ZMul(ONE, a) == a
  {
    ZMulBase(a, 1);
    ZMulComm(ONE, a);
  }

  lemma {:induction false} ZPowerAdd(a: EF, m: nat, n: nat)
    ensures ZPower(a, m + n) == ZMul(ZPower(a, m), ZPower(a, n))
    decreases n
  {
    hide ZMul;
    if n == 0 {
      ZMulOne(ZPower(a, m));
    } else {
      ZPowerAdd(a, m, n - 1);
      ZMulAssoc(ZPower(a, m), ZPower(a, n - 1), a);
    }
  }

  lemma {:induction false} ZPowerProduct(a: EF, b: EF, n: nat)
    ensures ZPower(ZMul(a, b), n) == ZMul(ZPower(a, n), ZPower(b, n))
    decreases n
  {
    hide ZMul;
    if n == 0 {
      ZMulOne(ONE);
    } else {
      ZPowerProduct(a, b, n - 1);
      var u, v := ZPower(a, n - 1), ZPower(b, n - 1);
      ZMulAssoc(ZMul(u, v), a, b);
      ZMulAssoc(u, v, a);
      ZMulComm(v, a);
      ZMulAssoc(u, a, v);
      ZMulAssoc(ZMul(u, a), v, b);
    }
  }

  lemma {:induction false} ZPowerCong(a: EF, b: EF, n: nat)
    requires Red(a) == Red(b)
    ensures Red(ZPower(a, n)) == Red(ZPower(b, n))
    decreases n
  {
    hide ZMul, Red;
    if n > 0 {
      ZPowerCong(a, b, n - 1);
      RedMulCong(ZPower(a, n - 1), ZPower(b, n - 1), a, b);
    }
  }

  lemma {:induction false} ZPowerBase(c: int, n: nat)
    ensures ZPower(FromBase(c), n) == FromBase(Pow(c, n))
    decreases n
  {
    if n > 0 {
      ZPowerBase(c, n - 1);
      ZMulBase(FromBase(Pow(c, n - 1)), c);
    }
  }

  // ----- The binomial theorem for 1 + x -----

  /** The sum of C(n, k) * x^k over k < m. */
  function BinomialSum(x: EF, n: nat, m: nat): EF
    decreases m, x
  {
    if m == 0 then ZERO else ZAdd(BinomialSum(x, n, m - 1), ZScale(Choose(n, m - 1), ZPower(x, m - 1)))
  }

  lemma BinomialUnfold(x: EF, n: nat, m: nat)
    ensures BinomialSum(x, n, m + 1) == ZAdd(BinomialSum(x, n, m), ZScale(Choose(n, m), ZPower(x, m)))
  {
    hide Choose, ZPower;
  }

  lemma BinomialFirst(x: EF, n: nat, m: nat)
    requires m == 0
    ensures BinomialSum(x, n, m + 1) == ONE && ZPower(x, m) == ONE
  {
    hide Choose;
    BinomialUnfold(x, n, m);
    ChooseEnds(n, n);
  }

  lemma ScaleSplit(s: int, t: int, e: EF)
    ensures ZScale(s + t, e) == ZAdd(ZScale(s, e), ZScale(t, e))
  {
    MulDistributes(s, t, e.c0);
    MulDistributes(s, t, e.c1);
    MulDistributes(s, t, e.c2);
  }

  lemma AddShuffle(s: EF, a: EF, b: EF, c: EF)
    ensures ZAdd(ZAdd(s, a), ZAdd(b, c)) == ZAdd(ZAdd(s, ZAdd(a, b)), c)
  {
  }

  /** A term times 1 + x. */
  lemma TermStep(c: int, u: EF, x: EF)
    ensures ZMul(ZScale(c, u), ZAdd(ONE, x)) == ZAdd(ZScale(c, u), ZScale(c, ZMul(u, x)))
  {
    hide ZMul;
    ZMulAdd(ZScale(c, u), ONE, x);
    ZMulOne(ZScale(c, u));
    ZScaleMul(c, u, x);
  }

  /** Multiplication by 1 + x, by Pascal's rule. */
  lemma {:induction false} BinomialStep(x: EF, n: nat, m: nat)
    ensures ZMul(BinomialSum(x, n, m + 1), ZAdd(ONE, x))
         == ZAdd(BinomialSum(x, n + 1, m + 1), ZScale(Choose(n, m), ZPower(x, m + 1)))
    decreases m
  {
    hide ZMul, Choose, ZScale, ZAdd, BinomialSum, ZPower;
    var c, u, y := Choose(n, m), ZPower(x, m), ZAdd(ONE, x);
    TermStep(c, u, x);
    PowerUnfold(x, m);
    if m == 0 {
      BinomialFirst(x, n, m);
      BinomialFirst(x, n + 1, m);
      ChooseEnds(n, n);
      ScaleOne(ONE);
    } else {
      var sum, term := BinomialSum(x, n, m), ZScale(c, u);
      BinomialStep(x, n, m - 1);
      BinomialUnfold(x, n, m);
      BinomialUnfold(x, n + 1, m);
      ZMulComm(ZAdd(sum, term), y);
      ZMulAdd(y, sum, term);
      ZMulComm(y, sum);
      ZMulComm(y, term);
      Pascal(n, m);
      ScaleSplit(Choose(n, m - 1), c, u);
      AddShuffle(BinomialSum(x, n + 1, m), ZScale(Choose(n, m - 1), u), term, ZScale(c, ZMul(u, x)));
    }
  }

  lemma Pascal(n: nat, m: nat)
    requires m > 0
    ensures Choose(n + 1, m) == Choose(n, m - 1) + Choose(n, m)
  {
  }

  lemma PowerUnfold(x: EF, m: nat)
    ensures ZPower(x, m + 1) == ZMul(ZPower(x, m), x)
  {
    hide ZMul;
  }

  lemma ScaleOne(e: EF)
    ensures ZScale(1, e) == e
  {
  }

  lemma {:induction false} Binomial(x: EF, n: nat)
    ensures ZPower(ZAdd(ONE, x), n) == BinomialSum(x, n, n + 1)
    decreases n
  {
    hide ZMul, Choose, ZScale, ZAdd, BinomialSum, ZPower;
    if n == 0 {
      BinomialFirst(x, n, n);
      BinomialFirst(ZAdd(ONE, x), n, n);
    } else {
      Binomial(x, n - 1);
      PowerUnfold(ZAdd(ONE, x), n - 1);
      BinomialStep(x, n - 1, n - 1);
      ChooseEnds(n - 1, n - 1);
      ChooseEnds(n, n);
      BinomialUnfold(x, n, n);
    }
  }

  /** Modulo P every term but the first and the last vanishes. */
  lemma {:induction false} BinomialModP(x: EF, p: int, m: nat)
    requires p == P && 0 < m <= p
    ensures Red(BinomialSum(x, p, m)) == ONE
    decreases m
  {
    hide ZMul, Choose, ZPower, BinomialSum, Red, ZAdd, ZScale, Prime;
    if m == 1 {
      BinomialFirst(x, p, m - 1);
      OneCanonical();
    } else {
      BinomialModP(x, p, m - 1);
      GoldilocksPrime();
      ChooseDivisible(p, m - 1);
      BinomialUnfold(x, p, m - 1);
      VanishingTerm(BinomialSum(x, p, m - 1), Choose(p, m - 1), ZPower(x, m - 1));
    }
  }

  lemma VanishingTerm(sum: EF, c: int, u: EF)
    requires Red(sum) == ONE && c % P == 0
    ensures Red(ZAdd(sum, ZScale(c, u))) == ONE
  {
    hide Red;
    ModSmall(0, P);
    OneCanonical();
    ScaleCong(c, 0, u);
    RedAddCong(sum, ONE, ZScale(c, u), ZScale(0, u));
    assert ZAdd(ONE, ZScale(0, u)) == ONE;
  }

  // ----- The P-th power is additive -----

  lemma OnePlus(x: EF, p: int)
    requires p == P
    ensures Red(ZPower(ZAdd(ONE, x), p)) == Red(ZAdd(ONE, ZPower(x, p)))
  {
    hide ZMul, Red, Choose, ZPower, BinomialSum, ZScale;
    Binomial(x, p);
    BinomialModP(x, p, p);
    ChooseEnds(p, p);
    RedIdempotent(ONE);
    OneCanonical();
    var sum := BinomialSum(x, p, p);
    BinomialUnfold(x, p, p);
    ScaleOne(ZPower(x, p));
    RedAddCong(sum, ONE, ZPower(x, p), ZPower(x, p));
  }

  lemma OneCanonical()
    ensures Red(ONE) == ONE
  {
    RedIdempotent(ONE);
  }

  lemma ZeroPower(a: EF, p: nat)
    requires Red(a) == ZERO && p > 0
    ensures Red(ZPower(a, p)) == ZERO
  {
    hide ZMul, EfMul;
    PowerReduced(a, p);
    PowerReduced(a, p - 1);
    NoZeroDivisors(EfPower(a, p - 1), a);
  }

  /** (a + b)^P = a^P + b^P. */
  lemma PowerOfSum(a: EF, b: EF, p: int)
    requires p == P
    ensures Red(ZPower(ZAdd(a, b), p)) == Red(ZAdd(ZPower(a, p), ZPower(b, p)))
  {
    hide ZMul, EfMul, ZPower, Red, IsInverse, ZAdd;
    if Red(a) == ZERO {
      ZeroPower(a, p);
      ZeroCanonical();
      RedAddCong(a, ZERO, b, b);
      RedAddCong(ZPower(a, p), ZERO, ZPower(b, p), ZPower(b, p));
      ZeroPlus(b);
      ZeroPlus(ZPower(b, p));
      ZPowerCong(ZAdd(a, b), b, p);
    } else {
      var c := InverseExists(a);
      PowerOfMultiple(a, b, c, p);
    }
  }

  lemma ZeroPlus(b: EF)
    ensures ZAdd(ZERO, b) == b
  {
  }

  lemma ZeroCanonical()
    ensures Red(ZERO) == ZERO
  {
    RedIdempotent(ZERO);
  }

  lemma PowerOfMultiple(a: EF, b: EF, c: EF, p: int)
    requires p == P && IsInverse(a, c)
    ensures Red(ZPower(ZAdd(a, b), p)) == Red(ZAdd(ZPower(a, p), ZPower(b, p)))
  {
    hide ZMul, EfMul, ZPower, Red, ZAdd;
    var x := ZMul(c, b);
    var ap, xp := ZPower(a, p), ZPower(x, p);
    Cancelled(a, b, c);
    ZMulAdd(a, ONE, x);
    ZMulOne(a);
    RedAddCong(a, a, ZMul(a, x), b);
    ZPowerCong(ZMul(a, ZAdd(ONE, x)), ZAdd(a, b), p);
    ZPowerProduct(a, ZAdd(ONE, x), p);
    OnePlus(x, p);
    RedMulCong(ap, ap, ZPower(ZAdd(ONE, x), p), ZAdd(ONE, xp));
    ZMulAdd(ap, ONE, xp);
    ZMulOne(ap);
    ZPowerProduct(a, x, p);
    ZPowerCong(ZMul(a, x), b, p);
    RedAddCong(ap, ap, ZMul(ap, xp), ZPower(b, p));
  }

  lemma Cancelled(a: EF, b: EF, c: EF)
    requires IsInverse(a, c)
    ensures Red(ZMul(a, ZMul(c, b))) == Red(b)
  {
    hide ZMul, EfMul, Red;
    ZMulAssoc(a, c, b);
    RedMul(a, c);
    RedIdempotent(ZMul(a, c));
    OneCanonical();
    RedMulLeft(ZMul(a, c), ONE, b);
    ZMulOne(b);
  }

  // ----- The P-th power is ef_frobenius -----

  lemma BaseFixed(c: int, p: int)
    requires p == P
    ensures Red(ZPower(FromBase(c), p)) == Red(FromBase(c))
  {
    hide ZPower, Pow;
    ZPowerBase(c, p);
    GoldilocksPrime();
    ModSmall(0, P);
    if c % P == 0 {
      PowCong(c, 0, p, P);
      ZeroToPower(p);
    } else {
      Fermat(c, P);
      CongSelf(c, P);
      CongMul(Pow(c, p - 1), 1, c, c, P);
      PowSplit(c, p);
    }
  }

  lemma ZeroToPower(p: nat)
    requires p > 0
    ensures Pow(0, p) == 0
  {
  }

  lemma PowSplit(c: int, p: nat)
    requires p > 0
    ensures Pow(c, p) == Pow(c, p - 1) * c
  {
  }

  lemma {:induction false} SquaresArePowers(w: EF, k: nat)
    requires Canonical(w)
    ensures EfSquares(w, k) == Red(ZPower(w, TwoPow(k)))
    decreases k
  {
    hide ZMul, EfMul, Red, ZPower;
    if k == 0 {
      FirstPower(w);
    } else {
      SquaresArePowers(w, k - 1);
      var n, u := TwoPow(k - 1), ZPower(w, TwoPow(k - 1));
      ZPowerAdd(w, n, n);
      RedMul(Red(u), Red(u));
      RedIdempotent(u);
      RedMulCong(Red(u), u, Red(u), u);
    }
  }

  lemma FirstPower(w: EF)
    requires Canonical(w)
    ensures Red(ZPower(w, TwoPow(0))) == w
  {
    hide ZMul;
    assert ZPower(w, 1) == ZMul(ZPower(w, 0), w);
    ZMulOne(w);
    RedIdempotent(w);
  }

  /** X^P is the first column of the matrix: X^(2^64) * X = X^(2^32) * X^P. */
  lemma PowerOfX(w: EF, t: nat, p: int)
    requires w == EF(0, 1, 0) && t == 32 && p == P
    ensures Red(ZPower(w, p)) == T1
  {
    hide ZMul, EfMul, Red, ZPower, EfSquares, TwoPow, X32, X64, T1;
    Squares32(w, 0);
    SquaresArePowers(w, t);
    SquaresArePowers(w, t + t);
    TwoPow32();
    TwoPowAdd(t, t);
    var n := TwoPow(t);
    assert TwoPow(t + t) + 1 == n + p;
    ZPowerAdd(w, TwoPow(t + t), 1);
    ZPowerAdd(w, n, p);
    SinglePower(w);
    RedMul(X64, w);
    ReducedFactors64(w);
    RedMulCong(X64, ZPower(w, TwoPow(t + t)), w, ZPower(w, 1));
    RedMul(X32, Red(ZPower(w, p)));
    RedIdempotent(ZPower(w, p));
    RedMulCong(X32, ZPower(w, n), Red(ZPower(w, p)), ZPower(w, p));
    assert EfMul(X64, w) == EfMul(X32, Red(ZPower(w, p)));
    Certificate();
    CancelX32(Red(ZPower(w, p)));
  }

  lemma SinglePower(w: EF)
    ensures ZPower(w, 1) == w
  {
    assert ZPower(w, 1) == ZMul(ZPower(w, 0), w);
    ZMulOne(w);
  }

  /** Both certified powers are reduced already. */
  lemma ReducedFactors64(w: EF)
    ensures Red(X64) == X64 && Red(X32) == X32
  {
    RedIdempotent(X64);
    RedIdempotent(X32);
  }

  lemma Certificate()
    ensures EfMul(X64, EF(0, 1, 0)) == EfMul(X32, T1)
  {
    hide EfMul;
    ProductByQuotients(X64, EF(0, 1, 0), CERTIFIED, 0, 0, 0);
    ProductByQuotients(X32, T1, CERTIFIED, 12602629149075866629, 23603140557861339293, 21669061198049417788);
  }

  /** X^(2^64 + 1). */
  const CERTIFIED := EF(2012697817756225988, 17903028850211194098, 4393904361445481836)

  lemma CancelX32(e: EF)
    requires Canonical(e) && EfMul(X32, e) == EfMul(X32, T1)
    ensures e == T1
  {
    hide EfMul, X32;
    var c := X32Invertible();
    EfMulComm(X32, c);
    EfMulAssoc(c, X32, e);
    EfMulAssoc(c, X32, T1);
    EfMulOne(e);
    EfMulOne(T1);
    RedIdempotent(e);
    RedIdempotent(T1);
  }

  lemma X32Invertible() returns (c: EF)
    ensures EfMul(X32, c) == ONE
  {
    hide EfMul;
    RedIdempotent(X32);
    c := InverseExists(X32);
  }

  /** ef_frobenius(a) is a^P, for every element. */
  lemma FrobeniusIsPower(a: EF, p: int)
    requires p == P
    ensures EfFrobenius(a) == EfPower(a, p)
  {
    hide ZMul, EfMul, Red, ZPower, EfFrobenius, T1, T2, EfPower;
    PowerReduced(a, p);
    FrobeniusReduced(a);
    var x := EF(0, 1, 0);
    var u0, u1, u2 := FromBase(a.c0), ZScale(a.c1, x), ZScale(a.c2, ZMul(x, x));
    SquareOfX(x);
    assert a == ZAdd(ZAdd(u0, u1), u2);
    PowerOfSum(ZAdd(u0, u1), u2, p);
    PowerOfSum(u0, u1, p);
    RedAddCong(ZPower(ZAdd(u0, u1), p), ZAdd(ZPower(u0, p), ZPower(u1, p)), ZPower(u2, p), ZPower(u2, p));
    PowerOfX(x, 32, p);
    BaseFixed(a.c0, p);
    TermPower(a.c1, x, T1, p);
    ZPowerProduct(x, x, p);
    SquareOfT(ZPower(x, p));
    TermPower(a.c2, ZMul(x, x), T2, p);
    RedAddCong(ZPower(u0, p), u0, ZPower(u1, p), ZScale(a.c1, T1));
    RedAddCong(ZAdd(ZPower(u0, p), ZPower(u1, p)), ZAdd(u0, ZScale(a.c1, T1)), ZPower(u2, p), ZScale(a.c2, T2));
    assert ZScale(a.c0, ONE) == u0;
    assert ZFrobenius(a) == ZAdd(ZAdd(u0, ZScale(a.c1, T1)), ZScale(a.c2, T2));
  }

  lemma SquareOfX(x: EF)
    requires x == EF(0, 1, 0)
    ensures ZMul(x, x) == EF(0, 0, 1)
  {
    hide ZMul;
    DistributeThree(x, x);
  }

  lemma SquareOfT(u: EF)
    requires Red(u) == T1
    ensures Red(ZMul(u, u)) == T2
  {
    hide ZMul, EfMul, Red, EfFrobenius;
    PowersOfT();
    RedMul(T1, T1);
    RedIdempotent(u);
    RedMulCong(u, T1, u, T1);
  }

  /** (c*y)^P = c * y^P for c in the base field. */
  lemma TermPower(c: int, y: EF, t: EF, p: int)
    requires p == P && Red(ZPower(y, p)) == t
    ensures Red(ZPower(ZScale(c, y), p)) == Red(ZScale(c, t))
  {
    hide ZMul, Red, ZPower;
    ZMulBase(y, c);
    ZPowerProduct(y, FromBase(c), p);
    BaseFixed(c, p);
    RedIdempotent(ZPower(y, p));
    RedMulCong(ZPower(y, p), t, ZPower(FromBase(c), p), FromBase(c));
    ZMulBase(t, c);
  }
}
