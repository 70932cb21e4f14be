// The base field operations and the cubic extension GF(p)[X]/(X^3 - X - 1)
// of verifier-py/scalar_verifier/gfp3.py.
module Gfp3 {
  import opened ModArith
  import opened NumberTheory
  import opened Goldilocks

  // ----- Base field -----

  function FAdd(a: int, b: int): int { (a + b) % P }
  function FSub(a: int, b: int): int { (a - b) % P }
  function FMul(a: int, b: int): int { (a * b) % P }

  /** Fermat inverse; the source raises ZeroDivisionError on 0. */
  function FInv(a: int): int
    requires a != 0
  {
    Pow(a, P - 2) % P
  }

  /** FInv is a multiplicative inverse of everything that P does not divide. */
  lemma FInvCorrect(a: int)
    requires a % P != 0
    ensures a != 0 && Cong(a * FInv(a), 1, P)
  {
    GoldilocksPrime();
    Fermat(a, P);
    CongMod(Pow(a, P - 2), P);
    CongScale(a, FInv(a), Pow(a, P - 2), P);
    InverseExponent(a, P);
  }

  lemma InverseExponent(a: int, p: int)
    requires p > 2
    ensures a * Pow(a, p - 2) == Pow(a, p - 1)
  {
  }

  // ----- Extension field -----

  /** c0 + c1*X + c2*X^2, the source's three-entry list. */
  datatype EF = EF(c0: int, c1: int, c2: int)

  const ZERO := EF(0, 0, 0)
  const ONE := EF(1, 0, 0)

  predicate Canonical(e: EF) {
    0 <= e.c0 < P && 0 <= e.c1 < P && 0 <= e.c2 < P
  }

  function FromBase(x: int): EF { EF(x, 0, 0) }

  function EfAdd(a: EF, b: EF): EF {
    EF(FAdd(a.c0, b.c0), FAdd(a.c1, b.c1), FAdd(a.c2, b.c2))
  }

  function EfSub(a: EF, b: EF): EF {
    EF(FSub(a.c0, b.c0), FSub(a.c1, b.c1), FSub(a.c2, b.c2))
  }

  function EfScalarMul(s: int, e: EF): EF {
    EF(FMul(s, e.c0), FMul(s, e.c1), FMul(s, e.c2))
  }

  function EfMul(a: EF, b: EF): EF {
    var b0pb2 := FAdd(b.c0, b.c2);
    var b1pb2 := FAdd(b.c1, b.c2);
    EF(FAdd(FAdd(FMul(a.c0, b.c0), FMul(a.c1, b.c2)), FMul(a.c2, b.c1)),
       FAdd(FAdd(FMul(a.c0, b.c1), FMul(a.c1, b0pb2)), FMul(a.c2, b1pb2)),
       FAdd(FAdd(FMul(a.c0, b.c2), FMul(a.c1, b.c1)), FMul(a.c2, b0pb2)))
  }

  // ----- The same ring over the integers: Z[X]/(X^3 - X - 1) -----

  /** Coefficientwise reduction modulo P; a ring homomorphism, as shown below. */
  function Red(e: EF): (r: EF)
    ensures Canonical(r)
  {
    CongMod(e.c0, P);
    CongMod(e.c1, P);
    CongMod(e.c2, P);
    EF(e.c0 % P, e.c1 % P, e.c2 % P)
  }

  function ZAdd(a: EF, b: EF): EF { EF(a.c0 + b.c0, a.c1 + b.c1, a.c2 + b.c2) }
  function ZSub(a: EF, b: EF): EF { EF(a.c0 - b.c0, a.c1 - b.c1, a.c2 - b.c2) }
  function ZScale(s: int, e: EF): EF { EF(s * e.c0, s * e.c1, s * e.c2) }

  /** Coefficients of the schoolbook product of two quadratics, lowest first. */
  function Convolve(a: EF, b: EF): seq<int> {
    [a.c0 * b.c0,
     a.c0 * b.c1 + a.c1 * b.c0,
     a.c0 * b.c2 + a.c1 * b.c1 + a.c2 * b.c0,
     a.c1 * b.c2 + a.c2 * b.c1,
     a.c2 * b.c2]
  }

  /** Replace X^3 by X + 1 and X^4 by X^2 + X. */
  function ReduceCubic(p: seq<int>): EF
    requires |p| == 5
  {
    EF(p[0] + p[3], p[1] + p[3] + p[4], p[2] + p[4])
  }

  function ZMul(a: EF, b: EF): EF { ReduceCubic(Convolve(a, b)) }

  /** ReduceCubic is the remainder of division by X^3 - X - 1: the quotient is p3 + p4*X. */
  lemma ReduceCubicIsRemainder(p: seq<int>, x: int)
    requires |p| == 5
    ensures var r := ReduceCubic(p);
            p[0] + p[1] * x + p[2] * (x * x) + p[3] * (x * x * x) + p[4] * (x * x * x * x)
            == (x * x * x - x - 1) * (p[3] + p[4] * x) + (r.c0 + r.c1 * x + r.c2 * (x * x))
  {
    var x2, x3 := x * x, x * x * x;
    assert (x3 - x - 1) * (p[3] + p[4] * x)
        == p[3] * x3 - p[3] * x - p[3] + p[4] * (x3 * x) - p[4] * x2 - p[4] * x;
    assert (p[1] + p[3] + p[4]) * x == p[1] * x + p[3] * x + p[4] * x;
    assert (p[2] + p[4]) * x2 == p[2] * x2 + p[4] * x2;
  }

  // ----- Reduction commutes with the operations -----

  lemma RedAdd(a: EF, b: EF)
    ensures EfAdd(a, b) == Red(ZAdd(a, b))
    ensures EfSub(a, b) == Red(ZSub(a, b))
  {
  }

  lemma RedScale(s: int, e: EF)
    ensures EfScalarMul(s, e) == Red(ZScale(s, e))
  {
  }

  /** fadd(fadd(fmul(a,x), fmul(b,y)), fmul(c,z)) is the plain sum of products, reduced once. */
  lemma SumOfProducts(a: int, x: int, b: int, y: int, c: int, z: int, m: int)
    requires m > 0
    ensures (((a * x) % m + (b * y) % m) % m + (c * z) % m) % m == (a * x + b * y + c * z) % m
  {
    CongMod(a * x, m);
    CongMod(b * y, m);
    CongMod(c * z, m);
    CongAdd((a * x) % m, a * x, (b * y) % m, b * y, m);
    CongMod((a * x) % m + (b * y) % m, m);
    CongAdd(((a * x) % m + (b * y) % m) % m, a * x + b * y, (c * z) % m, c * z, m);
  }

  lemma ReducedFactors(a: int, x: int, b: int, y: int, c: int, z: int, y': int, z': int, m: int)
    requires m > 0 && Cong(y, y', m) && Cong(z, z', m)
    ensures (a * x + b * y + c * z) % m == (a * x + b * y' + c * z') % m
  {
    CongScale(b, y, y', m);
    CongScale(c, z, z', m);
    CongAdd(a * x, a * x, b * y, b * y', m);
    CongAdd(a * x + b * y, a * x + b * y', c * z, c * z', m);
  }

  /** The three-term formula of ef_mul is multiplication of polynomials reduced by X^3 = X + 1. */
  lemma RedMul(a: EF, b: EF)
    ensures EfMul(a, b) == Red(ZMul(a, b))
  {
    DistributeThree(a, b);
    RedMul0(a, b);
    RedMul1(a, b);
    RedMul2(a, b);
  }

  lemma FSum(a: int, x: int, b: int, y: int, c: int, z: int)
    ensures FAdd(FAdd(FMul(a, x), FMul(b, y)), FMul(c, z)) == (a * x + b * y + c * z) % P
  {
    SumOfProducts(a, x, b, y, c, z, P);
  }

  lemma FSumReduced(a: int, x: int, b: int, y: int, y': int, c: int, z: int, z': int)
    requires Cong(y, y', P) && Cong(z, z', P)
    ensures FAdd(FAdd(FMul(a, x), FMul(b, y)), FMul(c, z)) == (a * x + b * y' + c * z') % P
  {
    FSum(a, x, b, y, c, z);
    ReducedFactors(a, x, b, y, c, z, y', z', P);
  }

  lemma FAddCong(a: int, b: int)
    ensures Cong(FAdd(a, b), a + b, P)
  {
    CongMod(a + b, P);
  }

  lemma RedMul0(a: EF, b: EF)
    ensures EfMul(a, b).c0 == (a.c0 * b.c0 + a.c1 * b.c2 + a.c2 * b.c1) % P
  {
    FSum(a.c0, b.c0, a.c1, b.c2, a.c2, b.c1);
  }

  lemma RedMul1(a: EF, b: EF)
    ensures EfMul(a, b).c1 == (a.c0 * b.c1 + a.c1 * (b.c0 + b.c2) + a.c2 * (b.c1 + b.c2)) % P
  {
    hide FAdd, FMul;
    FAddCong(b.c0, b.c2);
    FAddCong(b.c1, b.c2);
    FSumReduced(a.c0, b.c1, a.c1, FAdd(b.c0, b.c2), b.c0 + b.c2, a.c2, FAdd(b.c1, b.c2), b.c1 + b.c2);
  }

  lemma RedMul2(a: EF, b: EF)
    ensures EfMul(a, b).c2 == (a.c0 * b.c2 + a.c1 * b.c1 + a.c2 * (b.c0 + b.c2)) % P
  {
    hide FAdd, FMul;
    FAddCong(b.c0, b.c2);
    FSumReduced(a.c0, b.c2, a.c1, b.c1, b.c1, a.c2, FAdd(b.c0, b.c2), b.c0 + b.c2);
  }

  lemma DistributeThree(a: EF, b: EF)
    ensures ZMul(a, b) == EF(a.c0 * b.c0 + a.c1 * b.c2 + a.c2 * b.c1,
                             a.c0 * b.c1 + a.c1 * (b.c0 + b.c2) + a.c2 * (b.c1 + b.c2),
                             a.c0 * b.c2 + a.c1 * b.c1 + a.c2 * (b.c0 + b.c2))
  {
    assert a.c1 * (b.c0 + b.c2) == a.c1 * b.c0 + a.c1 * b.c2;
    assert a.c2 * (b.c1 + b.c2) == a.c2 * b.c1 + a.c2 * b.c2;
    assert a.c2 * (b.c0 + b.c2) == a.c2 * b.c0 + a.c2 * b.c2;
  }

  lemma RedIdempotent(e: EF)
    ensures Red(Red(e)) == Red(e)
    ensures Canonical(e) ==> Red(e) == e
  {
    CongMod(e.c0, P);
    CongMod(e.c1, P);
    CongMod(e.c2, P);
    if Canonical(e) {
      ModSmall(e.c0, P);
      ModSmall(e.c1, P);
      ModSmall(e.c2, P);
    }
  }

  lemma CongTriple(a: int, a': int, b: int, b': int, c: int, c': int, x: int, y: int, z: int, m: int)
    requires m > 0 && Cong(a, a', m) && Cong(b, b', m) && Cong(c, c', m)
    ensures (a * x + b * y + c * z) % m == (a' * x + b' * y + c' * z) % m
  {
    CongMul(a, a', x, x, m);
    CongMul(b, b', y, y, m);
    CongMul(c, c', z, z, m);
    CongAdd(a * x, a' * x, b * y, b' * y, m);
    CongAdd(a * x + b * y, a' * x + b' * y, c * z, c' * z, m);
  }

  /** Products of congruent elements are congruent (left factor; the right one follows by symmetry). */
  lemma RedMulLeft(a: EF, a': EF, b: EF)
    requires Red(a) == Red(a')
    ensures Red(ZMul(a, b)) == Red(ZMul(a', b))
  {
    DistributeThree(a, b);
    DistributeThree(a', b);
    CongTriple(a.c0, a'.c0, a.c1, a'.c1, a.c2, a'.c2, b.c0, b.c2, b.c1, P);
    CongTriple(a.c0, a'.c0, a.c1, a'.c1, a.c2, a'.c2, b.c1, b.c0 + b.c2, b.c1 + b.c2, P);
    CongTriple(a.c0, a'.c0, a.c1, a'.c1, a.c2, a'.c2, b.c2, b.c1, b.c0 + b.c2, P);
  }

  lemma ZMulComm(a: EF, b: EF)
    ensures ZMul(a, b) == ZMul(b, a)
  {
  }

  lemma RedMulCong(a: EF, a': EF, b: EF, b': EF)
    requires Red(a) == Red(a') && Red(b) == Red(b')
    ensures Red(ZMul(a, b)) == Red(ZMul(a', b'))
  {
    RedMulLeft(a, a', b);
    ZMulComm(a', b);
    ZMulComm(a', b');
    RedMulLeft(b, b', a');
  }

  lemma RedAddCong(a: EF, a': EF, b: EF, b': EF)
    requires Red(a) == Red(a') && Red(b) == Red(b')
    ensures Red(ZAdd(a, b)) == Red(ZAdd(a', b'))
    ensures Red(ZSub(a, b)) == Red(ZSub(a', b'))
  {
    CongAdd(a.c0, a'.c0, b.c0, b'.c0, P);
    CongAdd(a.c1, a'.c1, b.c1, b'.c1, P);
    CongAdd(a.c2, a'.c2, b.c2, b'.c2, P);
  }

  // ----- Ring laws -----

  lemma Spread(u: int, v: int, w: int, x: int, y: int, c: int)
    ensures (u + v + w + x + y) * c == u * c + v * c + w * c + x * c + y * c
    ensures c * (u + v + w + x + y) == c * u + c * v + c * w + c * x + c * y
  {
  }

  /** The products of one coefficient with the three coefficients of ZMul(a, b), expanded. */
  lemma SpreadProduct(a: EF, b: EF, c: int)
    ensures var u := ZMul(a, b);
      && u.c0 * c == (a.c0 * b.c0) * c + (a.c1 * b.c2) * c + (a.c2 * b.c1) * c
      && u.c1 * c == (a.c0 * b.c1) * c + (a.c1 * b.c0) * c + (a.c1 * b.c2) * c + (a.c2 * b.c1) * c + (a.c2 * b.c2) * c
      && u.c2 * c == (a.c0 * b.c2) * c + (a.c1 * b.c1) * c + (a.c2 * b.c0) * c + (a.c2 * b.c2) * c
      && c * u.c0 == c * (a.c0 * b.c0) + c * (a.c1 * b.c2) + c * (a.c2 * b.c1)
      && c * u.c1 == c * (a.c0 * b.c1) + c * (a.c1 * b.c0) + c * (a.c1 * b.c2) + c * (a.c2 * b.c1) + c * (a.c2 * b.c2)
      && c * u.c2 == c * (a.c0 * b.c2) + c * (a.c1 * b.c1) + c * (a.c2 * b.c0) + c * (a.c2 * b.c2)
  {
    Spread(a.c0 * b.c0, a.c1 * b.c2, a.c2 * b.c1, 0, 0, c);
    Spread(a.c0 * b.c1, a.c1 * b.c0, a.c1 * b.c2, a.c2 * b.c1, a.c2 * b.c2, c);
    Spread(a.c0 * b.c2, a.c1 * b.c1, a.c2 * b.c0, a.c2 * b.c2, 0, c);
  }

  lemma AssocRow(a: int, b: EF, c: EF)
    ensures (a * b.c0) * c.c0 == a * (b.c0 * c.c0) && (a * b.c0) * c.c1 == a * (b.c0 * c.c1)
    ensures (a * b.c0) * c.c2 == a * (b.c0 * c.c2) && (a * b.c1) * c.c0 == a * (b.c1 * c.c0)
    ensures (a * b.c1) * c.c1 == a * (b.c1 * c.c1) && (a * b.c1) * c.c2 == a * (b.c1 * c.c2)
    ensures (a * b.c2) * c.c0 == a * (b.c2 * c.c0) && (a * b.c2) * c.c1 == a * (b.c2 * c.c1)
    ensures (a * b.c2) * c.c2 == a * (b.c2 * c.c2)
  {
    MulAssoc(a, b.c0, c.c0);
    MulAssoc(a, b.c0, c.c1);
    MulAssoc(a, b.c0, c.c2);
    MulAssoc(a, b.c1, c.c0);
    MulAssoc(a, b.c1, c.c1);
    MulAssoc(a, b.c1, c.c2);
    MulAssoc(a, b.c2, c.c0);
    MulAssoc(a, b.c2, c.c1);
    MulAssoc(a, b.c2, c.c2);
  }

  lemma ZMulAssoc(a: EF, b: EF, c: EF)
    ensures ZMul(ZMul(a, b), c) == ZMul(a, ZMul(b, c))
  {
    SpreadProduct(a, b, c.c0);
    SpreadProduct(a, b, c.c1);
    SpreadProduct(a, b, c.c2);
    SpreadProduct(b, c, a.c0);
    SpreadProduct(b, c, a.c1);
    SpreadProduct(b, c, a.c2);
    AssocRow(a.c0, b, c);
    AssocRow(a.c1, b, c);
    AssocRow(a.c2, b, c);
  }

  lemma DistributeRow(a: int, b: EF, c: EF)
    ensures a * (b.c0 + c.c0) == a * b.c0 + a * c.c0
    ensures a * (b.c1 + c.c1) == a * b.c1 + a * c.c1
    ensures a * (b.c2 + c.c2) == a * b.c2 + a * c.c2
  {
    Spread(b.c0, c.c0, 0, 0, 0, a);
    Spread(b.c1, c.c1, 0, 0, 0, a);
    Spread(b.c2, c.c2, 0, 0, 0, a);
  }

  lemma ZMulAdd(a: EF, b: EF, c: EF)
    ensures ZMul(a, ZAdd(b, c)) == ZAdd(ZMul(a, b), ZMul(a, c))
  {
    DistributeRow(a.c0, b, c);
    DistributeRow(a.c1, b, c);
    DistributeRow(a.c2, b, c);
  }

  /** ef_mul is commutative. */
  lemma EfMulComm(a: EF, b: EF)
    ensures EfMul(a, b) == EfMul(b, a)
  {
    RedMul(a, b);
    RedMul(b, a);
    ZMulComm(a, b);
  }

  /** ef_mul is associative, on all integer triples, reduced or not. */
  lemma EfMulAssoc(a: EF, b: EF, c: EF)
    ensures EfMul(EfMul(a, b), c) == EfMul(a, EfMul(b, c))
  {
    RedMul(a, b);
    RedMul(b, c);
    RedMul(EfMul(a, b), c);
    RedMul(a, EfMul(b, c));
    RedIdempotent(ZMul(a, b));
    RedIdempotent(ZMul(b, c));
    RedMulCong(EfMul(a, b), ZMul(a, b), c, c);
    RedMulCong(a, a, EfMul(b, c), ZMul(b, c));
    ZMulAssoc(a, b, c);
  }

  /** ef_mul distributes over ef_add. */
  lemma EfMulDistributes(a: EF, b: EF, c: EF)
    ensures EfMul(a, EfAdd(b, c)) == EfAdd(EfMul(a, b), EfMul(a, c))
  {
    RedAdd(b, c);
    RedMul(a, b);
    RedMul(a, c);
    RedMul(a, EfAdd(b, c));
    RedAdd(EfMul(a, b), EfMul(a, c));
    RedIdempotent(ZAdd(b, c));
    RedIdempotent(ZMul(a, b));
    RedIdempotent(ZMul(a, c));
    RedMulCong(a, a, EfAdd(b, c), ZAdd(b, c));
    RedAddCong(EfMul(a, b), ZMul(a, b), EfMul(a, c), ZMul(a, c));
    ZMulAdd(a, b, c);
  }

  lemma EfMulOne(a: EF)
    ensures EfMul(ONE, a) == Red(a) && EfMul(a, ONE) == Red(a)
  {
    RedMul(ONE, a);
    EfMulComm(ONE, a);
    assert ZMul(ONE, a) == a;
  }

  lemma EfMulCanonical(a: EF, b: EF)
    ensures Canonical(EfMul(a, b)) && Canonical(EfAdd(a, b))
  {
    RedMul(a, b);
    RedAdd(a, b);
  }

  // ----- Scalars -----

  lemma ScaleCong(s: int, t: int, e: EF)
    requires Cong(s, t, P)
    ensures Red(ZScale(s, e)) == Red(ZScale(t, e))
  {
    CongMul(s, t, e.c0, e.c0, P);
    CongMul(s, t, e.c1, e.c1, P);
    CongMul(s, t, e.c2, e.c2, P);
  }

  lemma RedScaleCong(s: int, e: EF, e': EF)
    requires Red(e) == Red(e')
    ensures Red(ZScale(s, e)) == Red(ZScale(s, e'))
  {
    CongScale(s, e.c0, e'.c0, P);
    CongScale(s, e.c1, e'.c1, P);
    CongScale(s, e.c2, e'.c2, P);
  }

  lemma ZMulBase(e: EF, s: int)
    ensures ZMul(e, FromBase(s)) == ZScale(s, e)
  {
  }

  lemma ScaleRow(h: int, a: int, x: int, b: int, y: int, c: int, z: int)
    ensures (h * a) * x + (h * b) * y + (h * c) * z == h * (a * x + b * y + c * z)
  {
    MulAssoc(h, a, x);
    MulAssoc(h, b, y);
    MulAssoc(h, c, z);
  }

  lemma ZScaleMul(h: int, a: EF, b: EF)
    ensures ZMul(ZScale(h, a), b) == ZScale(h, ZMul(a, b))
  {
    DistributeThree(ZScale(h, a), b);
    DistributeThree(a, b);
    ScaleRow(h, a.c0, b.c0, a.c1, b.c2, a.c2, b.c1);
    ScaleRow(h, a.c0, b.c1, a.c1, b.c0 + b.c2, a.c2, b.c1 + b.c2);
    ScaleRow(h, a.c0, b.c2, a.c1, b.c1, a.c2, b.c0 + b.c2);
  }

  lemma ZMulScale(a: EF, b: EF, h: int)
    ensures ZMul(a, ZScale(h, b)) == ZMul(ZScale(h, a), b)
  {
    MulScaleComponents(a.c0, b.c0, h);
    MulScaleComponents(a.c0, b.c1, h);
    MulScaleComponents(a.c0, b.c2, h);
    MulScaleComponents(a.c1, b.c0, h);
    MulScaleComponents(a.c1, b.c1, h);
    MulScaleComponents(a.c1, b.c2, h);
    MulScaleComponents(a.c2, b.c0, h);
    MulScaleComponents(a.c2, b.c1, h);
    MulScaleComponents(a.c2, b.c2, h);
  }

  lemma MulScaleComponents(a: int, b: int, h: int)
    ensures a * (h * b) == (h * a) * b
  {
  }

  lemma ScaleProduct(h: int, d: EF, x: EF)
    ensures EfMul(EfScalarMul(h, d), x) == EfScalarMul(h, EfMul(d, x))
  {
    hide EfMul, EfScalarMul, ZMul, Red;
    RedScale(h, d);
    RedMul(EfScalarMul(h, d), x);
    RedIdempotent(ZScale(h, d));
    RedMulCong(EfScalarMul(h, d), ZScale(h, d), x, x);
    ZScaleMul(h, d, x);
    RedScale(h, EfMul(d, x));
    RedMul(d, x);
    RedIdempotent(ZMul(d, x));
    RedScaleCong(h, EfMul(d, x), ZMul(d, x));
  }

  // ----- Powers -----

  /** The n-fold product of a. */
  function EfPower(a: EF, n: nat): EF {
    if n == 0 then ONE else EfMul(EfPower(a, n - 1), a)
  }

  lemma {:induction false} EfPowerCanonical(a: EF, n: nat)
    ensures Canonical(EfPower(a, n))
  {
    if n > 0 {
      EfMulCanonical(EfPower(a, n - 1), a);
    }
  }

  lemma {:induction false} EfPowerSquare(a: EF, n: nat)
    ensures EfPower(EfMul(a, a), n) == EfPower(a, 2 * n)
  {
    if n > 0 {
      EfPowerSquare(a, n - 1);
      assert EfPower(a, 2 * n - 1) == EfMul(EfPower(a, 2 * n - 2), a);
      EfMulAssoc(EfPower(a, 2 * n - 2), a, a);
    }
  }

  lemma EfPowerFront(a: EF, n: nat)
    requires n > 0
    ensures EfPower(a, n) == EfMul(a, EfPower(a, n - 1))
  {
    EfMulComm(a, EfPower(a, n - 1));
  }

  /** ef_pow: square-and-multiply computes the n-fold product, and 1 for a non-positive exponent. */
  method EfPow(a: EF, n: int) returns (r: EF)
    ensures r == EfPower(a, if n < 0 then 0 else n)
  {
    hide EfMul, Red;
    if n == 0 {
      return ONE;
    }
    var result, base, k := ONE, a, n;
    ghost var target := EfPower(a, if n < 0 then 0 else n);
    EfPowerCanonical(a, if n < 0 then 0 else n);
    EfMulOne(target);
    RedIdempotent(target);
    while k > 0
      invariant Canonical(result)
      invariant EfMul(result, EfPower(base, if k < 0 then 0 else k)) == target
    {
      ghost var h := k / 2;
      EfPowerSquare(base, h);
      if k % 2 == 1 {
        EfPowerFront(base, k);
        EfMulAssoc(result, base, EfPower(base, k - 1));
        EfMulCanonical(result, base);
        result := EfMul(result, base);
      }
      base := EfMul(base, base);
      k := k / 2;
    }
    EfMulOne(result);
    RedIdempotent(result);
    r := result;
  }
}
