// Polynomials over the cubic extension, as three integer coefficient lists,
// and what one FRI fold does to them.
module FriPoly {
  import opened ModArith
  import opened Goldilocks
  import opened Gfp3
  import opened Gfp3Field

  // ----- Integer polynomials -----

  /** f[0] + f[1]*x + f[2]*x^2 + ..., over the unbounded integers. */
  function Eval(f: seq<int>, x: int): int {
    if f == [] then 0 else f[0] + x * Eval(f[1..], x)
  }

  function Even(f: seq<int>): (r: seq<int>)
    requires |f| % 2 == 0
    ensures 2 * |r| == |f|
  {
    if f == [] then [] else [f[0]] + Even(f[2..])
  }

  function Odd(f: seq<int>): (r: seq<int>)
    requires |f| % 2 == 0
    ensures 2 * |r| == |f|
  {
    if f == [] then [] else [f[1]] + Odd(f[2..])
  }

  /** f(x) = Even(x^2) + x * Odd(x^2). */
  lemma {:induction false} EvalSplit(f: seq<int>, x: int)
    requires |f| % 2 == 0
    ensures Eval(f, x) == Eval(Even(f), x * x) + x * Eval(Odd(f), x * x)
    decreases |f|
  {
    if f != [] {
      EvalSplit(f[2..], x);
      assert f[1..][1..] == f[2..];
      var e, o := Eval(Even(f[2..]), x * x), Eval(Odd(f[2..]), x * x);
      assert Even(f)[1..] == Even(f[2..]) && Odd(f)[1..] == Odd(f[2..]);
      assert Eval(f, x) == f[0] + x * (f[1] + x * (e + x * o));
      SplitStep(f[0], f[1], x, e, o);
    }
  }

  /** The polynomial with the given even and odd parts. */
  function Interleave(e: seq<int>, o: seq<int>): (r: seq<int>)
    requires |e| == |o|
    ensures |r| == 2 * |e|
  {
    if e == [] then [] else [e[0], o[0]] + Interleave(e[1..], o[1..])
  }

  lemma {:induction false} EvalInterleave(e: seq<int>, o: seq<int>, x: int)
    requires |e| == |o|
    ensures Eval(Interleave(e, o), x) == Eval(e, x * x) + x * Eval(o, x * x)
    decreases |e|
  {
    if e != [] {
      var rest := Interleave(e[1..], o[1..]);
      EvalInterleave(e[1..], o[1..], x);
      var f := Interleave(e, o);
      assert f[1..] == [o[0]] + rest && f[1..][1..] == rest;
      SplitStep(e[0], o[0], x, Eval(e[1..], x * x), Eval(o[1..], x * x));
    }
  }

  lemma SplitStep(a: int, b: int, x: int, e: int, o: int)
    ensures a + x * (b + x * (e + x * o)) == (a + (x * x) * e) + x * (b + (x * x) * o)
  {
    assert x * (e + x * o) == x * e + (x * x) * o;
    assert x * (b + (x * e + (x * x) * o)) == x * b + (x * x) * e + x * ((x * x) * o);
  }

  lemma {:induction false} EvalCong(f: seq<int>, x: int, y: int)
    requires Cong(x, y, P)
    ensures Cong(Eval(f, x), Eval(f, y), P)
    decreases |f|
  {
    if f != [] {
      EvalCong(f[1..], x, y);
      CongMul(x, y, Eval(f[1..], x), Eval(f[1..], y), P);
      CongAdd(f[0], f[0], x * Eval(f[1..], x), y * Eval(f[1..], y), P);
    }
  }

  /** The polynomial f(s*x): coefficient i is multiplied by s^i. */
  function Stretch(s: int, f: seq<int>): (r: seq<int>)
    ensures |r| == |f|
  {
    if f == [] then [] else [f[0]] + Combine(s, Stretch(s, f[1..]), 0, Stretch(s, f[1..]), 0, Stretch(s, f[1..]))
  }

  /** u*f + v*g + w*h, coefficient by coefficient. */
  function Combine(u: int, f: seq<int>, v: int, g: seq<int>, w: int, h: seq<int>): (r: seq<int>)
    requires |f| == |g| == |h|
    ensures |r| == |f|
  {
    seq(|f|, i requires 0 <= i < |f| => u * f[i] + v * g[i] + w * h[i])
  }

  lemma {:induction false} EvalCombine(u: int, f: seq<int>, v: int, g: seq<int>, w: int, h: seq<int>, x: int)
    requires |f| == |g| == |h|
    ensures Eval(Combine(u, f, v, g, w, h), x) == u * Eval(f, x) + v * Eval(g, x) + w * Eval(h, x)
    decreases |f|
  {
    if f != [] {
      EvalCombine(u, f[1..], v, g[1..], w, h[1..], x);
      assert Combine(u, f, v, g, w, h)[1..] == Combine(u, f[1..], v, g[1..], w, h[1..]);
      CombineStep(u, f[0], Eval(f[1..], x), v, g[0], Eval(g[1..], x), w, h[0], Eval(h[1..], x), x);
    }
  }

  lemma CombineStep(u: int, a: int, e: int, v: int, b: int, f: int, w: int, c: int, g: int, x: int)
    ensures u * a + v * b + w * c + x * (u * e + v * f + w * g)
         == u * (a + x * e) + v * (b + x * f) + w * (c + x * g)
  {
    assert x * (u * e + v * f + w * g) == x * (u * e) + x * (v * f) + x * (w * g);
    assert x * (u * e) == u * (x * e) && x * (v * f) == v * (x * f) && x * (w * g) == w * (x * g);
  }

  lemma {:induction false} EvalStretch(s: int, f: seq<int>, x: int)
    ensures Eval(Stretch(s, f), x) == Eval(f, s * x)
    decreases |f|
  {
    if f != [] {
      EvalStretch(s, f[1..], x);
      var t := Stretch(s, f[1..]);
      assert Stretch(s, f)[1..] == Combine(s, t, 0, t, 0, t);
      EvalCombine(s, t, 0, t, 0, t, x);
      assert x * (s * Eval(t, x)) == (s * x) * Eval(t, x);
    }
  }

  function Zeros(n: nat): seq<int> { seq(n, i => 0) }

  lemma {:induction false} EvalZeros(n: nat, x: int)
    ensures Eval(Zeros(n), x) == 0
  {
    if n > 0 {
      assert Zeros(n)[1..] == Zeros(n - 1);
      EvalZeros(n - 1, x);
    }
  }

  /** The same polynomial with zero coefficients up to n. */
  function PadTo(f: seq<int>, n: nat): (r: seq<int>)
    requires |f| <= n
    ensures |r| == n
  {
    f + Zeros(n - |f|)
  }

  lemma {:induction false} EvalPad(f: seq<int>, n: nat, x: int)
    requires |f| <= n
    ensures Eval(PadTo(f, n), x) == Eval(f, x)
    decreases |f|
  {
    EvalZeros(n - |f|, x);
    if f == [] {
      assert PadTo(f, n) == Zeros(n);
    } else {
      EvalPad(f[1..], n - 1, x);
      assert PadTo(f, n)[1..] == PadTo(f[1..], n - 1);
    }
  }

  // ----- Polynomials over the extension -----

  /** Coefficient lists of the three components. */
  datatype Poly = Poly(f0: seq<int>, f1: seq<int>, f2: seq<int>)

  predicate HasLength(f: Poly, n: nat) {
    |f.f0| == n && |f.f1| == n && |f.f2| == n
  }

  predicate AtMost(f: Poly, n: nat) {
    |f.f0| <= n && |f.f1| <= n && |f.f2| <= n
  }

  function EvalEF(f: Poly, x: int): EF {
    EF(Eval(f.f0, x), Eval(f.f1, x), Eval(f.f2, x))
  }

  function PadPoly(f: Poly, n: nat): (r: Poly)
    requires AtMost(f, n)
    ensures HasLength(r, n)
  {
    Poly(PadTo(f.f0, n), PadTo(f.f1, n), PadTo(f.f2, n))
  }

  lemma EvalPadded(f: Poly, n: nat, x: int)
    requires AtMost(f, n)
    ensures EvalEF(PadPoly(f, n), x) == EvalEF(f, x)
  {
    EvalPad(f.f0, n, x);
    EvalPad(f.f1, n, x);
    EvalPad(f.f2, n, x);
  }

  function EvenEF(f: Poly, n: nat): (r: Poly)
    requires HasLength(f, 2 * n)
    ensures HasLength(r, n)
  {
    Poly(Even(f.f0), Even(f.f1), Even(f.f2))
  }

  function OddEF(f: Poly, n: nat): (r: Poly)
    requires HasLength(f, 2 * n)
    ensures HasLength(r, n)
  {
    Poly(Odd(f.f0), Odd(f.f1), Odd(f.f2))
  }

  function AddEF(f: Poly, g: Poly, n: nat): (r: Poly)
    requires HasLength(f, n) && HasLength(g, n)
    ensures HasLength(r, n)
  {
    Poly(Combine(1, f.f0, 1, g.f0, 0, g.f0), Combine(1, f.f1, 1, g.f1, 0, g.f1), Combine(1, f.f2, 1, g.f2, 0, g.f2))
  }

  /** Multiplication of every coefficient by the extension element b. */
  function TimesEF(b: EF, f: Poly, n: nat): (r: Poly)
    requires HasLength(f, n)
    ensures HasLength(r, n)
  {
    Poly(Combine(b.c0, f.f0, b.c2, f.f1, b.c1, f.f2),
         Combine(b.c1, f.f0, b.c0 + b.c2, f.f1, b.c1 + b.c2, f.f2),
         Combine(b.c2, f.f0, b.c1, f.f1, b.c0 + b.c2, f.f2))
  }

  function StretchEF(s: int, f: Poly): Poly {
    Poly(Stretch(s, f.f0), Stretch(s, f.f1), Stretch(s, f.f2))
  }

  lemma EvalTimes(b: EF, f: Poly, n: nat, x: int)
    requires HasLength(f, n)
    ensures EvalEF(TimesEF(b, f, n), x) == ZMul(b, EvalEF(f, x))
  {
    var e := EvalEF(f, x);
    EvalCombine(b.c0, f.f0, b.c2, f.f1, b.c1, f.f2, x);
    EvalCombine(b.c1, f.f0, b.c0 + b.c2, f.f1, b.c1 + b.c2, f.f2, x);
    EvalCombine(b.c2, f.f0, b.c1, f.f1, b.c0 + b.c2, f.f2, x);
    ZMulRows(b, e);
  }

  lemma ZMulRows(b: EF, e: EF)
    ensures ZMul(b, e) == EF(b.c0 * e.c0 + b.c2 * e.c1 + b.c1 * e.c2,
                             b.c1 * e.c0 + (b.c0 + b.c2) * e.c1 + (b.c1 + b.c2) * e.c2,
                             b.c2 * e.c0 + b.c1 * e.c1 + (b.c0 + b.c2) * e.c2)
  {
    assert (b.c0 + b.c2) * e.c1 == b.c0 * e.c1 + b.c2 * e.c1;
    assert (b.c1 + b.c2) * e.c2 == b.c1 * e.c2 + b.c2 * e.c2;
    assert (b.c0 + b.c2) * e.c2 == b.c0 * e.c2 + b.c2 * e.c2;
  }

  lemma EvalAdd(f: Poly, g: Poly, n: nat, x: int)
    requires HasLength(f, n) && HasLength(g, n)
    ensures EvalEF(AddEF(f, g, n), x) == ZAdd(EvalEF(f, x), EvalEF(g, x))
  {
    EvalCombine(1, f.f0, 1, g.f0, 0, g.f0, x);
    EvalCombine(1, f.f1, 1, g.f1, 0, g.f1, x);
    EvalCombine(1, f.f2, 1, g.f2, 0, g.f2, x);
  }

  lemma EvalSplitEF(f: Poly, n: nat, x: int)
    requires HasLength(f, 2 * n)
    ensures EvalEF(f, x) == ZAdd(EvalEF(EvenEF(f, n), x * x), ZScale(x, EvalEF(OddEF(f, n), x * x)))
  {
    EvalSplit(f.f0, x);
    EvalSplit(f.f1, x);
    EvalSplit(f.f2, x);
  }

  lemma EvalCongEF(f: Poly, x: int, y: int)
    requires Cong(x, y, P)
    ensures Red(EvalEF(f, x)) == Red(EvalEF(f, y))
  {
    EvalCong(f.f0, x, y);
    EvalCong(f.f1, x, y);
    EvalCong(f.f2, x, y);
  }

  lemma EvalStretchEF(s: int, f: Poly, x: int)
    ensures EvalEF(StretchEF(s, f), x) == EvalEF(f, s * x)
  {
    EvalStretch(s, f.f0, x);
    EvalStretch(s, f.f1, x);
    EvalStretch(s, f.f2, x);
  }

  // ----- One fold -----

  /** fri_fold_arity2: half the sum plus beta times the halved difference times 1/(2X). */
  function FoldArity2(vPlus: EF, vMinus: EF, beta: EF, xInv2: EF): EF {
    var inv2 := FInv(2);
    var halfSum := EfScalarMul(inv2, EfAdd(vPlus, vMinus));
    var halfDiff := EfScalarMul(inv2, EfSub(vPlus, vMinus));
    var correction := EfMul(beta, EfMul(halfDiff, xInv2));
    EfAdd(halfSum, correction)
  }

  /** What the source documents: half the sum plus beta times the difference times 1/(2X). */
  function FoldDocumented(vPlus: EF, vMinus: EF, beta: EF, xInv2: EF): EF {
    EfAdd(EfScalarMul(FInv(2), EfAdd(vPlus, vMinus)), EfMul(beta, EfMul(EfSub(vPlus, vMinus), xInv2)))
  }

  /** A canonical number equal to its own half modulo P is zero. */
  lemma OwnHalf(c: int)
    requires 0 <= c < P
    ensures (FInv(2) * c) % P == c <==> c == 0
  {
    var h := FInv(2);
    ModSmall(2, P);
    FInvCorrect(2);
    ModSmall(c, P);
    ModSmall(0, P);
    if (h * c) % P == c {
      CongScale(2, h * c, c, P);
      CongMul(2 * h, 1, c, c, P);
      MulAssoc(2, h, c);
      var k := CongWitness(2 * c, c, P);
      SmallMultiple(k, P);
    }
  }

  /**
   * The code computes the documented fold exactly when the two values agree, or the challenge or 1/(2X)
   * is zero in the field, so that there is no correction to halve twice.
   */
  lemma FoldAsDocumented(vPlus: EF, vMinus: EF, beta: EF, xInv2: EF)
    ensures FoldArity2(vPlus, vMinus, beta, xInv2) == FoldDocumented(vPlus, vMinus, beta, xInv2)
       <==> Red(vPlus) == Red(vMinus) || Red(beta) == ZERO || Red(xInv2) == ZERO
  {
    hide EfMul, EfAdd, EfSub, EfScalarMul, FInv, Canonical, Red;
    var h, d := FInv(2), EfSub(vPlus, vMinus);
    var m := EfMul(d, xInv2);
    ScaleProduct(h, d, xInv2);
    EfMulComm(beta, EfScalarMul(h, m));
    ScaleProduct(h, m, beta);
    EfMulComm(beta, m);
    EfMulCanonical(beta, m);
    HalvedTerm(EfScalarMul(h, EfAdd(vPlus, vMinus)), EfMul(beta, m));
    NoZeroDivisors(beta, m);
    NoZeroDivisors(d, xInv2);
    EfMulCanonical(d, xInv2);
    RedIdempotent(m);
    ZeroDifference(vPlus, vMinus);
  }

  lemma ZeroDifference(a: EF, b: EF)
    ensures Red(EfSub(a, b)) == EfSub(a, b)
    ensures EfSub(a, b) == ZERO <==> Red(a) == Red(b)
  {
    RedAdd(a, b);
    RedIdempotent(ZSub(a, b));
    ZeroDifferenceMod(a.c0, b.c0, P);
    ZeroDifferenceMod(a.c1, b.c1, P);
    ZeroDifferenceMod(a.c2, b.c2, P);
  }

  lemma ZeroDifferenceMod(a: int, b: int, m: int)
    requires m > 0
    ensures (a - b) % m == 0 <==> a % m == b % m
  {
    ModSmall(0, m);
    if a % m == b % m {
      CongAdd(a, b, b, b, m);
    } else if (a - b) % m == 0 {
      CongAdd(a - b, 0, b, b, m);
    }
  }

  lemma HalvedTerm(s: EF, c: EF)
    requires Canonical(c)
    ensures EfAdd(s, EfScalarMul(FInv(2), c)) == EfAdd(s, c) <==> c == ZERO
  {
    hide FInv;
    var c' := EfScalarMul(FInv(2), c);
    OwnHalf(c.c0);
    OwnHalf(c.c1);
    OwnHalf(c.c2);
    RedScale(FInv(2), c);
    AddCancels(s.c0, c'.c0, c.c0, P);
    AddCancels(s.c1, c'.c1, c.c1, P);
    AddCancels(s.c2, c'.c2, c.c2, P);
  }

  lemma AddCancels(s: int, a: int, b: int, m: int)
    requires 0 <= a < m && 0 <= b < m
    ensures (s + a) % m == (s + b) % m <==> a == b
  {
    if (s + a) % m == (s + b) % m {
      var k := CongWitness(s + a, s + b, m);
      SmallMultiple(k, m);
    }
  }

  /** They differ, for instance, on the values 1 and 0 at X = 1/2 with beta = 1. */
  lemma FoldNotAsDocumented()
    ensures FoldArity2(ONE, ZERO, ONE, ONE) != FoldDocumented(ONE, ZERO, ONE, ONE)
  {
    hide FoldArity2, FoldDocumented;
    FoldAsDocumented(ONE, ZERO, ONE, ONE);
    RedIdempotent(ONE);
    RedIdempotent(ZERO);
  }

  /** The polynomial that a fold with challenge beta evaluates: Even + (beta/2) * Odd. */
  function FoldPoly(f: Poly, beta: EF, n: nat): (r: Poly)
    requires HasLength(f, 2 * n)
    ensures HasLength(r, n)
  {
    AddEF(EvenEF(f, n), TimesEF(ZScale(FInv(2), beta), OddEF(f, n), n), n)
  }

  /** FoldArity2 with every intermediate reduction removed. */
  lemma FoldUnreduced(p: EF, p': EF, q: EF, q': EF, beta: EF, xi: int)
    requires Red(p) == Red(p') && Red(q) == Red(q')
    ensures FoldArity2(p, q, beta, FromBase(xi))
         == Red(ZAdd(ZScale(FInv(2), ZAdd(p', q')), ZMul(beta, ZScale(xi, ZScale(FInv(2), ZSub(p', q'))))))
  {
    var h := FInv(2);
    var halfSum := EfScalarMul(h, EfAdd(p, q));
    var halfDiff := EfScalarMul(h, EfSub(p, q));
    var sum', diff' := ZScale(h, ZAdd(p', q')), ZScale(h, ZSub(p', q'));
    assert Red(halfSum) == Red(sum') && Red(halfDiff) == Red(diff') by {
      RedAdd(p, q);
      RedAddCong(p, p', q, q');
      RedIdempotent(ZAdd(p, q));
      RedIdempotent(ZSub(p, q));
      RedScale(h, EfAdd(p, q));
      RedScale(h, EfSub(p, q));
      RedScaleCong(h, EfAdd(p, q), ZAdd(p', q'));
      RedScaleCong(h, EfSub(p, q), ZSub(p', q'));
      RedIdempotent(ZScale(h, EfAdd(p, q)));
      RedIdempotent(ZScale(h, EfSub(p, q)));
    }
    var x := FromBase(xi);
    var scaled := EfMul(halfDiff, x);
    assert Red(scaled) == Red(ZScale(xi, diff')) by {
      RedMul(halfDiff, x);
      RedMulCong(halfDiff, diff', x, x);
      RedIdempotent(ZMul(halfDiff, x));
      ZMulBase(diff', xi);
    }
    var correction := EfMul(beta, scaled);
    assert Red(correction) == Red(ZMul(beta, ZScale(xi, diff'))) by {
      RedMul(beta, scaled);
      RedMulCong(beta, beta, scaled, ZScale(xi, diff'));
      RedIdempotent(ZMul(beta, scaled));
    }
    RedAdd(halfSum, correction);
    RedAddCong(halfSum, sum', correction, ZMul(beta, ZScale(xi, diff')));
  }

  lemma HalfIdentities(e: EF, o: EF, x: int, h: int, xi: int)
    ensures ZScale(h, ZAdd(ZAdd(e, ZScale(x, o)), ZAdd(e, ZScale(-x, o)))) == ZScale(2 * h, e)
    ensures ZScale(xi, ZScale(h, ZSub(ZAdd(e, ZScale(x, o)), ZAdd(e, ZScale(-x, o)))))
         == ZScale((2 * x) * xi, ZScale(h, o))
  {
    HalfIdentity(e.c0, o.c0, x, h, xi);
    HalfIdentity(e.c1, o.c1, x, h, xi);
    HalfIdentity(e.c2, o.c2, x, h, xi);
  }

  lemma HalfIdentity(e: int, o: int, x: int, h: int, xi: int)
    ensures h * ((e + x * o) + (e + (-x) * o)) == (2 * h) * e
    ensures xi * (h * ((e + x * o) - (e + (-x) * o))) == ((2 * x) * xi) * (h * o)
  {
    assert (-x) * o == -(x * o);
    assert (e + x * o) - (e + (-x) * o) == (2 * x) * o;
    assert xi * (h * ((2 * x) * o)) == ((2 * x) * xi) * (h * o);
  }

  /**
   * One fold halves the number of coefficients. If p and q are the values of f at x and
   * at -x, and xi is 1/(2x), the fold is the value at x^2 of FoldPoly(f, beta).
   */
  lemma FoldEvaluates(f: Poly, n: nat, beta: EF, x: int, y: int, p: EF, q: EF, xi: int)
    requires HasLength(f, 2 * n)
    requires Cong(y, -x, P) && Cong((2 * x) * xi, 1, P)
    requires Red(p) == Red(EvalEF(f, x)) && Red(q) == Red(EvalEF(f, y))
    ensures FoldArity2(p, q, beta, FromBase(xi)) == Red(EvalEF(FoldPoly(f, beta, n), x * x))
  {
    var h := FInv(2);
    var e, o := EvalEF(EvenEF(f, n), x * x), EvalEF(OddEF(f, n), x * x);
    var p', q' := ZAdd(e, ZScale(x, o)), ZAdd(e, ZScale(-x, o));
    EvalSplitEF(f, n, x);
    EvalCongEF(f, y, -x);
    assert (-x) * (-x) == x * x;
    EvalSplitEF(f, n, -x);
    FoldUnreduced(p, p', q, q', beta, xi);
    HalfIdentities(e, o, x, h, xi);
    var w := ZScale(h, o);
    assert Red(ZScale(2 * h, e)) == Red(e) by {
      ModSmall(2, P);
      FInvCorrect(2);
      ScaleCong(2 * h, 1, e);
      assert ZScale(1, e) == e;
    }
    assert Red(ZMul(beta, ZScale((2 * x) * xi, w))) == Red(ZMul(beta, w)) by {
      ScaleCong((2 * x) * xi, 1, w);
      assert ZScale(1, w) == w;
      RedMulCong(beta, beta, ZScale((2 * x) * xi, w), w);
    }
    RedAddCong(ZScale(2 * h, e), e, ZMul(beta, ZScale((2 * x) * xi, w)), ZMul(beta, w));
    var b := ZScale(h, beta);
    ZMulScale(beta, o, h);
    EvalTimes(b, OddEF(f, n), n, x * x);
    EvalAdd(EvenEF(f, n), TimesEF(b, OddEF(f, n), n), n, x * x);
  }

}
