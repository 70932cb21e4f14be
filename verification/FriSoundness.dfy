// The converse of low-degree acceptance: if the commit phase ends in a constant layer for
// every challenger, the initial layer holds a polynomial of low degree.
//
// A fold is a polynomial in the challenge, with coefficients that do not depend on it. They are
// recovered from folds with as many distinct challenges, and the layer from them, one component
// of the extension at a time.
module FriSoundness {
  import opened Results
  import opened ModArith
  import opened NumberTheory
  import opened Goldilocks
  import opened Gfp3
  import opened FriDomain
  import opened FriPoly
  import opened Interpolation
  import opened FriFold
  import opened Fri
  import opened FriTheorems

  // ----- Components -----

  /** Component k of an extension element, for k = 0, 1, 2. */
  function Part(e: EF, k: int): int { if k == 0 then e.c0 else if k == 1 then e.c1 else e.c2 }

  function Coeffs(f: Poly, k: int): seq<int> { if k == 0 then f.f0 else if k == 1 then f.f1 else f.f2 }

  lemma PartsCong(a: EF, b: EF, k: int)
    requires Red(a) == Red(b)
    ensures Cong(Part(a, k), Part(b, k), P)
  {
  }

  // ----- Folds as polynomials in the challenge -----

  /** The coefficients, in the challenge, of the fold of a pair. */
  function PairCoeffs(p: EF, q: EF, xi: int): (cs: seq<EF>)
    ensures |cs| == 2
  {
    [ZScale(FInv(2), ZAdd(p, q)), ZScale(xi, ZScale(FInv(2), ZSub(p, q)))]
  }

  lemma PairIsHorner(p: EF, q: EF, beta: EF, xi: int)
    ensures FoldArity2(p, q, beta, FromBase(xi)) == Red(ZHorner(PairCoeffs(p, q, xi), beta))
  {
    hide FoldArity2, ZMul, Red, FInv, ZAdd, ZSub, ZScale;
    FoldUnreduced(p, p, q, q, beta, xi);
    var cs := PairCoeffs(p, q, xi);
    assert cs[1..] == [cs[1]];
  }

  /** The coefficients, in the challenge, of the two-stage fold of a quadruple. */
  function QuadCoeffs(v0: EF, v1: EF, v2: EF, v3: EF, xi0: int, xi2: int, eta: int): (cs: seq<EF>)
    ensures |cs| == 4
  {
    var a, b := PairCoeffs(v0, v1, xi0), PairCoeffs(v2, v3, xi2);
    var even, odd := PairCoeffs(a[0], b[0], eta), PairCoeffs(a[1], b[1], eta);
    [even[0], odd[0], even[1], odd[1]]
  }

  lemma ScaleTimes(h: int, b: EF, e: EF)
    ensures ZScale(h, ZMul(b, e)) == ZMul(b, ZScale(h, e))
  {
    hide ZMul;
    ZMulScale(b, e, h);
    ZScaleMul(h, b, e);
  }

  /** A pair whose entries are a0 + b*a1 and c0 + b*c1: its coefficients are linear in b as well. */
  lemma PairOfLines(a0: EF, a1: EF, c0: EF, c1: EF, b: EF, eta: int)
    ensures var even, odd := PairCoeffs(a0, c0, eta), PairCoeffs(a1, c1, eta);
      PairCoeffs(ZAdd(a0, ZMul(b, a1)), ZAdd(c0, ZMul(b, c1)), eta)
      == [ZAdd(even[0], ZMul(b, odd[0])), ZAdd(even[1], ZMul(b, odd[1]))]
  {
    hide ZMul, FInv;
    var h := FInv(2);
    ZMulAdd(b, a1, c1);
    ZMulSub(b, a1, c1);
    ScaleTimes(h, b, ZAdd(a1, c1));
    ScaleTimes(h, b, ZSub(a1, c1));
    ScaleTimes(eta, b, ZScale(h, ZSub(a1, c1)));
    ScaleSum(h, ZAdd(a0, c0), ZMul(b, ZAdd(a1, c1)));
    ScaleSum(h, ZSub(a0, c0), ZMul(b, ZSub(a1, c1)));
    ScaleSum(eta, ZScale(h, ZSub(a0, c0)), ZScale(h, ZMul(b, ZSub(a1, c1))));
  }

  lemma ScaleSum(h: int, a: EF, b: EF)
    ensures ZScale(h, ZAdd(a, b)) == ZAdd(ZScale(h, a), ZScale(h, b))
  {
    MulDistributes(a.c0, b.c0, h);
    MulDistributes(a.c1, b.c1, h);
    MulDistributes(a.c2, b.c2, h);
  }

  /** (e0 + b*o0) + b^2*(e1 + b*o1), by Horner's rule. */
  lemma CubicHorner(e0: EF, o0: EF, e1: EF, o1: EF, b: EF)
    ensures ZAdd(ZAdd(e0, ZMul(b, o0)), ZMul(ZMul(b, b), ZAdd(e1, ZMul(b, o1)))) == ZHorner([e0, o0, e1, o1], b)
  {
    hide ZMul;
    var cs := [e0, o0, e1, o1];
    var t := ZAdd(e1, ZMul(b, o1));
    assert [e1, o1][1..] == [o1] && [o0, e1, o1][1..] == [e1, o1] && cs[1..] == [o0, e1, o1];
    assert ZHorner([o1], b) == o1;
    assert ZHorner([e1, o1], b) == t;
    assert ZHorner([o0, e1, o1], b) == ZAdd(o0, ZMul(b, t));
    ZMulAssoc(b, b, t);
    ZMulAdd(b, o0, ZMul(b, t));
  }

  lemma QuadIsHorner(group: seq<EF>, beta: EF, x0: int, x2: int)
    requires |group| == 4 && x0 % P != 0 && x2 % P != 0
    ensures FMul(x0, x0) % P != 0
    ensures FoldQuadAt(group, beta, x0, x2)
         == Red(ZHorner(QuadCoeffs(group[0], group[1], group[2], group[3],
                                   InvTwice(x0), InvTwice(x2), InvTwice(FMul(x0, x0))), beta))
  {
    hide FoldArity2, ZMul, Red, FInv, ZAdd, ZSub, ZScale, InvTwice, FMul, EfMul;
    SquareNotZero(x0);
    var xi0, xi2, eta := InvTwice(x0), InvTwice(x2), InvTwice(FMul(x0, x0));
    var a, b := PairCoeffs(group[0], group[1], xi0), PairCoeffs(group[2], group[3], xi2);
    var e0, e1 := ZAdd(a[0], ZMul(beta, a[1])), ZAdd(b[0], ZMul(beta, b[1]));
    assert a[1..] == [a[1]] && b[1..] == [b[1]];
    PairIsHorner(group[0], group[1], beta, xi0);
    PairIsHorner(group[2], group[3], beta, xi2);
    RedIdempotent(e0);
    RedIdempotent(e1);
    SecondStage(Red(e0), Red(e1), a, b, beta, eta);
  }

  lemma SecondStage(p: EF, q: EF, a: seq<EF>, b: seq<EF>, beta: EF, eta: int)
    requires |a| == |b| == 2
    requires Red(p) == Red(ZAdd(a[0], ZMul(beta, a[1]))) && Red(q) == Red(ZAdd(b[0], ZMul(beta, b[1])))
    ensures var even, odd := PairCoeffs(a[0], b[0], eta), PairCoeffs(a[1], b[1], eta);
      FoldArity2(p, q, EfMul(beta, beta), FromBase(eta)) == Red(ZHorner([even[0], odd[0], even[1], odd[1]], beta))
  {
    hide FoldArity2, ZMul, Red, ZAdd, EfMul, PairCoeffs, ZHorner;
    var e0, e1 := ZAdd(a[0], ZMul(beta, a[1])), ZAdd(b[0], ZMul(beta, b[1]));
    var even, odd := PairCoeffs(a[0], b[0], eta), PairCoeffs(a[1], b[1], eta);
    var cs := PairCoeffs(e0, e1, eta);
    UnreducedPair(p, e0, q, e1, EfMul(beta, beta), eta);
    PairOfLines(a[0], a[1], b[0], b[1], beta, eta);
    RedMul(beta, beta);
    RedIdempotent(ZMul(beta, beta));
    RedMulLeft(EfMul(beta, beta), ZMul(beta, beta), cs[1]);
    RedAddCong(cs[0], cs[0], ZMul(EfMul(beta, beta), cs[1]), ZMul(ZMul(beta, beta), cs[1]));
    CubicHorner(even[0], odd[0], even[1], odd[1], beta);
  }

  lemma UnreducedPair(p: EF, p': EF, q: EF, q': EF, beta: EF, xi: int)
    requires Red(p) == Red(p') && Red(q) == Red(q')
    ensures FoldArity2(p, q, beta, FromBase(xi)) == Red(ZAdd(PairCoeffs(p', q', xi)[0],
                                                             ZMul(beta, PairCoeffs(p', q', xi)[1])))
  {
    hide FoldArity2, ZMul, Red, FInv, ZAdd, ZSub, ZScale;
    FoldUnreduced(p, p', q, q', beta, xi);
  }

  // ----- Undoing a fold -----

  /** The two entries of a pair, from half their sum and the scaled half of their difference. */
  lemma Unhalve(u: int, v: int, x: int, xi: int, h: int, m: int)
    requires m > 0 && Cong(2 * h, 1, m) && Cong((2 * x) * xi, 1, m)
    ensures var c, d := h * (u + v), xi * (h * (u - v));
      Cong(c + (2 * x) * d, u, m) && Cong(c - (2 * x) * d, v, m)
  {
    hide Cong;
    var c, w := h * (u + v), h * (u - v);
    MulAssoc(2 * x, xi, w);
    CongMul((2 * x) * xi, 1, w, w, m);
    CongSelf(c, m);
    CongAdd(c, c, (2 * x) * (xi * w), w, m);
    assert c + w == (2 * h) * u && c - w == (2 * h) * v;
    CongMul(2 * h, 1, u, u, m);
    CongMul(2 * h, 1, v, v, m);
    CongTrans(c + (2 * x) * (xi * w), c + w, u, m);
    CongTrans(c - (2 * x) * (xi * w), c - w, v, m);
  }

  /** The four coefficients of an arity-4 fold as a polynomial in the challenge. */
  datatype Quad = Quad(c0: int, c1: int, c2: int, c3: int)

  function QuadOf(v0: int, v1: int, v2: int, v3: int, xi0: int, xi2: int, eta: int, h: int): Quad {
    var a0, b0 := h * (v0 + v1), xi0 * (h * (v0 - v1));
    var a1, b1 := h * (v2 + v3), xi2 * (h * (v2 - v3));
    Quad(h * (a0 + a1), h * (b0 + b1), eta * (h * (a0 - a1)), eta * (h * (b0 - b1)))
  }

  /** The value at the point y of the polynomial whose fold coefficients are q. */
  function AtPoint(q: Quad, y: int): int { Cubic(q.c0, 2 * q.c1, 2 * q.c2, 4 * q.c3, y, y * y) }

  /** x is y^2 and w is y^4. */
  predicate Powers(y: int, x: int, w: int) { IsSquare(x, y) && IsSquare(w, x) }

  predicate IsSquare(x: int, y: int) { x == y * y }

  /** e0 + e2*y^2 + y * (e1 + e3*y^2), where x is y^2. */
  function Cubic(e0: int, e1: int, e2: int, e3: int, y: int, x: int): int { (e0 + x * e2) + y * (e1 + x * e3) }

  /** One half of a quadruple: entries u at x and v at -x, where s is x^2. */
  lemma RecoverPair(q: Quad, u: int, v: int, x: int, xi: int, s: int, h: int, m: int)
    requires m > 0 && Cong(2 * h, 1, m) && Cong((2 * x) * xi, 1, m) && Cong(s, x * x, m)
    requires Cong(q.c0 + (2 * s) * q.c2, h * (u + v), m) && Cong(q.c1 + (2 * s) * q.c3, xi * (h * (u - v)), m)
    ensures Cong(AtPoint(q, x), u, m) && Cong(AtPoint(q, -x), v, m)
  {
    hide Cong;
    var c, d := h * (u + v), xi * (h * (u - v));
    Unhalve(u, v, x, xi, h, m);
    var y := x * x;
    ScaledSquare(s, y, q.c0, q.c2, c, m);
    ScaledSquare(s, y, q.c1, q.c3, d, m);
    var c', d' := q.c0 + (2 * y) * q.c2, q.c1 + (2 * y) * q.c3;
    CongScale(2 * x, d', d, m);
    CongAdd(c', c, (2 * x) * d', (2 * x) * d, m);
    PointForms(q, x);
    CongTrans(AtPoint(q, x), c + (2 * x) * d, u, m);
    CongTrans(AtPoint(q, -x), c - (2 * x) * d, v, m);
  }

  lemma ScaledSquare(s: int, y: int, a: int, b: int, c: int, m: int)
    requires m > 0 && Cong(s, y, m) && Cong(a + (2 * s) * b, c, m)
    ensures Cong(a + (2 * y) * b, c, m)
  {
    hide Cong;
    CongScale(2, s, y, m);
    CongSelf(b, m);
    CongMul(2 * s, 2 * y, b, b, m);
    CongSelf(a, m);
    CongAdd(a, a, (2 * s) * b, (2 * y) * b, m);
    CongTrans(a + (2 * y) * b, a + (2 * s) * b, c, m);
  }

  lemma PointForms(q: Quad, x: int)
    ensures var y := x * x;
      var c, d := q.c0 + (2 * y) * q.c2, q.c1 + (2 * y) * q.c3;
      AtPoint(q, x) == c + (2 * x) * d && AtPoint(q, -x) == c - (2 * x) * d
  {
    var y := x * x;
    var d := q.c1 + (2 * y) * q.c3;
    assert (-x) * (-x) == y;
    assert 2 * q.c1 + y * (4 * q.c3) == 2 * d;
    assert x * (2 * d) == (2 * x) * d && (-x) * (2 * d) == -((2 * x) * d);
  }

  /** All four entries of a row, from the four coefficients of its fold. */
  lemma RecoverQuad(v0: int, v1: int, v2: int, v3: int, x0: int, x2: int, xi0: int, xi2: int, eta: int, h: int, m: int)
    requires m > 0 && Cong(2 * h, 1, m) && Cong((2 * x0) * xi0, 1, m) && Cong((2 * x2) * xi2, 1, m)
    requires Cong((2 * (x0 * x0)) * eta, 1, m) && Cong(x2 * x2, -(x0 * x0), m)
    ensures var q := QuadOf(v0, v1, v2, v3, xi0, xi2, eta, h);
      && Cong(AtPoint(q, x0), v0, m) && Cong(AtPoint(q, -x0), v1, m)
      && Cong(AtPoint(q, x2), v2, m) && Cong(AtPoint(q, -x2), v3, m)
  {
    hide Cong, AtPoint;
    var a0, b0 := h * (v0 + v1), xi0 * (h * (v0 - v1));
    var a1, b1 := h * (v2 + v3), xi2 * (h * (v2 - v3));
    var q := QuadOf(v0, v1, v2, v3, xi0, xi2, eta, h);
    var s := x0 * x0;
    Unhalve(a0, a1, s, eta, h, m);
    Unhalve(b0, b1, s, eta, h, m);
    CongSelf(s, m);
    RecoverPair(q, v0, v1, x0, xi0, s, h, m);
    assert (2 * -s) * q.c2 == -((2 * s) * q.c2) && (2 * -s) * q.c3 == -((2 * s) * q.c3);
    CongSymmetric(x2 * x2, -s, m);
    RecoverPair(q, v2, v3, x2, xi2, -s, h, m);
  }

  // ----- Building a polynomial -----

  /** f times k, coefficient by coefficient. */
  function Times(k: int, f: seq<int>): (r: seq<int>)
    ensures |r| == |f|
  {
    Combine(k, f, 0, f, 0, f)
  }

  lemma TimesCong(k: int, f: seq<int>, z: int, c: int)
    requires Cong(Eval(f, z), c, P)
    ensures Cong(Eval(Times(k, f), z), k * c, P)
  {
    hide Cong, Eval;
    EvalCombine(k, f, 0, f, 0, f, z);
    CongScale(k, Eval(f, z), c, P);
  }

  /** The polynomial whose folds have the coefficients p0, p1, p2, p3; t is the inverse of shift^3. */
  function Build4(p0: seq<int>, p1: seq<int>, p2: seq<int>, p3: seq<int>, t: int): (f: seq<int>)
    requires |p0| == |p1| == |p2| == |p3|
    ensures |f| == 4 * |p0|
  {
    Interleave(Interleave(Stretch(t, p0), Stretch(t, Times(2, p2))),
               Interleave(Stretch(t, Times(2, p1)), Stretch(t, Times(4, p3))))
  }

  lemma NearTrans(t: int, f: seq<int>, y: int, z: int, c: int)
    requires Cong(t * y, z, P) && Cong(Eval(f, z), c, P)
    ensures Cong(Eval(Stretch(t, f), y), c, P)
  {
    EvalStretch(t, f, y);
    EvalCong(f, t * y, z);
  }

  lemma Build4Value(p0: seq<int>, p1: seq<int>, p2: seq<int>, p3: seq<int>, t: int, q: Quad, y: int, x: int, w: int,
                    z: int)
    requires |p0| == |p1| == |p2| == |p3| && Powers(y, x, w) && Cong(t * w, z, P)
    requires Cong(Eval(p0, z), q.c0, P) && Cong(Eval(p1, z), q.c1, P)
    requires Cong(Eval(p2, z), q.c2, P) && Cong(Eval(p3, z), q.c3, P)
    ensures Cong(Eval(Build4(p0, p1, p2, p3, t), y), AtPoint(q, y), P)
  {
    hide Cong, Eval, Times, Stretch, Interleave, AtPoint, Powers;
    TimesCong(2, p1, z, q.c1);
    TimesCong(2, p2, z, q.c2);
    TimesCong(4, p3, z, q.c3);
    Assemble(p0, Times(2, p1), Times(2, p2), Times(4, p3), t, q, y, x, w, z);
  }

  lemma Assemble(b0: seq<int>, b1: seq<int>, b2: seq<int>, b3: seq<int>, t: int, q: Quad, y: int, x: int, w: int,
                 z: int)
    requires |b0| == |b1| == |b2| == |b3| && Powers(y, x, w) && Cong(t * w, z, P)
    requires Cong(Eval(b0, z), q.c0, P) && Cong(Eval(b1, z), 2 * q.c1, P)
    requires Cong(Eval(b2, z), 2 * q.c2, P) && Cong(Eval(b3, z), 4 * q.c3, P)
    ensures Cong(Eval(Interleave(Interleave(Stretch(t, b0), Stretch(t, b2)),
                                 Interleave(Stretch(t, b1), Stretch(t, b3))), y),
                 AtPoint(q, y), P)
  {
    hide Cong, Eval, Stretch, Interleave, Cubic, AtPoint, Powers;
    InterleaveTwice(Stretch(t, b0), Stretch(t, b2), Stretch(t, b1), Stretch(t, b3), y, x, w);
    NearTrans(t, b0, w, z, q.c0);
    NearTrans(t, b1, w, z, 2 * q.c1);
    NearTrans(t, b2, w, z, 2 * q.c2);
    NearTrans(t, b3, w, z, 4 * q.c3);
    PointCongruent(q, y, x, w, Eval(Stretch(t, b0), w), Eval(Stretch(t, b1), w), Eval(Stretch(t, b2), w),
                   Eval(Stretch(t, b3), w), P);
  }

  lemma InterleaveTwice(a: seq<int>, b: seq<int>, c: seq<int>, d: seq<int>, y: int, x: int, w: int)
    requires |a| == |b| == |c| == |d| && Powers(y, x, w)
    ensures Eval(Interleave(Interleave(a, b), Interleave(c, d)), y)
         == Cubic(Eval(a, w), Eval(c, w), Eval(b, w), Eval(d, w), y, x)
  {
    hide Eval, Interleave, IsSquare, Cubic;
    InterleaveAt(Interleave(a, b), Interleave(c, d), y, x);
    InterleaveAt(a, b, x, w);
    InterleaveAt(c, d, x, w);
    CubicForm(Eval(a, w), Eval(c, w), Eval(b, w), Eval(d, w), y, x, Eval(Interleave(a, b), x),
              Eval(Interleave(c, d), x));
  }

  lemma CubicForm(e0: int, e1: int, e2: int, e3: int, y: int, x: int, e: int, o: int)
    requires e == e0 + x * e2 && o == e1 + x * e3
    ensures e + y * o == Cubic(e0, e1, e2, e3, y, x)
  {
  }

  lemma InterleaveAt(e: seq<int>, o: seq<int>, y: int, x: int)
    requires |e| == |o| && IsSquare(x, y)
    ensures Eval(Interleave(e, o), y) == Eval(e, x) + y * Eval(o, x)
  {
    EvalInterleave(e, o, y);
  }

  lemma PointCongruent(q: Quad, y: int, x: int, w: int, e0: int, e1: int, e2: int, e3: int, m: int)
    requires m > 0 && Powers(y, x, w)
    requires Cong(e0, q.c0, m) && Cong(e1, 2 * q.c1, m) && Cong(e2, 2 * q.c2, m) && Cong(e3, 4 * q.c3, m)
    ensures Cong(Cubic(e0, e1, e2, e3, y, x), AtPoint(q, y), m)
  {
    hide Cong;
    CongScale(x, e2, 2 * q.c2, m);
    CongScale(x, e3, 4 * q.c3, m);
    CongAdd(e0, q.c0, x * e2, x * (2 * q.c2), m);
    CongAdd(e1, 2 * q.c1, x * e3, x * (4 * q.c3), m);
    CongScale(y, e1 + x * e3, 2 * q.c1 + x * (4 * q.c3), m);
    CongAdd(e0 + x * e2, q.c0 + x * (2 * q.c2), y * (e1 + x * e3), y * (2 * q.c1 + x * (4 * q.c3)), m);
  }

  /** The polynomial whose folds have the coefficients p0 and p1; t is the inverse of the shift. */
  function Build2(p0: seq<int>, p1: seq<int>, t: int): (f: seq<int>)
    requires |p0| == |p1|
    ensures |f| == 2 * |p0|
  {
    Interleave(Stretch(t, p0), Stretch(t, Times(2, p1)))
  }

  lemma Build2Value(p0: seq<int>, p1: seq<int>, t: int, c: int, d: int, y: int, x: int, z: int)
    requires |p0| == |p1| && IsSquare(x, y) && Cong(t * x, z, P)
    requires Cong(Eval(p0, z), c, P) && Cong(Eval(p1, z), d, P)
    ensures Cong(Eval(Build2(p0, p1, t), y), c + (2 * y) * d, P)
  {
    hide Cong, Eval, Stretch, Interleave, Times, IsSquare;
    TimesCong(2, p1, z, d);
    NearTrans(t, p0, x, z, c);
    NearTrans(t, Times(2, p1), x, z, 2 * d);
    InterleaveAt(Stretch(t, p0), Stretch(t, Times(2, p1)), y, x);
    LineCong(Eval(Stretch(t, p0), x), Eval(Stretch(t, Times(2, p1)), x), c, d, y, P);
  }

  lemma LineCong(e: int, o: int, c: int, d: int, y: int, m: int)
    requires m > 0 && Cong(e, c, m) && Cong(o, 2 * d, m)
    ensures Cong(e + y * o, c + (2 * y) * d, m)
  {
    hide Cong;
    CongScale(y, o, 2 * d, m);
    CongAdd(e, c, y * o, y * (2 * d), m);
    MulAssoc(y, 2, d);
  }

  // ----- Recovering a layer from its folds -----

  /** The folds of the layer with each of these challenges evaluate polynomials with n coefficients. */
  ghost predicate AreFolds(layer: Layer, a: int, bs: seq<EF>, rs: seq<Poly>, n: nat, logH: nat, shift: int)
    requires IsArity(a) && a < logH <= 32 && |layer| == TwoPow(logH) && shift % P != 0
  {
    && |bs| == |rs| == Arity(a) && PairwiseDistinct(bs)
    && forall i :: 0 <= i < |rs| ==>
         HasLength(rs[i], n) && Evaluates(FoldColumn(layer, a, bs[i], logH, shift), rs[i], logH - a, shift)
  }

  lemma PartOfValue(e: EF, f: Poly, x: int, k: int)
    requires Red(e) == Red(EvalEF(f, x))
    ensures Cong(Part(e, k), Eval(Coeffs(f, k), x), P)
  {
    hide Red, Cong, Eval;
    PartsCong(e, EvalEF(f, x), k);
  }

  /** The challenge-independent coefficients of the fold of row g. */
  function RowCoeffs(layer: Layer, a: int, logH: nat, shift: int, g: nat): (cs: seq<EF>)
    requires IsArity(a) && a < logH <= 32 && |layer| == TwoPow(logH) && shift % P != 0 && g < TwoPow(logH - a)
    ensures |cs| == Arity(a)
  {
    RowBounds(logH);
    if a == 1 then
      PointNotZero(2 * g, logH, shift);
      PairCoeffs(layer[2 * g], layer[2 * g + 1], InvTwice(Point(2 * g, logH, shift)))
    else
      PointNotZero(4 * g, logH, shift);
      PointNotZero(4 * g + 2, logH, shift);
      SquareNotZero(Point(4 * g, logH, shift));
      var x0, x2 := Point(4 * g, logH, shift), Point(4 * g + 2, logH, shift);
      QuadCoeffs(layer[4 * g], layer[4 * g + 1], layer[4 * g + 2], layer[4 * g + 3],
                 InvTwice(x0), InvTwice(x2), InvTwice(FMul(x0, x0)))
  }

  /** Every entry of a column fold is the polynomial with the row's coefficients, at the challenge. */
  lemma FoldIsHorner(layer: Layer, a: int, beta: EF, logH: nat, shift: int, g: nat)
    requires IsArity(a) && a < logH <= 32 && |layer| == TwoPow(logH) && shift % P != 0 && g < TwoPow(logH - a)
    ensures FoldColumn(layer, a, beta, logH, shift)[g] == Red(ZHorner(RowCoeffs(layer, a, logH, shift, g), beta))
  {
    hide FoldColumn, FoldArity2, FoldQuadAt, Point, TwoPow, InvTwice, FMul, PairCoeffs, QuadCoeffs, ZHorner, Red;
    RowBounds(logH);
    if a == 1 {
      var x := Point(2 * g, logH, shift);
      PointNotZero(2 * g, logH, shift);
      ColumnEntry2(layer, beta, logH, shift, g, x);
      PairIsHorner(layer[2 * g], layer[2 * g + 1], beta, InvTwice(x));
    } else {
      var x0, x2 := Point(4 * g, logH, shift), Point(4 * g + 2, logH, shift);
      PointNotZero(4 * g, logH, shift);
      PointNotZero(4 * g + 2, logH, shift);
      ColumnEntry4(layer, beta, logH, shift, g, x0, x2);
      QuadIsHorner([layer[4 * g], layer[4 * g + 1], layer[4 * g + 2], layer[4 * g + 3]], beta, x0, x2);
    }
  }

  /** The coefficients of a row are values of the interpolated polynomials. */
  lemma RowInterpolated(layer: Layer, a: int, bs: seq<EF>, rs: seq<Poly>, n: nat, logH: nat, shift: int, g: nat)
    requires IsArity(a) && a < logH <= 32 && |layer| == TwoPow(logH) && shift % P != 0 && g < TwoPow(logH - a)
    requires AreFolds(layer, a, bs, rs, n, logH, shift)
    ensures var ps := Interpolate(rs, bs, n);
      forall i :: 0 <= i < Arity(a) ==>
        Red(RowCoeffs(layer, a, logH, shift, g)[i]) == Red(EvalEF(ps[i], Point(g, logH - a, shift)))
  {
    hide FoldColumn, Evaluates, Point, TwoPow, RowCoeffs, ZHorner, Red, EvalEF, Interpolate, PairwiseDistinct;
    var cs, z := RowCoeffs(layer, a, logH, shift, g), Point(g, logH - a, shift);
    forall i | 0 <= i < |rs|
      ensures Red(ZHorner(cs, bs[i])) == Red(EvalEF(rs[i], z))
    {
      FoldIsHorner(layer, a, bs[i], logH, shift, g);
      EvaluatesAt(FoldColumn(layer, a, bs[i], logH, shift), rs[i], logH - a, shift, g);
      RedIdempotent(ZHorner(cs, bs[i]));
    }
    InterpolateValues(cs, rs, bs, n, z);
  }

  lemma PairParts(p: EF, q: EF, xi: int, k: int)
    ensures var u, v, h := Part(p, k), Part(q, k), FInv(2);
      Part(PairCoeffs(p, q, xi)[0], k) == h * (u + v) && Part(PairCoeffs(p, q, xi)[1], k) == xi * (h * (u - v))
  {
    hide FInv;
  }

  lemma FieldInverse(n: int)
    requires n % P != 0
    ensures n != 0 && Cong(FInv(n) * n, 1, P)
  {
    FInvCorrect(n);
  }

  /** Both entries of a pair are values of the rebuilt polynomial. */
  lemma PairEntries(layer: Layer, bs: seq<EF>, rs: seq<Poly>, n: nat, t: int, logH: nat, shift: int, g: nat, k: int)
    requires 1 < logH <= 32 && |layer| == TwoPow(logH) && shift % P != 0 && g < TwoPow(logH - 1)
    requires AreFolds(layer, 1, bs, rs, n, logH, shift) && Cong(t * shift, 1, P)
    ensures 2 * g + 1 < |layer|
    ensures var ps := Interpolate(rs, bs, n);
      var f := Build2(Coeffs(ps[0], k), Coeffs(ps[1], k), t);
      && Cong(Eval(f, Point(2 * g, logH, shift)), Part(layer[2 * g], k), P)
      && Cong(Eval(f, Point(2 * g + 1, logH, shift)), Part(layer[2 * g + 1], k), P)
  {
    hide Cong, Eval, Point, TwoPow, InvTwice, FInv, Build2, Interpolate, Part, PairCoeffs, AreFolds, Red, EvalEF,
         Coeffs;
    RowBounds(logH);
    PointNotZero(2 * g, logH, shift);
    FoldCount(layer, 1, bs, rs, n, logH, shift);
    var ps, cs := Interpolate(rs, bs, n), RowCoeffs(layer, 1, logH, shift, g);
    var x, x', z := Point(2 * g, logH, shift), Point(2 * g + 1, logH, shift), Point(g, logH - 1, shift);
    var u, v, h, xi := Part(layer[2 * g], k), Part(layer[2 * g + 1], k), FInv(2), InvTwice(x);
    RowInterpolated(layer, 1, bs, rs, n, logH, shift, g);
    PartOfValue(cs[0], ps[0], z, k);
    PartOfValue(cs[1], ps[1], z, k);
    PairParts(layer[2 * g], layer[2 * g + 1], xi, k);
    PairPoints(g, logH, shift, t);
    InvTwiceCorrect(x);
    PairRebuilt(Coeffs(ps[0], k), Coeffs(ps[1], k), t, u, v, h, xi, x, x', z);
  }

  lemma FoldCount(layer: Layer, a: int, bs: seq<EF>, rs: seq<Poly>, n: nat, logH: nat, shift: int)
    requires IsArity(a) && a < logH <= 32 && |layer| == TwoPow(logH) && shift % P != 0
    requires AreFolds(layer, a, bs, rs, n, logH, shift)
    ensures |bs| == |rs| == Arity(a) && forall i :: 0 <= i < |rs| ==> HasLength(rs[i], n)
    ensures forall i, k :: 0 <= i < |rs| ==> |Coeffs(Interpolate(rs, bs, n)[i], k)| == n
  {
    hide Interpolate;
  }

  lemma PairPoints(g: nat, logH: nat, shift: int, t: int)
    requires 1 < logH <= 32 && Cong(t * shift, 1, P)
    ensures var x := Point(2 * g, logH, shift);
      Cong(Point(2 * g + 1, logH, shift), -x, P) && Cong(t * (x * x), Point(g, logH - 1, shift), P)
  {
    hide Cong, Point;
    var x := Point(2 * g, logH, shift);
    PointPair(g, logH - 1, shift);
    PointSquare(g, logH - 1, shift);
    Unscale(t, shift, x * x, Point(g, logH - 1, shift), P);
  }

  lemma PairRebuilt(p0: seq<int>, p1: seq<int>, t: int, u: int, v: int, h: int, xi: int, x: int, x': int, z: int)
    requires |p0| == |p1| && h == FInv(2) && Cong((2 * x) * xi, 1, P) && Cong(x', -x, P) && Cong(t * (x * x), z, P)
    requires Cong(h * (u + v), Eval(p0, z), P) && Cong(xi * (h * (u - v)), Eval(p1, z), P)
    ensures Cong(Eval(Build2(p0, p1, t), x), u, P) && Cong(Eval(Build2(p0, p1, t), x'), v, P)
  {
    hide Cong, Eval, Build2, FInv;
    var f, c, d := Build2(p0, p1, t), h * (u + v), xi * (h * (u - v));
    ModSmall(2, P);
    FInvCorrect(2);
    Unhalve(u, v, x, xi, h, P);
    NegatedSquare(x);
    CongSymmetric(c, Eval(p0, z), P);
    CongSymmetric(d, Eval(p1, z), P);
    Build2Value(p0, p1, t, c, d, x, x * x, z);
    Build2Value(p0, p1, t, c, d, -x, x * x, z);
    EvalCong(f, x', -x);
    assert (2 * -x) * d == -((2 * x) * d);
    CongTrans(Eval(f, x), c + (2 * x) * d, u, P);
    CongTrans(Eval(f, -x), c - (2 * x) * d, v, P);
    CongTrans(Eval(f, x'), Eval(f, -x), v, P);
  }

  /** If w is s*z and t the inverse of s, then t*w is z. */
  lemma Unscale(t: int, s: int, w: int, z: int, m: int)
    requires m > 0 && Cong(t * s, 1, m) && Cong(w, s * z, m)
    ensures Cong(t * w, z, m)
  {
    hide Cong;
    CongScale(t, w, s * z, m);
    MulAssoc(t, s, z);
    CongSelf(z, m);
    CongMul(t * s, 1, z, z, m);
    CongTrans(t * w, t * (s * z), z, m);
  }

  /** The fourth powers of the four points of a row are the same multiple of the point one level down. */
  lemma FourthPowers(g: int, logH: nat, shift: int, t: int)
    requires 2 < logH <= 32 && Cong(t * (shift * shift * shift), 1, P)
    ensures var x0, x2, z := Point(4 * g, logH, shift), Point(4 * g + 2, logH, shift), Point(g, logH - 2, shift);
      Cong(t * ((x0 * x0) * (x0 * x0)), z, P) && Cong(t * ((x2 * x2) * (x2 * x2)), z, P)
  {
    hide Cong, Point;
    var x0, x2, z := Point(4 * g, logH, shift), Point(4 * g + 2, logH, shift), Point(g, logH - 2, shift);
    QuadPoints(g, logH - 2, shift);
    var s0, s2 := x0 * x0, x2 * x2;
    Unscale(t, shift * shift * shift, s0 * s0, z, P);
    CongMul(s2, -s0, s2, -s0, P);
    assert (-s0) * (-s0) == s0 * s0;
    CongScale(t, s2 * s2, s0 * s0, P);
    CongTrans(t * (s2 * s2), t * (s0 * s0), z, P);
  }

  lemma RowRecovered(layer: Layer, logH: nat, shift: int, g: nat, k: int)
    requires 2 < logH <= 32 && |layer| == TwoPow(logH) && shift % P != 0 && g < TwoPow(logH - 2)
    ensures 4 * g + 3 < |layer|
    ensures var x0, x2 := Point(4 * g, logH, shift), Point(4 * g + 2, logH, shift);
      var q := RowQuad(layer, logH, shift, g, k);
      && Cong(AtPoint(q, x0), Part(layer[4 * g], k), P) && Cong(AtPoint(q, -x0), Part(layer[4 * g + 1], k), P)
      && Cong(AtPoint(q, x2), Part(layer[4 * g + 2], k), P) && Cong(AtPoint(q, -x2), Part(layer[4 * g + 3], k), P)
  {
    hide Cong, Point, InvTwice, FInv, TwoPow, QuadOf, AtPoint, FMul, Part;
    RowBounds(logH);
    PointNotZero(4 * g, logH, shift);
    PointNotZero(4 * g + 2, logH, shift);
    var x0, x2 := Point(4 * g, logH, shift), Point(4 * g + 2, logH, shift);
    SquareNotZero(x0);
    ModSmall(2, P);
    FInvCorrect(2);
    InvTwiceCorrect(x0);
    InvTwiceCorrect(x2);
    QuadPoints(g, logH - 2, shift);
    var eta := InvTwice(FMul(x0, x0));
    InvTwiceCorrect(FMul(x0, x0));
    FMulCong(x0, x0);
    CongScale(2, FMul(x0, x0), x0 * x0, P);
    CongSelf(eta, P);
    CongMul(2 * FMul(x0, x0), 2 * (x0 * x0), eta, eta, P);
    CongTrans((2 * (x0 * x0)) * eta, (2 * FMul(x0, x0)) * eta, 1, P);
    RecoverQuad(Part(layer[4 * g], k), Part(layer[4 * g + 1], k), Part(layer[4 * g + 2], k), Part(layer[4 * g + 3], k),
                x0, x2, InvTwice(x0), InvTwice(x2), eta, FInv(2), P);
  }

  /** The coefficients, in the challenge, of the fold of row g, in component k. */
  function RowQuad(layer: Layer, logH: nat, shift: int, g: nat, k: int): Quad
    requires 2 < logH <= 32 && |layer| == TwoPow(logH) && shift % P != 0 && g < TwoPow(logH - 2)
  {
    RowBounds(logH);
    PointNotZero(4 * g, logH, shift);
    PointNotZero(4 * g + 2, logH, shift);
    SquareNotZero(Point(4 * g, logH, shift));
    var x0, x2 := Point(4 * g, logH, shift), Point(4 * g + 2, logH, shift);
    QuadOf(Part(layer[4 * g], k), Part(layer[4 * g + 1], k), Part(layer[4 * g + 2], k), Part(layer[4 * g + 3], k),
           InvTwice(x0), InvTwice(x2), InvTwice(FMul(x0, x0)), FInv(2))
  }

  lemma QuadParts(layer: Layer, logH: nat, shift: int, g: nat, k: int)
    requires 2 < logH <= 32 && |layer| == TwoPow(logH) && shift % P != 0 && g < TwoPow(logH - 2)
    ensures var cs, q := RowCoeffs(layer, 2, logH, shift, g), RowQuad(layer, logH, shift, g, k);
      Part(cs[0], k) == q.c0 && Part(cs[1], k) == q.c1 && Part(cs[2], k) == q.c2 && Part(cs[3], k) == q.c3
  {
    hide FInv, InvTwice, Point, TwoPow, FMul, PairCoeffs, Part;
    RowBounds(logH);
    PointNotZero(4 * g, logH, shift);
    PointNotZero(4 * g + 2, logH, shift);
    var x0, x2 := Point(4 * g, logH, shift), Point(4 * g + 2, logH, shift);
    SquareNotZero(x0);
    var xi0, xi2, eta := InvTwice(x0), InvTwice(x2), InvTwice(FMul(x0, x0));
    var a := PairCoeffs(layer[4 * g], layer[4 * g + 1], xi0);
    var b := PairCoeffs(layer[4 * g + 2], layer[4 * g + 3], xi2);
    PairParts(layer[4 * g], layer[4 * g + 1], xi0, k);
    PairParts(layer[4 * g + 2], layer[4 * g + 3], xi2, k);
    PairParts(a[0], b[0], eta, k);
    PairParts(a[1], b[1], eta, k);
  }

  function BuildPart(ps: seq<Poly>, n: nat, t: int, k: int): (f: seq<int>)
    requires |ps| == 4 && forall i :: 0 <= i < |ps| ==> HasLength(ps[i], n)
    ensures |f| == 4 * n
  {
    assert HasLength(ps[0], n) && HasLength(ps[1], n) && HasLength(ps[2], n) && HasLength(ps[3], n);
    Build4(Coeffs(ps[0], k), Coeffs(ps[1], k), Coeffs(ps[2], k), Coeffs(ps[3], k), t)
  }

  /** The rebuilt polynomial at a point y of the row, given the fourth power of y. */
  lemma RowValue(layer: Layer, bs: seq<EF>, rs: seq<Poly>, n: nat, t: int, logH: nat, shift: int, g: nat, k: int,
                 y: int)
    requires 2 < logH <= 32 && |layer| == TwoPow(logH) && shift % P != 0 && g < TwoPow(logH - 2)
    requires AreFolds(layer, 2, bs, rs, n, logH, shift)
    requires Cong(t * ((y * y) * (y * y)), Point(g, logH - 2, shift), P)
    ensures Cong(Eval(BuildPart(Interpolate(rs, bs, n), n, t, k), y), AtPoint(RowQuad(layer, logH, shift, g, k), y), P)
  {
    hide Cong, Eval, Point, TwoPow, Build4, RowQuad, AtPoint, Interpolate, AreFolds, RowCoeffs, Part, Red, EvalEF,
         Coeffs;
    FoldCount(layer, 2, bs, rs, n, logH, shift);
    var ps, cs, z := Interpolate(rs, bs, n), RowCoeffs(layer, 2, logH, shift, g), Point(g, logH - 2, shift);
    var q := RowQuad(layer, logH, shift, g, k);
    RowInterpolated(layer, 2, bs, rs, n, logH, shift, g);
    QuadParts(layer, logH, shift, g, k);
    ValueOfPart(cs[0], ps[0], z, k);
    ValueOfPart(cs[1], ps[1], z, k);
    ValueOfPart(cs[2], ps[2], z, k);
    ValueOfPart(cs[3], ps[3], z, k);
    Build4Value(Coeffs(ps[0], k), Coeffs(ps[1], k), Coeffs(ps[2], k), Coeffs(ps[3], k), t, q, y, y * y,
                (y * y) * (y * y), z);
  }

  lemma ValueOfPart(e: EF, f: Poly, x: int, k: int)
    requires Red(e) == Red(EvalEF(f, x))
    ensures Cong(Eval(Coeffs(f, k), x), Part(e, k), P)
  {
    hide Red, Eval;
    PartOfValue(e, f, x, k);
  }

  /** All four entries of a row are values of the rebuilt polynomial. */
  lemma QuadEntries(layer: Layer, bs: seq<EF>, rs: seq<Poly>, n: nat, t: int, logH: nat, shift: int, g: nat, k: int)
    requires 2 < logH <= 32 && |layer| == TwoPow(logH) && shift % P != 0 && g < TwoPow(logH - 2)
    requires AreFolds(layer, 2, bs, rs, n, logH, shift) && Cong(t * (shift * shift * shift), 1, P)
    ensures 4 * g + 3 < |layer| && |rs| == |bs| == 4 && forall i :: 0 <= i < |rs| ==> HasLength(rs[i], n)
    ensures forall i :: 4 * g <= i < 4 * g + 4 ==>
              Cong(Eval(BuildPart(Interpolate(rs, bs, n), n, t, k), Point(i, logH, shift)), Part(layer[i], k), P)
  {
    hide Cong, Eval, Point, TwoPow, BuildPart, RowQuad, AtPoint, AreFolds, Part, Interpolate;
    var x0, x2, f := Point(4 * g, logH, shift), Point(4 * g + 2, logH, shift), [];
    FourthPowers(g, logH, shift, t);
    RowRecovered(layer, logH, shift, g, k);
    FoldCount(layer, 2, bs, rs, n, logH, shift);
    f := BuildPart(Interpolate(rs, bs, n), n, t, k);
    var q := RowQuad(layer, logH, shift, g, k);
    RowValue(layer, bs, rs, n, t, logH, shift, g, k, x0);
    RowValue(layer, bs, rs, n, t, logH, shift, g, k, x2);
    NegatedSquare(x0);
    NegatedSquare(x2);
    RowValue(layer, bs, rs, n, t, logH, shift, g, k, -x0);
    RowValue(layer, bs, rs, n, t, logH, shift, g, k, -x2);
    QuadPoints(g, logH - 2, shift);
    EvalCong(f, Point(4 * g + 1, logH, shift), -x0);
    EvalCong(f, Point(4 * g + 3, logH, shift), -x2);
    CongTrans(Eval(f, x0), AtPoint(q, x0), Part(layer[4 * g], k), P);
    CongTrans(Eval(f, -x0), AtPoint(q, -x0), Part(layer[4 * g + 1], k), P);
    CongTrans(Eval(f, Point(4 * g + 1, logH, shift)), Eval(f, -x0), Part(layer[4 * g + 1], k), P);
    CongTrans(Eval(f, x2), AtPoint(q, x2), Part(layer[4 * g + 2], k), P);
    CongTrans(Eval(f, -x2), AtPoint(q, -x2), Part(layer[4 * g + 3], k), P);
    CongTrans(Eval(f, Point(4 * g + 3, logH, shift)), Eval(f, -x2), Part(layer[4 * g + 3], k), P);
  }

  lemma NegatedSquare(x: int)
    ensures (-x) * (-x) == x * x
  {
  }

  lemma PartsEqual(e: EF, f: Poly, x: int)
    requires forall k :: 0 <= k < 3 ==> Cong(Eval(Coeffs(f, k), x), Part(e, k), P)
    ensures Red(e) == Red(EvalEF(f, x))
  {
    hide Eval;
    assert Cong(Eval(Coeffs(f, 0), x), Part(e, 0), P) && Cong(Eval(Coeffs(f, 1), x), Part(e, 1), P)
      && Cong(Eval(Coeffs(f, 2), x), Part(e, 2), P);
  }

  /** If the arity-4 folds of a layer with any four distinct challenges have n coefficients, the layer has 4n. */
  lemma Unfold4(layer: Layer, bs: seq<EF>, rs: seq<Poly>, n: nat, logH: nat, shift: int) returns (f: Poly)
    requires 2 < logH <= 32 && |layer| == TwoPow(logH) && shift % P != 0 && AreFolds(layer, 2, bs, rs, n, logH, shift)
    ensures HasLength(f, 4 * n) && Evaluates(layer, f, logH, shift)
  {
    hide Cong, Eval, Point, FoldColumn, BuildPart, AreFolds, Part, Red, FInv, TwoPow, Interpolate;
    ProductNotZero(shift, shift);
    ProductNotZero(shift * shift, shift);
    FieldInverse(shift * shift * shift);
    var t := FInv(shift * shift * shift);
    FoldCount(layer, 2, bs, rs, n, logH, shift);
    var ps := Interpolate(rs, bs, n);
    f := Poly(BuildPart(ps, n, t, 0), BuildPart(ps, n, t, 1), BuildPart(ps, n, t, 2));
    forall i | 0 <= i < |layer|
      ensures Red(layer[i]) == Red(EvalEF(f, Point(i, logH, shift)))
    {
      RowBounds(logH);
      var g := i / 4;
      forall k | 0 <= k < 3
        ensures Cong(Eval(Coeffs(f, k), Point(i, logH, shift)), Part(layer[i], k), P)
      {
        QuadEntries(layer, bs, rs, n, t, logH, shift, g, k);
        assert Coeffs(f, k) == BuildPart(ps, n, t, k);
      }
      PartsEqual(layer[i], f, Point(i, logH, shift));
    }
  }

  /** If the arity-2 folds of a layer with any two distinct challenges have n coefficients, the layer has 2n. */
  lemma Unfold2(layer: Layer, bs: seq<EF>, rs: seq<Poly>, n: nat, logH: nat, shift: int) returns (f: Poly)
    requires 1 < logH <= 32 && |layer| == TwoPow(logH) && shift % P != 0 && AreFolds(layer, 1, bs, rs, n, logH, shift)
    ensures HasLength(f, 2 * n) && Evaluates(layer, f, logH, shift)
  {
    hide Cong, Eval, Point, FoldColumn, Build2, AreFolds, Part, Red, FInv, TwoPow, Interpolate;
    FieldInverse(shift);
    var t := FInv(shift);
    FoldCount(layer, 1, bs, rs, n, logH, shift);
    var ps := Interpolate(rs, bs, n);
    f := Poly(Build2(ps[0].f0, ps[1].f0, t), Build2(ps[0].f1, ps[1].f1, t), Build2(ps[0].f2, ps[1].f2, t));
    forall i | 0 <= i < |layer|
      ensures Red(layer[i]) == Red(EvalEF(f, Point(i, logH, shift)))
    {
      RowBounds(logH);
      var g := i / 2;
      assert i == 2 * g || i == 2 * g + 1;
      forall k | 0 <= k < 3
        ensures Cong(Eval(Coeffs(f, k), Point(i, logH, shift)), Part(layer[i], k), P)
      {
        PairEntries(layer, bs, rs, n, t, logH, shift, g, k);
        assert Coeffs(f, k) == Build2(Coeffs(ps[0], k), Coeffs(ps[1], k), t);
      }
      PartsEqual(layer[i], f, Point(i, logH, shift));
    }
  }

  // ----- How many challenges can lower the degree -----

  /** The layer evaluates a polynomial with n coefficients. */
  ghost predicate LowDegree(layer: Layer, n: nat, logH: nat, shift: int) {
    exists f: Poly :: HasLength(f, n) && Evaluates(layer, f, logH, shift)
  }

  /** If as many folds with distinct challenges as the arity are of low degree, so is the layer. */
  lemma LowDegreeFolds(layer: Layer, a: int, bs: seq<EF>, n: nat, logH: nat, shift: int)
    requires IsArity(a) && a < logH <= 32 && |layer| == TwoPow(logH) && shift % P != 0
    requires |bs| == Arity(a) && PairwiseDistinct(bs)
    requires forall i :: 0 <= i < |bs| ==> LowDegree(FoldColumn(layer, a, bs[i], logH, shift), n, logH - a, shift)
    ensures LowDegree(layer, Arity(a) * n, logH, shift)
  {
    hide FoldColumn, Evaluates, TwoPow;
    var rs := FoldPolys(layer, a, bs, n, logH, shift, |bs|);
    if a == 1 {
      var f := Unfold2(layer, bs, rs, n, logH, shift);
    } else {
      var f := Unfold4(layer, bs, rs, n, logH, shift);
    }
  }

  lemma {:induction false} FoldPolys(layer: Layer, a: int, bs: seq<EF>, n: nat, logH: nat, shift: int, k: nat)
    returns (rs: seq<Poly>)
    requires IsArity(a) && a < logH <= 32 && |layer| == TwoPow(logH) && shift % P != 0 && k <= |bs|
    requires forall i :: 0 <= i < |bs| ==> LowDegree(FoldColumn(layer, a, bs[i], logH, shift), n, logH - a, shift)
    ensures |rs| == k
    ensures forall i :: 0 <= i < k ==>
              HasLength(rs[i], n) && Evaluates(FoldColumn(layer, a, bs[i], logH, shift), rs[i], logH - a, shift)
    decreases k
  {
    hide FoldColumn, Evaluates, TwoPow;
    rs := [];
    if k > 0 {
      rs := FoldPolys(layer, a, bs, n, logH, shift, k - 1);
      assert LowDegree(FoldColumn(layer, a, bs[k - 1], logH, shift), n, logH - a, shift);
      var f: Poly :| HasLength(f, n) && Evaluates(FoldColumn(layer, a, bs[k - 1], logH, shift), f, logH - a, shift);
      rs := rs + [f];
    }
  }

  /** Distinct field elements out of a set of them. */
  lemma {:induction false} PickDistinct(good: set<EF>, m: nat) returns (bs: seq<EF>)
    requires |good| >= m && forall b :: b in good ==> Canonical(b)
    ensures |bs| == m && PairwiseDistinct(bs) && forall i :: 0 <= i < m ==> bs[i] in good
    decreases m
  {
    bs := [];
    if m > 0 {
      var b :| b in good;
      var rest := PickDistinct(good - {b}, m - 1);
      bs := rest + [b];
      forall i | 0 <= i < m
        ensures Red(bs[i]) == bs[i]
      {
        RedIdempotent(bs[i]);
      }
    }
  }

  /**
   * Round soundness, with a count: if the layer is not of low degree, fewer challenges than the arity
   * (at most three, or one) make its fold of low degree.
   */
  lemma FewGoodChallenges(layer: Layer, a: int, n: nat, logH: nat, shift: int, good: set<EF>)
    requires IsArity(a) && a < logH <= 32 && |layer| == TwoPow(logH) && shift % P != 0
    requires !LowDegree(layer, Arity(a) * n, logH, shift)
    requires forall b :: b in good ==> Canonical(b) && LowDegree(FoldColumn(layer, a, b, logH, shift), n, logH - a,
                                                                 shift)
    ensures |good| < Arity(a)
  {
    hide LowDegree, FoldColumn, PairwiseDistinct, Canonical;
    if |good| >= Arity(a) {
      var bs := PickDistinct(good, Arity(a));
      LowDegreeFolds(layer, a, bs, n, logH, shift);
    }
  }

  /** The layer before round j, and its height. */
  function LayerAt(layer: Layer, steps: seq<Step>, j: nat): Layer
    requires j <= |steps|
  {
    if j == 0 then layer else steps[j - 1].folded
  }

  /** Round j took a layer that is not of low degree to one that is. */
  ghost predicate Lucky(layer: Layer, steps: seq<Step>, j: nat, logH: nat, shift: int)
    requires j < |steps|
  {
    var h := HeightAfter(logH, steps[..j]);
    && IsArity(steps[j].logArity) && FRI_LOG_BLOWUP <= h - steps[j].logArity
    && !LowDegree(LayerAt(layer, steps, j), TwoPow(h - FRI_LOG_BLOWUP), h, shift)
    && LowDegree(steps[j].folded, TwoPow(h - steps[j].logArity - FRI_LOG_BLOWUP), h - steps[j].logArity, shift)
  }

  lemma LuckyLater(layer: Layer, steps: seq<Step>, j: nat, logH: nat, shift: int)
    requires steps != [] && j < |steps[1..]| && logH >= steps[0].logArity
    requires Lucky(steps[0].folded, steps[1..], j, logH - steps[0].logArity, shift)
    ensures Lucky(layer, steps, j + 1, logH, shift)
  {
    hide LowDegree, TwoPow;
    assert steps[..j + 1][0] == steps[0] && steps[..j + 1][1..] == steps[1..][..j];
    assert j > 0 ==> steps[1..][j - 1] == steps[j];
  }

  /**
   * A layer that is not of low degree ends in a constant layer only if some round is lucky: its challenge
   * is one of the fewer than four that FewGoodChallenges leaves.
   */
  lemma {:induction false} SomeRoundIsLucky(layer: Layer, logH: nat, seen: seq<Layer>, ch: Challenger, shift: int)
    returns (j: nat)
    requires FRI_LOG_BLOWUP <= logH <= 32 && |layer| == TwoPow(logH) && shift % P != 0
    requires !LowDegree(layer, TwoPow(logH - FRI_LOG_BLOWUP), logH, shift)
    requires Constant(LastLayer(layer, CommitSteps(layer, logH, seen, ch, shift)))
    ensures j < |CommitSteps(layer, logH, seen, ch, shift)|
    ensures Lucky(layer, CommitSteps(layer, logH, seen, ch, shift), j, logH, shift)
    decreases logH
  {
    hide FoldColumn, Constant, CommitSteps, LowDegree, TwoPow, Lucky;
    CommitStepsUnfold(layer, logH, seen, ch, shift);
    if logH == FRI_LOG_BLOWUP {
      ConstantLowDegree(layer, logH, shift);
      DivOne(0);
      assert false;
    } else {
      var a, steps := RoundLogArity(logH), CommitSteps(layer, logH, seen, ch, shift);
      var next, rest := steps[0].folded, CommitSteps(steps[0].folded, logH - a, seen + [layer], ch, shift);
      assert steps[1..] == rest;
      if LowDegree(next, TwoPow(logH - a - FRI_LOG_BLOWUP), logH - a, shift) {
        j := 0;
        FirstLucky(layer, steps, logH, shift);
      } else {
        LastLayerStep(layer, steps, |steps|);
        assert steps[..|steps|] == steps && rest[..|rest|] == rest;
        j := SomeRoundIsLucky(next, logH - a, seen + [layer], ch, shift);
        LuckyLater(layer, steps, j, logH, shift);
        j := j + 1;
      }
    }
  }

  lemma FirstLucky(layer: Layer, steps: seq<Step>, logH: nat, shift: int)
    requires steps != [] && IsArity(steps[0].logArity) && FRI_LOG_BLOWUP <= logH - steps[0].logArity
    requires !LowDegree(layer, TwoPow(logH - FRI_LOG_BLOWUP), logH, shift)
    requires LowDegree(steps[0].folded, TwoPow(logH - steps[0].logArity - FRI_LOG_BLOWUP), logH - steps[0].logArity,
                       shift)
    ensures Lucky(layer, steps, 0, logH, shift)
  {
    hide LowDegree, TwoPow;
    assert steps[..0] == [];
  }

  lemma ConstantLowDegree(layer: Layer, logH: nat, shift: int)
    requires 0 < logH <= 32 && |layer| == TwoPow(logH) && Constant(layer)
    ensures LowDegree(layer, 1, logH, shift)
  {
    hide Evaluates, TwoPow;
    var f := ConstantEvaluates(layer, logH, shift);
  }

  /** The challenges 0, 1, ..., m - 1. */
  function BaseChallenges(m: nat): (bs: seq<EF>)
    requires m <= 4
    ensures |bs| == m && PairwiseDistinct(bs)
  {
    BaseDistinct(m);
    seq(m, i => FromBase(i))
  }

  lemma BaseDistinct(m: nat)
    requires m <= 4
    ensures PairwiseDistinct(seq(m, i => FromBase(i)))
  {
    forall i | 0 <= i < m
      ensures Red(FromBase(i)) == FromBase(i)
    {
      RedIdempotent(FromBase(i));
    }
  }

  // ----- Every challenger -----

  /** The challenger that answers beta after n layers and like ch otherwise. */
  function Override(ch: Challenger, n: nat, beta: EF): Challenger {
    (seen: seq<Layer>) => if |seen| == n then beta else ch(seen)
  }

  /** The rounds depend on the challenger only after more layers than have been seen. */
  lemma {:induction false} CommitStepsAgree(layer: Layer, logH: nat, seen: seq<Layer>, ch: Challenger, ch': Challenger,
                                             shift: int)
    requires FRI_LOG_BLOWUP <= logH <= 32 && |layer| == TwoPow(logH) && shift % P != 0
    requires forall s: seq<Layer> :: |s| > |seen| ==> ch(s) == ch'(s)
    ensures CommitSteps(layer, logH, seen, ch, shift) == CommitSteps(layer, logH, seen, ch', shift)
    decreases logH
  {
    hide FoldColumn, TwoPow;
    if logH > FRI_LOG_BLOWUP {
      var a, beta := RoundLogArity(logH), ch(seen + [layer]);
      CommitStepsAgree(FoldColumn(layer, a, beta, logH, shift), logH - a, seen + [layer], ch, ch', shift);
    }
  }

  ghost predicate Constant(layer: Layer) {
    forall i :: 0 <= i < |layer| ==> layer[i] == layer[0]
  }

  /** Whatever the challenges, the commit phase ends in a constant layer. */
  ghost predicate AlwaysConstant(layer: Layer, logH: nat, seen: seq<Layer>, shift: int)
    requires FRI_LOG_BLOWUP <= logH <= 32 && |layer| == TwoPow(logH) && shift % P != 0
  {
    forall ch: Challenger :: Constant(LastLayer(layer, CommitSteps(layer, logH, seen, ch, shift)))
  }

  /** Then so it is after any first challenge. */
  lemma AlwaysConstantFold(layer: Layer, logH: nat, seen: seq<Layer>, shift: int, beta: EF)
    requires FRI_LOG_BLOWUP < logH <= 32 && |layer| == TwoPow(logH) && shift % P != 0
    requires AlwaysConstant(layer, logH, seen, shift)
    ensures var a := RoundLogArity(logH);
      AlwaysConstant(FoldColumn(layer, a, beta, logH, shift), logH - a, seen + [layer], shift)
  {
    hide FoldColumn, TwoPow, Constant, CommitSteps;
    var a := RoundLogArity(logH);
    var next, h, seen' := FoldColumn(layer, a, beta, logH, shift), logH - a, seen + [layer];
    forall ch: Challenger
      ensures Constant(LastLayer(next, CommitSteps(next, h, seen', ch, shift)))
    {
      var ch' := Override(ch, |seen| + 1, beta);
      CommitStepsUnfold(layer, logH, seen, ch', shift);
      CommitStepsAgree(next, h, seen', ch', ch, shift);
      var steps, rest := CommitSteps(layer, logH, seen, ch', shift), CommitSteps(next, h, seen', ch, shift);
      assert steps[1..] == rest;
      LastLayerStep(layer, steps, |steps|);
      assert steps[..|steps|] == steps && rest[..|rest|] == rest;
    }
  }

  /** A constant layer evaluates a polynomial with one coefficient. */
  lemma ConstantEvaluates(layer: Layer, logH: nat, shift: int) returns (f: Poly)
    requires 0 < logH <= 32 && |layer| == TwoPow(logH) && Constant(layer)
    ensures HasLength(f, 1) && Evaluates(layer, f, logH, shift)
  {
    hide Point, Eval, Red;
    f := Poly([layer[0].c0], [layer[0].c1], [layer[0].c2]);
    forall i | 0 <= i < |layer|
      ensures Red(layer[i]) == Red(EvalEF(f, Point(i, logH, shift)))
    {
      ConstantEval(f.f0, Point(i, logH, shift));
      ConstantEval(f.f1, Point(i, logH, shift));
      ConstantEval(f.f2, Point(i, logH, shift));
    }
  }

  /** Soundness of the commit phase: always constant means that the layer was of low degree. */
  lemma {:induction false} AlwaysConstantLowDegree(layer: Layer, logH: nat, seen: seq<Layer>, shift: int)
    requires FRI_LOG_BLOWUP <= logH <= 32 && |layer| == TwoPow(logH) && shift % P != 0
    requires AlwaysConstant(layer, logH, seen, shift)
    ensures LowDegree(layer, TwoPow(logH - FRI_LOG_BLOWUP), logH, shift)
    decreases logH
  {
    hide FoldColumn, Constant, CommitSteps, AlwaysConstant, LowDegree, TwoPow;
    if logH == FRI_LOG_BLOWUP {
      ConstantAtEnd(layer, seen, shift);
      ConstantLowDegree(layer, logH, shift);
      DivOne(0);
    } else {
      var a := RoundLogArity(logH);
      var bs := BaseChallenges(Arity(a));
      forall i | 0 <= i < |bs|
        ensures LowDegree(FoldColumn(layer, a, bs[i], logH, shift), TwoPow(logH - a - FRI_LOG_BLOWUP), logH - a, shift)
      {
        AlwaysConstantFold(layer, logH, seen, shift, bs[i]);
        AlwaysConstantLowDegree(FoldColumn(layer, a, bs[i], logH, shift), logH - a, seen + [layer], shift);
      }
      LowDegreeFolds(layer, a, bs, TwoPow(logH - a - FRI_LOG_BLOWUP), logH, shift);
      LayerSplit(a, logH - FRI_LOG_BLOWUP);
    }
  }

  lemma ConstantAtEnd(layer: Layer, seen: seq<Layer>, shift: int)
    requires |layer| == TwoPow(FRI_LOG_BLOWUP) && shift % P != 0 && AlwaysConstant(layer, FRI_LOG_BLOWUP, seen, shift)
    ensures Constant(layer)
  {
    hide Constant;
    var ch: Challenger := (s: seq<Layer>) => ZERO;
    assert Constant(LastLayer(layer, CommitSteps(layer, FRI_LOG_BLOWUP, seen, ch, shift)));
  }

  /**
   * What FRI tests, exactly: every opening is accepted under every challenger if and only if the layer
   * evaluates a polynomial with an eighth as many coefficients as points.
   */
  lemma AcceptedIffLowDegree(layer: Layer, logH: nat, shift: int)
    requires FRI_LOG_BLOWUP < logH <= 32 && |layer| == TwoPow(logH) && shift % P != 0
    ensures (forall ch: Challenger :: AcceptedUnder(layer, logH, ch, shift))
       <==> LowDegree(layer, TwoPow(logH - FRI_LOG_BLOWUP), logH, shift)
  {
    hide OpeningVerdict, Evaluates, FoldColumn, CommitSteps, TwoPow;
    if forall ch: Challenger :: AcceptedUnder(layer, logH, ch, shift) {
      forall ch: Challenger
        ensures Constant(LastLayer(layer, CommitSteps(layer, logH, [], ch, shift)))
      {
        assert AcceptedUnder(layer, logH, ch, shift);
        AllAcceptedIffConstant(layer, logH, ch, shift);
        assert FinalLayer(layer, logH, ch, shift) == LastLayer(layer, CommitSteps(layer, logH, [], ch, shift));
      }
      AlwaysConstantLowDegree(layer, logH, [], shift);
    }
    if LowDegree(layer, TwoPow(logH - FRI_LOG_BLOWUP), logH, shift) {
      var f: Poly :| HasLength(f, TwoPow(logH - FRI_LOG_BLOWUP)) && Evaluates(layer, f, logH, shift);
      forall ch: Challenger, start: nat | start < |layer|
        ensures OpeningVerdict(layer, logH, ch, shift, start) == Ok(true)
      {
        LowDegreeAccepted(layer, f, logH, ch, shift, start);
      }
    }
  }

  /** verify_query accepts the opening at every position. */
  ghost predicate AcceptedUnder(layer: Layer, logH: nat, ch: Challenger, shift: int)
    requires FRI_LOG_BLOWUP < logH <= 32 && |layer| == TwoPow(logH) && shift % P != 0
  {
    forall start: nat :: start < |layer| ==> OpeningVerdict(layer, logH, ch, shift, start) == Ok(true)
  }
}
