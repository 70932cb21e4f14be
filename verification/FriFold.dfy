// The FRI folds of verifier-py/scalar_verifier/fri.py: one group at a time, as the
// query phase does it, and a whole column at a time, as the commit phase does it.
module FriFold {
  import opened Results
  import opened ModArith
  import opened NumberTheory
  import opened Goldilocks
  import opened Gfp3
  import opened FriDomain
  import opened FriPoly

  /** Evaluations over a coset, in bit-reversed order. */
  type Layer = seq<EF>

  /** The exceptions of the Python code: AssertionError, Unverifiable, ZeroDivisionError, ValueError, IndexError. */
  datatype Error = AssertionFailed | Unverifiable | ZeroDivision | NegativeShift | IndexOutOfRange

  // ----- 1/(2x) -----

  lemma TwiceNotZero(x: int)
    requires x % P != 0
    ensures FMul(2, x) % P != 0 && FMul(2, x) != 0
  {
    ModSmall(2, P);
    ProductNotZero(2, x);
    CongMod(2 * x, P);
    ModSmall(0, P);
  }

  /** finv(fmul(2, x)). */
  function InvTwice(x: int): int
    requires x % P != 0
  {
    TwiceNotZero(x);
    FInv(FMul(2, x))
  }

  lemma InvTwiceCorrect(x: int)
    requires x % P != 0
    ensures Cong((2 * x) * InvTwice(x), 1, P)
  {
    TwiceNotZero(x);
    var y := FMul(2, x);
    FInvCorrect(y);
    CongMod(2 * x, P);
    CongMul(y, 2 * x, InvTwice(x), InvTwice(x), P);
  }

  lemma InvTwiceCong(x: int, y: int)
    requires x % P != 0 && Cong(x, y, P)
    ensures InvTwice(x) == InvTwice(y)
  {
    CongScale(2, x, y, P);
  }

  lemma SquareNotZero(x: int)
    requires x % P != 0
    ensures FMul(x, x) % P != 0
  {
    ProductNotZero(x, x);
    CongMod(x * x, P);
  }

  // ----- Folding one group -----

  /** Fold a pair whose first entry sits at the point x0. */
  function FoldPairAt(group: seq<EF>, beta: EF, x0: int): EF
    requires |group| == 2 && x0 % P != 0
  {
    FoldArity2(group[0], group[1], beta, FromBase(InvTwice(x0)))
  }

  /** Fold a quadruple at points x0, -x0, x2, -x2: twice with beta, then once with beta^2. */
  function FoldQuadAt(group: seq<EF>, beta: EF, x0: int, x2: int): EF
    requires |group| == 4 && x0 % P != 0 && x2 % P != 0
  {
    var betaSq := EfMul(beta, beta);
    var ev0 := FoldArity2(group[0], group[1], beta, FromBase(InvTwice(x0)));
    var ev1 := FoldArity2(group[2], group[3], beta, FromBase(InvTwice(x2)));
    SquareNotZero(x0);
    FoldArity2(ev0, ev1, betaSq, FromBase(InvTwice(FMul(x0, x0))))
  }

  predicate IsArity(logArity: int) { logArity == 1 || logArity == 2 }

  /** 1 << logArity. */
  function Arity(logArity: int): (r: nat)
    requires IsArity(logArity)
    ensures r == 2 || r == 4
  {
    if logArity == 1 then 2 else 4
  }

  /** _fold_query_step_arity2 and _fold_query_step_arity4. */
  function FoldGroup(group: seq<EF>, logArity: int, beta: EF, g: int, logH: nat, shift: int): EF
    requires IsArity(logArity) && |group| == Arity(logArity)
    requires 0 < logH <= 32 && shift % P != 0
  {
    if logArity == 1 then
      PointNotZero(2 * g, logH, shift);
      FoldPairAt(group, beta, Point(2 * g, logH, shift))
    else
      PointNotZero(4 * g, logH, shift);
      PointNotZero(4 * g + 2, logH, shift);
      FoldQuadAt(group, beta, Point(4 * g, logH, shift), Point(4 * g + 2, logH, shift))
  }

  lemma FoldGroupCanonical(group: seq<EF>, logArity: int, beta: EF, g: int, logH: nat, shift: int)
    requires IsArity(logArity) && |group| == Arity(logArity)
    requires 0 < logH <= 32 && shift % P != 0
    ensures Canonical(FoldGroup(group, logArity, beta, g, logH, shift))
  {
  }

  // ----- Folding a column -----

  lemma LayerSplit(logArity: int, logH: nat)
    requires IsArity(logArity) && logArity <= logH
    ensures TwoPow(logH) == Arity(logArity) * TwoPow(logH - logArity)
  {
  }

  /** Row g of the layer read as a matrix of Arity(logArity) columns. */
  function Group(layer: Layer, logArity: int, logH: nat, g: nat): (r: seq<EF>)
    requires IsArity(logArity) && logArity <= logH && |layer| == TwoPow(logH) && g < TwoPow(logH - logArity)
    ensures |r| == Arity(logArity)
    ensures forall j :: 0 <= j < |r| ==> Arity(logArity) * g + j < |layer| && r[j] == layer[Arity(logArity) * g + j]
  {
    LayerSplit(logArity, logH);
    layer[Arity(logArity) * g..Arity(logArity) * g + Arity(logArity)]
  }

  /** The folded column: every row folded at its own position. */
  function FoldColumn(layer: Layer, logArity: int, beta: EF, logH: nat, shift: int): (r: Layer)
    requires IsArity(logArity) && logArity <= logH <= 32 && |layer| == TwoPow(logH) && shift % P != 0
    ensures |r| == TwoPow(logH - logArity)
  {
    seq(TwoPow(logH - logArity), g requires 0 <= g < TwoPow(logH - logArity) =>
      FoldGroup(Group(layer, logArity, logH, g), logArity, beta, g, logH, shift))
  }

  /** compute_coset_domain_points: shift * omega^i by a running product. */
  method CosetDomainPoints(logN: nat, shift: int) returns (points: seq<int>)
    requires 0 < logN <= 32
    ensures |points| == TwoPow(logN)
    ensures forall i :: 0 <= i < |points| ==> Cong(points[i], shift * Pow(TwoAdicGenerator(logN), i), P)
  {
    hide Pow, Cong, TwoPow, TwoAdicGenerator;
    var omega := TwoAdicGenerator(logN);
    var x := shift;
    points := [];
    FirstPoint(shift, omega);
    for i := 0 to TwoPow(logN)
      invariant |points| == i
      invariant Cong(x, shift * Pow(omega, i), P)
      invariant forall j :: 0 <= j < i ==> Cong(points[j], shift * Pow(omega, j), P)
    {
      points := points + [x];
      NextPoint(x, shift, omega, i);
      x := FMul(x, omega);
    }
  }

  lemma FirstPoint(shift: int, omega: int)
    ensures Cong(shift, shift * Pow(omega, 0), P)
  {
  }

  lemma NextPoint(x: int, shift: int, omega: int, i: nat)
    requires Cong(x, shift * Pow(omega, i), P)
    ensures Cong(FMul(x, omega), shift * Pow(omega, i + 1), P)
  {
    CongMod(x * omega, P);
    CongMul(x, shift * Pow(omega, i), omega, omega, P);
    MulAssoc(shift, Pow(omega, i), omega);
    assert Pow(omega, i + 1) == Pow(omega, i) * omega;
  }

  /** The point at each of n positions: the running product at the bit-reversed index, as the column folds index it. */
  method BitReversedPoints(n: nat, logN: nat, shift: int) returns (points: seq<int>)
    requires 0 < logN <= 32
    ensures |points| == n
    ensures forall i :: 0 <= i < |points| ==> Cong(points[i], Point(i, logN, shift), P)
  {
    hide Pow, Cong, Point, TwoPow, BitRev, TwoAdicGenerator;
    var natural := CosetDomainPoints(logN, shift);
    points := [];
    for i := 0 to n
      invariant |points| == i
      invariant forall j :: 0 <= j < i ==> Cong(points[j], Point(j, logN, shift), P)
    {
      var r := BitReverse(i, logN);
      PointCong(i, logN, shift);
      CongTrans(natural[r], shift * Pow(TwoAdicGenerator(logN), r), Point(i, logN, shift), P);
      points := points + [natural[r]];
    }
  }

  lemma FoldPairCong(group: seq<EF>, beta: EF, x0: int, y0: int)
    requires |group| == 2 && x0 % P != 0 && Cong(x0, y0, P)
    ensures FoldPairAt(group, beta, x0) == FoldPairAt(group, beta, y0)
  {
    InvTwiceCong(x0, y0);
  }

  lemma FoldQuadCong(group: seq<EF>, beta: EF, x0: int, x2: int, y0: int, y2: int)
    requires |group| == 4 && x0 % P != 0 && x2 % P != 0 && Cong(x0, y0, P) && Cong(x2, y2, P)
    ensures FoldQuadAt(group, beta, x0, x2) == FoldQuadAt(group, beta, y0, y2)
  {
    InvTwiceCong(x0, y0);
    InvTwiceCong(x2, y2);
    CongMul(x0, y0, x0, y0, P);
  }

  lemma RowBounds(logN: nat)
    requires 0 < logN
    ensures TwoPow(logN) == 2 * TwoPow(logN - 1)
    ensures logN >= 2 ==> TwoPow(logN) == 4 * TwoPow(logN - 2)
    ensures IsArity(1) && IsArity(2)
  {
  }

  lemma CongNotZero(x: int, y: int)
    requires Cong(x, y, P) && y % P != 0
    ensures x % P != 0
  {
  }

  /** The pair at row g folded at any representative of its point is folded at its point. */
  lemma PairStep(evals: Layer, beta: EF, logN: nat, shift: int, g: nat, x0: int)
    requires 0 < logN <= 32 && 2 * g + 2 <= |evals| && shift % P != 0
    requires Cong(x0, Point(2 * g, logN, shift), P)
    ensures x0 % P != 0 && Point(2 * g, logN, shift) % P != 0
    ensures FoldPairAt(evals[2 * g..2 * g + 2], beta, x0)
         == FoldPairAt(evals[2 * g..2 * g + 2], beta, Point(2 * g, logN, shift))
  {
    hide Cong, Point, FoldPairAt;
    PointNotZero(2 * g, logN, shift);
    CongNotZero(x0, Point(2 * g, logN, shift));
    FoldPairCong(evals[2 * g..2 * g + 2], beta, x0, Point(2 * g, logN, shift));
  }

  /** The lengths _fold_arity2_column does not reject; they need not be powers of two. */
  predicate PairColumn(n: nat) { n > 0 && n % 2 == 0 && Log2(n) <= 32 }

  /** Every pair folded at its own point. */
  predicate PairFolds(evals: Layer, folded: Layer, beta: EF, logN: nat, shift: int)
    requires 0 < logN <= 32
  {
    && 2 * |folded| == |evals|
    && forall g :: 0 <= g < |folded| ==>
         && Point(2 * g, logN, shift) % P != 0
         && folded[g] == FoldPairAt(evals[2 * g..2 * g + 2], beta, Point(2 * g, logN, shift))
  }

  lemma PairColumnLog(n: nat)
    requires PairColumn(n)
    ensures 0 < Log2(n) <= 32
  {
  }

  /** _fold_arity2_column: the running-product points give the fold of every pair. */
  method FoldArity2Column(evals: Layer, beta: EF, shift: int) returns (r: Result<Layer, Error>)
    ensures !PairColumn(|evals|) ==> r == Err(AssertionFailed)
    ensures PairColumn(|evals|) && shift % P == 0 ==> r == Err(ZeroDivision)
    ensures PairColumn(|evals|) && shift % P != 0 ==>
              0 < Log2(|evals|) && r.Ok? && PairFolds(evals, r.value, beta, Log2(|evals|), shift)
    ensures PairColumn(|evals|) && shift % P != 0 && |evals| == TwoPow(Log2(|evals|)) ==>
              r == Ok(FoldColumn(evals, 1, beta, Log2(|evals|), shift))
  {
    hide Point, FoldPairAt, TwoPow, FoldColumn, Cong, Log2;
    if |evals| % 2 != 0 || |evals| == 0 || Log2(|evals|) > 32 {
      return Err(AssertionFailed);
    }
    var logN := Log2(|evals|);
    PairColumnLog(|evals|);
    var points := BitReversedPoints(|evals|, logN, shift);
    if shift % P == 0 {
      return Err(ZeroDivision);  // at the first pair: its point is zero
    }
    var folded := [];
    for g := 0 to |evals| / 2
      invariant |folded| == g
      invariant forall j :: 0 <= j < g ==>
                  && Point(2 * j, logN, shift) % P != 0
                  && folded[j] == FoldPairAt(evals[2 * j..2 * j + 2], beta, Point(2 * j, logN, shift))
    {
      PairStep(evals, beta, logN, shift, g, points[2 * g]);
      folded := folded + [FoldPairAt(evals[2 * g..2 * g + 2], beta, points[2 * g])];
    }
    if |evals| == TwoPow(logN) {
      PairColumnFold(evals, folded, beta, logN, shift);
    }
    r := Ok(folded);
  }

  lemma PairColumnFold(evals: Layer, folded: Layer, beta: EF, logN: nat, shift: int)
    requires 0 < logN <= 32 && |evals| == TwoPow(logN) && shift % P != 0 && PairFolds(evals, folded, beta, logN, shift)
    ensures folded == FoldColumn(evals, 1, beta, logN, shift)
  {
    hide Point, FoldPairAt, TwoPow;
    RowBounds(logN);
    var column := FoldColumn(evals, 1, beta, logN, shift);
    forall g | 0 <= g < |folded|
      ensures folded[g] == column[g]
    {
      assert evals[2 * g..2 * g + 2] == Group(evals, 1, logN, g);
    }
  }

  lemma QuadStep(evals: Layer, beta: EF, logN: nat, shift: int, g: nat, x0: int, x2: int)
    requires 2 <= logN <= 32 && |evals| == TwoPow(logN) && shift % P != 0 && g < TwoPow(logN - 2)
    requires Cong(x0, Point(4 * g, logN, shift), P) && Cong(x2, Point(4 * g + 2, logN, shift), P)
    ensures x0 % P != 0 && x2 % P != 0 && 4 * g + 4 <= |evals|
    ensures FoldQuadAt(evals[4 * g..4 * g + 4], beta, x0, x2) == FoldColumn(evals, 2, beta, logN, shift)[g]
  {
    hide TwoPow, FoldQuadAt, Point;
    LayerSplit(2, logN);
    PointNotZero(4 * g, logN, shift);
    PointNotZero(4 * g + 2, logN, shift);
    assert evals[4 * g..4 * g + 4] == Group(evals, 2, logN, g);
    FoldQuadCong(evals[4 * g..4 * g + 4], beta, x0, x2, Point(4 * g, logN, shift), Point(4 * g + 2, logN, shift));
  }

  /** The lengths fri_fold_column_arity4 does not reject. */
  predicate QuadColumn(n: nat) { n > 0 && n % 4 == 0 && n == TwoPow(Log2(n)) && Log2(n) <= 32 }

  lemma QuadColumnLog(n: nat)
    requires QuadColumn(n)
    ensures 2 <= Log2(n) <= 32
  {
  }

  /** fri_fold_column_arity4; an empty column fails with the shift 1 << -1. */
  method FoldArity4Column(evals: Layer, beta: EF, shift: int) returns (r: Result<Layer, Error>)
    ensures |evals| == 0 ==> r == Err(NegativeShift)
    ensures |evals| > 0 && !QuadColumn(|evals|) ==> r == Err(AssertionFailed)
    ensures QuadColumn(|evals|) && shift % P == 0 ==> r == Err(ZeroDivision)
    ensures QuadColumn(|evals|) && shift % P != 0 ==>
              2 <= Log2(|evals|) && r == Ok(FoldColumn(evals, 2, beta, Log2(|evals|), shift))
  {
    hide TwoPow, Log2, Point, FoldQuadAt, FoldColumn, Cong, Pow, InvTwice;
    if |evals| % 4 != 0 {
      return Err(AssertionFailed);
    }
    if |evals| == 0 {
      return Err(NegativeShift);
    }
    var logN := Log2(|evals|);
    if |evals| != TwoPow(logN) || logN > 32 {
      return Err(AssertionFailed);
    }
    QuadColumnLog(|evals|);
    var points := BitReversedPoints(|evals|, logN, shift);
    if shift % P == 0 {
      return Err(ZeroDivision);  // at the first row: its points are zero
    }
    RowBounds(logN);
    ghost var column := FoldColumn(evals, 2, beta, logN, shift);
    var folded := [];
    for g := 0 to TwoPow(logN - 2)
      invariant |folded| == g && forall j :: 0 <= j < g ==> folded[j] == column[j]
    {
      QuadStep(evals, beta, logN, shift, g, points[4 * g], points[4 * g + 2]);
      folded := folded + [FoldQuadAt(evals[4 * g..4 * g + 4], beta, points[4 * g], points[4 * g + 2])];
    }
    assert folded == column;
    r := Ok(folded);
  }

  /** Layers of four or more entries are columns for both. */
  lemma LayerColumns(k: nat)
    requires 2 <= k <= 32
    ensures Log2(TwoPow(k)) == k && PairColumn(TwoPow(k)) && QuadColumn(TwoPow(k))
  {
    hide TwoPow, Log2;
    Log2TwoPow(k);
    RowBounds(k);
  }

  // ----- Folding and degree -----

  /** The layer holds the values of f over the coset. */
  ghost predicate Evaluates(layer: Layer, f: Poly, logH: nat, shift: int) {
    && 0 < logH <= 32
    && |layer| == TwoPow(logH)
    && forall i :: 0 <= i < |layer| ==> Red(layer[i]) == Red(EvalEF(f, Point(i, logH, shift)))
  }

  lemma FoldPairValue(f: Poly, n: nat, beta: EF, x: int, y: int, z: int, s: int, group: seq<EF>)
    requires HasLength(f, 2 * n) && |group| == 2
    requires x % P != 0 && Cong(y, -x, P) && Cong(x * x, s * z, P)
    requires Red(group[0]) == Red(EvalEF(f, x)) && Red(group[1]) == Red(EvalEF(f, y))
    ensures FoldPairAt(group, beta, x) == Red(EvalEF(StretchEF(s, FoldPoly(f, beta, n)), z))
  {
    InvTwiceCorrect(x);
    FoldEvaluates(f, n, beta, x, y, group[0], group[1], InvTwice(x));
    EvalCongEF(FoldPoly(f, beta, n), x * x, s * z);
    EvalStretchEF(s, FoldPoly(f, beta, n), z);
  }

  /** The two-stage polynomial of an arity-4 fold. */
  function FoldPoly4(f: Poly, beta: EF, n: nat): (r: Poly)
    requires HasLength(f, 4 * n)
    ensures HasLength(r, n)
  {
    FoldPoly(FoldPoly(f, beta, 2 * n), EfMul(beta, beta), n)
  }

  lemma FoldQuadValue(f: Poly, n: nat, beta: EF, x0: int, y0: int, x2: int, y2: int, z: int, s: int, group: seq<EF>)
    requires HasLength(f, 4 * n) && |group| == 4
    requires x0 % P != 0 && x2 % P != 0 && Cong(y0, -x0, P) && Cong(y2, -x2, P)
    requires Cong(x2 * x2, -(x0 * x0), P) && Cong((x0 * x0) * (x0 * x0), s * z, P)
    requires Red(group[0]) == Red(EvalEF(f, x0)) && Red(group[1]) == Red(EvalEF(f, y0))
    requires Red(group[2]) == Red(EvalEF(f, x2)) && Red(group[3]) == Red(EvalEF(f, y2))
    ensures FoldQuadAt(group, beta, x0, x2) == Red(EvalEF(StretchEF(s, FoldPoly4(f, beta, n)), z))
  {
    hide *;
    var ev0 := FoldArity2(group[0], group[1], beta, FromBase(InvTwice(x0)));
    var ev1 := FoldArity2(group[2], group[3], beta, FromBase(InvTwice(x2)));
    InvTwiceCorrect(x0);
    FoldEvaluates(f, 2 * n, beta, x0, y0, group[0], group[1], InvTwice(x0));
    InvTwiceCorrect(x2);
    FoldEvaluates(f, 2 * n, beta, x2, y2, group[2], group[3], InvTwice(x2));
    SquareNotZero(x0);
    FMulCong(x0, x0);
    FoldPoly4Unfold(f, beta, n);
    SecondFold(FoldPoly(f, beta, 2 * n), n, EfMul(beta, beta), x0 * x0, FMul(x0, x0), x2 * x2, z, s, [ev0, ev1]);
    FoldQuadUnfold(group, beta, x0, x2);
  }

  lemma FMulCong(x: int, y: int)
    ensures Cong(FMul(x, y), x * y, P)
  {
    CongMod(x * y, P);
  }

  lemma FoldQuadUnfold(group: seq<EF>, beta: EF, x0: int, x2: int)
    requires |group| == 4 && x0 % P != 0 && x2 % P != 0
    ensures FMul(x0, x0) % P != 0
    ensures FoldQuadAt(group, beta, x0, x2)
         == FoldPairAt([FoldArity2(group[0], group[1], beta, FromBase(InvTwice(x0))),
                        FoldArity2(group[2], group[3], beta, FromBase(InvTwice(x2)))],
                       EfMul(beta, beta), FMul(x0, x0))
  {
    SquareNotZero(x0);
  }

  lemma FoldPoly4Unfold(f: Poly, beta: EF, n: nat)
    requires HasLength(f, 4 * n)
    ensures HasLength(f, 2 * (2 * n)) && HasLength(FoldPoly(f, beta, 2 * n), 2 * n)
    ensures FoldPoly4(f, beta, n) == FoldPoly(FoldPoly(f, beta, 2 * n), EfMul(beta, beta), n)
  {
  }

  lemma SecondFold(f: Poly, n: nat, beta: EF, xx: int, x: int, y: int, z: int, s: int, group: seq<EF>)
    requires HasLength(f, 2 * n) && |group| == 2
    requires x % P != 0 && Cong(x, xx, P) && Cong(y, -xx, P) && Cong(xx * xx, s * z, P)
    requires group[0] == Red(EvalEF(f, xx)) && group[1] == Red(EvalEF(f, y))
    ensures FoldPairAt(group, beta, x) == Red(EvalEF(StretchEF(s, FoldPoly(f, beta, n)), z))
  {
    RedIdempotent(EvalEF(f, xx));
    RedIdempotent(EvalEF(f, y));
    EvalCongEF(f, xx, x);
    CongAdd(0, 0, xx, x, P);
    CongMul(x, xx, x, xx, P);
    FoldPairValue(f, n, beta, x, y, z, s, group);
  }

  // The points of one group of four: x0, -x0, x2, -x2 with x2^2 = -x0^2 and x0^4 = shift^3 * z.
  lemma QuadPoints(g: int, k: nat, shift: int)
    requires 0 < k <= 30
    ensures Cong(Point(4 * g + 1, k + 2, shift), -Point(4 * g, k + 2, shift), P)
    ensures Cong(Point(4 * g + 3, k + 2, shift), -Point(4 * g + 2, k + 2, shift), P)
    ensures var x0, x2 := Point(4 * g, k + 2, shift), Point(4 * g + 2, k + 2, shift);
      && Cong(x2 * x2, -(x0 * x0), P)
      && Cong((x0 * x0) * (x0 * x0), (shift * shift * shift) * Point(g, k, shift), P)
  {
    hide *;
    PointPair(2 * g, k + 1, shift);
    PointPair(2 * g + 1, k + 1, shift);
    assert 2 * (2 * g) == 4 * g && 2 * (2 * g + 1) == 4 * g + 2;
    PointSquare(2 * g, k + 1, shift);
    PointSquare(2 * g + 1, k + 1, shift);
    PointPair(g, k, shift);
    PointSquare(g, k, shift);
    QuadAlgebra(Point(4 * g, k + 2, shift), Point(4 * g + 2, k + 2, shift),
                Point(2 * g, k + 1, shift), Point(2 * g + 1, k + 1, shift), Point(g, k, shift), shift);
  }

  lemma QuadAlgebra(x0: int, x2: int, y0: int, y1: int, z: int, s: int)
    requires Cong(x0 * x0, s * y0, P) && Cong(x2 * x2, s * y1, P)
    requires Cong(y1, -y0, P) && Cong(y0 * y0, s * z, P)
    ensures Cong(x2 * x2, -(x0 * x0), P)
    ensures Cong((x0 * x0) * (x0 * x0), (s * s * s) * z, P)
  {
    CongScale(s, y1, -y0, P);
    assert s * -y0 == -(s * y0);
    CongAdd(0, 0, x0 * x0, s * y0, P);
    CongMul(x0 * x0, s * y0, x0 * x0, s * y0, P);
    MulSwap(s, y0, s, y0);
    CongScale(s * s, y0 * y0, s * z, P);
    assert (s * s) * (s * z) == (s * s * s) * z;
  }

  /** An arity-2 column fold of a polynomial with 2n coefficients holds a polynomial with n. */
  lemma FoldColumnDegree2(layer: Layer, f: Poly, n: nat, beta: EF, logH: nat, shift: int)
    requires Evaluates(layer, f, logH, shift) && HasLength(f, 2 * n) && 1 < logH && shift % P != 0
    ensures Evaluates(FoldColumn(layer, 1, beta, logH, shift), StretchEF(shift, FoldPoly(f, beta, n)), logH - 1, shift)
  {
    var next, f' := FoldColumn(layer, 1, beta, logH, shift), StretchEF(shift, FoldPoly(f, beta, n));
    forall g | 0 <= g < |next|
      ensures Red(next[g]) == Red(EvalEF(f', Point(g, logH - 1, shift)))
    {
      FoldGroupDegree2(layer, f, n, beta, logH, shift, g);
      RedIdempotent(EvalEF(f', Point(g, logH - 1, shift)));
    }
  }

  lemma EvaluatesAt(layer: Layer, f: Poly, logH: nat, shift: int, i: nat)
    requires Evaluates(layer, f, logH, shift) && i < TwoPow(logH)
    ensures 0 < logH <= 32 && |layer| == TwoPow(logH)
    ensures Red(layer[i]) == Red(EvalEF(f, Point(i, logH, shift)))
  {
  }

  lemma ColumnEntry2(layer: Layer, beta: EF, logH: nat, shift: int, g: nat, x: int)
    requires 0 < logH <= 32 && |layer| == TwoPow(logH) && shift % P != 0 && g < TwoPow(logH - 1)
    requires x == Point(2 * g, logH, shift) && x % P != 0
    ensures 2 * g + 1 < |layer|
    ensures FoldColumn(layer, 1, beta, logH, shift)[g] == FoldPairAt([layer[2 * g], layer[2 * g + 1]], beta, x)
  {
    hide FoldPairAt, Point;
    assert Group(layer, 1, logH, g) == [layer[2 * g], layer[2 * g + 1]];
  }

  lemma ColumnEntry4(layer: Layer, beta: EF, logH: nat, shift: int, g: nat, x0: int, x2: int)
    requires 2 <= logH <= 32 && |layer| == TwoPow(logH) && shift % P != 0 && g < TwoPow(logH - 2)
    requires x0 == Point(4 * g, logH, shift) && x2 == Point(4 * g + 2, logH, shift) && x0 % P != 0 && x2 % P != 0
    ensures 4 * g + 3 < |layer|
    ensures FoldColumn(layer, 2, beta, logH, shift)[g]
         == FoldQuadAt([layer[4 * g], layer[4 * g + 1], layer[4 * g + 2], layer[4 * g + 3]], beta, x0, x2)
  {
    hide FoldQuadAt, Point;
    RowBounds(logH);
    assert Group(layer, 2, logH, g) == [layer[4 * g], layer[4 * g + 1], layer[4 * g + 2], layer[4 * g + 3]];
  }

  lemma FoldGroupDegree2(layer: Layer, f: Poly, n: nat, beta: EF, logH: nat, shift: int, g: nat)
    requires Evaluates(layer, f, logH, shift) && HasLength(f, 2 * n) && 1 < logH && shift % P != 0
    requires g < TwoPow(logH - 1)
    ensures FoldColumn(layer, 1, beta, logH, shift)[g]
         == Red(EvalEF(StretchEF(shift, FoldPoly(f, beta, n)), Point(g, logH - 1, shift)))
  {
    hide *;
    RowBounds(logH);
    EvaluatesAt(layer, f, logH, shift, 2 * g);
    EvaluatesAt(layer, f, logH, shift, 2 * g + 1);
    PointNotZero(2 * g, logH, shift);
    PointPair(g, logH - 1, shift);
    PointSquare(g, logH - 1, shift);
    ColumnEntry2(layer, beta, logH, shift, g, Point(2 * g, logH, shift));
    FoldPairValue(f, n, beta, Point(2 * g, logH, shift), Point(2 * g + 1, logH, shift),
                  Point(g, logH - 1, shift), shift, [layer[2 * g], layer[2 * g + 1]]);
  }

  /** An arity-4 column fold of a polynomial with 4n coefficients holds a polynomial with n. */
  lemma FoldColumnDegree4(layer: Layer, f: Poly, n: nat, beta: EF, logH: nat, shift: int)
    requires Evaluates(layer, f, logH, shift) && HasLength(f, 4 * n) && 2 < logH && shift % P != 0
    ensures Evaluates(FoldColumn(layer, 2, beta, logH, shift),
                      StretchEF(shift * shift * shift, FoldPoly4(f, beta, n)), logH - 2, shift)
  {
    var next, f' := FoldColumn(layer, 2, beta, logH, shift), StretchEF(shift * shift * shift, FoldPoly4(f, beta, n));
    forall g | 0 <= g < |next|
      ensures Red(next[g]) == Red(EvalEF(f', Point(g, logH - 2, shift)))
    {
      FoldGroupDegree4(layer, f, n, beta, logH, shift, g);
      RedIdempotent(EvalEF(f', Point(g, logH - 2, shift)));
    }
  }

  lemma FoldGroupDegree4(layer: Layer, f: Poly, n: nat, beta: EF, logH: nat, shift: int, g: nat)
    requires Evaluates(layer, f, logH, shift) && HasLength(f, 4 * n) && 2 < logH && shift % P != 0
    requires g < TwoPow(logH - 2)
    ensures FoldColumn(layer, 2, beta, logH, shift)[g]
         == Red(EvalEF(StretchEF(shift * shift * shift, FoldPoly4(f, beta, n)), Point(g, logH - 2, shift)))
  {
    hide *;
    RowBounds(logH);
    EvaluatesAt(layer, f, logH, shift, 4 * g);
    EvaluatesAt(layer, f, logH, shift, 4 * g + 1);
    EvaluatesAt(layer, f, logH, shift, 4 * g + 2);
    EvaluatesAt(layer, f, logH, shift, 4 * g + 3);
    PointNotZero(4 * g, logH, shift);
    PointNotZero(4 * g + 2, logH, shift);
    ColumnEntry4(layer, beta, logH, shift, g, Point(4 * g, logH, shift), Point(4 * g + 2, logH, shift));
    QuadPoints(g, logH - 2, shift);
    FoldQuadValue(f, n, beta, Point(4 * g, logH, shift), Point(4 * g + 1, logH, shift),
                  Point(4 * g + 2, logH, shift), Point(4 * g + 3, logH, shift),
                  Point(g, logH - 2, shift), shift * shift * shift,
                  [layer[4 * g], layer[4 * g + 1], layer[4 * g + 2], layer[4 * g + 3]]);
  }
}
