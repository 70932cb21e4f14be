// The end-to-end statements about FRI: openings agree with commits on every layer, and
// low-degree layers collapse to a constant and are accepted.
module FriTheorems {
  import opened Results
  import opened ModArith
  import opened NumberTheory
  import opened Goldilocks
  import opened Gfp3
  import opened FriDomain
  import opened FriPoly
  import opened FriFold
  import opened Fri

  // ----- Any layer -----

  lemma {:induction false} LastLayerCanonical(layer: Layer, logH: nat, steps: seq<Step>, shift: int, i: nat)
    requires shift % P != 0 && FoldsOf(layer, logH, steps, shift) && steps != []
    requires i < |LastLayer(layer, steps)|
    ensures Canonical(LastLayer(layer, steps)[i])
    decreases |steps|
  {
    hide FoldGroup, Group;
    var s := steps[0];
    if |steps| == 1 {
      FoldGroupCanonical(Group(layer, s.logArity, logH, i), s.logArity, s.beta, i, logH, shift);
    } else {
      LastLayerStep(layer, steps, |steps|);
      assert steps[..|steps|] == steps && steps[1..][..|steps| - 1] == steps[1..];
      LastLayerCanonical(s.folded, logH - s.logArity, steps[1..], shift, i);
    }
  }

  lemma ConstantHorner(c: EF, x: int)
    requires Canonical(c)
    ensures HornerEF([c], x) == c
  {
    assert [c][1..] == [];
    var zero := EfMul(ZERO, FromBase(x));
    RedMul(ZERO, FromBase(x));
    assert ZMul(ZERO, FromBase(x)) == ZERO;
    RedIdempotent(ZERO);
    RedAdd(zero, c);
    assert ZAdd(ZERO, c) == c;
    RedIdempotent(c);
  }

  /** The 8 entries the commit phase stops at. */
  function FinalLayer(layer: Layer, logH: nat, ch: Challenger, shift: int): (r: Layer)
    requires FRI_LOG_BLOWUP <= logH <= 32 && |layer| == TwoPow(logH) && shift % P != 0
    ensures |r| == 8
  {
    CommitStepsFold(layer, logH, [], ch, shift);
    FinalHeight();
    LastLayer(layer, CommitSteps(layer, logH, [], ch, shift))
  }

  /** verify_query on the opening of a commit at position `start`. */
  function OpeningVerdict(layer: Layer, logH: nat, ch: Challenger, shift: int, start: nat): Result<bool, Error>
    requires FRI_LOG_BLOWUP <= logH <= 32 && |layer| == TwoPow(logH) && start < |layer| && shift % P != 0
  {
    CommitStepsFold(layer, logH, [], ch, shift);
    QueryVerdict(start, layer[start], QueryRounds(layer, logH, CommitSteps(layer, logH, [], ch, shift), start),
                 logH, FRI_LOG_BLOWUP, Truncate(FinalLayer(layer, logH, ch, shift)), shift)
  }

  /** start >> (logH - 3): where a query ends up in the final layer. */
  function CarriedIndex(start: nat, logH: nat): (r: nat)
    requires FRI_LOG_BLOWUP <= logH && start < TwoPow(logH)
    ensures r < 8
  {
    CarriedBound(start, logH);
    start / TwoPow(logH - FRI_LOG_BLOWUP)
  }

  lemma CarriedBound(start: nat, logH: nat)
    requires FRI_LOG_BLOWUP <= logH && start < TwoPow(logH)
    ensures 0 <= start / TwoPow(logH - FRI_LOG_BLOWUP) < 8
  {
    TwoPowAdd(3, logH - 3);
    FinalHeight();
    QuotientBound(start, TwoPow(logH - 3), 8);
  }

  lemma QuotientBound(x: nat, n: nat, b: nat)
    requires n > 0 && x < b * n
    ensures 0 <= x / n < b
  {
    var q := x / n;
    assert x == q * n + x % n;
    assert q >= b ==> q * n >= b * n;
    assert q < 0 ==> q * n + n <= 0;
  }

  /**
   * For every initial layer, low-degree or not: verify_query on the opening at `start`
   * accepts exactly when the final-layer entry it is carried to equals final_poly[0].
   */
  lemma QueryVerdictOnCommit(layer: Layer, logH: nat, ch: Challenger, shift: int, start: nat)
    requires FRI_LOG_BLOWUP < logH <= 32 && |layer| == TwoPow(logH) && start < |layer| && shift % P != 0
    ensures OpeningVerdict(layer, logH, ch, shift, start)
         == Ok(FinalLayer(layer, logH, ch, shift)[CarriedIndex(start, logH)] == FinalLayer(layer, logH, ch, shift)[0])
  {
    hide FoldColumn, Chain, HornerEF, CommitSteps, QueryRounds, QueryVerdict, TwoPow, Point, IndexAfter, FoldsOf;
    FinalHeight();
    var steps := CommitSteps(layer, logH, [], ch, shift);
    CommitStepsFold(layer, logH, [], ch, shift);
    CommitIndex(layer, logH, [], ch, shift, start);
    ChainRetracesCommit(layer, logH, steps, start, |steps|, shift);
    var rounds := QueryRounds(layer, logH, steps, start);
    assert rounds[..|steps|] == rounds && steps[..|steps|] == steps;
    var final, index := FinalLayer(layer, logH, ch, shift), CarriedIndex(start, logH);
    NonemptySteps(layer, logH, ch, shift);
    LastLayerCanonical(layer, logH, steps, shift, 0);
    ConstantHorner(final[0], Point(index, FRI_LOG_BLOWUP, shift));
    VerdictReached(start, layer[start], rounds, logH, Truncate(final), shift, index, final[index]);
  }

  /** Hence every opening is accepted exactly when the commit phase ended in a constant layer. */
  lemma AllAcceptedIffConstant(layer: Layer, logH: nat, ch: Challenger, shift: int)
    requires FRI_LOG_BLOWUP < logH <= 32 && |layer| == TwoPow(logH) && shift % P != 0
    ensures (forall start: nat :: start < |layer| ==> OpeningVerdict(layer, logH, ch, shift, start) == Ok(true))
       <==> (forall i :: 0 <= i < 8 ==> FinalLayer(layer, logH, ch, shift)[i] == FinalLayer(layer, logH, ch, shift)[0])
  {
    hide OpeningVerdict, FinalLayer, CarriedIndex, TwoPow;
    forall start: nat | start < |layer|
      ensures OpeningVerdict(layer, logH, ch, shift, start)
           == Ok(FinalLayer(layer, logH, ch, shift)[CarriedIndex(start, logH)] == FinalLayer(layer, logH, ch, shift)[0])
    {
      QueryVerdictOnCommit(layer, logH, ch, shift, start);
    }
    if forall start: nat :: start < |layer| ==> OpeningVerdict(layer, logH, ch, shift, start) == Ok(true) {
      forall i | 0 <= i < 8
        ensures FinalLayer(layer, logH, ch, shift)[i] == FinalLayer(layer, logH, ch, shift)[0]
      {
        var start := CarriedFrom(i, logH);
        assert OpeningVerdict(layer, logH, ch, shift, start) == Ok(true);
      }
    }
  }

  /** Every entry of the final layer is reached by some query. */
  lemma CarriedFrom(i: nat, logH: nat) returns (start: nat)
    requires FRI_LOG_BLOWUP <= logH && i < 8
    ensures start < TwoPow(logH) && CarriedIndex(start, logH) == i
  {
    var n := TwoPow(logH - FRI_LOG_BLOWUP);
    start := i * n;
    hide TwoPow;
    TwoPowAdd(3, logH - 3);
    FinalHeight();
    MulMonotone(i, 7, n);
    DivModUnique(start, i, 0, n);
  }

  lemma FinalHeight()
    ensures FRI_LOG_BLOWUP == 3 && TwoPow(FRI_LOG_BLOWUP) == 8
  {
  }

  lemma VerdictReached(start: int, eval: EF, rounds: seq<Round>, logMax: int, finalPoly: seq<EF>, shift: int,
                       index: int, value: EF)
    requires Chain(start, eval, rounds, logMax, shift) == Reached(index, value, FRI_LOG_BLOWUP)
    ensures QueryVerdict(start, eval, rounds, logMax, FRI_LOG_BLOWUP, finalPoly, shift)
         == Ok(HornerEF(finalPoly, Point(index, FRI_LOG_BLOWUP, shift)) == value)
  {
  }

  // ----- Low-degree layers -----

  /** One commit round turns 2^a * n coefficients into n. */
  lemma RoundReducesDegree(layer: Layer, f: Poly, n: nat, a: nat, beta: EF, logH: nat, shift: int) returns (g: Poly)
    requires IsArity(a) && a < logH && shift % P != 0
    requires Evaluates(layer, f, logH, shift) && HasLength(f, Arity(a) * n)
    ensures HasLength(g, n)
    ensures Evaluates(FoldColumn(layer, a, beta, logH, shift), g, logH - a, shift)
  {
    hide FoldColumn, FoldPoly, Evaluates;
    if a == 1 {
      FoldColumnDegree2(layer, f, n, beta, logH, shift);
      g := StretchEF(shift, FoldPoly(f, beta, n));
    } else {
      FoldColumnDegree4(layer, f, n, beta, logH, shift);
      g := StretchEF(shift * shift * shift, FoldPoly4(f, beta, n));
    }
  }

  /** All the way down: n = 2^(logH - 3) coefficients leave one coefficient over 8 points. */
  lemma {:induction false} CommitReducesDegree(layer: Layer, f: Poly, logH: nat, seen: seq<Layer>, ch: Challenger,
                                               shift: int)
    returns (g: Poly)
    requires FRI_LOG_BLOWUP <= logH <= 32 && |layer| == TwoPow(logH) && shift % P != 0
    requires Evaluates(layer, f, logH, shift) && HasLength(f, TwoPow(logH - FRI_LOG_BLOWUP))
    ensures HasLength(g, 1)
    ensures Evaluates(LastLayer(layer, CommitSteps(layer, logH, seen, ch, shift)), g, FRI_LOG_BLOWUP, shift)
    decreases logH
  {
    hide FoldColumn, Evaluates;
    var steps := CommitSteps(layer, logH, seen, ch, shift);
    if logH == FRI_LOG_BLOWUP {
      g := f;
    } else {
      var a := RoundLogArity(logH);
      LayerSplit(a, logH - FRI_LOG_BLOWUP);
      var beta := ch(seen + [layer]);
      var next := FoldColumn(layer, a, beta, logH, shift);
      var f' := RoundReducesDegree(layer, f, TwoPow(logH - a - FRI_LOG_BLOWUP), a, beta, logH, shift);
      g := CommitReducesDegree(next, f', logH - a, seen + [layer], ch, shift);
      var rest := CommitSteps(next, logH - a, seen + [layer], ch, shift);
      assert steps[1..] == rest;
      LastLayerStep(layer, steps, |steps|);
      assert steps[..|steps|] == steps && rest[..|rest|] == rest;
    }
  }

  lemma ConstantPoly(f: Poly, x: int, y: int)
    requires HasLength(f, 1)
    ensures EvalEF(f, x) == EvalEF(f, y)
  {
    ConstantEval(f.f0, x);
    ConstantEval(f.f1, x);
    ConstantEval(f.f2, x);
    ConstantEval(f.f0, y);
    ConstantEval(f.f1, y);
    ConstantEval(f.f2, y);
  }

  lemma ConstantEval(f: seq<int>, x: int)
    requires |f| == 1
    ensures Eval(f, x) == f[0]
  {
  }

  /**
   * A layer that evaluates any extension-field polynomial with at most 2^(logH - 3)
   * coefficients folds to a constant final layer, and verify_query accepts every opening.
   */
  lemma LowDegreeAccepted(layer: Layer, f: Poly, logH: nat, ch: Challenger, shift: int, start: nat)
    requires FRI_LOG_BLOWUP < logH <= 32 && |layer| == TwoPow(logH) && start < |layer| && shift % P != 0
    requires Evaluates(layer, f, logH, shift) && AtMost(f, TwoPow(logH - FRI_LOG_BLOWUP))
    ensures forall i :: 0 <= i < 8 ==> FinalLayer(layer, logH, ch, shift)[i] == FinalLayer(layer, logH, ch, shift)[0]
    ensures OpeningVerdict(layer, logH, ch, shift, start) == Ok(true)
  {
    hide OpeningVerdict, TwoPow, FinalLayer, EvalEF, Point;
    var padded := PadPoly(f, TwoPow(logH - FRI_LOG_BLOWUP));
    forall i | 0 <= i < |layer|
      ensures Red(layer[i]) == Red(EvalEF(padded, Point(i, logH, shift)))
    {
      EvalPadded(f, TwoPow(logH - FRI_LOG_BLOWUP), Point(i, logH, shift));
    }
    FullLengthAccepted(layer, padded, logH, ch, shift, start);
  }

  lemma FullLengthAccepted(layer: Layer, f: Poly, logH: nat, ch: Challenger, shift: int, start: nat)
    requires FRI_LOG_BLOWUP < logH <= 32 && |layer| == TwoPow(logH) && start < |layer| && shift % P != 0
    requires Evaluates(layer, f, logH, shift) && HasLength(f, TwoPow(logH - FRI_LOG_BLOWUP))
    ensures forall i :: 0 <= i < 8 ==> FinalLayer(layer, logH, ch, shift)[i] == FinalLayer(layer, logH, ch, shift)[0]
    ensures OpeningVerdict(layer, logH, ch, shift, start) == Ok(true)
  {
    hide OpeningVerdict, TwoPow, CarriedIndex, FoldColumn, CommitSteps, FoldsOf, EvalEF, Point;
    FinalHeight();
    QueryVerdictOnCommit(layer, logH, ch, shift, start);
    var final := FinalLayer(layer, logH, ch, shift);
    var g := CommitReducesDegree(layer, f, logH, [], ch, shift);
    forall i | 0 <= i < 8
      ensures final[i] == final[0]
    {
      ConstantEntry(layer, g, logH, ch, shift, i);
      ConstantEntry(layer, g, logH, ch, shift, 0);
    }
  }

  lemma ConstantEntry(layer: Layer, g: Poly, logH: nat, ch: Challenger, shift: int, i: nat)
    requires FRI_LOG_BLOWUP < logH <= 32 && |layer| == TwoPow(logH) && shift % P != 0 && i < 8 && HasLength(g, 1)
    requires Evaluates(LastLayer(layer, CommitSteps(layer, logH, [], ch, shift)), g, FRI_LOG_BLOWUP, shift)
    ensures FinalLayer(layer, logH, ch, shift)[i] == Red(EvalEF(g, 0))
  {
    hide FoldColumn, CommitSteps, FoldsOf, EvalEF, Point;
    FinalHeight();
    NonemptySteps(layer, logH, ch, shift);
    CommitStepsFold(layer, logH, [], ch, shift);
    var final := FinalLayer(layer, logH, ch, shift);
    LastLayerCanonical(layer, logH, CommitSteps(layer, logH, [], ch, shift), shift, i);
    RedIdempotent(final[i]);
    EvaluatesAt(final, g, FRI_LOG_BLOWUP, shift, i);
    ConstantPoly(g, Point(i, FRI_LOG_BLOWUP, shift), 0);
  }

  lemma NonemptySteps(layer: Layer, logH: nat, ch: Challenger, shift: int)
    requires FRI_LOG_BLOWUP < logH <= 32 && |layer| == TwoPow(logH) && shift % P != 0
    ensures CommitSteps(layer, logH, [], ch, shift) != []
  {
  }

  // ----- The low-degree extension -----

  /** The extension of a base-field polynomial, in bit-reversed order. */
  function LdeValues(coeffs: seq<int>, logN: nat, shift: int): (r: seq<int>)
    requires 0 < logN <= 32
    ensures |r| == TwoPow(logN)
  {
    seq(TwoPow(logN), (i: nat) => Eval(coeffs, Point(i, logN, shift)) % P)
  }

  method HornerBase(coeffs: seq<int>, x: int) returns (value: int)
    ensures value == Eval(coeffs, x) % P
  {
    value := 0;
    ModSmall(0, P);
    var k := |coeffs|;
    while k > 0
      invariant 0 <= k <= |coeffs|
      invariant value == Eval(coeffs[k..], x) % P
    {
      k := k - 1;
      assert coeffs[k..][1..] == coeffs[k + 1..];
      HornerStep(value, Eval(coeffs[k + 1..], x), x, coeffs[k]);
      value := FAdd(FMul(value, x), coeffs[k]);
    }
    assert coeffs[0..] == coeffs;
  }

  lemma HornerStep(value: int, e: int, x: int, c: int)
    requires value == e % P
    ensures FAdd(FMul(value, x), c) == (c + x * e) % P
  {
    CongMod(e, P);
    CongMul(value, e, x, x, P);
    FMulCong(value, x);
    CongAdd(FMul(value, x), e * x, c, c, P);
    assert e * x + c == c + x * e;
  }

  /** goldilocks_lde with log_blowup = 3. */
  method Lde(coeffs: seq<int>, shift: int) returns (r: Result<seq<int>, Error>)
    ensures coeffs == [] ==> r == Ok([])
    ensures coeffs != [] ==>
              var logN := Log2(|coeffs|) + FRI_LOG_BLOWUP;
              if |coeffs| == TwoPow(Log2(|coeffs|)) && logN <= 32
              then r == Ok(LdeValues(coeffs, logN, shift))
              else r == Err(AssertionFailed)
  {
    hide LdeValues, TwoPow;
    if coeffs == [] {
      return Ok([]);
    }
    if |coeffs| != TwoPow(Log2(|coeffs|)) {
      return Err(AssertionFailed);
    }
    var logN := Log2(|coeffs|) + FRI_LOG_BLOWUP;
    if logN > 32 {
      return Err(AssertionFailed);
    }
    var natural := NaturalEvaluations(coeffs, logN, shift);
    var reversed := BitReverseEvaluations(coeffs, logN, shift, natural);
    r := Ok(reversed);
  }

  /** The polynomial along the running product of domain points. */
  method NaturalEvaluations(coeffs: seq<int>, logN: nat, shift: int) returns (evals: seq<int>)
    requires 0 < logN <= 32
    ensures |evals| == TwoPow(logN)
    ensures forall i :: 0 <= i < |evals| ==> evals[i] == Eval(coeffs, shift * Pow(TwoAdicGenerator(logN), i)) % P
  {
    hide Eval, Cong;
    var omega, x := TwoAdicGenerator(logN), shift;
    evals := [];
    FirstPoint(shift, omega);
    for i := 0 to TwoPow(logN)
      invariant |evals| == i
      invariant Cong(x, shift * Pow(omega, i), P)
      invariant forall j :: 0 <= j < i ==> evals[j] == Eval(coeffs, shift * Pow(omega, j)) % P
    {
      var value := HornerBase(coeffs, x);
      EvalMod(coeffs, x, shift * Pow(omega, i));
      evals := evals + [value];
      NextPoint(x, shift, omega, i);
      x := FMul(x, omega);
    }
  }

  /** bit_reverse_list on the natural-order evaluations. */
  method BitReverseEvaluations(coeffs: seq<int>, logN: nat, shift: int, natural: seq<int>) returns (evals: seq<int>)
    requires 0 < logN <= 32 && |natural| == TwoPow(logN)
    requires forall i :: 0 <= i < |natural| ==> natural[i] == Eval(coeffs, shift * Pow(TwoAdicGenerator(logN), i)) % P
    ensures evals == LdeValues(coeffs, logN, shift)
  {
    hide Eval, Cong, Point, BitRev, TwoAdicGenerator, Pow;
    evals := [];
    for i := 0 to TwoPow(logN)
      invariant |evals| == i
      invariant forall j :: 0 <= j < i ==> evals[j] == LdeValues(coeffs, logN, shift)[j]
    {
      var k := BitReverse(i, logN);
      PointCong(i, logN, shift);
      EvalMod(coeffs, Point(i, logN, shift), shift * Pow(TwoAdicGenerator(logN), k));
      evals := evals + [natural[k]];
    }
  }

  lemma EvalMod(f: seq<int>, x: int, y: int)
    requires Cong(x, y, P)
    ensures Eval(f, x) % P == Eval(f, y) % P
  {
    EvalCong(f, x, y);
  }

  /** The embedding of fri_commit_phase_from_base_evals. */
  function Embed(values: seq<int>): (r: Layer)
    ensures |r| == |values|
  {
    seq(|values|, i requires 0 <= i < |values| => FromBase(PyFieldReduce(values[i])))
  }

  lemma FieldReduceCanonical(x: int)
    ensures PyFieldReduce(x % P) == x % P
  {
    CongMod(x, P);
    ModSmall(x % P, 0x1_0000_0000_0000_0000);
    ModSmall(x % P, P);
  }

  lemma EmbeddedLdeEvaluates(coeffs: seq<int>, logN: nat, shift: int)
    requires 0 < logN <= 32
    ensures Evaluates(Embed(LdeValues(coeffs, logN, shift)), Poly(coeffs, Zeros(|coeffs|), Zeros(|coeffs|)), logN,
                      shift)
  {
    hide Point, PyFieldReduce;
    var layer, f := Embed(LdeValues(coeffs, logN, shift)), Poly(coeffs, Zeros(|coeffs|), Zeros(|coeffs|));
    forall i | 0 <= i < |layer|
      ensures Red(layer[i]) == Red(EvalEF(f, Point(i, logN, shift)))
    {
      var x := Point(i, logN, shift);
      FieldReduceCanonical(Eval(coeffs, x));
      EvalZeros(|coeffs|, x);
      CongMod(Eval(coeffs, x), P);
    }
  }

  /**
   * The honest prover is always accepted: for every base-field polynomial with a power of
   * two n >= 2 of coefficients and 8n <= 2^32, every challenger and every start index.
   */
  method HonestQuery(coeffs: seq<int>, ch: Challenger, shift: int, start: nat) returns (accepted: Result<bool, Error>)
    requires |coeffs| >= 2 && |coeffs| == TwoPow(Log2(|coeffs|)) && Log2(|coeffs|) + FRI_LOG_BLOWUP <= 32
    requires shift % P != 0 && start < 8 * |coeffs|
    ensures accepted == Ok(true)
  {
    hide *;
    ghost var m := Log2(|coeffs|);
    ghost var logN := m + FRI_LOG_BLOWUP;
    HonestShape(|coeffs|, m);
    var lde := Lde(coeffs, shift);
    var evals := Embed(lde.value);
    var commit := CommitPhase(evals, ch, shift);
    var steps := commit.value.steps;
    EmbeddedLdeEvaluates(coeffs, logN, shift);
    BaseLength(coeffs);
    LowDegreeAccepted(evals, Poly(coeffs, Zeros(|coeffs|), Zeros(|coeffs|)), logN, ch, shift, start);
    OpeningUnfold(evals, logN, ch, shift, start);
    var opening := BuildQueryRounds(steps, evals, logN, start);
    OpensInside(evals, logN, steps, start);
    var eval, rounds := opening.value.0, opening.value.1;
    accepted := VerifyQuery(start, eval, rounds, Log2(|evals|), FRI_LOG_BLOWUP, commit.value.finalPoly, shift);
  }

  lemma OpeningUnfold(layer: Layer, logH: nat, ch: Challenger, shift: int, start: nat)
    requires FRI_LOG_BLOWUP <= logH <= 32 && |layer| == TwoPow(logH) && start < |layer| && shift % P != 0
    ensures var steps := CommitSteps(layer, logH, [], ch, shift);
      && Shaped(layer, logH, steps)
      && OpeningVerdict(layer, logH, ch, shift, start)
      == QueryVerdict(start, layer[start], QueryRounds(layer, logH, steps, start), logH, FRI_LOG_BLOWUP,
                      Truncate(LastLayer(layer, steps)), shift)
  {
    hide CommitSteps, QueryVerdict, QueryRounds, Shaped;
    CommitStepsFold(layer, logH, [], ch, shift);
  }

  lemma HonestShape(n: nat, m: nat)
    requires n >= 2 && m == Log2(n) && n == TwoPow(m) && m + FRI_LOG_BLOWUP <= 32
    ensures FRI_LOG_BLOWUP == 3 && 8 * n == TwoPow(m + FRI_LOG_BLOWUP)
    ensures Accepts(8 * n) && Log2(8 * n) == m + FRI_LOG_BLOWUP && m > 0
  {
    TwoPowAdd(m, 3);
    assert TwoPow(3) == 8;
    Log2TwoPow(m + 3);
  }

  lemma BaseLength(coeffs: seq<int>)
    ensures AtMost(Poly(coeffs, Zeros(|coeffs|), Zeros(|coeffs|)), |coeffs|)
  {
  }
}
