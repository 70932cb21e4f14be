// FRI commit phase and query verification of verifier-py/scalar_verifier/fri.py.
//
// The Fiat-Shamir challenger is a parameter: any function from the layers committed so
// far to the next challenge. Every statement below holds for all of them.
module Fri {
  import opened Results
  import opened Sorting
  import opened ModArith
  import opened NumberTheory
  import opened Goldilocks
  import opened Gfp3
  import opened FriDomain
  import opened FriFold

  const FRI_LOG_BLOWUP: nat := 3
  const FRI_MAX_LOG_ARITY: nat := 2


  /** The challenge sampled after the given layers have been committed and observed. */
  type Challenger = seq<Layer> -> EF

  // ----- Commit phase -----

  /** FriCommitPhaseStep, without the Merkle root. */
  datatype Step = Step(logArity: nat, folded: Layer, beta: EF)

  datatype CommitResult = CommitResult(steps: seq<Step>, finalPoly: seq<EF>)

  /** min(log_current - log_blowup, max_log_arity). */
  function RoundLogArity(logH: nat): (a: nat)
    requires logH > FRI_LOG_BLOWUP
    ensures IsArity(a) && a <= logH - FRI_LOG_BLOWUP
  {
    if logH - FRI_LOG_BLOWUP < FRI_MAX_LOG_ARITY then logH - FRI_LOG_BLOWUP else FRI_MAX_LOG_ARITY
  }

  /** The rounds of the commit phase from a layer of size 2^logH down to 2^3. */
  function CommitSteps(layer: Layer, logH: nat, seen: seq<Layer>, ch: Challenger, shift: int): seq<Step>
    requires FRI_LOG_BLOWUP <= logH <= 32 && |layer| == TwoPow(logH) && shift % P != 0
    decreases logH
  {
    if logH == FRI_LOG_BLOWUP then [] else
      var a := RoundLogArity(logH);
      var beta := ch(seen + [layer]);
      var next := FoldColumn(layer, a, beta, logH, shift);
      [Step(a, next, beta)] + CommitSteps(next, logH - a, seen + [layer], ch, shift)
  }

  /** The layer left after the given rounds. */
  function LastLayer(layer: Layer, steps: seq<Step>): Layer {
    if steps == [] then layer else steps[|steps| - 1].folded
  }

  /** folded[:final_poly_len] for a constant final polynomial. */
  function Truncate(layer: Layer): seq<EF> {
    if layer == [] then [] else [layer[0]]
  }

  /** The lengths fri_commit_phase does not reject with an AssertionError. */
  predicate Accepts(n: nat) {
    n >= 2 && n == TwoPow(Log2(n)) && FRI_LOG_BLOWUP < Log2(n) <= 32
  }

  /** fri_commit_phase with the default parameters. */
  method CommitPhase(evals: Layer, ch: Challenger, shift: int) returns (r: Result<CommitResult, Error>)
    ensures !Accepts(|evals|) ==> r == Err(AssertionFailed)
    ensures Accepts(|evals|) && shift % P == 0 ==> r == Err(ZeroDivision)
    ensures Accepts(|evals|) && shift % P != 0 ==>
              var steps := CommitSteps(evals, Log2(|evals|), [], ch, shift);
              r == Ok(CommitResult(steps, Truncate(LastLayer(evals, steps))))
  {
    hide FoldColumn, CommitSteps, TwoPow, PairColumn, QuadColumn, PairFolds;
    if |evals| < 2 || |evals| != TwoPow(Log2(|evals|)) {
      return Err(AssertionFailed);
    }
    var logN := Log2(|evals|);
    if logN <= FRI_LOG_BLOWUP || logN > 32 {
      return Err(AssertionFailed);
    }
    var finalHeight := TwoPow(FRI_LOG_BLOWUP);
    var folded, steps, seen := evals, [], [];
    ghost var k := logN;
    if shift % P == 0 {
      return Err(ZeroDivision);  // in the first round: the domain points are zero, and the fold inverts one
    }
    ghost var all := CommitSteps(evals, logN, [], ch, shift);
    while |folded| > finalHeight
      invariant FRI_LOG_BLOWUP <= k <= 32 && |folded| == TwoPow(k)
      invariant all == steps + CommitSteps(folded, k, seen, ch, shift)
      invariant folded == LastLayer(evals, steps)
      decreases k
    {
      LargeLayer(k);
      LayerColumns(k);
      var logCurrent := Log2(|folded|);
      var logArity := RoundLogArity(logCurrent);
      var beta := ch(seen + [folded]);
      CommitStepsUnfold(folded, k, seen, ch, shift);
      seen := seen + [folded];
      var next: Result<Layer, Error>;
      if logArity == 1 {
        next := FoldArity2Column(folded, beta, shift);
      } else {
        next := FoldArity4Column(folded, beta, shift);
      }
      folded := next.value;
      k := k - logArity;
      steps := steps + [Step(logArity, folded, beta)];
    }
    SmallLayer(k);
    CommitStepsUnfold(folded, k, seen, ch, shift);
    assert all == steps;
    r := Ok(CommitResult(steps, Truncate(folded)));
  }

  lemma CommitStepsUnfold(layer: Layer, logH: nat, seen: seq<Layer>, ch: Challenger, shift: int)
    requires FRI_LOG_BLOWUP <= logH <= 32 && |layer| == TwoPow(logH) && shift % P != 0
    ensures CommitSteps(layer, logH, seen, ch, shift)
         == if logH == FRI_LOG_BLOWUP then [] else
              var a := RoundLogArity(logH);
              var beta := ch(seen + [layer]);
              var next := FoldColumn(layer, a, beta, logH, shift);
              [Step(a, next, beta)] + CommitSteps(next, logH - a, seen + [layer], ch, shift)
  {
  }

  lemma LargeLayer(k: nat)
    requires FRI_LOG_BLOWUP <= k && TwoPow(k) > TwoPow(FRI_LOG_BLOWUP)
    ensures k > FRI_LOG_BLOWUP
  {
  }

  lemma {:induction false} SmallLayer(k: nat)
    requires FRI_LOG_BLOWUP <= k && TwoPow(k) <= TwoPow(FRI_LOG_BLOWUP)
    ensures k == FRI_LOG_BLOWUP
  {
    if k > FRI_LOG_BLOWUP + 1 {
      SmallLayer(k - 1);
    }
  }

  // ----- Query phase -----

  /** FriQueryRoundInput. */
  datatype Round = Round(beta: EF, logArity: int, siblings: seq<EF>)

  /** index >> logArity: the row that an index falls into. */
  function Up(index: int, logArity: int): (g: int)
    requires IsArity(logArity)
    ensures index >= 0 ==> g >= 0
  {
    if logArity == 1 then index / 2 else index / 4
  }

  /** index % (1 << logArity): its place in the row. */
  function Slot(index: int, logArity: int): (k: nat)
    requires IsArity(logArity)
    ensures k < Arity(logArity)
  {
    if logArity == 1 then index % 2 else index % 4
  }

  function InsertAt(s: seq<EF>, i: nat, e: EF): seq<EF>
    requires i <= |s|
  {
    s[..i] + [e] + s[i..]
  }

  /** Outcome of following the rounds: where the chain ends, a shape failure, or an exception. */
  datatype ChainResult =
    | Reached(index: int, eval: EF, logH: int)
    | BadShape
    | Raised(error: Error)

  function Chain(index: int, eval: EF, rounds: seq<Round>, logH: int, shift: int): ChainResult
    decreases |rounds|
  {
    if rounds == [] then Reached(index, eval, logH) else
      var rnd := rounds[0];
      if rnd.logArity < 0 then Raised(NegativeShift)
      else if !IsArity(rnd.logArity) then Raised(Unverifiable)
      else if |rnd.siblings| != Arity(rnd.logArity) - 1 then BadShape
      else if !(0 < logH <= 32) then Raised(AssertionFailed)
      else if shift % P == 0 then Raised(ZeroDivision)
      else
        var group := InsertAt(rnd.siblings, Slot(index, rnd.logArity), eval);
        var g := Up(index, rnd.logArity);
        Chain(g, FoldGroup(group, rnd.logArity, rnd.beta, g, logH, shift), rounds[1..],
              logH - rnd.logArity, shift)
  }

  /** The final polynomial at a base-field point, by Horner's rule. */
  function HornerEF(poly: seq<EF>, x: int): EF {
    if poly == [] then ZERO else EfAdd(EfMul(HornerEF(poly[1..], x), FromBase(x)), poly[0])
  }

  /** What verify_query decides. */
  function QueryVerdict(start: int, eval: EF, rounds: seq<Round>, logMax: int, logFinal: int, finalPoly: seq<EF>,
                        shift: int): Result<bool, Error>
  {
    match Chain(start, eval, rounds, logMax, shift)
    case Raised(e) => Err(e)
    case BadShape => Ok(false)
    case Reached(index, value, logH) =>
      if logH != logFinal then Ok(false)
      else if !(0 < logFinal <= 32) then Err(AssertionFailed)
      else Ok(HornerEF(finalPoly, Point(index, logFinal, shift)) == value)
  }

  /** verify_query. */
  method VerifyQuery(start: int, eval: EF, rounds: seq<Round>, logMax: int, logFinal: int, finalPoly: seq<EF>,
                     shift: int)
    returns (r: Result<bool, Error>)
    ensures r == QueryVerdict(start, eval, rounds, logMax, logFinal, finalPoly, shift)
  {
    hide FoldGroup, Point, EfAdd, EfMul;
    var currentIndex, foldedEval, logCurrent := start, eval, logMax;
    var k := 0;
    while k < |rounds|
      invariant 0 <= k <= |rounds|
      invariant Chain(start, eval, rounds, logMax, shift)
             == Chain(currentIndex, foldedEval, rounds[k..], logCurrent, shift)
    {
      var rnd := rounds[k];
      assert rounds[k..][0] == rnd && rounds[k..][1..] == rounds[k + 1..];
      if rnd.logArity < 0 {
        return Err(NegativeShift);
      }
      if !IsArity(rnd.logArity) {
        return Err(Unverifiable);
      }
      var arity := Arity(rnd.logArity);
      if |rnd.siblings| != arity - 1 {
        return Ok(false);
      }
      if !(0 < logCurrent <= 32) {
        return Err(AssertionFailed);
      }
      if shift % P == 0 {
        return Err(ZeroDivision);
      }
      var group := PlaceSiblings(rnd.siblings, Slot(currentIndex, rnd.logArity), foldedEval);
      var groupIndex := Up(currentIndex, rnd.logArity);
      foldedEval := FoldGroup(group, rnd.logArity, rnd.beta, groupIndex, logCurrent, shift);
      currentIndex := groupIndex;
      logCurrent := logCurrent - rnd.logArity;
      k := k + 1;
    }
    assert rounds[k..] == [];
    if logCurrent != logFinal {
      return Ok(false);
    }
    if !(0 < logFinal <= 32) {
      return Err(AssertionFailed);
    }
    var value := EvaluateFinal(finalPoly, Point(currentIndex, logFinal, shift));
    r := Ok(value == foldedEval);
  }

  /** The inner loop of verify_query: the carried value at its own slot, the siblings around it in order. */
  method PlaceSiblings(siblings: seq<EF>, slot: nat, value: EF) returns (group: seq<EF>)
    requires slot <= |siblings|
    ensures group == InsertAt(siblings, slot, value)
  {
    group := [];
    var sib := 0;
    for j := 0 to |siblings| + 1
      invariant |group| == j && sib == (if j <= slot then j else j - 1)
      invariant group == InsertAt(siblings, slot, value)[..j]
    {
      if j == slot {
        group := group + [value];
      } else {
        group := group + [siblings[sib]];
        sib := sib + 1;
      }
    }
  }

  /** The Horner loop over the reversed coefficients. */
  method EvaluateFinal(poly: seq<EF>, x: int) returns (value: EF)
    ensures value == HornerEF(poly, x)
  {
    hide EfAdd, EfMul;
    value := ZERO;
    var k := |poly|;
    while k > 0
      invariant 0 <= k <= |poly|
      invariant value == HornerEF(poly[k..], x)
    {
      k := k - 1;
      assert poly[k..][1..] == poly[k + 1..];
      value := EfAdd(EfMul(value, FromBase(x)), poly[k]);
    }
    assert poly[0..] == poly;
  }

  // ----- Openings built from a commit -----

  /** Layers of sizes 2^logH and below, as the arities of the rounds demand. */
  predicate Shaped(layer: Layer, logH: nat, steps: seq<Step>)
    decreases |steps|
  {
    && |layer| == TwoPow(logH)
    && (steps != [] ==>
          && IsArity(steps[0].logArity) && steps[0].logArity < logH <= 32
          && Shaped(steps[0].folded, logH - steps[0].logArity, steps[1..]))
  }

  /** The rounds were produced by folding `layer`, of size 2^logH, one after the other. */
  predicate FoldsOf(layer: Layer, logH: nat, steps: seq<Step>, shift: int)
    requires shift % P != 0
    decreases |steps|
  {
    && Shaped(layer, logH, steps)
    && (steps != [] ==>
          && steps[0].folded == FoldColumn(layer, steps[0].logArity, steps[0].beta, logH, shift)
          && FoldsOf(steps[0].folded, logH - steps[0].logArity, steps[1..], shift))
  }

  lemma CarriedInside(index: nat, logArity: int, logH: nat)
    requires IsArity(logArity) && logArity <= logH && index < TwoPow(logH)
    ensures 0 <= Up(index, logArity) < TwoPow(logH - logArity)
    ensures Arity(logArity) * Up(index, logArity) + Slot(index, logArity) == index
  {
    hide TwoPow;
    LayerSplit(logArity, logH);
  }

  /** The opening of one round: the row of the layer around the carried index, without the carried entry. */
  function RowRound(layer: Layer, s: Step, logH: nat, index: nat): Round
    requires IsArity(s.logArity) && s.logArity <= logH && |layer| == TwoPow(logH) && index < |layer|
  {
    CarriedInside(index, s.logArity, logH);
    Round(s.beta, s.logArity,
          RemoveAt(Group(layer, s.logArity, logH, Up(index, s.logArity)), Slot(index, s.logArity)))
  }

  /** The rows that build_query_rounds_from_commit_result extracts. */
  function QueryRounds(layer: Layer, logH: nat, steps: seq<Step>, index: nat): (r: seq<Round>)
    requires Shaped(layer, logH, steps) && index < |layer|
    ensures |r| == |steps|
    decreases |steps|
  {
    if steps == [] then [] else
      var s := steps[0];
      CarriedInside(index, s.logArity, logH);
      [RowRound(layer, s, logH, index)]
      + QueryRounds(s.folded, logH - s.logArity, steps[1..], Up(index, s.logArity))
  }

  lemma QueryRoundsStep(layer: Layer, logH: nat, steps: seq<Step>, index: nat)
    requires Shaped(layer, logH, steps) && index < |layer| && steps != []
    ensures var s := steps[0];
      && IsArity(s.logArity) && s.logArity < logH <= 32 && |layer| == TwoPow(logH)
      && Shaped(s.folded, logH - s.logArity, steps[1..])
      && Up(index, s.logArity) < |s.folded| == TwoPow(logH - s.logArity)
      && QueryRounds(layer, logH, steps, index)
      == [RowRound(layer, s, logH, index)]
         + QueryRounds(s.folded, logH - s.logArity, steps[1..], Up(index, s.logArity))
  {
    hide RowRound, TwoPow;
    ShapedStep(layer, logH, steps);
    CarriedInside(index, steps[0].logArity, logH);
  }

  lemma ShapedStep(layer: Layer, logH: nat, steps: seq<Step>)
    requires Shaped(layer, logH, steps)
    ensures |layer| == TwoPow(logH)
    ensures steps != [] ==>
              && IsArity(steps[0].logArity) && steps[0].logArity < logH <= 32
              && Shaped(steps[0].folded, logH - steps[0].logArity, steps[1..])
              && |steps[0].folded| == TwoPow(logH - steps[0].logArity)
  {
    hide TwoPow;
  }

  /** Where a Python slice bound falls in a list of this length. */
  function Bound(i: int, length: nat): (k: nat)
    ensures k <= length
  {
    if i < 0 then (if i + length < 0 then 0 else i + length) else if i > length then length else i
  }

  /** layer[from : to], with negative bounds counted from the end. */
  function Slice(layer: Layer, from: int, to: int): Layer {
    var lo, hi := Bound(from, |layer|), Bound(to, |layer|);
    if lo <= hi then layer[lo..hi] else []
  }

  /** Python indices that a list of this length accepts. */
  predicate InRange(index: int, length: nat) { 0 <= index + length && index < length }

  /** The slice for row g. */
  function Row(layer: Layer, g: int, logArity: int): Layer
    requires IsArity(logArity)
  {
    Slice(layer, Arity(logArity) * g, Arity(logArity) * g + Arity(logArity))
  }

  /** Where a Python index falls in a list of this length. */
  function Position(index: int, length: nat): int { if index < 0 then index + length else index }

  /** The start indices that raise no IndexError: inside the list, and in no row counted as -1. */
  predicate Opens(layer: Layer, steps: seq<Step>, index: int)
    requires forall i :: 0 <= i < |steps| ==> IsArity(steps[i].logArity)
    decreases |steps|
  {
    && InRange(index, |layer|)
    && (steps != [] ==>
          && Up(index, steps[0].logArity) != -1
          && Opens(steps[0].folded, steps[1..], Up(index, steps[0].logArity)))
  }

  lemma UpBounds(index: int, logArity: int, logH: nat)
    requires IsArity(logArity) && logArity <= logH
    ensures var n, m, g := Arity(logArity), TwoPow(logH - logArity), Up(index, logArity);
      && TwoPow(logH) == n * m
      && (InRange(index, TwoPow(logH)) <==> InRange(g, m))
      && (index < 0 <==> g < 0)
      && Up(index + TwoPow(logH), logArity) == g + m && Slot(index + TwoPow(logH), logArity) == Slot(index, logArity)
  {
    hide TwoPow;
    LayerSplit(logArity, logH);
  }

  /** The slice of a row is the row, unless the index is out of range or counts as -1: then it is empty. */
  lemma RowSlice(layer: Layer, logArity: int, logH: nat, index: int)
    requires IsArity(logArity) && logArity <= logH && |layer| == TwoPow(logH)
    ensures var m, g := TwoPow(logH - logArity), Up(index, logArity);
      Row(layer, g, logArity)
      == if InRange(g, m) && g != -1 then Group(layer, logArity, logH, Position(g, m)) else []
  {
    hide TwoPow, Group, Slice;
    LayerSplit(logArity, logH);
    var n, m, g := Arity(logArity), TwoPow(logH - logArity), Up(index, logArity);
    if InRange(g, m) && g != -1 {
      var at := Position(g, m);
      GroupIsSlice(layer, logArity, logH, at);
      if n == 2 {
        SliceInside(layer, n * g, n * g + n, n * at, n * at + n);
      } else {
        SliceInside(layer, n * g, n * g + n, n * at, n * at + n);
      }
    } else {
      if n == 2 {
        SliceOutside(layer, n * g, n * g + n, n);
      } else {
        SliceOutside(layer, n * g, n * g + n, n);
      }
    }
  }

  lemma GroupIsSlice(layer: Layer, logArity: int, logH: nat, g: nat)
    requires IsArity(logArity) && logArity <= logH && |layer| == TwoPow(logH) && g < TwoPow(logH - logArity)
    ensures var n := Arity(logArity);
      0 <= n * g && n * g + n <= |layer| && layer[n * g..n * g + n] == Group(layer, logArity, logH, g)
  {
  }

  lemma SliceInside(layer: Layer, from: int, to: int, lo: nat, hi: nat)
    requires lo < hi <= |layer| && ((from == lo && to == hi) || (from == lo - |layer| && to == hi - |layer| && to < 0))
    ensures Slice(layer, from, to) == layer[lo..hi]
  {
  }

  lemma SliceOutside(layer: Layer, from: int, to: int, n: int)
    requires to == from + n && n > 0 && (from >= |layer| || to <= -|layer| || to == 0)
    ensures Slice(layer, from, to) == []
  {
  }

  /** The list comprehension over the row without the slot. */
  method Others(row: seq<EF>, slot: nat, arity: nat) returns (r: Result<seq<EF>, Error>)
    requires slot < arity && arity > 1 && (|row| == arity || row == [])
    ensures row == [] ==> r == Err(IndexOutOfRange)
    ensures row != [] ==> r == Ok(RemoveAt(row, slot))
  {
    var others := [];
    for j := 0 to arity
      invariant row == [] ==> others == [] && (j == 0 || (j == 1 && slot == 0))
      invariant row != [] ==> others == if j <= slot then row[..j] else row[..slot] + row[slot + 1..j]
    {
      if j != slot {
        if j >= |row| {
          return Err(IndexOutOfRange);
        }
        others := others + [row[j]];
      }
    }
    assert row != [] ==> row[slot + 1..arity] == row[slot + 1..];
    r := Ok(others);
  }

  /** build_query_rounds_from_commit_result, for any start index. */
  method BuildQueryRounds(steps: seq<Step>, initial: Layer, ghost logH: nat, start: int)
    returns (r: Result<(EF, seq<Round>), Error>)
    requires Shaped(initial, logH, steps)
    ensures forall i :: 0 <= i < |steps| ==> IsArity(steps[i].logArity)
    ensures !Opens(initial, steps, start) ==> r == Err(IndexOutOfRange)
    ensures Opens(initial, steps, start) ==>
              var at := Position(start, |initial|);
              r == Ok((initial[at], QueryRounds(initial, logH, steps, at)))
  {
    hide QueryRounds, TwoPow, Shaped, Opens, Row, Up, Slot, RemoveAt, InRange;
    ShapedArities(initial, logH, steps);
    var layer, index, rounds := initial, start, [];
    ghost var h, inside := logH, Opens(initial, steps, start);
    OpensRange(initial, steps, start);
    ghost var all := if inside then QueryRounds(initial, logH, steps, Position(start, |initial|)) else [];
    for k := 0 to |steps|
      invariant 0 <= h && Shaped(layer, h, steps[k..])
      invariant inside <==> Opens(layer, steps[k..], index)
      invariant (k == 0 && layer == initial && index == start) || InRange(index, |layer|)
      invariant inside ==> 0 <= Position(index, |layer|) < |layer|
      invariant inside ==> all == rounds + QueryRounds(layer, h, steps[k..], Position(index, |layer|))
    {
      var s := steps[k];
      assert steps[k..][0] == s && steps[k..][1..] == steps[k + 1..];
      BuildStep(layer, h, steps[k..], index);
      var arity := Arity(s.logArity);
      var groupIndex, slot := Up(index, s.logArity), Slot(index, s.logArity);
      var siblings := Others(Row(layer, groupIndex, s.logArity), slot, arity);
      if siblings.Err? {
        return Err(IndexOutOfRange);
      }
      rounds := rounds + [Round(s.beta, s.logArity, siblings.value)];
      layer, index := s.folded, groupIndex;
      h := h - s.logArity;
    }
    assert steps[|steps|..] == [];
    assert inside ==> all == rounds;
    OpensEnd(layer, index);
    if !InRange(start, |initial|) {
      return Err(IndexOutOfRange);
    }
    PositionInside(start, |initial|);
    r := Ok((initial[Position(start, |initial|)], rounds));
  }

  lemma PositionInside(index: int, length: nat)
    requires InRange(index, length)
    ensures 0 <= Position(index, length) < length
  {
  }

  /** One round of the loop: what the slice is, and what that means for the start index. */
  lemma BuildStep(layer: Layer, logH: nat, steps: seq<Step>, index: int)
    requires Shaped(layer, logH, steps) && steps != []
    requires forall i :: 0 <= i < |steps| ==> IsArity(steps[i].logArity)
    ensures var s := steps[0];
      && s.logArity < logH && Shaped(s.folded, logH - s.logArity, steps[1..])
      && var n, g := Arity(s.logArity), Up(index, s.logArity);
      var row, at, at' := Row(layer, g, s.logArity), Position(index, |layer|), Position(g, |s.folded|);
      && (row == [] || |row| == n)
      && (row == [] ==> !Opens(layer, steps, index))
      && (row != [] ==>
            && InRange(g, |s.folded|) && 0 <= at' < |s.folded|
            && (Opens(layer, steps, index) <==> Opens(s.folded, steps[1..], g)))
      && (Opens(layer, steps, index) ==>
            && row != [] && 0 <= at < |layer|
            && QueryRounds(layer, logH, steps, at)
            == [Round(s.beta, s.logArity, RemoveAt(row, Slot(index, s.logArity)))]
               + QueryRounds(s.folded, logH - s.logArity, steps[1..], at'))
  {
    hide TwoPow, Shaped, Group, QueryRounds, Opens, Row, Up, Slot, RemoveAt;
    ShapedStep(layer, logH, steps);
    RowSlice(layer, steps[0].logArity, logH, index);
    OpensStep(layer, logH, steps, index);
    OpensRange(layer, steps, index);
    if Opens(layer, steps, index) {
      RoundAt(layer, logH, steps, index);
    }
  }

  lemma OpensRange(layer: Layer, steps: seq<Step>, index: int)
    requires forall i :: 0 <= i < |steps| ==> IsArity(steps[i].logArity)
    ensures Opens(layer, steps, index) ==> InRange(index, |layer|) && 0 <= Position(index, |layer|) < |layer|
  {
  }

  /** Every position of the initial layer opens. */
  lemma {:induction false} OpensInside(layer: Layer, logH: nat, steps: seq<Step>, index: nat)
    requires Shaped(layer, logH, steps) && index < |layer|
    ensures forall i :: 0 <= i < |steps| ==> IsArity(steps[i].logArity)
    ensures Opens(layer, steps, index) && Position(index, |layer|) == index
    decreases |steps|
  {
    hide TwoPow, Shaped;
    ShapedArities(layer, logH, steps);
    ShapedStep(layer, logH, steps);
    if steps != [] {
      CarriedInside(index, steps[0].logArity, logH);
      OpensInside(steps[0].folded, logH - steps[0].logArity, steps[1..], Up(index, steps[0].logArity));
    }
  }

  lemma OpensEnd(layer: Layer, index: int)
    ensures Opens(layer, [], index) <==> InRange(index, |layer|)
  {
  }

  /** One round: the row is there exactly if the index opens so far. */
  lemma OpensStep(layer: Layer, logH: nat, steps: seq<Step>, index: int)
    requires Shaped(layer, logH, steps) && steps != []
    requires forall i :: 0 <= i < |steps| ==> IsArity(steps[i].logArity)
    ensures var a := steps[0].logArity;
      && IsArity(a) && a <= logH
      && var g, m := Up(index, a), TwoPow(logH - a);
      && |steps[0].folded| == m
      && (Opens(layer, steps, index) <==> InRange(g, m) && g != -1 && Opens(steps[0].folded, steps[1..], g))
  {
    hide TwoPow, Shaped;
    ShapedStep(layer, logH, steps);
    UpBounds(index, steps[0].logArity, logH);
  }

  /** One round of an index that opens: its row, read at the position the index stands for. */
  lemma RoundAt(layer: Layer, logH: nat, steps: seq<Step>, index: int)
    requires Shaped(layer, logH, steps) && steps != [] && InRange(index, |layer|)
    ensures var s, at := steps[0], Position(index, |layer|);
      && IsArity(s.logArity) && s.logArity <= logH
      && var g, m := Up(index, s.logArity), TwoPow(logH - s.logArity);
      && 0 <= at < |layer| && InRange(g, m) && |s.folded| == m && Shaped(s.folded, logH - s.logArity, steps[1..])
      && QueryRounds(layer, logH, steps, at)
      == [Round(s.beta, s.logArity,
                RemoveAt(Group(layer, s.logArity, logH, Position(g, m)), Slot(index, s.logArity)))]
         + QueryRounds(s.folded, logH - s.logArity, steps[1..], Position(g, m))
  {
    hide TwoPow, Shaped, Group, QueryRounds;
    ShapedStep(layer, logH, steps);
    UpBounds(index, steps[0].logArity, logH);
    QueryRoundsStep(layer, logH, steps, Position(index, |layer|));
  }

  // ----- The query chain retraces the commit phase -----

  /** The position a query has been carried to after the given rounds. */
  function IndexAfter(index: nat, steps: seq<Step>): nat
    requires forall i :: 0 <= i < |steps| ==> IsArity(steps[i].logArity)
    decreases |steps|
  {
    if steps == [] then index else IndexAfter(Up(index, steps[0].logArity), steps[1..])
  }

  function HeightAfter(logH: int, steps: seq<Step>): int
    decreases |steps|
  {
    if steps == [] then logH else HeightAfter(logH - steps[0].logArity, steps[1..])
  }

  lemma {:induction false} ShapedArities(layer: Layer, logH: nat, steps: seq<Step>)
    requires Shaped(layer, logH, steps)
    ensures forall i :: 0 <= i < |steps| ==> IsArity(steps[i].logArity)
    decreases |steps|
  {
    hide TwoPow;
    if steps != [] {
      ShapedArities(steps[0].folded, logH - steps[0].logArity, steps[1..]);
      forall i | 0 <= i < |steps|
        ensures IsArity(steps[i].logArity)
      {
        assert i > 0 ==> steps[i] == steps[1..][i - 1];
      }
    }
  }

  lemma LastLayerStep(layer: Layer, steps: seq<Step>, j: nat)
    requires 0 < j <= |steps|
    ensures LastLayer(layer, steps[..j]) == LastLayer(steps[0].folded, steps[1..][..j - 1])
  {
  }

  lemma ReinsertRemoved(s: seq<EF>, i: nat)
    requires i < |s|
    ensures InsertAt(RemoveAt(s, i), i, s[i]) == s
  {
  }

  /** One round of the query on a row of the layer computes the entry of the folded column. */
  lemma ChainStep(layer: Layer, logH: nat, s: Step, index: nat, rest: seq<Round>, shift: int)
    requires shift % P != 0 && |layer| == TwoPow(logH) && index < |layer|
    requires IsArity(s.logArity) && s.logArity < logH <= 32
    requires s.folded == FoldColumn(layer, s.logArity, s.beta, logH, shift)
    ensures var g := Up(index, s.logArity);
      && 0 <= g < |s.folded|
      && Chain(index, layer[index], [RowRound(layer, s, logH, index)] + rest, logH, shift)
      == Chain(g, s.folded[g], rest, logH - s.logArity, shift)
  {
    hide FoldGroup, TwoPow, Up, Slot;
    var g, k := Up(index, s.logArity), Slot(index, s.logArity);
    LayerSplit(s.logArity, logH);
    CarriedInside(index, s.logArity, logH);
    var group := Group(layer, s.logArity, logH, g);
    assert group[k] == layer[index];
    ReinsertRemoved(group, k);
    var rounds := [Round(s.beta, s.logArity, RemoveAt(group, k))] + rest;
    assert rounds[1..] == rest;
  }

  /**
   * After j rounds the chain holds exactly the entry that the commit phase stored, in the
   * layer it had after j rounds, at the shifted index. No assumption on the initial layer.
   */
  lemma {:induction false} ChainRetracesCommit(layer: Layer, logH: nat, steps: seq<Step>, index: nat, j: nat,
                                               shift: int)
    requires shift % P != 0 && FoldsOf(layer, logH, steps, shift) && index < |layer| && j <= |steps|
    ensures forall i :: 0 <= i < |steps| ==> IsArity(steps[i].logArity)
    ensures Shaped(layer, logH, steps)
    ensures IndexAfter(index, steps[..j]) < |LastLayer(layer, steps[..j])|
    ensures Chain(index, layer[index], QueryRounds(layer, logH, steps, index)[..j], logH, shift)
         == Reached(IndexAfter(index, steps[..j]), LastLayer(layer, steps[..j])[IndexAfter(index, steps[..j])],
                    HeightAfter(logH, steps[..j]))
    decreases |steps|
  {
    hide FoldGroup, Point, FoldColumn, Chain, RowRound, QueryRounds, TwoPow, Shaped;
    ShapedArities(layer, logH, steps);
    var rounds := QueryRounds(layer, logH, steps, index);
    if j > 0 {
      var s := steps[0];
      QueryRoundsStep(layer, logH, steps, index);
      var rest := QueryRounds(s.folded, logH - s.logArity, steps[1..], Up(index, s.logArity));
      assert rounds[..j] == [rounds[0]] + rest[..j - 1];
      ChainStep(layer, logH, s, index, rest[..j - 1], shift);
      ChainRetracesCommit(s.folded, logH - s.logArity, steps[1..], Up(index, s.logArity), j - 1, shift);
      LastLayerStep(layer, steps, j);
      assert steps[..j][0] == s && steps[..j][1..] == steps[1..][..j - 1];
    } else {
      ChainNoRounds(index, layer[index], logH, shift);
    }
  }

  lemma ChainNoRounds(index: int, eval: EF, logH: int, shift: int)
    ensures Chain(index, eval, [], logH, shift) == Reached(index, eval, logH)
  {
  }

  // ----- What the commit phase produces -----

  lemma {:induction false} CommitStepsFold(layer: Layer, logH: nat, seen: seq<Layer>, ch: Challenger, shift: int)
    requires FRI_LOG_BLOWUP <= logH <= 32 && |layer| == TwoPow(logH) && shift % P != 0
    ensures var steps := CommitSteps(layer, logH, seen, ch, shift);
      && FoldsOf(layer, logH, steps, shift) && Shaped(layer, logH, steps)
      && HeightAfter(logH, steps) == FRI_LOG_BLOWUP
      && |LastLayer(layer, steps)| == TwoPow(FRI_LOG_BLOWUP)
    decreases logH
  {
    hide FoldColumn;
    if logH > FRI_LOG_BLOWUP {
      var a := RoundLogArity(logH);
      var next := FoldColumn(layer, a, ch(seen + [layer]), logH, shift);
      CommitStepsFold(next, logH - a, seen + [layer], ch, shift);
      var rest := CommitSteps(next, logH - a, seen + [layer], ch, shift);
      var steps := CommitSteps(layer, logH, seen, ch, shift);
      assert steps == [steps[0]] + rest;
      assert steps[1..] == rest;
      LastLayerStep(layer, steps, |steps|);
      assert steps[..|steps|] == steps && rest[..|rest|] == rest;
    }
  }

  lemma {:induction false} CommitIndex(layer: Layer, logH: nat, seen: seq<Layer>, ch: Challenger, shift: int,
                                       index: nat)
    requires FRI_LOG_BLOWUP <= logH <= 32 && |layer| == TwoPow(logH) && shift % P != 0
    ensures var steps := CommitSteps(layer, logH, seen, ch, shift);
      && (forall i :: 0 <= i < |steps| ==> IsArity(steps[i].logArity))
      && IndexAfter(index, steps) == index / TwoPow(logH - FRI_LOG_BLOWUP)
    decreases logH
  {
    hide FoldColumn, TwoPow, Shaped, FoldsOf, HeightAfter, LastLayer, Up, CommitSteps;
    CommitStepsFold(layer, logH, seen, ch, shift);
    DivOne(index);
    var steps := CommitSteps(layer, logH, seen, ch, shift);
    ShapedArities(layer, logH, steps);
    if logH > FRI_LOG_BLOWUP {
      var a := RoundLogArity(logH);
      var next := FoldColumn(layer, a, ch(seen + [layer]), logH, shift);
      CommitIndex(next, logH - a, seen + [layer], ch, shift, Up(index, a));
      CommitStepsUnfold(layer, logH, seen, ch, shift);
      assert steps[1..] == CommitSteps(next, logH - a, seen + [layer], ch, shift);
      LayerSplit(a, logH - FRI_LOG_BLOWUP);
      UpThenDivide(index, a, TwoPow(logH - a - FRI_LOG_BLOWUP));
    } else {
      CommitStepsUnfold(layer, logH, seen, ch, shift);
    }
  }

  lemma UpThenDivide(index: nat, logArity: int, n: nat)
    requires IsArity(logArity) && n > 0
    ensures Arity(logArity) * n > 0 && Up(index, logArity) / n == index / (Arity(logArity) * n)
  {
    DivDiv(index, Arity(logArity), n);
  }

  lemma DivOne(x: nat)
    ensures TwoPow(0) == 1 && x / TwoPow(0) == x
  {
  }

  lemma DivDiv(x: nat, a: nat, b: nat)
    requires a > 0 && b > 0
    ensures a * b > 0 && (x / a) / b == x / (a * b)
  {
    var q, r := x / (a * b), x % (a * b);
    assert a * b > 0;
    assert x == q * (a * b) + r;
    assert x == (q * b) * a + r by {
      assert q * (a * b) == (q * b) * a;
    }
    var s, t := r / a, r % a;
    assert x == (q * b + s) * a + t by {
      assert r == s * a + t;
      assert (q * b + s) * a == (q * b) * a + s * a;
    }
    DivModUnique(x, q * b + s, t, a);
    assert s >= b ==> s * a >= b * a;
    DivModUnique(q * b + s, q, s, b);
  }
}
