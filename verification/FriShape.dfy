// What verify_query and fri_commit_phase of verifier-py/scalar_verifier/fri.py do with the shape of
// their inputs: which openings are rejected and which raise, on every input, and which rounds a commit has.
module FriShape {
  import opened Results
  import opened ModArith
  import opened NumberTheory
  import opened Goldilocks
  import opened Gfp3
  import opened FriDomain
  import opened FriPoly
  import opened FriFold
  import opened Fri

  // ----- The rounds of an opening -----

  /** One sibling for an arity of two, three for an arity of four. */
  predicate RightShape(rnd: Round) {
    (rnd.logArity == 1 && |rnd.siblings| == 1) || (rnd.logArity == 2 && |rnd.siblings| == 3)
  }

  function TotalLogArity(rounds: seq<Round>): int {
    if rounds == [] then 0 else rounds[0].logArity + TotalLogArity(rounds[1..])
  }

  /** The first k rounds can be followed: each has the right shape and a domain to fold. */
  predicate GoodRounds(rounds: seq<Round>, k: nat, logMax: int, shift: int)
    requires k <= |rounds|
  {
    forall i :: 0 <= i < k ==> RightShape(rounds[i]) && 0 < logMax - TotalLogArity(rounds[..i]) <= 32 && shift % P != 0
  }

  lemma GoodRest(rounds: seq<Round>, k: nat, logMax: int, shift: int)
    requires 0 < k <= |rounds| && GoodRounds(rounds, k, logMax, shift)
    ensures RightShape(rounds[0]) && 0 < logMax <= 32 && shift % P != 0
    ensures GoodRounds(rounds[1..], k - 1, logMax - rounds[0].logArity, shift)
  {
    assert rounds[..0] == [];
    forall i | 0 <= i < k - 1
      ensures RightShape(rounds[1..][i])
      ensures 0 < logMax - rounds[0].logArity - TotalLogArity(rounds[1..][..i]) <= 32
    {
      assert rounds[1..][i] == rounds[i + 1];
      assert rounds[..i + 1][0] == rounds[0] && rounds[..i + 1][1..] == rounds[1..][..i];
      assert 0 < logMax - TotalLogArity(rounds[..i + 1]) <= 32;
    }
  }

  lemma {:induction false} GoodTotal(rounds: seq<Round>, k: nat, logMax: int, shift: int)
    requires k <= |rounds| && GoodRounds(rounds, k, logMax, shift)
    ensures TotalLogArity(rounds[..k]) >= 0
    decreases k
  {
    if k > 0 {
      GoodRest(rounds, k, logMax, shift);
      GoodTotal(rounds[1..], k - 1, logMax - rounds[0].logArity, shift);
      assert rounds[..k][1..] == rounds[1..][..k - 1];
    }
  }

  /** Following good rounds: the index is shifted by all their bits, the height lowered by as many. */
  lemma {:induction false} FollowGood(index: int, eval: EF, rounds: seq<Round>, k: nat, logMax: int, shift: int)
    returns (value: EF)
    requires k <= |rounds| && GoodRounds(rounds, k, logMax, shift)
    ensures TotalLogArity(rounds[..k]) >= 0
    ensures var bits := TotalLogArity(rounds[..k]);
      Chain(index, eval, rounds, logMax, shift) == Chain(index / TwoPow(bits), value, rounds[k..], logMax - bits, shift)
    decreases k
  {
    hide FoldGroup, TwoPow, GoodRounds, Up, Slot, InsertAt;
    GoodTotal(rounds, k, logMax, shift);
    if k == 0 {
      value := eval;
      NoShift(index);
      assert rounds[0..] == rounds && rounds[..0] == [];
    } else {
      GoodRest(rounds, k, logMax, shift);
      var rnd, bits := rounds[0], TotalLogArity(rounds[1..][..k - 1]);
      var next := FirstFold(index, eval, rounds, logMax, shift);
      value := FollowGood(Up(index, rnd.logArity), next, rounds[1..], k - 1, logMax - rnd.logArity, shift);
      assert rounds[..k][1..] == rounds[1..][..k - 1] && rounds[1..][k - 1..] == rounds[k..];
      ShiftMore(index, rnd.logArity, bits);
    }
  }

  /** One good round of the chain. */
  lemma FirstFold(index: int, eval: EF, rounds: seq<Round>, logMax: int, shift: int) returns (next: EF)
    requires rounds != [] && RightShape(rounds[0]) && 0 < logMax <= 32 && shift % P != 0
    ensures Chain(index, eval, rounds, logMax, shift)
         == Chain(Up(index, rounds[0].logArity), next, rounds[1..], logMax - rounds[0].logArity, shift)
  {
    hide FoldGroup, Up, Slot;
    var rnd := rounds[0];
    var group := InsertAt(rnd.siblings, Slot(index, rnd.logArity), eval);
    next := FoldGroup(group, rnd.logArity, rnd.beta, Up(index, rnd.logArity), logMax, shift);
  }

  lemma NoShift(index: int)
    ensures index / TwoPow(0) == index
  {
  }

  lemma ShiftMore(index: int, a: int, bits: nat)
    requires IsArity(a)
    ensures Up(index, a) / TwoPow(bits) == index / TwoPow(bits + a)
  {
    hide TwoPow;
    LayerSplit(a, bits + a);
    FloorTwice(index, Arity(a), TwoPow(bits));
  }

  lemma FloorTwice(x: int, a: nat, b: nat)
    requires (a == 2 || a == 4) && b > 0
    ensures a * b > 0 && (x / a) / b == x / (a * b)
  {
    var q, r := x / a, x % a;
    var p, s := q / b, q % b;
    assert x == a * q + r && q == p * b + s;
    MulDistributes(p * b, s, a);
    MulAssoc(p, b, a);
    assert a * s + r < a * b by {
      MulMonotone(s + 1, b, a);
      MulDistributes(s, 1, a);
    }
    assert 0 <= a * s;
    DivModUnique(x, p, a * s + r, a * b);
  }

  /** What the first round that cannot be followed does, in the order of the checks. */
  lemma BadRoundVerdict(start: int, eval: EF, rounds: seq<Round>, k: nat, logMax: int, logFinal: int,
                        finalPoly: seq<EF>, shift: int)
    requires k < |rounds| && GoodRounds(rounds, k, logMax, shift)
    ensures var rnd, h := rounds[k], logMax - TotalLogArity(rounds[..k]);
      var verdict := QueryVerdict(start, eval, rounds, logMax, logFinal, finalPoly, shift);
      && (rnd.logArity < 0 ==> verdict == Err(NegativeShift))
      && (rnd.logArity == 0 || rnd.logArity > 2 ==> verdict == Err(Unverifiable))
      && (1 <= rnd.logArity <= 2 && !RightShape(rnd) ==> verdict == Ok(false))
      && (RightShape(rnd) && !(0 < h <= 32) ==> verdict == Err(AssertionFailed))
      && (RightShape(rnd) && 0 < h <= 32 && shift % P == 0 ==> verdict == Err(ZeroDivision))
  {
    hide FoldGroup, TwoPow, GoodRounds, HornerEF, Point;
    var value := FollowGood(start, eval, rounds, k, logMax, shift);
    assert rounds[k..][0] == rounds[k];
  }

  /** With good rounds throughout: the heights must meet, and then the final polynomial decides. */
  lemma GoodRoundsVerdict(start: int, eval: EF, rounds: seq<Round>, logMax: int, logFinal: int, finalPoly: seq<EF>,
                          shift: int) returns (value: EF)
    requires GoodRounds(rounds, |rounds|, logMax, shift)
    ensures TotalLogArity(rounds) >= 0
    ensures var h, index := logMax - TotalLogArity(rounds), start / TwoPow(TotalLogArity(rounds));
      var verdict := QueryVerdict(start, eval, rounds, logMax, logFinal, finalPoly, shift);
      && Chain(start, eval, rounds, logMax, shift) == Reached(index, value, h)
      && (h != logFinal ==> verdict == Ok(false))
      && (h == logFinal && !(0 < logFinal <= 32) ==> verdict == Err(AssertionFailed))
      && (h == logFinal && 0 < logFinal <= 32 ==>
            verdict == Ok(HornerEF(finalPoly, Point(index, logFinal, shift)) == value))
  {
    hide FoldGroup, TwoPow, GoodRounds, HornerEF, Point;
    value := FollowGood(start, eval, rounds, |rounds|, logMax, shift);
    assert rounds[..|rounds|] == rounds && rounds[|rounds|..] == [];
  }

  /** Either all rounds are good or there is a first one that is not. */
  lemma {:induction false} FirstBadRound(rounds: seq<Round>, k: nat, logMax: int, shift: int) returns (j: nat)
    requires k <= |rounds|
    ensures j <= k && GoodRounds(rounds, j, logMax, shift)
    ensures j < k ==> !GoodRounds(rounds, j + 1, logMax, shift)
    decreases k
  {
    if k == 0 {
      j := 0;
    } else {
      j := FirstBadRound(rounds, k - 1, logMax, shift);
      if j == k - 1 && GoodRounds(rounds, k, logMax, shift) {
        j := k;
      }
    }
  }

  /**
   * An accepted opening has the right shape: every round has one sibling and log arity 1 or three and
   * log arity 2, and the log arities lead from the initial to the final height, both within range.
   */
  lemma AcceptedShape(start: int, eval: EF, rounds: seq<Round>, logMax: int, logFinal: int, finalPoly: seq<EF>,
                      shift: int)
    requires QueryVerdict(start, eval, rounds, logMax, logFinal, finalPoly, shift) == Ok(true)
    ensures forall i :: 0 <= i < |rounds| ==> RightShape(rounds[i])
    ensures logMax - TotalLogArity(rounds) == logFinal && 0 < logFinal <= 32
    ensures rounds != [] ==> logMax <= 32 && shift % P != 0
  {
    hide QueryVerdict, HornerEF, Point, FoldGroup, Chain, TwoPow;
    var k := FirstBadRound(rounds, |rounds|, logMax, shift);
    if k < |rounds| {
      BadRoundVerdict(start, eval, rounds, k, logMax, logFinal, finalPoly, shift);
    } else {
      var value := GoodRoundsVerdict(start, eval, rounds, logMax, logFinal, finalPoly, shift);
      assert rounds[..0] == [];
    }
  }

  // ----- Start indices -----

  function StepBits(steps: seq<Step>): int {
    if steps == [] then 0 else steps[0].logArity + StepBits(steps[1..])
  }

  /**
   * build_query_rounds_from_commit_result raises no IndexError exactly for indices inside the list, counted
   * from either end, that are not carried to row -1 of the last layer.
   */
  lemma {:induction false} OpensExact(layer: Layer, logH: nat, steps: seq<Step>, index: int)
    requires Shaped(layer, logH, steps)
    ensures forall i :: 0 <= i < |steps| ==> IsArity(steps[i].logArity)
    ensures StepBits(steps) >= 0
    ensures Opens(layer, steps, index) <==>
              -|layer| <= index < |layer| && (steps != [] ==> index / TwoPow(StepBits(steps)) != -1)
    decreases |steps|
  {
    hide TwoPow, Shaped, Up;
    ShapedArities(layer, logH, steps);
    ShapedStep(layer, logH, steps);
    if steps != [] {
      var a, g := steps[0].logArity, Up(index, steps[0].logArity);
      OpensExact(steps[0].folded, logH - a, steps[1..], g);
      UpBounds(index, a, logH);
      ShiftMore(index, a, StepBits(steps[1..]));
      RowMinusOne(StepBits(steps[1..]));
      NoShift(g);
    }
  }

  lemma RowMinusOne(bits: nat)
    ensures -1 / TwoPow(bits) == -1
  {
    DivModUnique(-1, -1, TwoPow(bits) - 1, TwoPow(bits));
  }

  // ----- The final polynomial -----

  function Firsts(poly: seq<EF>): seq<int> { seq(|poly|, i requires 0 <= i < |poly| => poly[i].c0) }
  function Seconds(poly: seq<EF>): seq<int> { seq(|poly|, i requires 0 <= i < |poly| => poly[i].c1) }
  function Thirds(poly: seq<EF>): seq<int> { seq(|poly|, i requires 0 <= i < |poly| => poly[i].c2) }

  /** The polynomial with these coefficients in the extension. */
  function PolyOf(poly: seq<EF>): Poly { Poly(Firsts(poly), Seconds(poly), Thirds(poly)) }

  lemma PolyRest(poly: seq<EF>, x: int)
    requires poly != []
    ensures EvalEF(PolyOf(poly), x) == ZAdd(ZScale(x, EvalEF(PolyOf(poly[1..]), x)), poly[0])
  {
    assert Firsts(poly)[1..] == Firsts(poly[1..]);
    assert Seconds(poly)[1..] == Seconds(poly[1..]);
    assert Thirds(poly)[1..] == Thirds(poly[1..]);
  }

  /** The Horner loop of verify_query is the value of the final polynomial, for every length. */
  lemma {:induction false} FinalPolyValue(poly: seq<EF>, x: int)
    ensures HornerEF(poly, x) == Red(EvalEF(PolyOf(poly), x))
    decreases |poly|
  {
    hide EfMul, EfAdd, Red, ZMul, EvalEF, PolyOf;
    if poly == [] {
      EmptyPoly(x);
    } else {
      FinalPolyValue(poly[1..], x);
      PolyRest(poly, x);
      var h, e := HornerEF(poly[1..], x), EvalEF(PolyOf(poly[1..]), x);
      RedIdempotent(e);
      RedMul(h, FromBase(x));
      RedMulLeft(h, e, FromBase(x));
      ZMulBase(e, x);
      RedIdempotent(ZMul(h, FromBase(x)));
      RedAdd(EfMul(h, FromBase(x)), poly[0]);
      RedAddCong(EfMul(h, FromBase(x)), ZScale(x, e), poly[0], poly[0]);
    }
  }

  lemma EmptyPoly(x: int)
    ensures Red(EvalEF(PolyOf([]), x)) == ZERO
  {
    RedIdempotent(ZERO);
  }

  // ----- The rounds of a commit -----

  lemma CommitStepsHead(layer: Layer, logH: nat, seen: seq<Layer>, ch: Challenger, shift: int)
    requires FRI_LOG_BLOWUP < logH <= 32 && |layer| == TwoPow(logH) && shift % P != 0
    ensures var steps := CommitSteps(layer, logH, seen, ch, shift);
      var a := if logH == 4 then 1 else 2;
      && steps != [] && steps[0].logArity == a && steps[0].beta == ch(seen + [layer])
      && |steps[0].folded| == TwoPow(logH - a)
      && steps[1..] == CommitSteps(steps[0].folded, logH - a, seen + [layer], ch, shift)
  {
    hide FoldColumn, TwoPow;
    CommitStepsUnfold(layer, logH, seen, ch, shift);
  }

  /** There are ceil((log_n - 3) / 2) rounds, all of arity four but the last when log_n - 3 is odd. */
  lemma {:induction false} CommitRounds(layer: Layer, logH: nat, seen: seq<Layer>, ch: Challenger, shift: int)
    requires FRI_LOG_BLOWUP <= logH <= 32 && |layer| == TwoPow(logH) && shift % P != 0
    ensures var steps := CommitSteps(layer, logH, seen, ch, shift);
      && |steps| == (logH - 3 + 1) / 2
      && forall i :: 0 <= i < |steps| ==>
           steps[i].logArity == if i == |steps| - 1 && (logH - 3) % 2 == 1 then 1 else 2
    decreases logH
  {
    hide FoldColumn, TwoPow, CommitSteps;
    CommitStepsUnfold(layer, logH, seen, ch, shift);
    if logH > FRI_LOG_BLOWUP {
      var steps := CommitSteps(layer, logH, seen, ch, shift);
      CommitStepsHead(layer, logH, seen, ch, shift);
      CommitRounds(steps[0].folded, logH - steps[0].logArity, seen + [layer], ch, shift);
      assert forall i :: 0 < i < |steps| ==> steps[i] == steps[1..][i - 1];
    }
  }

  /** The layers committed before round j, that round's own layer included. */
  function Committed(layer: Layer, steps: seq<Step>, j: nat): seq<Layer>
    requires j <= |steps|
  {
    if j == 0 then [layer] else Committed(layer, steps, j - 1) + [steps[j - 1].folded]
  }

  lemma {:induction false} CommittedRest(layer: Layer, steps: seq<Step>, j: nat)
    requires 0 < j <= |steps|
    ensures Committed(layer, steps, j) == [layer] + Committed(steps[0].folded, steps[1..], j - 1)
    decreases j
  {
    if j > 1 {
      CommittedRest(layer, steps, j - 1);
      assert steps[1..][j - 2] == steps[j - 1];
    }
  }

  /** Every challenge is drawn after exactly the layers up to and including the one it folds. */
  lemma {:induction false} CommitChallenges(layer: Layer, logH: nat, seen: seq<Layer>, ch: Challenger, shift: int,
                                            j: nat)
    requires FRI_LOG_BLOWUP <= logH <= 32 && |layer| == TwoPow(logH) && shift % P != 0
    requires j < |CommitSteps(layer, logH, seen, ch, shift)|
    ensures var steps := CommitSteps(layer, logH, seen, ch, shift);
      steps[j].beta == ch(seen + Committed(layer, steps, j))
    decreases logH
  {
    hide FoldColumn, TwoPow, CommitSteps, Committed;
    CommitStepsUnfold(layer, logH, seen, ch, shift);
    var steps := CommitSteps(layer, logH, seen, ch, shift);
    CommitStepsHead(layer, logH, seen, ch, shift);
    if j == 0 {
      CommittedFirst(layer, steps);
    } else {
      var next := steps[0].folded;
      CommitChallenges(next, logH - steps[0].logArity, seen + [layer], ch, shift, j - 1);
      CommittedRest(layer, steps, j);
      assert steps[1..][j - 1] == steps[j];
      var later := Committed(next, steps[1..], j - 1);
      assert seen + [layer] + later == seen + ([layer] + later);
    }
  }

  lemma CommittedFirst(layer: Layer, steps: seq<Step>)
    ensures Committed(layer, steps, 0) == [layer]
  {
  }

  // ----- Lengths -----

  lemma {:induction false} Log2Bounds(n: nat)
    requires n > 0
    ensures TwoPow(Log2(n)) <= n < 2 * TwoPow(Log2(n))
    decreases n
  {
    if n > 1 {
      Log2Bounds(n / 2);
    }
  }

  lemma {:induction false} TwoPowMonotone(i: nat, j: nat)
    requires i <= j
    ensures TwoPow(i) <= TwoPow(j)
    decreases j
  {
    if i < j {
      TwoPowMonotone(i, j - 1);
    }
  }

  /** A power of two between two powers of two. */
  ghost predicate PowerBetween(n: nat, low: nat, high: nat) {
    exists k: nat :: low <= k <= high && n == TwoPow(k)
  }

  /** fri_commit_phase takes exactly the powers of two from 2^4 to 2^32. */
  lemma CommitLengths(n: nat)
    ensures Accepts(n) <==> PowerBetween(n, 4, 32)
  {
    hide TwoPow, Log2;
    if k: nat :| 4 <= k <= 32 && n == TwoPow(k) {
      Log2TwoPow(k);
      TwoPowMonotone(4, k);
      Sixteen();
    }
  }

  lemma Sixteen()
    ensures TwoPow(4) == 16
  {
  }

  /** fri_fold_column_arity4 takes exactly the powers of two from 2^2 to 2^32. */
  lemma QuadLengths(n: nat)
    ensures QuadColumn(n) <==> PowerBetween(n, 2, 32)
  {
    hide TwoPow;
    if k: nat :| 2 <= k <= 32 && n == TwoPow(k) {
      LayerColumns(k);
    }
    if QuadColumn(n) {
      QuadColumnLog(n);
      assert n == TwoPow(Log2(n));
    }
  }

  /** _fold_arity2_column takes exactly the even lengths below 2^33. */
  lemma PairLengths(n: nat)
    ensures PairColumn(n) <==> n % 2 == 0 && 0 < n < 2 * TwoPow(32)
  {
    hide TwoPow, Log2;
    if n > 0 {
      Log2Bounds(n);
      var k := Log2(n);
      if k <= 32 {
        TwoPowMonotone(k, 32);
      } else {
        TwoPowMonotone(33, k);
        NextPower(32);
      }
    }
  }

  lemma NextPower(k: nat)
    ensures TwoPow(k + 1) == 2 * TwoPow(k)
  {
  }
}
