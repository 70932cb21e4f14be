// Step 2b of coin selection: client/scalar-wallet-core/src/coin_selection.rs.
module CoinSelection {
  import opened ModArith
  import opened Words
  import opened Sorting

  const MAX_INPUTS: nat := 10

  /** A denomination and how many coins of it the wallet holds. */
  datatype WalletCoin = WalletCoin(value: U64, count: nat)

  datatype Selection =
    | Selected(coins: seq<U64>, total: U64, change: U64)
    | RequiresConsolidation
    | InsufficientBalance
    | Overflow  // the arithmetic panic of a checked build

  // ----- Sums of coins -----

  function Sum(s: seq<U64>): nat {
    if s == [] then 0 else s[0] + Sum(s[1..])
  }

  lemma {:induction false} SumAppend(s: seq<U64>, t: seq<U64>)
    ensures Sum(s + t) == Sum(s) + Sum(t)
    decreases |s|
  {
    if s == [] {
      assert s + t == t;
    } else {
      SumAppend(s[1..], t);
      assert (s + t)[1..] == s[1..] + t;
    }
  }

  lemma RemoveAtFacts(s: seq<U64>, i: nat)
    requires i < |s|
    ensures Sum(s) == s[i] + Sum(RemoveAt(s, i))
    ensures multiset(RemoveAt(s, i)) == multiset(s) - multiset{s[i]}
  {
    SumRemove(s, i);
    RemoveOne(s, i);
  }

  lemma MoveOne(m: multiset<U64>, a: multiset<U64>, v: U64)
    requires v in m
    ensures (m - multiset{v}) + (a + multiset{v}) == m + a
  {
  }

  lemma {:induction false} SumRemove(s: seq<U64>, i: nat)
    requires i < |s|
    ensures Sum(s) == s[i] + Sum(RemoveAt(s, i))
    decreases i
  {
    if i == 0 {
      assert RemoveAt(s, 0) == s[1..];
    } else {
      SumRemove(s[1..], i - 1);
      assert RemoveAt(s, i)[0] == s[0];
      assert RemoveAt(s, i)[1..] == RemoveAt(s[1..], i - 1);
    }
  }

  lemma SumPush(s: seq<U64>, x: U64)
    ensures Sum(s + [x]) == Sum(s) + x
  {
    SumAppend(s, [x]);
    assert [x][1..] == [];
  }

  lemma SortedTop(s: seq<U64>)
    requires Sorted(s) && s != []
    ensures forall i :: 0 <= i < |s| ==> s[i] <= s[|s| - 1]
  {
  }

  lemma RemoveKeepsOrder(s: seq<U64>, i: nat)
    requires Sorted(s) && i < |s|
    ensures Sorted(RemoveAt(s, i))
  {
  }

  /** Coins are ordered by their value. */
  function CoinValue(x: U64): int { x }

  predicate Sorted(s: seq<U64>) { SortedBy(CoinValue, s) }

  /** The same coins, in any order. */
  predicate SameCoins(p: seq<U64>, q: seq<U64>) {
    multiset(p) == multiset(q)
  }

  /** `all` is what remains together with what was taken. */
  predicate Divided(all: seq<U64>, remaining: seq<U64>, taken: seq<U64>) {
    multiset(all) == multiset(remaining) + multiset(taken)
  }

  /** t picks coins out of the pool, each at most as often as it is there. */
  predicate ChosenFrom(t: seq<U64>, pool: seq<U64>) {
    multiset(t) <= multiset(pool)
  }

  lemma ChosenBelow(t: seq<U64>, pool: seq<U64>, bound: int)
    requires ChosenFrom(t, pool) && forall i :: 0 <= i < |pool| ==> pool[i] <= bound
    ensures forall i :: 0 <= i < |t| ==> t[i] <= bound
  {
    forall i | 0 <= i < |t|
      ensures t[i] <= bound
    {
      assert t[i] in multiset(t);
      assert t[i] in multiset(pool);
    }
  }

  lemma SubmultisetRemove(a: multiset<U64>, b: multiset<U64>, c: U64)
    requires a <= b && c in a
    ensures a - multiset{c} <= b - multiset{c}
  {
  }

  lemma SubmultisetOther(a: multiset<U64>, b: multiset<U64>, c: U64, x: U64)
    requires a <= b && c !in a && x in a && c in b
    ensures a - multiset{x} <= b - multiset{c}
  {
  }

  /**
   * The exchange step: a choice of coins can give up one of its coins so that what is left is
   * a choice from the pool without its largest coin, and covers all but that coin's value.
   */
  lemma Exchange(t: seq<U64>, pool: seq<U64>, top: nat) returns (rest: seq<U64>)
    requires t != [] && ChosenFrom(t, pool) && top < |pool|
    requires forall i :: 0 <= i < |pool| ==> pool[i] <= pool[top]
    ensures |rest| == |t| - 1 && ChosenFrom(rest, RemoveAt(pool, top))
    ensures Sum(rest) >= Sum(t) - pool[top]
  {
    var c := pool[top];
    RemoveAtFacts(pool, top);
    ChosenBelow(t, pool, c);
    if i :| 0 <= i < |t| && t[i] == c {
      rest := RemoveAt(t, i);
      RemoveAtFacts(t, i);
      assert c in multiset(t);
      SubmultisetRemove(multiset(t), multiset(pool), c);
    } else {
      rest := RemoveAt(t, 0);
      RemoveAtFacts(t, 0);
      assert t[0] in multiset(t);
      assert c in multiset(pool);
      SubmultisetOther(multiset(t), multiset(pool), c, t[0]);
    }
  }

  lemma {:induction false} SumOfChosen(t: seq<U64>, pool: seq<U64>)
    requires ChosenFrom(t, pool)
    ensures Sum(t) <= Sum(pool)
    decreases |t|
  {
    if t != [] {
      var c := t[0];
      assert c in multiset(t);
      assert c in multiset(pool);
      var k :| 0 <= k < |pool| && pool[k] == c;
      RemoveAtFacts(t, 0);
      RemoveAtFacts(pool, k);
      SubmultisetRemove(multiset(t), multiset(pool), c);
      SumOfChosen(RemoveAt(t, 0), RemoveAt(pool, k));
    }
  }

  // ----- The pool -----

  function Repeat(v: U64, n: nat): seq<U64> { seq(n, i => v) }

  /** Every available coin, one entry per coin, in wallet order. */
  function Coins(available: seq<WalletCoin>): seq<U64> {
    if available == [] then [] else Repeat(available[0].value, available[0].count) + Coins(available[1..])
  }

  /** How many coins of this value the wallet lists. */
  function CountOf(available: seq<WalletCoin>, v: U64): nat {
    if available == [] then 0
    else (if available[0].value == v then available[0].count else 0) + CountOf(available[1..], v)
  }

  /** The value of the whole wallet: value times count, over its entries. */
  function Balance(available: seq<WalletCoin>): nat {
    if available == [] then 0
    else
      MulMonotone(0, available[0].count, available[0].value);
      available[0].value * available[0].count + Balance(available[1..])
  }

  lemma {:induction false} RepeatFacts(v: U64, n: nat, w: U64)
    ensures multiset(Repeat(v, n))[w] == if w == v then n else 0
    ensures Sum(Repeat(v, n)) == v * n
    decreases n
  {
    if n > 0 {
      RepeatFacts(v, n - 1, w);
      var rest := Repeat(v, n - 1);
      assert Repeat(v, n) == [v] + rest;
      assert Repeat(v, n)[1..] == rest;
      MulDistributes(n - 1, 1, v);
    }
  }

  /** The pool holds every coin of the wallet as often as the wallet lists it, and no other coin. */
  lemma {:induction false} CoinsCounted(available: seq<WalletCoin>, v: U64)
    ensures multiset(Coins(available))[v] == CountOf(available, v)
    decreases |available|
  {
    hide Repeat;
    if available != [] {
      CoinsCounted(available[1..], v);
      RepeatFacts(available[0].value, available[0].count, v);
    }
  }

  /** The pool is worth the balance of the wallet. */
  lemma {:induction false} CoinsWorth(available: seq<WalletCoin>)
    ensures Sum(Coins(available)) == Balance(available)
    decreases |available|
  {
    hide Repeat;
    if available == [] {
    } else {
      CoinsWorth(available[1..]);
      RepeatFacts(available[0].value, available[0].count, available[0].value);
      SumAppend(Repeat(available[0].value, available[0].count), Coins(available[1..]));
    }
  }

  /** The pool built by flat_map and sort_unstable. */
  method SortedPool(available: seq<WalletCoin>) returns (pool: seq<U64>)
    ensures Sorted(pool) && SameCoins(pool, Coins(available))
    ensures forall v: U64 :: multiset(pool)[v] == CountOf(available, v)
    ensures Sum(pool) == Balance(available)
  {
    hide Coins, Sum, Balance, CountOf;
    pool := SortBy(CoinValue, Coins(available));
    SamePool(pool, Coins(available));
    CoinsWorth(available);
    forall v: U64
      ensures multiset(pool)[v] == CountOf(available, v)
    {
      CoinsCounted(available, v);
    }
  }

  /** partition_point(|v| v < bound) on a sorted pool, by bisection. */
  method PartitionPoint(pool: seq<U64>, bound: U64) returns (k: nat)
    requires Sorted(pool)
    ensures k <= |pool|
    ensures forall i :: 0 <= i < k ==> pool[i] < bound
    ensures forall i :: k <= i < |pool| ==> pool[i] >= bound
  {
    var lo, hi := 0, |pool|;
    while lo < hi
      invariant 0 <= lo <= hi <= |pool|
      invariant forall i :: 0 <= i < lo ==> pool[i] < bound
      invariant forall i :: hi <= i < |pool| ==> pool[i] >= bound
    {
      var mid := (lo + hi) / 2;
      if pool[mid] < bound {
        lo := mid + 1;
      } else {
        hi := mid;
      }
    }
    k := lo;
  }

  // ----- What the loop guarantees -----

  /** Every choice of at most n coins from the pool falls short of `need`. */
  ghost predicate NoneCovers(pool: seq<U64>, n: int, need: int) {
    forall t: seq<U64> :: ChosenFrom(t, pool) && |t| <= n ==> Sum(t) < need
  }

  /** Taking the largest coin loses nothing: if m - 1 coins of the rest cannot close the gap, m coins could not. */
  lemma LargestIsEnough(pool: seq<U64>, top: nat, m: int, need: int)
    requires top < |pool| && need > 0
    requires forall i :: 0 <= i < |pool| ==> pool[i] <= pool[top]
    requires NoneCovers(RemoveAt(pool, top), m - 1, need - pool[top])
    ensures NoneCovers(pool, m, need)
  {
    forall t: seq<U64> | ChosenFrom(t, pool) && |t| <= m
      ensures Sum(t) < need
    {
      if t != [] {
        var rest := Exchange(t, pool, top);
      }
    }
  }

  /** Any outcome's promise about the original pool, after the coins in `taken` have been moved out of it. */
  ghost predicate Justified(pool: seq<U64>, taken: nat, rest: seq<U64>, need: int, gap: int) {
    forall n: int :: NoneCovers(rest, n, gap) ==> NoneCovers(pool, n + taken, need)
  }

  lemma JustifiedStep(pool: seq<U64>, taken: nat, rest: seq<U64>, need: int, gap: int, top: nat)
    requires Justified(pool, taken, rest, need, gap) && top < |rest| && gap > 0
    requires forall i :: 0 <= i < |rest| ==> rest[i] <= rest[top]
    ensures Justified(pool, taken + 1, RemoveAt(rest, top), need, gap - rest[top])
  {
    var rest', gap' := RemoveAt(rest, top), gap - rest[top];
    forall n: int | NoneCovers(rest', n, gap')
      ensures NoneCovers(pool, n + (taken + 1), need)
    {
      LargestIsEnough(rest, top, n + 1, gap);
      assert NoneCovers(pool, n + 1 + taken, need);
    }
  }

  lemma NothingCovers(pool: seq<U64>, gap: int)
    requires gap > 0
    ensures NoneCovers(pool, 0, gap)
  {
  }

  lemma ShrinkBudget(pool: seq<U64>, n: int, m: int, need: int)
    requires NoneCovers(pool, n, need) && m <= n
    ensures NoneCovers(pool, m, need)
  {
  }

  lemma TransferNone(p: seq<U64>, q: seq<U64>, n: int, need: int)
    requires NoneCovers(p, n, need) && SameCoins(p, q)
    ensures NoneCovers(q, n, need)
  {
  }

  lemma SamePool(p: seq<U64>, q: seq<U64>)
    requires SameCoins(p, q)
    ensures Sum(p) == Sum(q) && |p| == |q|
  {
    SumOfChosen(p, q);
    SumOfChosen(q, p);
    assert |multiset(p)| == |multiset(q)|;
  }

  /** The last coin added is the smallest remaining coin that closes the gap left by the others. */
  ghost predicate SmallestLast(added: seq<U64>, coins: seq<U64>, need: int)
    requires added != []
  {
    var before, last := added[..|added| - 1], added[|added| - 1];
    forall v: U64 :: v in multiset(coins) - multiset(before) && Sum(before) + v >= need ==> v >= last
  }

  lemma SmallestLastStep(added: seq<U64>, original: seq<U64>, pool: seq<U64>, need: int, best: nat)
    requires Divided(original, pool, added) && best < |pool|
    requires forall i :: 0 <= i < best ==> Sum(added) + pool[i] < need
    requires Sorted(pool)
    ensures SmallestLast(added + [pool[best]], original, need)
  {
  }

  /** What the loop has established once `added` has been moved from `original`, leaving `pool`. */
  ghost predicate Progress(original: seq<U64>, added: seq<U64>, pool: seq<U64>, need: int) {
    && Sorted(pool)
    && Divided(original, pool, added)
    && (Sum(added) < need ==> Justified(original, |added|, pool, need, need - Sum(added)))
    && (Sum(added) >= need ==>
          added != [] && NoneCovers(original, |added| - 1, need) && SmallestLast(added, original, need))
  }

  lemma ProgressStart(pool: seq<U64>, need: int)
    requires Sorted(pool) && need > 0
    ensures Progress(pool, [], pool, need)
  {
  }

  lemma MovedCoin(original: seq<U64>, added: seq<U64>, pool: seq<U64>, k: nat)
    requires k < |pool| && Divided(original, pool, added)
    ensures Divided(original, RemoveAt(pool, k), added + [pool[k]])
  {
    hide RemoveAt;
    RemoveAtFacts(pool, k);
    MoveOne(multiset(pool), multiset(added), pool[k]);
  }

  /** One turn of the loop: the smallest coin that closes the gap, or else the largest coin. */
  lemma ProgressStep(original: seq<U64>, added: seq<U64>, pool: seq<U64>, need: int, best: nat, chosen: nat)
    requires Progress(original, added, pool, need) && Sum(added) < need && best <= |pool| && pool != []
    requires forall i :: 0 <= i < best ==> Sum(added) + pool[i] < need
    requires forall i :: best <= i < |pool| ==> Sum(added) + pool[i] >= need
    requires chosen == if best < |pool| then best else |pool| - 1
    ensures Progress(original, added + [pool[chosen]], RemoveAt(pool, chosen), need)
  {
    hide Justified, NoneCovers, SmallestLast, Sum, RemoveAt, Sorted, Divided;
    var v := pool[chosen];
    MovedCoin(original, added, pool, chosen);
    RemoveKeepsOrder(pool, chosen);
    SumPush(added, v);
    SortedTop(pool);
    assert |added + [v]| == |added| + 1;
    if best < |pool| {
      GapOpen(original, added, pool, need);
      SmallestLastStep(added, original, pool, need, best);
    } else {
      JustifiedStep(original, |added|, pool, need, need - Sum(added), chosen);
    }
  }

  /** While a gap remains, no choice of as few coins as were added would have closed it. */
  lemma GapOpen(original: seq<U64>, added: seq<U64>, pool: seq<U64>, need: int)
    requires Progress(original, added, pool, need) && Sum(added) < need
    ensures NoneCovers(original, |added|, need)
  {
    NothingCovers(pool, need - Sum(added));
    assert NoneCovers(original, 0 + |added|, need);
  }

  /**
   * `added` is a smallest set of wallet coins that covers the gap between `start` and `need`, its last
   * coin is as small as possible, and the figures are exact up to u64 saturation.
   */
  ghost predicate FewestCoins(added: seq<U64>, coins: seq<U64>, start: nat, need: U64, total: U64, change: int) {
    && ChosenFrom(added, coins)
    && start + Sum(added) >= need
    && NoneCovers(coins, |added| - 1, need - start)
    && (added != [] ==> SmallestLast(added, coins, need - start))
    && total == (if start + Sum(added) > U64_MAX then U64_MAX else start + Sum(added))
    && change == total - need
  }

  /** What each answer means for the caller. */
  ghost predicate Correct(r: Selection, selectedSoFar: seq<U64>, coins: seq<U64>, need: U64) {
    var start := Sum(selectedSoFar);
    match r
    case Overflow => start > U64_MAX
    case Selected(chosen, total, change) =>
      && start <= U64_MAX
      && |selectedSoFar| <= |chosen| && chosen[..|selectedSoFar|] == selectedSoFar
      && (|chosen| > |selectedSoFar| ==> |chosen| <= MAX_INPUTS)
      && FewestCoins(chosen[|selectedSoFar|..], coins, start, need, total, change)
    case RequiresConsolidation =>
      start < need && NoneCovers(coins, MAX_INPUTS - |selectedSoFar|, need - start)
    case InsufficientBalance =>
      start + Sum(coins) < need && |selectedSoFar| + |coins| < MAX_INPUTS
  }

  lemma FewestAdded(added: seq<U64>, pool: seq<U64>, original: seq<U64>, coins: seq<U64>, start: nat, need: U64,
                    total: U64)
    requires Progress(original, added, pool, need - start) && start + Sum(added) >= need
    requires SameCoins(original, coins)
    requires total == if start + Sum(added) > U64_MAX then U64_MAX else start + Sum(added)
    ensures FewestCoins(added, coins, start, need, total, total - need)
  {
  }

  lemma TakenFromCoins(original: seq<U64>, pool: seq<U64>, added: seq<U64>, coins: seq<U64>)
    requires Divided(original, pool, added) && SameCoins(original, coins)
    ensures ChosenFrom(added, coins)
    ensures pool == [] ==> SameCoins(added, coins)
  {
  }

  lemma SplitConcat(a: seq<U64>, b: seq<U64>)
    ensures |a| <= |a + b| && (a + b)[..|a|] == a && (a + b)[|a|..] == b && |a + b| == |a| + |b|
  {
  }

  /**
   * step2b_fee_adequacy_check. The amount needed is target plus fee, saturated at the u64 maximum
   * as in the source.
   */
  method FeeAdequacyCheck(selectedSoFar: seq<U64>, available: seq<WalletCoin>, target: U64, fee: U64)
    returns (r: Selection)
    ensures Correct(r, selectedSoFar, Coins(available), SatAdd(target, fee))
  {
    hide Progress, NoneCovers, Coins, Sorted, Sum, RemoveAt, ChosenFrom, Divided, SameCoins, FewestCoins;
    var totalNeeded := SatAdd(target, fee);
    var selected := selectedSoFar;
    if Sum(selected) > U64_MAX {
      return Overflow;
    }
    var totalSelected: U64 := Sum(selected);
    if totalSelected >= totalNeeded {
      AlreadyEnough(selectedSoFar, Coins(available), totalNeeded);
      return Selected(selected, totalSelected, SatSub(totalSelected, totalNeeded));
    }
    var shortfall := SatSub(totalNeeded, totalSelected);
    var pool: seq<U64> := SortedPool(available);
    ghost var original: seq<U64>, added: seq<U64> := pool, [];
    ghost var start := Sum(selectedSoFar);
    ghost var need := totalNeeded - start;
    ProgressStart(pool, need);
    EmptySum();
    assert selectedSoFar + added == selectedSoFar;
    while shortfall > 0
      invariant Progress(original, added, pool, need)
      invariant selected == selectedSoFar + added
      invariant added != [] ==> |selected| <= MAX_INPUTS
      invariant totalSelected == if start + Sum(added) > U64_MAX then U64_MAX else start + Sum(added)
      invariant shortfall == SatSub(totalNeeded, totalSelected)
      decreases |pool|
    {
      if |selected| >= MAX_INPUTS {
        GapOpen(original, added, pool, need);
        ShrinkBudget(original, |added|, MAX_INPUTS - |selectedSoFar|, need);
        TransferNone(original, Coins(available), MAX_INPUTS - |selectedSoFar|, need);
        return RequiresConsolidation;
      }
      ProgressSorted(original, added, pool, need);
      if pool == [] {
        TakenFromCoins(original, pool, added, Coins(available));
        SamePool(added, Coins(available));
        return InsufficientBalance;
      }
      var best := PartitionPoint(pool, shortfall);
      var chosen := if best < |pool| then best else |pool| - 1;
      ProgressStep(original, added, pool, need, best, chosen);
      SumPush(added, pool[chosen]);
      var value := pool[chosen];
      pool := RemoveAt(pool, chosen);
      assert selected + [value] == selectedSoFar + (added + [value]);
      selected := selected + [value];
      added := added + [value];
      totalSelected := SatAdd(totalSelected, value);
      shortfall := SatSub(totalNeeded, totalSelected);
    }
    ProgressDone(original, added, pool, need);
    SplitConcat(selectedSoFar, added);
    FewestAdded(added, pool, original, Coins(available), start, totalNeeded, totalSelected);
    r := Selected(selected, totalSelected, SatSub(totalSelected, totalNeeded));
  }

  lemma EmptySum()
    ensures Sum([]) == 0
  {
  }

  lemma ProgressSorted(original: seq<U64>, added: seq<U64>, pool: seq<U64>, need: int)
    requires Progress(original, added, pool, need)
    ensures Sorted(pool) && Divided(original, pool, added)
  {
  }

  lemma ProgressDone(original: seq<U64>, added: seq<U64>, pool: seq<U64>, need: int)
    requires Progress(original, added, pool, need) && Sum(added) >= need
    ensures added != [] && NoneCovers(original, |added| - 1, need) && SmallestLast(added, original, need)
    ensures Divided(original, pool, added)
  {
  }

  lemma AlreadyEnough(selectedSoFar: seq<U64>, coins: seq<U64>, need: U64)
    requires need <= Sum(selectedSoFar) <= U64_MAX
    ensures Correct(Selected(selectedSoFar, Sum(selectedSoFar), Sum(selectedSoFar) - need), selectedSoFar, coins, need)
  {
  }

  // ----- The loop as its comment has it -----

  /** The index of the first coin of at least this value, or the length. */
  function FirstAtLeast(pool: seq<U64>, gap: int): (k: nat)
    ensures k <= |pool|
  {
    if pool == [] || pool[0] >= gap then 0 else 1 + FirstAtLeast(pool[1..], gap)
  }

  /** When no coin of the sorted pool closes the gap, take the smallest instead of the largest. */
  function SmallestFirst(pool: seq<U64>, gap: int): seq<U64>
    decreases |pool|
  {
    if pool == [] || gap <= 0 then []
    else
      var k := FirstAtLeast(pool, gap);
      var chosen := if k < |pool| then k else 0;
      [pool[chosen]] + SmallestFirst(RemoveAt(pool, chosen), gap - pool[chosen])
  }

  lemma {:induction false} NoneAtLeast(pool: seq<U64>, gap: int)
    requires forall i :: 0 <= i < |pool| ==> pool[i] < gap
    ensures FirstAtLeast(pool, gap) == |pool|
    decreases |pool|
  {
    if pool != [] {
      NoneAtLeast(pool[1..], gap);
    }
  }

  lemma SmallestFirstStep(pool: seq<U64>, gap: int)
    requires pool != [] && gap > 0 && forall i :: 0 <= i < |pool| ==> pool[i] < gap
    ensures SmallestFirst(pool, gap) == [pool[0]] + SmallestFirst(pool[1..], gap - pool[0])
  {
    NoneAtLeast(pool, gap);
    assert RemoveAt(pool, 0) == pool[1..];
  }

  /** That would not be optimal: for 6 out of the coins 1, 3, 3 it takes three coins where two suffice. */
  lemma SmallestFirstNeedsMore(pool: seq<U64>, two: seq<U64>)
    requires pool == [1] + two && two == [3, 3]
    ensures |SmallestFirst(pool, 6)| == 3
    ensures ChosenFrom(two, pool) && Sum(two) == 6 && |two| == 2
  {
    hide SmallestFirst;
    SmallestFirstStep(pool, 6);
    assert pool[1..] == two;
    SmallestFirstStep(two, 5);
    LastCoin(two[1..], 2);
    SumAppend([3], [3]);
    assert [3] + [3] == two && Sum([3]) == 3;
  }

  lemma LastCoin(pool: seq<U64>, gap: int)
    requires |pool| == 1 && 0 < gap <= pool[0]
    ensures SmallestFirst(pool, gap) == pool
  {
    assert RemoveAt(pool, 0) == [];
  }

  // ----- Consequences -----

  /**
   * The documented limit of 10 inputs holds for every selection exactly when the caller starts
   * within it: a longer list that already covers the amount is returned unchanged.
   */
  lemma InputLimit(r: Selection, selectedSoFar: seq<U64>, coins: seq<U64>, need: U64)
    requires Correct(r, selectedSoFar, coins, need) && r.Selected?
    ensures |r.coins| <= 10 <==> |selectedSoFar| <= 10
  {
    var added := r.coins[|selectedSoFar|..];
    if added == [] {
      assert r.coins == r.coins[..|selectedSoFar|] + added;
    }
  }

  /** The other case: eleven coins of value 1 for a target of 1 are all returned. */
  method TooManyInputs() returns (selected: seq<U64>, r: Selection)
    ensures r.Selected? && r.coins == selected && |r.coins| == 11
  {
    selected := [1, 1, 1, 1, 1, 1, 1, 1, 1, 1, 1];
    SumOfOnes(selected);
    r := FeeAdequacyCheck(selected, [], 1, 0);
    OwnCoinsEnough(r, selected, Coins([]), 1);
  }

  lemma {:induction false} SumOfOnes(s: seq<U64>)
    requires forall i :: 0 <= i < |s| ==> s[i] == 1
    ensures Sum(s) == |s|
    decreases |s|
  {
    if s != [] {
      SumOfOnes(s[1..]);
    }
  }

  /** Coins that already cover the amount are returned as they are. */
  lemma OwnCoinsEnough(r: Selection, selectedSoFar: seq<U64>, coins: seq<U64>, need: U64)
    requires Correct(r, selectedSoFar, coins, need) && need <= Sum(selectedSoFar) <= U64_MAX
    ensures r.Selected? && r.coins == selectedSoFar
  {
    assert ChosenFrom([], coins) && Sum([]) == 0;
    if r.Selected? {
      var added := r.coins[|selectedSoFar|..];
      assert NoneCovers(coins, |added| - 1, need - Sum(selectedSoFar));
      assert r.coins == r.coins[..|selectedSoFar|] + added;
    }
  }

  /** Insufficient balance means that the wallet and the coins selected so far are worth less than needed. */
  lemma ShortBalance(r: Selection, selectedSoFar: seq<U64>, available: seq<WalletCoin>, need: U64)
    requires Correct(r, selectedSoFar, Coins(available), need) && r.InsufficientBalance?
    ensures Sum(selectedSoFar) + Balance(available) < need
  {
    CoinsWorth(available);
  }

  /** The answer is the right one: selection succeeds within the limit whenever some choice of coins does. */
  lemma AnswersExact(r: Selection, selectedSoFar: seq<U64>, coins: seq<U64>, need: U64, t: seq<U64>)
    requires Correct(r, selectedSoFar, coins, need) && Sum(selectedSoFar) <= U64_MAX
    requires ChosenFrom(t, coins) && |selectedSoFar| + |t| <= 10 && Sum(selectedSoFar) + Sum(t) >= need
    ensures r.Selected? && |r.coins| <= |selectedSoFar| + |t|
  {
    SumOfChosen(t, coins);
    match r
    case Selected(chosen, total, change) =>
      var added := chosen[|selectedSoFar|..];
      assert NoneCovers(coins, |added| - 1, need - Sum(selectedSoFar));
    case RequiresConsolidation =>
    case InsufficientBalance =>
    case Overflow =>
  }
}
