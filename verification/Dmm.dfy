// The Deterministic Minimal Manifest of core/scalar-emission/src/dmm.rs and the canonical
// transaction order of core/scalar-emission/src/ordering.rs.
//
// A 32-byte string is modelled by its big-endian value, so that integer order is the byte order
// used for sorting. BLAKE3 is a parameter: one function per kind of message hashed.
module Dmm {
  import opened Results
  import opened ModArith
  import opened Words
  import opened Sorting

  type Id = x: int | 0 <= x < 0x1_0000_0000_0000_0000_0000_0000_0000_0000_0000_0000_0000_0000_0000_0000_0000_0000

  datatype PrevNode = PrevNode(id: Id, weight: U64)
  datatype Anchor = Anchor(id: Id, hbCount: U64, chainHead: Id, weight: U64)
  datatype NodeReward = NodeReward(id: Id, reward: U64, weight: U64)

  /** CommittedManifestRef. */
  datatype PrevManifest = PrevManifest(manifestHash: Id, nodes: seq<PrevNode>, epochId: U64)

  datatype Manifest = Manifest(
    epochId: U64, nodes: seq<NodeReward>, specVersion: nat, totalEmission: U64, deferred: bool,
    seed: Id, manifestHash: Id, rewardRoot: Id, healthDigest: Id, txSetRoot: Id)

  datatype DmmError = BootstrapRequired | ManifestHashMismatch

  /** The messages that are hashed: sorted txids, the node list, health figures, the previous hash, the manifest. */
  datatype Hashes = Hashes(
    txSet: seq<Id> -> Id, rewards: seq<NodeReward> -> Id, health: (U64, nat, U64) -> Id, seed: Id -> Id,
    manifest: Manifest -> Id)

  const SPEC_VERSION: nat := 1

  // ----- Eligible nodes -----

  /** find_valid_anchor: the first anchor with this node id. */
  function FindAnchor(anchors: seq<Anchor>, id: Id): Option<Anchor> {
    if anchors == [] then None
    else if anchors[0].id == id then Some(anchors[0])
    else FindAnchor(anchors[1..], id)
  }

  /** The nodes of the previous manifest that have an anchor, in their order, with the anchor's weight. */
  function Eligible(nodes: seq<PrevNode>, anchors: seq<Anchor>): seq<NodeReward> {
    if nodes == [] then []
    else
      var n := nodes[|nodes| - 1];
      var rest := Eligible(nodes[..|nodes| - 1], anchors);
      match FindAnchor(anchors, n.id)
      case None => rest
      case Some(a) => rest + [NodeReward(n.id, 0, a.weight)]
  }

  function WeightSum(nodes: seq<NodeReward>): nat {
    if nodes == [] then 0 else WeightSum(nodes[..|nodes| - 1]) + nodes[|nodes| - 1].weight
  }

  function RewardSum(nodes: seq<NodeReward>): nat {
    if nodes == [] then 0 else RewardSum(nodes[..|nodes| - 1]) + nodes[|nodes| - 1].reward
  }

  // ----- Rewards -----

  lemma ShareBound(e: nat, w: nat, total: nat)
    requires total > 0 && w <= total
    ensures 0 <= e * w / total <= e
  {
    var q, r := e * w / total, e * w % total;
    assert e * w == q * total + r;
    assert e * (total - w) >= 0;
    assert (e - q) * total == e * (total - w) + r;
    NonNegativeFactor(e - q, total);
    assert e * w >= 0;
    assert (q + 1) * total == q * total + total;
    PositiveFactor(q + 1, total);
  }

  lemma NonNegativeFactor(x: int, m: int)
    requires m > 0 && x * m >= 0
    ensures x >= 0
  {
    assert x < 0 ==> x * m < 0;
  }

  lemma PositiveFactor(x: int, m: int)
    requires m > 0 && x * m > 0
    ensures x > 0
  {
    assert x <= 0 ==> x * m <= 0;
  }

  /** compute_reward_for_node; the u128 product cannot saturate and the final cast truncates to u64. */
  function RewardFor(eActive: U64, w: U64, wEffective: U64): U64 {
    if wEffective == 0 then 0
    else
      CongMod((eActive as int) * w / wEffective, TWO_64);
      ((eActive as int) * w / wEffective) % TWO_64
  }

  /** No truncation happens when the weight is part of the total. */
  lemma RewardExact(eActive: U64, w: U64, wEffective: U64)
    requires 0 < wEffective && w <= wEffective
    ensures RewardFor(eActive, w, wEffective) == (eActive as int) * w / wEffective <= eActive
  {
    ShareBound(eActive, w, wEffective);
    ModSmall((eActive as int) * w / wEffective, TWO_64);
  }

  /** The reward loop: every node's reward filled in. */
  function Rewarded(nodes: seq<NodeReward>, eActive: U64, wEffective: U64): seq<NodeReward> {
    seq(|nodes|, i requires 0 <= i < |nodes| =>
      NodeReward(nodes[i].id, RewardFor(eActive, nodes[i].weight, wEffective), nodes[i].weight))
  }

  /** What a saturating u64 sum of non-negative terms ends with. */
  function Capped(x: nat): U64 { if x > U64_MAX then U64_MAX else x }

  /** The saturating sum of the weights. */
  function TotalWeight(nodes: seq<NodeReward>): U64 {
    Capped(WeightSum(nodes))
  }

  function EffectiveWeight(nodes: seq<NodeReward>): U64 {
    if TotalWeight(nodes) == 0 then 1 else TotalWeight(nodes)
  }

  lemma {:induction false} WeightBelowSum(nodes: seq<NodeReward>, i: nat)
    requires i < |nodes|
    ensures nodes[i].weight <= WeightSum(nodes)
    decreases |nodes|
  {
    if i < |nodes| - 1 {
      WeightBelowSum(nodes[..|nodes| - 1], i);
    }
  }

  lemma EmptyRewards(e: U64, w: U64)
    ensures RewardSum(Rewarded([], e, w)) == 0
  {
  }

  lemma RewardedSum(nodes: seq<NodeReward>, e: U64, w: U64)
    requires nodes != []
    ensures RewardSum(Rewarded(nodes, e, w))
         == RewardSum(Rewarded(nodes[..|nodes| - 1], e, w)) + RewardFor(e, nodes[|nodes| - 1].weight, w)
  {
    hide RewardFor;
    var k := |nodes| - 1;
    assert Rewarded(nodes, e, w)[..k] == Rewarded(nodes[..k], e, w);
  }

  /** Exact sum of the rounded shares, for the shares of any prefix of the nodes. */
  lemma {:induction false} SharesBounded(nodes: seq<NodeReward>, e: U64, w: U64)
    requires w > 0 && forall i :: 0 <= i < |nodes| ==> nodes[i].weight <= w
    ensures RewardSum(Rewarded(nodes, e, w)) * w <= e * WeightSum(nodes)
    ensures e * WeightSum(nodes) <= RewardSum(Rewarded(nodes, e, w)) * w + PositiveWeights(nodes) * (w - 1)
    decreases |nodes|
  {
    hide RewardFor, Rewarded, RewardSum;
    EmptyRewards(e, w);
    if nodes != [] {
      var k := |nodes| - 1;
      var n := nodes[k];
      SharesBounded(nodes[..k], e, w);
      RewardExact(e, n.weight, w);
      RewardedSum(nodes, e, w);
      ShareStep(e, w, n.weight, RewardFor(e, n.weight, w), RewardSum(Rewarded(nodes[..k], e, w)), WeightSum(nodes[..k]),
                PositiveWeights(nodes[..k]));
    }
  }

  /** How many nodes have a positive weight: the nodes that share the emission. */
  function PositiveWeights(nodes: seq<NodeReward>): nat {
    if nodes == [] then 0
    else PositiveWeights(nodes[..|nodes| - 1]) + if nodes[|nodes| - 1].weight > 0 then 1 else 0
  }

  lemma ShareStep(e: int, w: int, x: int, share: int, sum: int, weights: int, count: int)
    requires w > 0 && x >= 0 && share == e * x / w && e >= 0
    requires sum * w <= e * weights <= sum * w + count * (w - 1)
    ensures (sum + share) * w <= e * (weights + x)
    ensures e * (weights + x) <= (sum + share) * w + (count + if x > 0 then 1 else 0) * (w - 1)
  {
    var r := e * x % w;
    assert e * x == share * w + r;
    assert (sum + share) * w == sum * w + share * w;
    assert e * (weights + x) == e * weights + e * x;
    assert (count + 1) * (w - 1) == count * (w - 1) + (w - 1);
    if x == 0 {
      assert e * x == 0;
      DivModUnique(0, 0, 0, w);
    }
  }

  lemma {:induction false} WeightsZero(nodes: seq<NodeReward>, e: U64)
    requires WeightSum(nodes) == 0
    ensures RewardSum(Rewarded(nodes, e, 1)) == 0
    decreases |nodes|
  {
    if nodes != [] {
      var k := |nodes| - 1;
      WeightsZero(nodes[..k], e);
      RewardExact(e, nodes[k].weight, 1);
      assert Rewarded(nodes, e, 1)[..k] == Rewarded(nodes[..k], e, 1);
    }
  }

  /**
   * The reward budget: if the weights do not saturate, the rewards sum to at most e_active, and with
   * a positive total weight the undistributed dust is less than the number of nodes that share it.
   */
  lemma RewardBudget(nodes: seq<NodeReward>, e: U64)
    requires WeightSum(nodes) <= U64_MAX
    ensures RewardSum(Rewarded(nodes, e, EffectiveWeight(nodes))) <= e
    ensures WeightSum(nodes) > 0 ==>
              e - RewardSum(Rewarded(nodes, e, EffectiveWeight(nodes))) < PositiveWeights(nodes)
  {
    var w := WeightSum(nodes);
    if w == 0 {
      WeightsZero(nodes, e);
    } else {
      forall i | 0 <= i < |nodes|
        ensures nodes[i].weight <= w
      {
        WeightBelowSum(nodes, i);
      }
      SharesBounded(nodes, e, w);
      DustBound(e, w, RewardSum(Rewarded(nodes, e, w)), PositiveWeights(nodes));
      SomePositive(nodes);
    }
  }

  lemma {:induction false} SomePositive(nodes: seq<NodeReward>)
    requires WeightSum(nodes) > 0
    ensures PositiveWeights(nodes) > 0
    decreases |nodes|
  {
    if nodes[|nodes| - 1].weight == 0 {
      SomePositive(nodes[..|nodes| - 1]);
    }
  }

  lemma DustBound(e: int, w: int, sum: int, count: nat)
    requires w > 0 && sum * w <= e * w <= sum * w + count * (w - 1)
    ensures sum <= e && (count > 0 ==> e - sum < count)
  {
    assert (e - sum) * w == e * w - sum * w;
    NonNegativeFactor(e - sum, w);
    if count > 0 {
      assert (count - (e - sum)) * w == count * w - (e - sum) * w;
      assert count * (w - 1) == count * w - count;
      PositiveFactor(count - (e - sum), w);
    }
  }

  /** With saturated weights the budget is broken for some e_active, so the condition is exact. */
  lemma BudgetNeedsUnsaturatedWeights(nodes: seq<NodeReward>)
    ensures (forall e: U64 :: RewardSum(Rewarded(nodes, e,
                                                 EffectiveWeight(nodes))) <= e) <==> WeightSum(nodes) <= U64_MAX
  {
    if WeightSum(nodes) <= U64_MAX {
      forall e: U64
        ensures RewardSum(Rewarded(nodes, e, EffectiveWeight(nodes))) <= e
      {
        RewardBudget(nodes, e);
      }
    } else {
      FullShares(nodes);
      assert EffectiveWeight(nodes) == U64_MAX;
      var e: U64 := U64_MAX;
      assert RewardSum(Rewarded(nodes, e, EffectiveWeight(nodes))) > e;
    }
  }

  /** For instance two nodes with weights U64_MAX and 1 are paid one unit more than e_active = U64_MAX. */
  lemma SaturatedWeightsOverspend(first: Id, second: Id)
    ensures var nodes := [NodeReward(first, 0, U64_MAX), NodeReward(second, 0, 1)];
      RewardSum(Rewarded(nodes, U64_MAX, EffectiveWeight(nodes))) == U64_MAX + 1
  {
    hide Rewarded, RewardSum;
    var nodes := [NodeReward(first, 0, U64_MAX), NodeReward(second, 0, 1)];
    assert nodes[..1] == [nodes[0]] && nodes[..1][..0] == [];
    assert WeightSum(nodes[..1]) == U64_MAX;
    FullShares(nodes);
  }

  lemma {:induction false} FullShares(nodes: seq<NodeReward>)
    ensures RewardSum(Rewarded(nodes, U64_MAX, U64_MAX)) == WeightSum(nodes)
    decreases |nodes|
  {
    if nodes != [] {
      var k := |nodes| - 1;
      FullShares(nodes[..k]);
      RewardExact(U64_MAX, nodes[k].weight, U64_MAX);
      DivModUnique(U64_MAX * (nodes[k].weight as int), nodes[k].weight, 0, U64_MAX);
      assert Rewarded(nodes, U64_MAX, U64_MAX)[..k] == Rewarded(nodes[..k], U64_MAX, U64_MAX);
    }
  }

  // ----- The manifest -----

  function TxidValue(x: Id): int { x }

  /** compute_tx_set_root: hash of the sorted txids. */
  function TxSetRoot(h: Hashes, txids: seq<Id>): Id { h.txSet(SortBy(TxidValue, txids)) }

  /** The manifest that every honest node should arrive at. */
  function BuildSpec(h: Hashes, epoch: U64, prev: PrevManifest, anchors: seq<Anchor>, eActive: U64,
                     txids: seq<Id>): Manifest {
    var eligible := Eligible(prev.nodes, anchors);
    var nodes := Rewarded(eligible, eActive, EffectiveWeight(eligible));
    var total := RewardSum(nodes);
    var draft := Manifest(
      epoch, nodes, SPEC_VERSION, Capped(total), true, h.seed(prev.manifestHash), 0,
      h.rewards(nodes), h.health(epoch, |nodes|, TotalWeight(eligible)), TxSetRoot(h, txids));
    draft.(manifestHash := h.manifest(draft))
  }

  /** build_dmm. */
  method BuildDmm(h: Hashes, epoch: U64, prev: Option<PrevManifest>, anchors: seq<Anchor>, eActive: U64, txids: seq<Id>)
    returns (r: Result<Manifest, DmmError>)
    ensures prev == None ==> r == Err(BootstrapRequired)
    ensures prev.Some? && prev.value.manifestHash == 0 ==> r == Err(ManifestHashMismatch)
    ensures prev.Some? && prev.value.manifestHash != 0 ==>
              r == Ok(BuildSpec(h, epoch, prev.value, anchors, eActive, txids))
  {
    if prev == None {
      return Err(BootstrapRequired);
    }
    var p := prev.value;
    if p.manifestHash == 0 {
      return Err(ManifestHashMismatch);
    }
    var nodes, wTotal := CollectNodes(p.nodes, anchors);
    ghost var eligible := nodes;
    var wEffective: U64 := if wTotal == 0 then 1 else wTotal;
    var totalEmission: U64;
    nodes, totalEmission := FillRewards(nodes, eActive, wEffective);
    var rewardRoot := h.rewards(nodes);
    var healthDigest := h.health(epoch, |nodes|, wTotal);
    var seed := h.seed(p.manifestHash);
    var txSetRoot := TxSetRoot(h, txids);
    var manifest := Manifest(epoch, nodes, SPEC_VERSION, totalEmission, true, seed, 0, rewardRoot, healthDigest,
                             txSetRoot);
    r := Ok(manifest.(manifestHash := h.manifest(manifest)));
  }

  /** The first loop of build_dmm. */
  method CollectNodes(prevNodes: seq<PrevNode>, anchors: seq<Anchor>) returns (nodes: seq<NodeReward>, wTotal: U64)
    ensures nodes == Eligible(prevNodes, anchors) && wTotal == TotalWeight(nodes)
  {
    nodes, wTotal := [], 0;
    for i := 0 to |prevNodes|
      invariant nodes == Eligible(prevNodes[..i], anchors) && wTotal == TotalWeight(nodes)
    {
      assert prevNodes[..i + 1][..i] == prevNodes[..i];
      var a := FindAnchor(anchors, prevNodes[i].id);
      if a.Some? {
        wTotal := SatAdd(wTotal, a.value.weight);
        ghost var before := nodes;
        nodes := nodes + [NodeReward(prevNodes[i].id, 0, a.value.weight)];
        assert nodes[..|nodes| - 1] == before;
      }
    }
    assert prevNodes[..|prevNodes|] == prevNodes;
  }

  /** The second loop of build_dmm: rewards are written into the list in place. */
  method FillRewards(eligible: seq<NodeReward>, eActive: U64, wEffective: U64)
    returns (nodes: seq<NodeReward>, totalEmission: U64)
    ensures nodes == Rewarded(eligible, eActive, wEffective)
    ensures totalEmission == Capped(RewardSum(nodes))
  {
    hide RewardFor, RewardSum;
    nodes, totalEmission := eligible, 0;
    EmptyRewards(eActive, wEffective);
    for i := 0 to |eligible|
      invariant |nodes| == |eligible|
      invariant forall k :: 0 <= k < i ==> nodes[k] == Rewarded(eligible, eActive, wEffective)[k]
      invariant forall k :: i <= k < |nodes| ==> nodes[k] == eligible[k]
      invariant totalEmission == Capped(RewardSum(Rewarded(eligible[..i], eActive, wEffective)))
    {
      RewardedPrefix(eligible, i, eActive, wEffective);
      var reward := RewardFor(eActive, nodes[i].weight, wEffective);
      nodes := nodes[i := NodeReward(nodes[i].id, reward, nodes[i].weight)];
      totalEmission := SatAdd(totalEmission, reward);
    }
    assert eligible[..|eligible|] == eligible;
  }

  lemma RewardedPrefix(nodes: seq<NodeReward>, i: nat, e: U64, w: U64)
    requires i < |nodes|
    ensures RewardSum(Rewarded(nodes[..i + 1], e, w))
         == RewardSum(Rewarded(nodes[..i], e, w)) + RewardFor(e, nodes[i].weight, w)
  {
    hide RewardFor, RewardSum, Rewarded;
    assert nodes[..i + 1][..i] == nodes[..i];
    RewardedSum(nodes[..i + 1], e, w);
  }

  /** The manifest's own figures: total_emission is the sum of the rewards, which stays within e_active. */
  lemma ManifestBudget(h: Hashes, epoch: U64, prev: PrevManifest, anchors: seq<Anchor>, eActive: U64, txids: seq<Id>)
    requires WeightSum(Eligible(prev.nodes, anchors)) <= U64_MAX
    ensures var m := BuildSpec(h, epoch, prev, anchors, eActive, txids);
      && m.totalEmission == RewardSum(m.nodes) <= eActive
      && (WeightSum(Eligible(prev.nodes, anchors)) > 0 ==>
            eActive - m.totalEmission < PositiveWeights(Eligible(prev.nodes, anchors)))
  {
    hide Rewarded, RewardSum, Eligible;
    RewardBudget(Eligible(prev.nodes, anchors), eActive);
  }

  /** Each node's reward is its own share of e_active by weight, rounded down. */
  lemma FairShares(h: Hashes, epoch: U64, prev: PrevManifest, anchors: seq<Anchor>, eActive: U64,
                   txids: seq<Id>, i: nat)
    requires i < |BuildSpec(h, epoch, prev, anchors, eActive, txids).nodes|
    requires 0 < WeightSum(BuildSpec(h, epoch, prev, anchors, eActive, txids).nodes) <= U64_MAX
    ensures var nodes := BuildSpec(h, epoch, prev, anchors, eActive, txids).nodes;
      var w := WeightSum(nodes);
      nodes[i].reward * w <= eActive * nodes[i].weight < (nodes[i].reward + 1) * w
  {
    hide Eligible, RewardSum, RewardFor;
    var eligible := Eligible(prev.nodes, anchors);
    var w, x := EffectiveWeight(eligible), eligible[i].weight;
    RewardedWeights(eligible, eActive, w);
    WeightBelowSum(eligible, i);
    RewardExact(eActive, x, w);
    var q := RewardFor(eActive, x, w);
    assert (eActive as int) * x == q * w + (eActive as int) * x % w;
    MulDistributes(q, 1, w);
  }

  // ----- What the hashes commit to -----

  lemma {:induction false} RewardedWeights(nodes: seq<NodeReward>, e: U64, w: U64)
    ensures WeightSum(Rewarded(nodes, e, w)) == WeightSum(nodes)
    decreases |nodes|
  {
    hide RewardFor;
    if nodes != [] {
      var k := |nodes| - 1;
      RewardedWeights(nodes[..k], e, w);
      assert Rewarded(nodes, e, w)[..k] == Rewarded(nodes[..k], e, w);
    }
  }

  /**
   * Every hash of a manifest is one that a verifier recomputes from the manifest's own fields: the root of
   * its node list with the rewards in it, its health figures, and the hash of all fields but itself.
   */
  lemma ManifestHashes(h: Hashes, epoch: U64, prev: PrevManifest, anchors: seq<Anchor>, eActive: U64, txids: seq<Id>)
    ensures var m := BuildSpec(h, epoch, prev, anchors, eActive, txids);
      && m.rewardRoot == h.rewards(m.nodes)
      && m.healthDigest == h.health(m.epochId, |m.nodes|, Capped(WeightSum(m.nodes)))
      && m.manifestHash == h.manifest(m.(manifestHash := 0))
      && m.seed == h.seed(prev.manifestHash)
      && m.epochId == epoch && m.specVersion == 1 && m.deferred
  {
    hide Eligible, RewardSum, Rewarded, TxSetRoot;
    var eligible := Eligible(prev.nodes, anchors);
    RewardedWeights(eligible, eActive, EffectiveWeight(eligible));
  }

  /** Two inputs with the same hash. */
  ghost predicate Collision<T(!new)>(hash: T -> Id, a: T, b: T) { a != b && hash(a) == hash(b) }

  /**
   * Binding: manifests with equal hashes are equal in every field, with equal reward roots in every reward,
   * with equal transaction roots in their transactions and with equal seeds in the manifest before, or else
   * they exhibit a collision of the hash at hand.
   */
  lemma ManifestBinding(h: Hashes, epoch: U64, prev: PrevManifest, anchors: seq<Anchor>, eActive: U64, txids: seq<Id>,
                        epoch': U64, prev': PrevManifest, anchors': seq<Anchor>, eActive': U64, txids': seq<Id>)
    ensures var m := BuildSpec(h, epoch, prev, anchors, eActive, txids);
      var m' := BuildSpec(h, epoch', prev', anchors', eActive', txids');
      && (m.manifestHash == m'.manifestHash ==>
            m == m' || Collision(h.manifest, m.(manifestHash := 0), m'.(manifestHash := 0)))
      && (m.rewardRoot == m'.rewardRoot ==> m.nodes == m'.nodes || Collision(h.rewards, m.nodes, m'.nodes))
      && (m.seed == m'.seed ==>
            prev.manifestHash == prev'.manifestHash || Collision(h.seed, prev.manifestHash, prev'.manifestHash))
      && (m.txSetRoot == m'.txSetRoot ==>
            multiset(txids) == multiset(txids')
              || Collision(h.txSet, SortBy(TxidValue, txids), SortBy(TxidValue, txids')))
  {
    hide BuildSpec, SortBy;
    ManifestHashes(h, epoch, prev, anchors, eActive, txids);
    ManifestHashes(h, epoch', prev', anchors', eActive', txids');
    TxRootOf(h, epoch, prev, anchors, eActive, txids);
    TxRootOf(h, epoch', prev', anchors', eActive', txids');
    SameButHash(BuildSpec(h, epoch, prev, anchors, eActive, txids), BuildSpec(h, epoch', prev', anchors', eActive',
                                                                              txids'));
  }

  lemma SameButHash(m: Manifest, m': Manifest)
    ensures m.manifestHash == m'.manifestHash && m.(manifestHash := 0) == m'.(manifestHash := 0) ==> m == m'
  {
  }

  lemma TxRootOf(h: Hashes, epoch: U64, prev: PrevManifest, anchors: seq<Anchor>, eActive: U64, txids: seq<Id>)
    ensures BuildSpec(h, epoch, prev, anchors, eActive, txids).txSetRoot == h.txSet(SortBy(TxidValue, txids))
  {
    hide Eligible, RewardSum, Rewarded, SortBy;
  }

  // ----- Order independence -----

  /** Anchors for the same node carry the same weight; in particular when node ids are distinct. */
  ghost predicate ConsistentWeights(anchors: seq<Anchor>) {
    forall i, j :: 0 <= i < |anchors| && 0 <= j < |anchors| && anchors[i].id == anchors[j].id ==>
      anchors[i].weight == anchors[j].weight
  }

  /** The weight a node is given, if it has an anchor at all. */
  function FoundWeight(anchors: seq<Anchor>, id: Id): Option<U64> {
    match FindAnchor(anchors, id)
    case None => None
    case Some(a) => Some(a.weight)
  }

  lemma {:induction false} FindAnchorFacts(anchors: seq<Anchor>, id: Id)
    ensures FindAnchor(anchors, id).Some? ==>
              FindAnchor(anchors, id).value in anchors && FindAnchor(anchors, id).value.id == id
    ensures FindAnchor(anchors, id) == None ==> forall i :: 0 <= i < |anchors| ==> anchors[i].id != id
    decreases |anchors|
  {
    if anchors != [] {
      FindAnchorFacts(anchors[1..], id);
    }
  }

  /** The weight found does not depend on the order of the anchors. */
  lemma FoundWeightPermutation(a: seq<Anchor>, b: seq<Anchor>, id: Id)
    requires ConsistentWeights(a) && multiset(a) == multiset(b)
    ensures FoundWeight(a, id) == FoundWeight(b, id)
  {
    FindAnchorFacts(a, id);
    FindAnchorFacts(b, id);
    var x, y := FindAnchor(a, id), FindAnchor(b, id);
    if y.Some? {
      assert y.value in multiset(b);
      var j := Occurs(y.value, a);
    }
    if x.Some? {
      var i :| 0 <= i < |a| && a[i] == x.value;
      assert x.value in multiset(a);
      var k := Occurs(x.value, b);
    }
  }

  lemma {:induction false} EligiblePermutation(nodes: seq<PrevNode>, a: seq<Anchor>, b: seq<Anchor>)
    requires ConsistentWeights(a) && multiset(a) == multiset(b)
    ensures Eligible(nodes, a) == Eligible(nodes, b)
    decreases |nodes|
  {
    if nodes != [] {
      EligiblePermutation(nodes[..|nodes| - 1], a, b);
      FoundWeightPermutation(a, b, nodes[|nodes| - 1].id);
    }
  }

  lemma TxidsDetermined(txids: seq<Id>)
    ensures KeyDetermines(TxidValue, txids)
  {
  }

  /**
   * Determinism across honest nodes: the manifest is the same for any order of the local anchors
   * and of the txids, as long as anchors of one node agree on its weight.
   */
  lemma ManifestOrderIndependent(h: Hashes, epoch: U64, prev: PrevManifest, eActive: U64,
                                 anchors: seq<Anchor>, anchors': seq<Anchor>, txids: seq<Id>, txids': seq<Id>)
    requires ConsistentWeights(anchors) && multiset(anchors) == multiset(anchors')
    requires multiset(txids) == multiset(txids')
    ensures BuildSpec(h, epoch, prev, anchors, eActive, txids) == BuildSpec(h, epoch, prev, anchors', eActive, txids')
  {
    hide SortBy, Eligible, Rewarded;
    EligiblePermutation(prev.nodes, anchors, anchors');
    TxidsDetermined(txids);
    SortIsCanonical(TxidValue, txids, txids');
  }

  /**
   * Without that agreement the order matters: two orders of the same anchors give different node
   * lists to some previous manifest, whatever the hashes, the emission and the txids.
   */
  lemma InconsistentAnchorsDiverge(h: Hashes, epoch: U64, eActive: U64, anchors: seq<Anchor>, txids: seq<Id>)
    returns (prev: PrevManifest, a: seq<Anchor>, b: seq<Anchor>)
    requires !ConsistentWeights(anchors)
    ensures multiset(a) == multiset(b) == multiset(anchors) && prev.manifestHash != 0
    ensures BuildSpec(h, epoch, prev, a, eActive, txids).nodes != BuildSpec(h, epoch, prev, b, eActive, txids).nodes
  {
    hide RewardFor, TxSetRoot;
    var i, j :| 0 <= i < |anchors| && 0 <= j < |anchors| && anchors[i].id == anchors[j].id
      && anchors[i].weight != anchors[j].weight;
    var id := anchors[i].id;
    a := ToFront(anchors, i);
    b := ToFront(anchors, j);
    prev := PrevManifest(1, [PrevNode(id, 0)], 0);
    SingleEligible(id, a);
    SingleEligible(id, b);
  }

  lemma {:induction false} SingleEligible(id: Id, anchors: seq<Anchor>)
    requires anchors != [] && anchors[0].id == id
    ensures Eligible([PrevNode(id, 0)], anchors) == [NodeReward(id, 0, anchors[0].weight)]
  {
  }

  function ToFront(s: seq<Anchor>, i: nat): (r: seq<Anchor>)
    requires i < |s|
    ensures r != [] && r[0] == s[i] && multiset(r) == multiset(s)
  {
    assert s == s[..i] + [s[i]] + s[i + 1..];
    [s[i]] + s[..i] + s[i + 1..]
  }

  /** The positions of a list picked by an increasing list of indices. */
  ghost predicate Increasing(at: seq<nat>, n: nat) {
    && (forall j :: 0 <= j < |at| ==> at[j] < n)
    && (forall i, j :: 0 <= i < j < |at| ==> at[i] < at[j])
  }

  ghost predicate HasAnchor(anchors: seq<Anchor>, id: Id) {
    exists i :: 0 <= i < |anchors| && anchors[i].id == id
  }

  lemma FoundWeightFacts(anchors: seq<Anchor>, id: Id)
    ensures FoundWeight(anchors, id).Some? <==> HasAnchor(anchors, id)
  {
    FindAnchorFacts(anchors, id);
  }

  /** The eligible nodes are the subsequence of previous nodes that have an anchor: none other, and none missing. */
  lemma {:induction false} EligibleSubsequence(nodes: seq<PrevNode>, anchors: seq<Anchor>) returns (at: seq<nat>)
    ensures |at| == |Eligible(nodes, anchors)| && Increasing(at, |nodes|)
    ensures forall j :: 0 <= j < |at| ==>
              && Eligible(nodes, anchors)[j].id == nodes[at[j]].id
              && FoundWeight(anchors, nodes[at[j]].id) == Some(Eligible(nodes, anchors)[j].weight)
    ensures forall i :: 0 <= i < |nodes| ==> (i in at <==> HasAnchor(anchors, nodes[i].id))
    decreases |nodes|
  {
    hide FindAnchor, HasAnchor;
    at := [];
    if nodes != [] {
      var k := |nodes| - 1;
      at := EligibleSubsequence(nodes[..k], anchors);
      assert k !in at;
      FoundWeightFacts(anchors, nodes[k].id);
      if FoundWeight(anchors, nodes[k].id).Some? {
        var inner := at;
        at := at + [k];
        assert forall i :: 0 <= i < k ==> (i in at <==> i in inner);
      }
    }
  }

  /** A manifest's node list inherits the strict id order of the previous manifest. */
  lemma NodeOrderInherited(h: Hashes, epoch: U64, prev: PrevManifest, anchors: seq<Anchor>, eActive: U64,
                           txids: seq<Id>)
    requires forall i, j :: 0 <= i < j < |prev.nodes| ==> prev.nodes[i].id < prev.nodes[j].id
    ensures var out := BuildSpec(h, epoch, prev, anchors, eActive, txids).nodes;
      forall i, j :: 0 <= i < j < |out| ==> out[i].id < out[j].id
  {
    hide RewardFor, RewardSum, Eligible;
    var at := EligibleSubsequence(prev.nodes, anchors);
  }

  // ----- Canonical transaction order -----

  /** TxEntry. */
  datatype Tx = Tx(txHash: Id, data: seq<int>)

  /** compute_tx_ordering_key, a hash of the txid and the epoch. */
  type OrderingKey = (Id, U64) -> Id

  function TxKey(k: OrderingKey, epoch: U64): Tx -> int { (tx: Tx) => k(tx.txHash, epoch) }

  /** Transactions with equal ordering keys in this epoch are equal. */
  ghost predicate DistinctKeys(k: OrderingKey, epoch: U64, txs: seq<Tx>) {
    forall i, j :: 0 <= i < |txs| && 0 <= j < |txs| && k(txs[i].txHash, epoch) == k(txs[j].txHash, epoch) ==>
      txs[i] == txs[j]
  }

  /** sort_transactions_canonical: attach keys, sort by key, drop keys. */
  method SortTransactions(k: OrderingKey, txs: seq<Tx>, epoch: U64) returns (r: seq<Tx>)
    ensures multiset(r) == multiset(txs)
    ensures forall i, j :: 0 <= i < j < |r| ==> k(r[i].txHash, epoch) <= k(r[j].txHash, epoch)
  {
    r := SortBy(TxKey(k, epoch), txs);
  }

  /**
   * Every order in which the transactions arrive, and every sorting algorithm, gives the same list,
   * if transactions with equal ordering keys are equal.
   */
  lemma TransactionOrderCanonical(k: OrderingKey, epoch: U64, txs: seq<Tx>, txs': seq<Tx>, r: seq<Tx>, r': seq<Tx>)
    requires multiset(txs) == multiset(txs') && DistinctKeys(k, epoch, txs)
    requires multiset(r) == multiset(txs) && multiset(r') == multiset(txs')
    requires forall i, j :: 0 <= i < j < |r| ==> k(r[i].txHash, epoch) <= k(r[j].txHash, epoch)
    requires forall i, j :: 0 <= i < j < |r'| ==> k(r'[i].txHash, epoch) <= k(r'[j].txHash, epoch)
    ensures r == r'
  {
    assert SortedBy(TxKey(k, epoch), r) && SortedBy(TxKey(k, epoch), r');
    hide SortedBy, KeyDetermines;
    DeterminesTransfer(TxKey(k, epoch), txs, r);
    SortedUnique(TxKey(k, epoch), r, r');
  }

  /** And only then: same-key transactions that differ admit two canonical orders. */
  lemma TransactionOrderAmbiguous(k: OrderingKey, epoch: U64, txs: seq<Tx>) returns (r: seq<Tx>, r': seq<Tx>)
    requires !DistinctKeys(k, epoch, txs)
    ensures forall i, j :: 0 <= i < j < |r| ==> k(r[i].txHash, epoch) <= k(r[j].txHash, epoch)
    ensures forall i, j :: 0 <= i < j < |r'| ==> k(r'[i].txHash, epoch) <= k(r'[j].txHash, epoch)
    ensures multiset(r) == multiset(r') == multiset(txs) && r != r'
  {
    r, r' := TiesAreAmbiguous(TxKey(k, epoch), txs);
  }
}
