// The Incremental Merkle Tree of core/scalar-crypto/src/imt.rs and its second verifier in
// verifier-py/scalar_verifier/merkle.py.
//
// A 32-byte string is modelled by its four little-endian 64-bit words. The Poseidon2 t=8
// permutation is a parameter; every statement holds for every permutation.
module Imt {
  import opened Results
  import opened ModArith
  import opened NumberTheory
  import opened Goldilocks
  import opened Words
  import opened Poseidon2

  const IMT_DEPTH: nat := 32

  /** 1 << IMT_DEPTH. */
  const MAX_LEAVES: nat := 0x1_0000_0000

  datatype Digest = Digest(w0: U64, w1: U64, w2: U64, w3: U64)

  /** The eight-word input of one permutation call. */
  datatype Block = Block(x0: U64, x1: U64, x2: U64, x3: U64, x4: U64, x5: U64, x6: U64, x7: U64)

  type Perm = Block -> Block

  datatype Error = TreeFull | LeafIndexOutOfBounds(index: nat, count: nat) | InvalidPathLength(expected: nat, got: nat)

  /** IMTPath. */
  datatype Path = Path(siblings: seq<Digest>, leafIndex: U64)

  const EMPTY: Digest := Digest(0, 0, 0, 0)

  // "scalar_i", "mt_leaf", "mt_node" as little-endian words.
  const DOMAIN_LO: U64 := 0x695f_7261_6c61_6373
  const LEAF_HI: U64 := 0x0066_6165_6c5f_746d
  const NODE_HI: U64 := 0x0065_646f_6e5f_746d

  // ----- Hashes -----

  function LeafBlock(c: Digest, index: U64): Block {
    Block(FieldReduce(DOMAIN_LO), FieldReduce(LEAF_HI), FieldReduce(c.w0), FieldReduce(c.w1), FieldReduce(c.w2),
          FieldReduce(c.w3), FieldReduce(index), 0)
  }

  /** Four words of the left child and only two of the right one. */
  function NodeBlock(left: Digest, right: Digest): Block {
    Block(FieldReduce(DOMAIN_LO), FieldReduce(NODE_HI), FieldReduce(left.w0), FieldReduce(left.w1),
          FieldReduce(left.w2),
          FieldReduce(left.w3), FieldReduce(right.w0), FieldReduce(right.w1))
  }

  /** field8_to_bytes32: the first four words of the permuted state. */
  function Squeeze(b: Block): Digest { Digest(b.x0, b.x1, b.x2, b.x3) }

  function HashLeaf(perm: Perm, c: Digest, index: U64): Digest { Squeeze(perm(LeafBlock(c, index))) }

  function HashNode(perm: Perm, left: Digest, right: Digest): Digest { Squeeze(perm(NodeBlock(left, right))) }

  // ----- What the hashes absorb -----

  /** Word j of a block, of a digest. */
  function BlockWord(b: Block, j: nat): U64
    requires j < 8
  {
    if j == 0 then b.x0 else if j == 1 then b.x1 else if j == 2 then b.x2 else if j == 3 then b.x3
    else if j == 4 then b.x4 else if j == 5 then b.x5 else if j == 6 then b.x6 else b.x7
  }

  function DigestWord(d: Digest, j: nat): U64
    requires j < 4
  {
    if j == 0 then d.w0 else if j == 1 then d.w1 else if j == 2 then d.w2 else d.w3
  }

  /** The value of up to eight characters as little-endian bytes. */
  function LittleEndian(s: string): nat {
    if s == "" then 0 else s[0] as int + 256 * LittleEndian(s[1..])
  }

  lemma {:induction false} LittleEndianStep(c: char, s: string)
    ensures LittleEndian([c] + s) == c as int + 256 * LittleEndian(s)
  {
    assert ([c] + s)[1..] == s;
  }

  /** The domain words are the two halves of "scalar_imt_leaf" and "scalar_imt_node". */
  lemma DomainWords()
    ensures DOMAIN_LO == LittleEndian("scalar_i") && LEAF_HI == LittleEndian("mt_leaf")
    ensures NODE_HI == LittleEndian("mt_node")
  {
    Spelled8('s', 'c', 'a', 'l', 'a', 'r', '_', 'i', "");
    Spelled7('m', 't', '_', 'l', 'e', 'a', 'f', "");
    Spelled7('m', 't', '_', 'n', 'o', 'd', 'e', "");
    assert "scalar_i" == ['s', 'c', 'a', 'l', 'a', 'r', '_', 'i'];
    assert "mt_leaf" == ['m', 't', '_', 'l', 'e', 'a', 'f'] && "mt_node" == ['m', 't', '_', 'n', 'o', 'd', 'e'];
  }

  lemma Spelled7(c0: char, c1: char, c2: char, c3: char, c4: char, c5: char, c6: char, rest: string)
    requires rest == ""
    ensures LittleEndian([c0, c1, c2, c3, c4, c5, c6])
         == c0 as int + 0x100 * (c1 as int) + 0x1_0000 * (c2 as int) + 0x100_0000 * (c3 as int)
            + 0x1_0000_0000 * (c4 as int) + 0x100_0000_0000 * (c5 as int) + 0x1_0000_0000_0000 * (c6 as int)
  {
    hide LittleEndian;
    EmptyWord(rest);
    LittleEndianStep(c6, rest);
    LittleEndianStep(c5, [c6]);
    LittleEndianStep(c4, [c5, c6]);
    LittleEndianStep(c3, [c4, c5, c6]);
    LittleEndianStep(c2, [c3, c4, c5, c6]);
    LittleEndianStep(c1, [c2, c3, c4, c5, c6]);
    LittleEndianStep(c0, [c1, c2, c3, c4, c5, c6]);
    assert [c6] + rest == [c6] && [c5] + [c6] == [c5, c6] && [c4] + [c5, c6] == [c4, c5, c6];
    assert [c3] + [c4, c5, c6] == [c3, c4, c5, c6] && [c2] + [c3, c4, c5, c6] == [c2, c3, c4, c5, c6];
    assert [c1] + [c2, c3, c4, c5, c6] == [c1, c2, c3, c4, c5, c6];
    assert [c0] + [c1, c2, c3, c4, c5, c6] == [c0, c1, c2, c3, c4, c5, c6];
  }

  lemma Spelled8(c0: char, c1: char, c2: char, c3: char, c4: char, c5: char, c6: char, c7: char, rest: string)
    requires rest == ""
    ensures LittleEndian([c0, c1, c2, c3, c4, c5, c6, c7])
         == c0 as int + 256 * LittleEndian([c1, c2, c3, c4, c5, c6, c7])
    ensures LittleEndian([c1, c2, c3, c4, c5, c6, c7])
         == c1 as int + 0x100 * (c2 as int) + 0x1_0000 * (c3 as int) + 0x100_0000 * (c4 as int)
            + 0x1_0000_0000 * (c5 as int) + 0x100_0000_0000 * (c6 as int) + 0x1_0000_0000_0000 * (c7 as int)
  {
    hide LittleEndian;
    LittleEndianStep(c0, [c1, c2, c3, c4, c5, c6, c7]);
    assert [c0] + [c1, c2, c3, c4, c5, c6, c7] == [c0, c1, c2, c3, c4, c5, c6, c7];
    Spelled7(c1, c2, c3, c4, c5, c6, c7, rest);
  }

  lemma EmptyWord(s: string)
    requires s == ""
    ensures LittleEndian(s) == 0
  {
  }

  /** The layout of a leaf input: the domain, the four words of the commitment, the index and a zero, in the field. */
  lemma LeafLayout(c: Digest, index: U64)
    ensures var b := LeafBlock(c, index);
      && BlockWord(b, 0) == DOMAIN_LO % P && BlockWord(b, 1) == LEAF_HI % P
      && (forall j :: 0 <= j < 4 ==> BlockWord(b, 2 + j) == DigestWord(c, j) % P)
      && BlockWord(b, 6) == index % P && BlockWord(b, 7) == 0
  {
    hide FieldReduce;
    ReducedDigest(c);
    FieldReduceExact(DOMAIN_LO);
    FieldReduceExact(LEAF_HI);
    FieldReduceExact(index);
  }

  /** The layout of a node input: the domain, four words of the left child and two of the right one, in the field. */
  lemma NodeLayout(left: Digest, right: Digest)
    ensures var b := NodeBlock(left, right);
      && BlockWord(b, 0) == DOMAIN_LO % P && BlockWord(b, 1) == NODE_HI % P
      && (forall j :: 0 <= j < 4 ==> BlockWord(b, 2 + j) == DigestWord(left, j) % P)
      && (forall j :: 0 <= j < 2 ==> BlockWord(b, 6 + j) == DigestWord(right, j) % P)
  {
    hide FieldReduce;
    ReducedDigest(left);
    ReducedDigest(right);
    FieldReduceExact(DOMAIN_LO);
    FieldReduceExact(NODE_HI);
  }

  lemma ReducedDigest(d: Digest)
    ensures FieldReduce(d.w0) == d.w0 % P && FieldReduce(d.w1) == d.w1 % P
    ensures FieldReduce(d.w2) == d.w2 % P && FieldReduce(d.w3) == d.w3 % P
  {
    FieldReduceExact(d.w0);
    FieldReduceExact(d.w1);
    FieldReduceExact(d.w2);
    FieldReduceExact(d.w3);
  }

  /** A digest is the first four words of the permuted state. */
  lemma SqueezeLayout(b: Block, j: nat)
    requires j < 4
    ensures DigestWord(Squeeze(b), j) == BlockWord(b, j)
  {
  }

  /** Equal leaf inputs have equal commitments and equal indices, in the field; and conversely. */
  lemma LeafBlockBinds(c: Digest, i: U64, c': Digest, i': U64)
    ensures LeafBlock(c, i) == LeafBlock(c', i') <==>
              && c.w0 % P == c'.w0 % P && c.w1 % P == c'.w1 % P && c.w2 % P == c'.w2 % P && c.w3 % P == c'.w3 % P
              && i % P == i' % P
  {
    hide FieldReduce;
    ReducedDigest(c);
    ReducedDigest(c');
    FieldReduceExact(i);
    FieldReduceExact(i');
  }

  /** Equal node inputs agree, in the field, on the left child and on two words of the right one; and conversely. */
  lemma NodeBlockBinds(l: Digest, r: Digest, l': Digest, r': Digest)
    ensures NodeBlock(l, r) == NodeBlock(l', r') <==>
              && l.w0 % P == l'.w0 % P && l.w1 % P == l'.w1 % P && l.w2 % P == l'.w2 % P && l.w3 % P == l'.w3 % P
              && r.w0 % P == r'.w0 % P && r.w1 % P == r'.w1 % P
  {
    hide FieldReduce;
    ReducedDigest(l);
    ReducedDigest(l');
    ReducedDigest(r);
    ReducedDigest(r');
  }

  /** Domain separation: no leaf input is a node input. */
  lemma DomainsSeparate(c: Digest, i: U64, left: Digest, right: Digest)
    ensures LeafBlock(c, i) != NodeBlock(left, right)
  {
    hide FieldReduce;
    FieldReduceExact(LEAF_HI);
    FieldReduceExact(NODE_HI);
    ModSmall(LEAF_HI, P);
    ModSmall(NODE_HI, P);
  }

  // ----- The reference tree -----

  /** Root of a subtree of height d without leaves. */
  function EmptyRoot(perm: Perm, d: nat): Digest {
    if d == 0 then EMPTY else HashNode(perm, EmptyRoot(perm, d - 1), EmptyRoot(perm, d - 1))
  }

  /** Root of the k-th subtree of height d over the leaves, missing leaves being the empty marker. */
  function Node(perm: Perm, leaves: seq<Digest>, d: nat, k: nat): Digest
    decreases d, |leaves|
  {
    if d == 0 then (if k < |leaves| then leaves[k] else EMPTY)
    else HashNode(perm, Node(perm, leaves, d - 1, 2 * k), Node(perm, leaves, d - 1, 2 * k + 1))
  }

  /** Siblings are hashed in insertion order, the even position on the left. */
  lemma LevelOne(perm: Perm, leaves: seq<Digest>, k: nat)
    requires 2 * k + 1 < |leaves|
    ensures Node(perm, leaves, 1, k) == Squeeze(perm(NodeBlock(leaves[2 * k], leaves[2 * k + 1])))
  {
    assert Node(perm, leaves, 0, 2 * k) == leaves[2 * k] && Node(perm, leaves, 0, 2 * k + 1) == leaves[2 * k + 1];
  }

  /** How many subtrees of height d hold at least one of n leaves. */
  function LevelSize(n: nat, d: nat): nat
    decreases d
  {
    if d == 0 then n else (LevelSize(n, d - 1) + 1) / 2
  }

  /** Subtrees beyond the occupied ones are empty. */
  lemma {:induction false} NodeBeyond(perm: Perm, leaves: seq<Digest>, d: nat, k: nat)
    requires k >= LevelSize(|leaves|, d)
    ensures Node(perm, leaves, d, k) == EmptyRoot(perm, d)
    decreases d
  {
    if d > 0 {
      NodeBeyond(perm, leaves, d - 1, 2 * k);
      NodeBeyond(perm, leaves, d - 1, 2 * k + 1);
    }
  }

  lemma {:induction false} LevelSizeBound(n: nat, d: nat, t: nat)
    requires 0 < n <= TwoPow(t) && d <= t
    ensures 1 <= LevelSize(n, d) <= TwoPow(t - d)
    decreases d
  {
    if d > 0 {
      LevelSizeBound(n, d - 1, t);
    }
  }

  /** i >> d. */
  function Shr(i: nat, d: nat): nat
    decreases d
  {
    if d == 0 then i else Shr(i, d - 1) / 2
  }

  lemma {:induction false} ShrBound(i: nat, d: nat, t: nat)
    requires i < TwoPow(t) && d <= t
    ensures Shr(i, d) < TwoPow(t - d)
    decreases d
  {
    if d > 0 {
      ShrBound(i, d - 1, t);
    }
  }

  // ----- One level up -----

  function RightChild(level: seq<Digest>, k: nat, empty: Digest): Digest
    requires 2 * k < |level|
  {
    if 2 * k + 1 < |level| then level[2 * k + 1] else empty
  }

  /** The while loop shared by root and compute_siblings. */
  method FoldLevel(perm: Perm, level: seq<Digest>, empty: Digest) returns (next: seq<Digest>)
    ensures |next| == (|level| + 1) / 2
    ensures forall k :: 0 <= k < |next| ==> next[k] == HashNode(perm, level[2 * k], RightChild(level, k, empty))
  {
    next := [];
    var j := 0;
    while j < |level|
      invariant j == 2 * |next| && |next| <= (|level| + 1) / 2
      invariant forall k :: 0 <= k < |next| ==> next[k] == HashNode(perm, level[2 * k], RightChild(level, k, empty))
    {
      var left := level[j];
      var right := if j + 1 < |level| then level[j + 1] else empty;
      next := next + [HashNode(perm, left, right)];
      j := j + 2;
    }
  }

  /** The level holds the roots of the occupied subtrees of height d. */
  ghost predicate IsLevel(perm: Perm, leaves: seq<Digest>, d: nat, level: seq<Digest>) {
    && |level| == LevelSize(|leaves|, d)
    && forall k :: 0 <= k < |level| ==> level[k] == Node(perm, leaves, d, k)
  }

  lemma LevelUp(perm: Perm, leaves: seq<Digest>, d: nat, level: seq<Digest>, next: seq<Digest>)
    requires IsLevel(perm, leaves, d, level) && |next| == (|level| + 1) / 2
    requires forall k :: 0 <= k < |next| ==>
               next[k] == HashNode(perm, level[2 * k], RightChild(level, k, EmptyRoot(perm, d)))
    ensures IsLevel(perm, leaves, d + 1, next)
  {
    forall k | 0 <= k < |next|
      ensures next[k] == Node(perm, leaves, d + 1, k)
    {
      if 2 * k + 1 >= |level| {
        NodeBeyond(perm, leaves, d, 2 * k + 1);
      }
    }
  }

  /** empty_subtree_roots. */
  method EmptySubtreeRoots(perm: Perm) returns (table: seq<Digest>)
    ensures |table| == IMT_DEPTH + 1
    ensures forall d :: 0 <= d <= IMT_DEPTH ==> table[d] == EmptyRoot(perm, d)
    ensures table[0] == Digest(0, 0, 0, 0)
    ensures forall d :: 0 <= d < IMT_DEPTH ==> table[d + 1] == HashNode(perm, table[d], table[d])
  {
    table := [EMPTY];
    for i := 0 to IMT_DEPTH
      invariant |table| == i + 1 && forall d :: 0 <= d <= i ==> table[d] == EmptyRoot(perm, d)
    {
      table := table + [HashNode(perm, table[i], table[i])];
    }
  }

  // ----- Sibling paths -----

  /** idx ^ 1. */
  function Sibling(k: nat): nat { if k % 2 == 0 then k + 1 else k - 1 }

  /** Siblings of leaf i at levels d, ..., IMT_DEPTH - 1: the subtree roots next to its ancestors. */
  function SiblingsFrom(perm: Perm, leaves: seq<Digest>, i: nat, d: nat): (r: seq<Digest>)
    requires d <= IMT_DEPTH
    ensures |r| == IMT_DEPTH - d
    decreases IMT_DEPTH - d, |leaves|
  {
    if d == IMT_DEPTH then []
    else [Node(perm, leaves, d, Sibling(Shr(i, d)))] + SiblingsFrom(perm, leaves, i, d + 1)
  }

  lemma SiblingsUnfold(perm: Perm, leaves: seq<Digest>, i: nat, d: nat)
    requires d < IMT_DEPTH
    ensures SiblingsFrom(perm, leaves, i, d)
         == [Node(perm, leaves, d, Sibling(Shr(i, d)))] + SiblingsFrom(perm, leaves, i, d + 1)
  {
  }

  /** Level d of the path is the subtree root at position (i >> d) xor 1. */
  lemma {:induction false} SiblingAt(perm: Perm, leaves: seq<Digest>, i: nat, d: nat, e: nat)
    requires d <= e < IMT_DEPTH
    ensures SiblingsFrom(perm, leaves, i, d)[e - d] == Node(perm, leaves, e, Sibling(Shr(i, e)))
    decreases e - d
  {
    hide Node;
    if d < e {
      SiblingAt(perm, leaves, i, d + 1, e);
    }
  }

  // ----- Climbing a path -----

  /** Hash upwards from `current` at position idx, one sibling per level. */
  function Climb(perm: Perm, current: Digest, idx: nat, siblings: seq<Digest>): Digest
    decreases |siblings|
  {
    if siblings == [] then current
    else
      var parent := if idx % 2 == 0 then HashNode(perm, current, siblings[0]) else HashNode(perm, siblings[0], current);
      Climb(perm, parent, idx / 2, siblings[1..])
  }

  lemma ParentOf(perm: Perm, leaves: seq<Digest>, d: nat, k: nat)
    ensures Node(perm, leaves, d + 1, k / 2)
         == if k % 2 == 0 then HashNode(perm, Node(perm, leaves, d, k), Node(perm, leaves, d, Sibling(k)))
            else HashNode(perm, Node(perm, leaves, d, Sibling(k)), Node(perm, leaves, d, k))
  {
    hide HashNode;
    var h := k / 2;
    assert k == 2 * h || k == 2 * h + 1;
  }

  lemma {:induction false} ClimbReachesRoot(perm: Perm, leaves: seq<Digest>, i: nat, d: nat)
    requires d <= IMT_DEPTH && i < TwoPow(IMT_DEPTH)
    ensures Climb(perm, Node(perm, leaves, d, Shr(i, d)), Shr(i, d), SiblingsFrom(perm, leaves, i, d))
         == Node(perm, leaves, IMT_DEPTH, 0)
    decreases IMT_DEPTH - d
  {
    hide HashNode, Node, Sibling;
    var k := Shr(i, d);
    if d == IMT_DEPTH {
      ShrBound(i, d, d);
      assert TwoPow(0) == 1;
    } else {
      ClimbReachesRoot(perm, leaves, i, d + 1);
      ParentOf(perm, leaves, d, k);
      var sibs := SiblingsFrom(perm, leaves, i, d);
      assert sibs[1..] == SiblingsFrom(perm, leaves, i, d + 1);
    }
  }

  /** The capacity is 2^32 leaves. */
  lemma Capacity()
    ensures MAX_LEAVES == TwoPow(IMT_DEPTH) && IMT_DEPTH == 32
  {
    hide TwoPow;
    TwoPow32();
  }

  /** What imt_membership_verify decides. */
  predicate Accepts(perm: Perm, c: Digest, path: Path, root: Digest, count: nat) {
    && path.leafIndex < count
    && |path.siblings| == IMT_DEPTH
    && Climb(perm, HashLeaf(perm, c, path.leafIndex), path.leafIndex, path.siblings) == root
  }

  /** An accepted opening names an index below the count and has 32 siblings. */
  lemma AcceptedInRange(perm: Perm, c: Digest, path: Path, root: Digest, count: nat)
    requires Accepts(perm, c, path, root, count)
    ensures path.leafIndex < count && |path.siblings| == 32
  {
  }

  /** imt_membership_verify, testing bit `level` of the leaf index at each level. */
  method MembershipVerify(perm: Perm, c: Digest, path: Path, root: Digest, count: nat) returns (ok: bool)
    ensures ok == Accepts(perm, c, path, root, count)
  {
    if path.leafIndex >= count {
      return false;
    }
    if |path.siblings| != IMT_DEPTH {
      return false;
    }
    var index := path.leafIndex;
    var current := HashLeaf(perm, c, index);
    for level := 0 to IMT_DEPTH
      invariant Climb(perm, HashLeaf(perm, c, index), index, path.siblings)
             == Climb(perm, current, Shr(index, level), path.siblings[level..])
    {
      var sibling := path.siblings[level];
      var isRight := Shr(index, level) % 2;
      assert path.siblings[level..][1..] == path.siblings[level + 1..];
      current := if isRight == 0 then HashNode(perm, current, sibling) else HashNode(perm, sibling, current);
    }
    ok := current == root;
  }

  function PyLeafBlock(c: Digest, index: int): Block {
    Block(PyFieldReduce(DOMAIN_LO), PyFieldReduce(LEAF_HI), PyFieldReduce(c.w0), PyFieldReduce(c.w1),
          PyFieldReduce(c.w2),
          PyFieldReduce(c.w3), PyFieldReduce(index), 0)
  }

  function PyNodeBlock(left: Digest, right: Digest): Block {
    Block(PyFieldReduce(DOMAIN_LO), PyFieldReduce(NODE_HI), PyFieldReduce(left.w0), PyFieldReduce(left.w1),
          PyFieldReduce(left.w2), PyFieldReduce(left.w3), PyFieldReduce(right.w0), PyFieldReduce(right.w1))
  }

  lemma FieldReduceAgree(x: U64)
    ensures PyFieldReduce(x) == FieldReduce(x)
  {
    ModSmall(x, TWO_64);
    FieldReduceExact(x);
  }

  /** The two implementations hash alike: every word is reduced to the same field element. */
  lemma HashesAgree(perm: Perm, a: Digest, b: Digest, index: U64)
    ensures PyLeafBlock(a, index) == LeafBlock(a, index) && PyNodeBlock(a, b) == NodeBlock(a, b)
  {
    hide FieldReduce, PyFieldReduce;
    FieldReduceAgree(DOMAIN_LO);
    FieldReduceAgree(LEAF_HI);
    FieldReduceAgree(NODE_HI);
    FieldReduceAgree(a.w0);
    FieldReduceAgree(a.w1);
    FieldReduceAgree(a.w2);
    FieldReduceAgree(a.w3);
    FieldReduceAgree(b.w0);
    FieldReduceAgree(b.w1);
    FieldReduceAgree(index);
  }

  /**
   * imt_verify_membership of the Python verifier, halving the index at each level. It raises
   * AssertionError for any other number of siblings, and has no count check: on an index in
   * range it accepts exactly the openings that imt_membership_verify accepts.
   */
  method PyVerifyMembership(perm: Perm, c: Digest, index: U64, siblings: seq<Digest>, root: Digest)
    returns (r: Result<bool, Error>)
    ensures |siblings| != IMT_DEPTH ==> r == Err(InvalidPathLength(IMT_DEPTH, |siblings|))
    ensures |siblings| == IMT_DEPTH ==>
              forall count: nat :: index < count ==> r == Ok(Accepts(perm, c, Path(siblings, index), root, count))
  {
    hide FieldReduce, PyFieldReduce, PyLeafBlock, PyNodeBlock, LeafBlock, NodeBlock;
    if |siblings| != IMT_DEPTH {
      return Err(InvalidPathLength(IMT_DEPTH, |siblings|));
    }
    var current := Squeeze(perm(PyLeafBlock(c, index)));
    HashesAgree(perm, c, c, index);
    var idx: nat := index;
    for i := 0 to IMT_DEPTH
      invariant Climb(perm, HashLeaf(perm, c, index), index, siblings) == Climb(perm, current, idx, siblings[i..])
    {
      assert siblings[i..][1..] == siblings[i + 1..];
      HashesAgree(perm, current, siblings[i], index);
      HashesAgree(perm, siblings[i], current, index);
      if idx % 2 == 0 {
        current := Squeeze(perm(PyNodeBlock(current, siblings[i])));
      } else {
        current := Squeeze(perm(PyNodeBlock(siblings[i], current)));
      }
      idx := idx / 2;
    }
    r := Ok(current == root);
  }

  // ----- The tree -----

  function GenesisFrontier(): seq<Digest> { seq(IMT_DEPTH, i => EMPTY) }

  /** The leaf hashes of a list of commitments, in insertion order. */
  function LeavesOf(perm: Perm, commitments: seq<Digest>): (r: seq<Digest>)
    requires |commitments| <= MAX_LEAVES
    ensures |r| == |commitments|
  {
    seq(|commitments|, i requires 0 <= i < |commitments| => HashLeaf(perm, commitments[i], i))
  }

  class IncrementalMerkleTree {
    const perm: Perm
    var frontier: seq<Digest>
    var count: U64
    var leaves: seq<Digest>
    ghost var commitments: seq<Digest>  // everything appended since creation or the last reset

    ghost predicate Valid()
      reads this
    {
      && |commitments| <= MAX_LEAVES
      && count == |commitments|
      && leaves == LeavesOf(perm, commitments)
      && frontier == if leaves == [] then GenesisFrontier() else GenesisFrontier()[0 := leaves[|leaves| - 1]]
    }

    /** The root of the reference tree over the current leaves. */
    ghost function RootSpec(): Digest
      reads this
    {
      Node(perm, leaves, IMT_DEPTH, 0)
    }

    constructor (perm: Perm)
      ensures Valid() && commitments == [] && this.perm == perm
    {
      this.perm := perm;
      frontier := GenesisFrontier();
      count := 0;
      leaves := [];
      commitments := [];
    }

    /** append. */
    method Append(c: Digest) returns (r: Result<nat, Error>)
      requires Valid()
      modifies this
      ensures Valid()
      ensures old(count) >= MAX_LEAVES ==> r == Err(TreeFull) && commitments == old(commitments)
      ensures old(count) < MAX_LEAVES ==>
                && r == Ok(old(count)) && commitments == old(commitments) + [c] && count == old(count) + 1
                && leaves == old(leaves) + [HashLeaf(perm, c, old(count))]
                && frontier == old(frontier)[0 := HashLeaf(perm, c, old(count))]
    {
      hide HashLeaf;
      if count >= MAX_LEAVES {
        return Err(TreeFull);
      }
      var leafIndex := count;
      var leafHash := HashLeaf(perm, c, leafIndex);
      leaves := leaves + [leafHash];
      frontier := frontier[0 := leafHash];
      count := count + 1;
      commitments := commitments + [c];
      r := Ok(leafIndex);
    }

    /** reset; its closing assertions, including root == empty root, hold. */
    method Reset()
      requires Valid()
      modifies this
      ensures Valid() && commitments == []
      ensures frontier == GenesisFrontier() && count == 0 && RootSpec() == EmptyRoot(perm, IMT_DEPTH)
    {
      hide EmptyRoot, Node;
      frontier := GenesisFrontier();
      count := 0;
      leaves := [];
      commitments := [];
      EmptyTreeRoot();
      var r := Root();
      var e := EmptySubtreeRoots(perm);
      assert r == e[IMT_DEPTH];
    }

    lemma EmptyTreeRoot()
      requires Valid() && leaves == []
      ensures RootSpec() == EmptyRoot(perm, IMT_DEPTH)
    {
      NoLeaves(IMT_DEPTH);
      NodeBeyond(perm, leaves, IMT_DEPTH, 0);
    }

    /** root: level-by-level folding computes the reference root, for every count up to 2^32. */
    method Root() returns (r: Digest)
      requires Valid()
      ensures r == RootSpec()
    {
      hide HashNode, HashLeaf;
      var empty := EmptySubtreeRoots(perm);
      if count == 0 {
        EmptyTreeRoot();
        return empty[IMT_DEPTH];
      }
      var level := leaves;
      for d := 0 to IMT_DEPTH
        invariant IsLevel(perm, leaves, d, level)
      {
        var next := FoldLevel(perm, level, empty[d]);
        LevelUp(perm, leaves, d, level, next);
        level := next;
      }
      TwoPow32();
      LevelSizeBound(|leaves|, IMT_DEPTH, IMT_DEPTH);
      r := level[0];
    }

    /** prove_membership: the path of subtree roots next to the ancestors of the leaf. */
    method ProveMembership(leafIndex: U64) returns (r: Result<Path, Error>)
      requires Valid()
      ensures leafIndex >= count ==> r == Err(LeafIndexOutOfBounds(leafIndex, count))
      ensures leafIndex < count ==> r == Ok(Path(SiblingsFrom(perm, leaves, leafIndex, 0), leafIndex))
      ensures leafIndex < count ==> Accepts(perm, commitments[leafIndex], r.value, RootSpec(), count)
    {
      hide SiblingsFrom, Node, Climb, LeavesOf;
      if leafIndex >= count {
        return Err(LeafIndexOutOfBounds(leafIndex, count));
      }
      var siblings := ComputeSiblings(leafIndex);
      MembershipComplete(perm, commitments, leafIndex);
      r := NewPath(siblings, leafIndex);
    }

    /** compute_siblings. */
    method ComputeSiblings(leafIndex: U64) returns (siblings: seq<Digest>)
      requires Valid() && leafIndex < count
      ensures siblings == SiblingsFrom(perm, leaves, leafIndex, 0)
    {
      hide HashNode, HashLeaf, Node, EmptyRoot, LevelSize, LeavesOf, SiblingsFrom, GenesisFrontier, RightChild;
      var empty := EmptySubtreeRoots(perm);
      siblings := [];
      var level := leaves;
      var idx: nat := leafIndex;
      ghost var all := SiblingsFrom(perm, leaves, leafIndex, 0);
      LevelZero(perm, leaves, leafIndex);
      for d := 0 to IMT_DEPTH
        invariant IsLevel(perm, leaves, d, level)
        invariant idx == Shr(leafIndex, d)
        invariant all == siblings + SiblingsFrom(perm, leaves, leafIndex, d)
      {
        var sib := Sibling(idx);
        SiblingsUnfold(perm, leaves, leafIndex, d);
        if sib >= |level| {
          NodeBeyond(perm, leaves, d, sib);
        }
        var sibHash := if sib < |level| then level[sib] else empty[d];
        siblings := siblings + [sibHash];
        var next := FoldLevel(perm, level, empty[d]);
        LevelUp(perm, leaves, d, level, next);
        level := next;
        idx := idx / 2;
      }
      assert SiblingsFrom(perm, leaves, leafIndex, IMT_DEPTH) == [];
    }
  }

  lemma LevelZero(perm: Perm, leaves: seq<Digest>, i: nat)
    ensures IsLevel(perm, leaves, 0, leaves) && Shr(i, 0) == i
    ensures i < |leaves| ==> Node(perm, leaves, 0, i) == leaves[i]
  {
  }

  lemma {:induction false} NoLeaves(d: nat)
    ensures LevelSize(0, d) == 0
  {
    if d > 0 {
      NoLeaves(d - 1);
    }
  }

  /** IMTPath::new. */
  function NewPath(siblings: seq<Digest>, leafIndex: U64): Result<Path, Error> {
    if |siblings| != IMT_DEPTH then Err(InvalidPathLength(IMT_DEPTH, |siblings|)) else Ok(Path(siblings, leafIndex))
  }

  /** What a tree holds of k appended commitments: the first 2^32. */
  function Kept(cs: seq<Digest>, k: nat): (r: seq<Digest>)
    requires k <= |cs|
    ensures |r| == if k <= MAX_LEAVES then k else MAX_LEAVES
  {
    if k <= MAX_LEAVES then cs[..k] else cs[..MAX_LEAVES]
  }

  lemma KeptStep(cs: seq<Digest>, k: nat)
    requires k < |cs|
    ensures Kept(cs, k + 1) == if k < MAX_LEAVES then Kept(cs, k) + [cs[k]] else Kept(cs, k)
  {
  }

  /** The whole state is determined by the commitments. */
  lemma SameState(t: IncrementalMerkleTree, u: IncrementalMerkleTree)
    requires t.Valid() && u.Valid() && t.perm == u.perm && t.commitments == u.commitments
    ensures t.frontier == u.frontier && t.count == u.count && t.leaves == u.leaves && t.RootSpec() == u.RootSpec()
  {
    hide LeavesOf, Node;
  }

  /** The same append to two trees that hold the same. */
  method AppendBoth(t: IncrementalMerkleTree, u: IncrementalMerkleTree, c: Digest)
    returns (a: Result<nat, Error>, b: Result<nat, Error>)
    requires t != u && t.Valid() && u.Valid() && t.commitments == u.commitments
    modifies t, u
    ensures t.Valid() && u.Valid() && a == b
    ensures t.commitments == u.commitments
         == if |old(t.commitments)| < MAX_LEAVES then old(t.commitments) + [c] else old(t.commitments)
  {
    hide LeavesOf;
    a := t.Append(c);
    b := u.Append(c);
  }

  /** Reset followed by any appends answers and ends like a fresh tree given the same appends. */
  method ReplayAfterReset(t: IncrementalMerkleTree, cs: seq<Digest>)
    returns (u: IncrementalMerkleTree, answers: seq<Result<nat, Error>>, answers': seq<Result<nat, Error>>)
    requires t.Valid()
    modifies t
    ensures fresh(u) && t.Valid() && u.Valid() && answers == answers' && |answers| == |cs|
    ensures t.commitments == u.commitments == Kept(cs, |cs|)
    ensures t.frontier == u.frontier && t.count == u.count && t.leaves == u.leaves && t.RootSpec() == u.RootSpec()
  {
    hide IncrementalMerkleTree.Valid, IncrementalMerkleTree.RootSpec;
    u := new IncrementalMerkleTree(t.perm);
    t.Reset();
    answers, answers' := [], [];
    for k := 0 to |cs|
      invariant fresh(u) && t.Valid() && u.Valid() && u.perm == t.perm
      invariant answers == answers' && |answers| == k
      invariant t.commitments == u.commitments == Kept(cs, k)
    {
      KeptStep(cs, k);
      var a, b := AppendBoth(t, u, cs[k]);
      answers, answers' := answers + [a], answers' + [b];
    }
    SameState(t, u);
  }

  // ----- Completeness and binding -----

  /** The opening that prove_membership gives for index i. */
  function OwnPath(perm: Perm, commitments: seq<Digest>, i: U64): (p: Path)
    requires |commitments| <= MAX_LEAVES
    ensures p.leafIndex == i && |p.siblings| == IMT_DEPTH
  {
    Path(SiblingsFrom(perm, LeavesOf(perm, commitments), i, 0), i)
  }

  function TreeRoot(perm: Perm, commitments: seq<Digest>): Digest
    requires |commitments| <= MAX_LEAVES
  {
    Node(perm, LeavesOf(perm, commitments), IMT_DEPTH, 0)
  }

  /** Every appended commitment is accepted with its own path, at the current root and count. */
  lemma MembershipComplete(perm: Perm, commitments: seq<Digest>, i: U64)
    requires i < |commitments| <= MAX_LEAVES
    ensures Accepts(perm, commitments[i], OwnPath(perm, commitments, i), TreeRoot(perm, commitments), |commitments|)
  {
    hide HashLeaf, HashNode, TwoPow, Climb, SiblingsFrom, Node, IsLevel;
    TwoPow32();
    var leaves := LeavesOf(perm, commitments);
    LevelZero(perm, leaves, i);
    ClimbReachesRoot(perm, leaves, i, 0);
  }

  /** Equal after field reduction on the two words that a parent always absorbs. */
  predicate AgreeOnTwo(a: Digest, b: Digest) {
    FieldReduce(a.w0) == FieldReduce(b.w0) && FieldReduce(a.w1) == FieldReduce(b.w1)
  }

  /** Equal commitments as far as the field can tell. */
  predicate SameField(a: Digest, b: Digest) {
    && FieldReduce(a.w0) == FieldReduce(b.w0) && FieldReduce(a.w1) == FieldReduce(b.w1)
    && FieldReduce(a.w2) == FieldReduce(b.w2) && FieldReduce(a.w3) == FieldReduce(b.w3)
  }

  /** Two different inputs whose outputs agree, in the field, on their first two words. */
  predicate TwoWordCollision(perm: Perm, a: Block, b: Block) {
    a != b && AgreeOnTwo(Squeeze(perm(a)), Squeeze(perm(b)))
  }

  /** The permutation inputs met while climbing, the first being `block`. */
  function Trace(perm: Perm, block: Block, idx: nat, siblings: seq<Digest>): (r: seq<Block>)
    ensures |r| == |siblings| + 1
    decreases |siblings|
  {
    if siblings == [] then [block]
    else
      var current := Squeeze(perm(block));
      var next := if idx % 2 == 0 then NodeBlock(current, siblings[0]) else NodeBlock(siblings[0], current);
      [block] + Trace(perm, next, idx / 2, siblings[1..])
  }

  /** All 33 permutation inputs of one run of the verifier. */
  function VerifierTrace(perm: Perm, c: Digest, path: Path): (r: seq<Block>)
    ensures |r| == |path.siblings| + 1
  {
    Trace(perm, LeafBlock(c, path.leafIndex), path.leafIndex, path.siblings)
  }

  /** Two climbs that start from different blocks and end together collide at some level. */
  lemma {:induction false} ExtractOnTrace(perm: Perm, a: Block, b: Block, idx: nat, xs: seq<Digest>, ys: seq<Digest>)
    returns (j: nat)
    requires |xs| == |ys| && a != b
    requires AgreeOnTwo(Climb(perm, Squeeze(perm(a)), idx, xs), Climb(perm, Squeeze(perm(b)), idx, ys))
    ensures j <= |xs| && TwoWordCollision(perm, Trace(perm, a, idx, xs)[j], Trace(perm, b, idx, ys)[j])
    decreases |xs|
  {
    hide FieldReduce;
    var x, y := Squeeze(perm(a)), Squeeze(perm(b));
    if AgreeOnTwo(x, y) {
      j := 0;
    } else {
      var a' := if idx % 2 == 0 then NodeBlock(x, xs[0]) else NodeBlock(xs[0], x);
      var b' := if idx % 2 == 0 then NodeBlock(y, ys[0]) else NodeBlock(ys[0], y);
      j := ExtractOnTrace(perm, a', b', idx / 2, xs[1..], ys[1..]);
      j := j + 1;
    }
  }

  /**
   * Binding by extraction: if two openings are accepted at the same index and root and their
   * commitments differ in the field, then at some level the two runs of the verifier fed the
   * permutation different inputs whose outputs agree on their first two words.
   */
  lemma MembershipBinding(perm: Perm, c: Digest, c': Digest, p: Path, p': Path, root: Digest, count: nat)
    returns (j: nat)
    requires Accepts(perm, c, p, root, count) && Accepts(perm, c', p', root, count)
    requires p.leafIndex == p'.leafIndex && !SameField(c, c')
    ensures j <= IMT_DEPTH
    ensures |VerifierTrace(perm, c, p)| == |VerifierTrace(perm, c', p')| == IMT_DEPTH + 1
    ensures TwoWordCollision(perm, VerifierTrace(perm, c, p)[j], VerifierTrace(perm, c', p')[j])
  {
    hide FieldReduce, Climb;
    j := ExtractOnTrace(perm, LeafBlock(c, p.leafIndex), LeafBlock(c', p.leafIndex), p.leafIndex, p.siblings,
                        p'.siblings);
  }

  /** Openings at different indices start from different leaf inputs, whatever the commitments. */
  lemma IndicesSeparate(perm: Perm, c: Digest, c': Digest, p: Path, p': Path)
    requires p.leafIndex < P && p'.leafIndex < P && p.leafIndex != p'.leafIndex
    ensures VerifierTrace(perm, c, p)[0] != VerifierTrace(perm, c', p')[0]
  {
    hide LeafBlock, FieldReduce;
    LeafBlockBinds(c, p.leafIndex, c', p'.leafIndex);
    ModSmall(p.leafIndex, P);
    ModSmall(p'.leafIndex, P);
    TraceHead(perm, LeafBlock(c, p.leafIndex), p.leafIndex, p.siblings);
    TraceHead(perm, LeafBlock(c', p'.leafIndex), p'.leafIndex, p'.siblings);
  }

  lemma TraceHead(perm: Perm, block: Block, idx: nat, siblings: seq<Digest>)
    ensures Trace(perm, block, idx, siblings)[0] == block
  {
  }

  /** All later inputs of a run are node inputs, so no run hashes an inner node as a leaf. */
  lemma {:induction false} TraceDomains(perm: Perm, block: Block, idx: nat, siblings: seq<Digest>, j: nat, c: Digest,
                                        i: U64)
    requires 0 < j <= |siblings|
    ensures Trace(perm, block, idx, siblings)[j] != LeafBlock(c, i)
    decreases j
  {
    hide LeafBlock, NodeBlock;
    var current := Squeeze(perm(block));
    var next := if idx % 2 == 0 then NodeBlock(current, siblings[0]) else NodeBlock(siblings[0], current);
    var rest := Trace(perm, next, idx / 2, siblings[1..]);
    assert Trace(perm, block, idx, siblings) == [block] + rest;
    if j == 1 {
      TraceHead(perm, next, idx / 2, siblings[1..]);
      DomainsSeparate(c, i, current, siblings[0]);
      DomainsSeparate(c, i, siblings[0], current);
    } else {
      TraceDomains(perm, next, idx / 2, siblings[1..], j - 1, c, i);
    }
  }

  /** The path p makes the verifier collide with its own run on the true commitment. */
  predicate CollidesWithTree(perm: Perm, commitments: seq<Digest>, c: Digest, p: Path)
    requires |commitments| <= MAX_LEAVES && p.leafIndex < |commitments| && |p.siblings| == IMT_DEPTH
  {
    var own := VerifierTrace(perm, commitments[p.leafIndex], OwnPath(perm, commitments, p.leafIndex));
    var run := VerifierTrace(perm, c, p);
    exists j :: 0 <= j <= IMT_DEPTH && TwoWordCollision(perm, run[j], own[j])
  }

  /**
   * INV-4.1 as the code meets it: an opening accepted against the root of a tree is for the
   * commitment at that index, up to field reduction, unless it exhibits a two-word collision
   * with the tree itself; and every commitment equal to it in the field has an accepted opening.
   */
  lemma MembershipExact(perm: Perm, commitments: seq<Digest>, c: Digest, p: Path)
    requires p.leafIndex < |commitments| <= MAX_LEAVES
    ensures Accepts(perm, c, p, TreeRoot(perm, commitments), |commitments|) ==>
              SameField(c, commitments[p.leafIndex]) || CollidesWithTree(perm, commitments, c, p)
    ensures SameField(c, commitments[p.leafIndex]) ==>
              Accepts(perm, c, OwnPath(perm, commitments, p.leafIndex), TreeRoot(perm, commitments), |commitments|)
  {
    hide FieldReduce, Node, SiblingsFrom, Climb, TwoPow, TwoWordCollision, VerifierTrace, LeavesOf, OwnPath, TreeRoot;
    var i := p.leafIndex;
    MembershipComplete(perm, commitments, i);
    if Accepts(perm, c, p, TreeRoot(perm, commitments), |commitments|) && !SameField(c, commitments[i]) {
      var j := MembershipBinding(perm, c, commitments[i], p, OwnPath(perm, commitments, i),
                                 TreeRoot(perm, commitments), |commitments|);
    }
    if SameField(c, commitments[i]) {
      assert LeafBlock(c, i) == LeafBlock(commitments[i], i);
    }
  }

  /** A word that is the only 64-bit representation of its field element. */
  predicate UniqueWord(w: U64) { 0xFFFF_FFFF <= w < P }

  /** A commitment that no other byte string equals in the field; checkable before appending it. */
  predicate UniquelyEncoded(c: Digest) {
    UniqueWord(c.w0) && UniqueWord(c.w1) && UniqueWord(c.w2) && UniqueWord(c.w3)
  }

  /** The other representation of a word that is not unique. */
  function OtherWord(w: U64): (v: U64)
    ensures !UniqueWord(w) ==> v != w && FieldReduce(v) == FieldReduce(w)
    ensures UniqueWord(w) ==> v == w
  {
    if w < 0xFFFF_FFFF then w + P else if w >= P then w - P else w
  }

  lemma UniqueWordFacts(v: U64, w: U64)
    requires FieldReduce(v) == FieldReduce(w) && UniqueWord(w)
    ensures v == w
  {
  }

  /** Field equality is byte equality for exactly these commitments. */
  lemma UniqueEncoding(c: Digest)
    ensures (forall d: Digest :: SameField(d, c) ==> d == c) <==> UniquelyEncoded(c)
  {
    hide FieldReduce, UniqueWord;
    var d := Digest(OtherWord(c.w0), OtherWord(c.w1), OtherWord(c.w2), OtherWord(c.w3));
    assert SameField(d, c);
    if UniquelyEncoded(c) {
      forall d: Digest | SameField(d, c)
        ensures d == c
      {
        UniqueWordFacts(d.w0, c.w0);
        UniqueWordFacts(d.w1, c.w1);
        UniqueWordFacts(d.w2, c.w2);
        UniqueWordFacts(d.w3, c.w3);
      }
    } else {
      assert d != c;
    }
  }

  /** INV-4.1 on bytes, at one index: short of a collision, only the stored byte string is accepted. */
  ghost predicate ByteBinding(perm: Perm, commitments: seq<Digest>, i: nat)
    requires i < |commitments| <= MAX_LEAVES
  {
    forall c: Digest, p: Path ::
      p.leafIndex == i && Accepts(perm, c, p, TreeRoot(perm, commitments), |commitments|) ==>
        c == commitments[i] || CollidesWithTree(perm, commitments, c, p)
  }

  /** INV-4.1 holds on bytes at an index exactly when the commitment stored there is uniquely encoded. */
  lemma ByteBindingExact(perm: Perm, commitments: seq<Digest>, i: nat)
    requires i < |commitments| <= MAX_LEAVES
    ensures ByteBinding(perm, commitments, i) <==> UniquelyEncoded(commitments[i])
  {
    hide Accepts, SameField, CollidesWithTree, TreeRoot, UniquelyEncoded, OwnPath;
    var stored := commitments[i];
    UniqueEncoding(stored);
    if UniquelyEncoded(stored) {
      forall c: Digest, p: Path | p.leafIndex == i && Accepts(perm, c, p, TreeRoot(perm, commitments), |commitments|)
        ensures |p.siblings| == IMT_DEPTH
        ensures c == stored || CollidesWithTree(perm, commitments, c, p)
      {
        AcceptedLength(perm, c, p, TreeRoot(perm, commitments), |commitments|);
        MembershipExact(perm, commitments, c, p);
      }
    } else {
      var d: Digest :| SameField(d, stored) && d != stored;
      var p := OwnPath(perm, commitments, i);
      MembershipExact(perm, commitments, d, p);
      SameRun(perm, commitments, d, i);
    }
  }

  lemma AcceptedLength(perm: Perm, c: Digest, p: Path, root: Digest, count: nat)
    requires Accepts(perm, c, p, root, count)
    ensures |p.siblings| == IMT_DEPTH
  {
  }

  /** A field-equal commitment makes the verifier run exactly as on the stored one. */
  lemma SameRun(perm: Perm, commitments: seq<Digest>, d: Digest, i: nat)
    requires i < |commitments| <= MAX_LEAVES && SameField(d, commitments[i])
    ensures !CollidesWithTree(perm, commitments, d, OwnPath(perm, commitments, i))
  {
    hide FieldReduce, Trace, OwnPath;
    assert LeafBlock(d, i) == LeafBlock(commitments[i], i);
  }

  /**
   * At the byte level INV-4.1 fails: a word equal to P and the word 0 are the same field element, so a
   * tree of one commitment accepts, at its index, a different commitment that was never appended.
   */
  lemma ByteLevelBindingFails(perm: Perm)
    ensures var c, c' := Digest(0, 0, 0, 0), Digest(0xFFFF_FFFF_0000_0001, 0, 0, 0);
      c' !in [c] && Accepts(perm, c', OwnPath(perm, [c], 0), TreeRoot(perm, [c]), 1)
  {
    hide Climb, Node, SiblingsFrom, LeavesOf, OwnPath, TreeRoot;
    var c, c' := Digest(0, 0, 0, 0), Digest(0xFFFF_FFFF_0000_0001, 0, 0, 0);
    FieldReduceExact(0);
    FieldReduceExact(0xFFFF_FFFF_0000_0001);
    MembershipExact(perm, [c], c', OwnPath(perm, [c], 0));
  }
}
