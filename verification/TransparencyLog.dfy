/**
 Merkle tree hashing, audit paths and the inclusion check of
 packages/anchor-proof/src/transparency-log.ts (RFC 6962 sections 2.1 and 2.1.1, with the
 verification loop of RFC 9162 section 2.1.3.2).
 */
module TransparencyLog {
  import opened Outcomes
  import opened Digests
  import opened Sequences

  // ---------- 32-bit integer operators of the source ----------

  const TWO_31: int := 0x8000_0000
  const TWO_32: int := 0x1_0000_0000

  function ToInt32(x: int): int {
    var low := x % TWO_32;
    if low < TWO_31 then low else low - TWO_32
  }

  /** `x >> 1`; Dafny's division by a positive number floors, as an arithmetic shift does. */
  function ShiftRight(x: int): (y: int)
    ensures 0 <= x < TWO_31 ==> y == x / 2 && 0 <= y < TWO_31
    ensures -TWO_31 / 2 <= y < TWO_31 / 2
  {
    ToInt32(x) / 2
  }

  /** `x << 1` */
  function ShiftLeft(x: int): int {
    ToInt32(x * 2)
  }

  /** `(x & 1) === 1` */
  predicate Odd(x: int) {
    x % 2 == 1
  }

  // ---------- hashing ----------

  function LeafHash(payload: Digest): Digest {
    Sha256([Byte(0), Raw(payload)])
  }

  function NodeHash(left: Digest, right: Digest): Digest {
    Sha256([Byte(1), Raw(left), Raw(right)])
  }

  predicate IsLeafHash(d: Digest) {
    d.Sha256? && |d.preimage| == 2 && d.preimage[0] == Byte(0) && d.preimage[1].Raw?
  }

  ghost predicate AllLeafHashes(leaves: seq<Digest>) {
    forall i | 0 <= i < |leaves| :: IsLeafHash(leaves[i])
  }

  lemma NodeHashInjective(a: Digest, b: Digest, c: Digest, d: Digest)
    requires NodeHash(a, b) == NodeHash(c, d)
    ensures a == c && b == d
  {
    assert NodeHash(a, b).preimage[1] == Raw(a) && NodeHash(a, b).preimage[2] == Raw(b);
  }

  // ---------- the split point ----------

  ghost predicate IsPowerOfTwo(k: nat) {
    k == 1 || (k > 1 && k % 2 == 0 && IsPowerOfTwo(k / 2))
  }

  /** The split point of a tree of n > 1 leaves: a power of two k with k < n <= 2k. */
  function Split(n: nat): (k: nat)
    requires n > 1
    ensures 0 < k < n <= 2 * k
    ensures IsPowerOfTwo(k)
  {
    if n == 2 then 1 else 2 * Split((n + 1) / 2)
  }

  lemma {:induction false} PowerBelowIsUnique(j: nat, k: nat, n: nat)
    requires IsPowerOfTwo(j) && j < n <= 2 * j
    requires IsPowerOfTwo(k) && k < n <= 2 * k
    ensures j == k
    decreases n
  {
    if j > 1 && k > 1 {
      PowerBelowIsUnique(j / 2, k / 2, (n + 1) / 2);
    }
  }

  lemma ShiftLeftDoubles(k: nat)
    requires k < 0x4000_0000
    ensures ShiftLeft(k) == 2 * k
  {
  }

  /** The value of `k` after j turns of the doubling loop, if it gets that far. */
  function Doubled(j: nat): int {
    if j == 0 then 1 else ShiftLeft(Doubled(j - 1))
  }

  /** The doubling loop for n leaves stops after some number of turns. */
  ghost predicate LoopEnds(n: nat) {
    exists j: nat :: ShiftLeft(Doubled(j)) >= n
  }

  function Pow2(e: nat): nat {
    if e == 0 then 1 else 2 * Pow2(e - 1)
  }

  lemma {:induction false} Pow2Grows(e: nat, f: nat)
    requires e <= f
    ensures 1 <= Pow2(e) <= Pow2(f)
  {
    if e < f {
      Pow2Grows(e, f - 1);
    } else if e > 0 {
      Pow2Grows(e - 1, e - 1);
    }
  }

  lemma {:induction false} Pow2Adds(e: nat, f: nat)
    ensures Pow2(e + f) == Pow2(e) * Pow2(f)
  {
    if e > 0 {
      Pow2Adds(e - 1, f);
    }
  }

  lemma Pow2Values()
    ensures 2 * Pow2(29) == Pow2(30) == 0x4000_0000
  {
    assert Pow2(10) == 1024;
    Pow2Adds(10, 10);
    Pow2Adds(20, 10);
  }

  lemma ShiftsOut(k: int)
    requires k == 0x4000_0000 || k == -TWO_31 || k == 0
    ensures ShiftLeft(k) == if k == 0x4000_0000 then -TWO_31 else 0
  {
  }

  /** Thirty doublings, then the sign bit, then zero for good. */
  lemma {:induction false} DoubledIs(j: nat)
    ensures Doubled(j) == if j <= 30 then Pow2(j) else if j == 31 then -TWO_31 else 0
  {
    if j > 0 {
      DoubledIs(j - 1);
      Pow2Values();
      if j <= 30 {
        Pow2Grows(j - 1, 29);
        ShiftLeftDoubles(Pow2(j - 1));
      } else {
        ShiftsOut(Doubled(j - 1));
      }
    }
  }

  lemma GuardStaysLow(j: nat)
    ensures ShiftLeft(Doubled(j)) <= 0x4000_0000
  {
    DoubledIs(j);
    Pow2Values();
    if j < 30 {
      Pow2Grows(j, 29);
      ShiftLeftDoubles(Pow2(j));
    } else {
      ShiftsOut(Doubled(j));
    }
  }

  lemma GuardReachesTheTop()
    ensures ShiftLeft(Doubled(29)) == 0x4000_0000
  {
    DoubledIs(29);
    Pow2Values();
    ShiftLeftDoubles(Pow2(29));
  }

  /** The source's loop ends for up to 2^30 leaves and runs for ever on any larger number. */
  lemma SplitLoopEndsIff(n: nat)
    ensures LoopEnds(n) <==> n <= 0x4000_0000
  {
    GuardReachesTheTop();
    if LoopEnds(n) {
      var j: nat :| ShiftLeft(Doubled(j)) >= n;
      GuardStaysLow(j);
    }
  }

  /** The doubling loop; `SplitLoopEndsIff` says for which n there is a result at all. */
  method LargestPowerOfTwoLessThan(n: nat) returns (k: nat)
    requires 1 < n <= 0x4000_0000
    ensures IsPowerOfTwo(k) && k < n <= 2 * k
    ensures k == Split(n)
  {
    k := 1;
    while ShiftLeft(k) < n
      invariant 1 <= k < n && IsPowerOfTwo(k) && ShiftLeft(k) == 2 * k
      decreases n - k
    {
      k := ShiftLeft(k);
      ShiftLeftDoubles(k);
    }
    PowerBelowIsUnique(k, Split(n), n);
  }

  // ---------- tree hash and audit path (recursive, from the top) ----------

  function MerkleTreeHash(leaves: seq<Digest>): Digest
    decreases |leaves|
  {
    var n := |leaves|;
    if n == 0 then Sha256([])
    else if n == 1 then leaves[0]
    else
      var k := Split(n);
      NodeHash(MerkleTreeHash(leaves[..k]), MerkleTreeHash(leaves[k..]))
  }

  function InclusionPath(m: nat, leaves: seq<Digest>): seq<Digest>
    requires m < |leaves|
    decreases |leaves|
  {
    var n := |leaves|;
    if n == 1 then []
    else
      var k := Split(n);
      if m < k then InclusionPath(m, leaves[..k]) + [MerkleTreeHash(leaves[k..])]
      else InclusionPath(m - k, leaves[k..]) + [MerkleTreeHash(leaves[..k])]
  }

  // ---------- what the verification loop computes ----------

  /** On which side of its parent the running hash stands. */
  datatype Side = Left | Right

  function Join(side: Side, r: Digest, sibling: Digest): Digest {
    if side.Right? then NodeHash(sibling, r) else NodeHash(r, sibling)
  }

  /**
   The sides taken from position fn of a level with last position sn, from the bottom up.
   A node that is last and in an even position has no sibling and moves up unhashed.
   */
  function Sides(fn: nat, sn: nat): seq<Side>
    requires fn <= sn
    decreases sn
  {
    if sn == 0 then []
    else if Odd(fn) then [Right] + Sides(fn / 2, sn / 2)
    else if fn == sn then Sides(fn / 2, sn / 2)
    else [Left] + Sides(fn / 2, sn / 2)
  }

  function Rights(e: nat): seq<Side> {
    seq(e, _ => Right)
  }

  function Climb(sides: seq<Side>, r: Digest, proof: seq<Digest>): Digest
    requires |sides| == |proof|
    decreases |sides|
  {
    if sides == [] then r else Climb(sides[1..], Join(sides[0], r, proof[0]), proof[1..])
  }

  /** Proof elements beyond the top of the tree are still hashed in, always from the left. */
  function RootFrom(fn: nat, sn: nat, r: Digest, proof: seq<Digest>): Option<Digest>
    requires fn <= sn
  {
    var sides := Sides(fn, sn);
    if |proof| < |sides| then None
    else Some(Climb(sides + Rights(|proof| - |sides|), r, proof))
  }

  function Root(leafIndex: int, treeSize: int, leaf: Digest, proof: seq<Digest>): Option<Digest> {
    if 0 <= leafIndex < treeSize then RootFrom(leafIndex, treeSize - 1, leaf, proof) else None
  }

  lemma {:induction false} SidesEndAtTheTop(fn: nat, sn: nat)
    requires fn <= sn
    ensures Sides(fn, sn) == [] <==> sn == 0
    decreases sn
  {
    if sn > 0 && !Odd(fn) && fn == sn {
      SidesEndAtTheTop(fn / 2, sn / 2);
    }
  }

  /** One proof element taken where the running hash has a sibling, or at the top. */
  lemma {:induction false} RootFromStep(fn: nat, sn: nat, r: Digest, p: Digest, rest: seq<Digest>)
    requires fn <= sn && (Odd(fn) || fn != sn || sn == 0)
    ensures
      var side := if Odd(fn) || fn == sn then Right else Left;
      RootFrom(fn, sn, r, [p] + rest) == RootFrom(fn / 2, sn / 2, Join(side, r, p), rest)
  {
    var side := if Odd(fn) || fn == sn then Right else Left;
    var sides := Sides(fn, sn);
    var above := Sides(fn / 2, sn / 2);
    assert ([p] + rest)[1..] == rest;
    if |rest| + 1 >= |sides| {
      var all := sides + Rights(|rest| + 1 - |sides|);
      assert all == [side] + (above + Rights(|rest| - |above|));
      assert all[1..] == above + Rights(|rest| - |above|);
    }
  }

  /** The loop's state stands for the wanted result; beyond 2^31 leaves nothing is claimed. */
  ghost predicate Tracks(size: int, fn: int, sn: int, r: Digest, rest: seq<Digest>, wanted: Option<Digest>) {
    size <= TWO_31 ==> 0 <= fn <= sn < TWO_31 && RootFrom(fn, sn, r, rest) == wanted
  }

  lemma TracksUp(size: int, fn: int, sn: int, r: Digest, rest: seq<Digest>, wanted: Option<Digest>)
    requires Tracks(size, fn, sn, r, rest, wanted) && !Odd(fn) && fn != 0
    requires size <= TWO_31 ==> fn == sn
    ensures Tracks(size, ShiftRight(fn), ShiftRight(sn), r, rest, wanted)
    ensures size <= TWO_31 ==> ShiftRight(fn) == ShiftRight(sn)
  {
  }

  lemma TracksJoin(size: int, fn: int, sn: int, r: Digest, p: Digest, rest: seq<Digest>, wanted: Option<Digest>)
    requires Tracks(size, fn, sn, r, [p] + rest, wanted)
    requires size <= TWO_31 ==> Odd(fn) || fn != sn || sn == 0
    ensures
      var side := if Odd(fn) || fn == sn then Right else Left;
      Tracks(size, ShiftRight(fn), ShiftRight(sn), Join(side, r, p), rest, wanted)
  {
    if size <= TWO_31 {
      RootFromStep(fn, sn, r, p, rest);
    }
  }

  /** The verification loop, with the source's 32-bit operators. */
  method RootFromInclusion(leafIndex: int, treeSize: int, leafHash: Digest, proof: seq<Digest>) returns (root: Option<Digest>)
    ensures treeSize <= TWO_31 ==> root == Root(leafIndex, treeSize, leafHash, proof)
  {
    if leafIndex < 0 || leafIndex >= treeSize {
      return None;
    }
    var fn, sn, r := leafIndex, treeSize - 1, leafHash;
    ghost var wanted := RootFrom(leafIndex, treeSize - 1, leafHash, proof);
    for j := 0 to |proof|
      invariant Tracks(treeSize, fn, sn, r, proof[j..], wanted)
    {
      var p := proof[j];
      assert proof[j..] == [p] + proof[j + 1..];
      if Odd(fn) || fn == sn {
        ghost var below := r;
        r := NodeHash(p, r);
        while !Odd(fn) && fn != 0
          invariant Tracks(treeSize, fn, sn, below, [p] + proof[j + 1..], wanted)
          invariant treeSize <= TWO_31 ==> Odd(fn) || fn == sn
          decreases if -TWO_31 <= fn < TWO_31 then (if fn < 0 then -fn else fn) else TWO_32
        {
          TracksUp(treeSize, fn, sn, below, [p] + proof[j + 1..], wanted);
          fn := ShiftRight(fn);
          sn := ShiftRight(sn);
        }
        TracksJoin(treeSize, fn, sn, below, p, proof[j + 1..], wanted);
      } else {
        TracksJoin(treeSize, fn, sn, r, p, proof[j + 1..], wanted);
        r := NodeHash(r, p);
      }
      fn := ShiftRight(fn);
      sn := ShiftRight(sn);
    }
    if treeSize <= TWO_31 {
      SidesEndAtTheTop(fn, sn);
    }
    return if sn == 0 then Some(r) else None;
  }

  // ---------- relating the climb from the bottom to the tree from the top ----------

  lemma {:induction false} SidesOfTheLeftHalf(i: nat, n: nat)
    requires n > 1 && i < Split(n)
    ensures Sides(i, n - 1) == Sides(i, Split(n) - 1) + [Left]
    decreases n
  {
    if n > 2 {
      SidesOfTheLeftHalf(i / 2, (n + 1) / 2);
      assert (n - 1) / 2 == (n + 1) / 2 - 1 && (Split(n) - 1) / 2 == Split(n) / 2 - 1;
    }
  }

  lemma {:induction false} SidesOfTheRightHalf(i: nat, n: nat)
    requires n > 1 && Split(n) <= i < n
    ensures Sides(i, n - 1) == Sides(i - Split(n), n - Split(n) - 1) + [Right]
    decreases n
  {
    if n > 2 {
      HalvesOfTheRight(i, n);
      SidesOfTheRightHalf(i / 2, (n + 1) / 2);
      SameBegin(i, n - 1, Split(n));
    }
  }

  /** Taking an even number off both ends changes no parity. */
  lemma SameBegin(fn: nat, sn: nat, k: nat)
    requires k <= fn <= sn && k % 2 == 0 && 0 < sn
    requires Sides(fn / 2, sn / 2) == Sides((fn - k) / 2, (sn - k) / 2) + [Right]
    ensures Sides(fn, sn) == Sides(fn - k, sn - k) + [Right]
  {
  }

  /** Halving index and size of a tree halves its right part. */
  lemma HalvesOfTheRight(i: nat, n: nat)
    requires n > 2 && Split(n) <= i < n
    ensures Split((n + 1) / 2) == Split(n) / 2 <= i / 2 < (n + 1) / 2
    ensures i / 2 - Split((n + 1) / 2) == (i - Split(n)) / 2
    ensures (n + 1) / 2 - Split((n + 1) / 2) - 1 == (n - Split(n) - 1) / 2
    ensures (n + 1) / 2 - 1 == (n - 1) / 2 && Split(n) % 2 == 0
  {
  }

  lemma {:induction false} ClimbLast(sides: seq<Side>, side: Side, r: Digest, proof: seq<Digest>, p: Digest)
    requires |sides| == |proof|
    ensures Climb(sides + [side], r, proof + [p]) == Join(side, Climb(sides, r, proof), p)
    decreases |sides|
  {
    if sides != [] {
      assert (sides + [side])[1..] == sides[1..] + [side];
      assert (proof + [p])[1..] == proof[1..] + [p];
      ClimbLast(sides[1..], side, Join(sides[0], r, proof[0]), proof[1..], p);
    }
  }

  /** Leaf i of a tree of several leaves lies in the half with this side, index, leaves and sibling hash. */
  ghost predicate LiesIn(i: nat, leaves: seq<Digest>, j: nat, side: Side, half: seq<Digest>, sibling: Digest)
    requires i < |leaves| && |leaves| > 1
  {
    var k := Split(|leaves|);
    && 0 < |half| < |leaves| && j < |half|
    && if i < k then j == i && side == Left && half == leaves[..k] && sibling == MerkleTreeHash(leaves[k..])
       else j == i - k && side == Right && half == leaves[k..] && sibling == MerkleTreeHash(leaves[..k])
  }

  lemma PathInHalf(i: nat, leaves: seq<Digest>, j: nat, side: Side, half: seq<Digest>, sibling: Digest)
    requires i < |leaves| && |leaves| > 1 && LiesIn(i, leaves, j, side, half, sibling)
    ensures half[j] == leaves[i]
    ensures InclusionPath(i, leaves) == InclusionPath(j, half) + [sibling]
    ensures MerkleTreeHash(leaves) == Join(side, MerkleTreeHash(half), sibling)
  {
  }

  lemma SidesInHalf(i: nat, leaves: seq<Digest>, j: nat, side: Side, half: seq<Digest>, sibling: Digest)
    requires i < |leaves| && |leaves| > 1 && LiesIn(i, leaves, j, side, half, sibling)
    ensures Sides(i, |leaves| - 1) == Sides(j, |half| - 1) + [side]
  {
    if i < Split(|leaves|) {
      SidesOfTheLeftHalf(i, |leaves|);
    } else {
      SidesOfTheRightHalf(i, |leaves|);
    }
  }

  /** The audit path of leaf i is the audit path in its half, then the other half's hash. */
  lemma {:induction false} PathFromTheTop(i: nat, leaves: seq<Digest>) returns (j: nat, side: Side, half: seq<Digest>, sibling: Digest)
    requires i < |leaves| && |leaves| > 1
    ensures LiesIn(i, leaves, j, side, half, sibling) && half[j] == leaves[i]
    ensures Sides(i, |leaves| - 1) == Sides(j, |half| - 1) + [side]
    ensures InclusionPath(i, leaves) == InclusionPath(j, half) + [sibling]
    ensures MerkleTreeHash(leaves) == Join(side, MerkleTreeHash(half), sibling)
  {
    var k := Split(|leaves|);
    if i < k {
      j, side, half, sibling := i, Left, leaves[..k], MerkleTreeHash(leaves[k..]);
    } else {
      j, side, half, sibling := i - k, Right, leaves[k..], MerkleTreeHash(leaves[..k]);
    }
    PathInHalf(i, leaves, j, side, half, sibling);
    SidesInHalf(i, leaves, j, side, half, sibling);
  }

  /** Completeness: climbing the audit path of leaf i gives the tree hash. */
  lemma {:induction false} PathClimbsToRoot(i: nat, sides: seq<Side>, leaves: seq<Digest>)
    requires i < |leaves| && sides == Sides(i, |leaves| - 1)
    ensures |InclusionPath(i, leaves)| == |sides|
    ensures Climb(sides, leaves[i], InclusionPath(i, leaves)) == MerkleTreeHash(leaves)
    decreases |leaves|
  {
    if |leaves| > 1 {
      var j, side, half, sibling := PathFromTheTop(i, leaves);
      var inner := sides[..|sides| - 1];
      PathClimbsToRoot(j, inner, half);
      ClimbLast(inner, side, leaves[i], InclusionPath(j, half), sibling);
    }
  }

  /** The topmost step of a climb that ends in a node hash. */
  lemma {:induction false} TopStep(sides: seq<Side>, leaf: Digest, proof: seq<Digest>, left: Digest, right: Digest)
    requires |sides| == |proof| > 0
    requires Climb(sides, leaf, proof) == NodeHash(left, right)
    ensures
      var last := |sides| - 1;
      var inner := Climb(sides[..last], leaf, proof[..last]);
      if sides[last].Left? then inner == left && proof[last] == right else inner == right && proof[last] == left
  {
    var last := |sides| - 1;
    assert sides == sides[..last] + [sides[last]] && proof == proof[..last] + [proof[last]];
    ClimbLast(sides[..last], sides[last], leaf, proof[..last], proof[last]);
    var inner := Climb(sides[..last], leaf, proof[..last]);
    if sides[last].Left? {
      NodeHashInjective(inner, proof[last], left, right);
    } else {
      NodeHashInjective(proof[last], inner, left, right);
    }
  }

  /** A climb of at least one step never ends in a leaf hash. */
  lemma {:induction false} ClimbLeavesTheLeaves(sides: seq<Side>, leaf: Digest, proof: seq<Digest>)
    requires |sides| == |proof| > 0
    ensures !IsLeafHash(Climb(sides, leaf, proof))
  {
    var last := |sides| - 1;
    assert sides == sides[..last] + [sides[last]] && proof == proof[..last] + [proof[last]];
    ClimbLast(sides[..last], sides[last], leaf, proof[..last], proof[last]);
  }

  /** The longest climb that can end in the hash of a tree of n leaves. */
  function Height(n: nat): nat
    requires n > 0
  {
    if n == 1 then 0 else 1 + Height((n + 1) / 2)
  }

  lemma {:induction false} HeightMonotone(m: nat, n: nat)
    requires 0 < m <= n
    ensures Height(m) <= Height(n)
    decreases n
  {
    if m > 1 {
      HeightMonotone((m + 1) / 2, (n + 1) / 2);
    }
  }

  lemma {:induction false} HeightOfPower(k: nat, i: nat)
    requires IsPowerOfTwo(k) && i < k
    ensures |Sides(i, k - 1)| == Height(k)
    ensures Height(2 * k) == 1 + Height(k)
  {
    if k > 1 {
      HeightOfPower(k / 2, i / 2);
      assert (k - 1) / 2 == k / 2 - 1 && (k + 1) / 2 == k / 2;
    }
    assert (2 * k + 1) / 2 == k;
  }

  lemma {:induction false} HeightOfSplit(n: nat)
    requires n > 1
    ensures Height(n) == 1 + Height(Split(n))
  {
    if n > 2 {
      HeightOfSplit((n + 1) / 2);
      HeightOfPower(Split((n + 1) / 2), 0);
    }
  }

  /** A climb from a leaf hash to the hash of a tree of leaf hashes is no longer than the tree is high. */
  lemma {:induction false} ClimbFitsTheTree(sides: seq<Side>, leaf: Digest, proof: seq<Digest>, leaves: seq<Digest>)
    requires |sides| == |proof| && leaves != [] && AllLeafHashes(leaves)
    requires Climb(sides, leaf, proof) == MerkleTreeHash(leaves)
    ensures |sides| <= Height(|leaves|)
    decreases |leaves|
  {
    var n, last := |leaves|, |sides| - 1;
    if sides != [] {
      ClimbLeavesTheLeaves(sides, leaf, proof);
      var k := Split(n);
      TopStep(sides, leaf, proof, MerkleTreeHash(leaves[..k]), MerkleTreeHash(leaves[k..]));
      var below := if sides[last].Left? then leaves[..k] else leaves[k..];
      ClimbFitsTheTree(sides[..last], leaf, proof[..last], below);
      HeightMonotone(|below|, k);
      HeightOfSplit(n);
    }
  }

  /** The right subtree is lower than a path into the left one is long. */
  lemma {:induction false} TooLongForTheRight(sides: seq<Side>, i: nat, leaf: Digest, proof: seq<Digest>, leaves: seq<Digest>)
    requires |leaves| > 1 && i < Split(|leaves|) && AllLeafHashes(leaves)
    requires |sides| == |proof| >= |Sides(i, |leaves| - 1)|
    ensures Climb(sides, leaf, proof) != MerkleTreeHash(leaves[Split(|leaves|)..])
  {
    var n := |leaves|;
    var k := Split(n);
    HeightMonotone(n - k, k);
    HeightOfPower(k, i);
    SidesOfTheLeftHalf(i, n);
    if Climb(sides, leaf, proof) == MerkleTreeHash(leaves[k..]) {
      ClimbFitsTheTree(sides, leaf, proof, leaves[k..]);
      assert false;
    }
  }

  lemma CutLastSide(below: seq<Side>, side: Side, extra: nat)
    ensures var all := below + [side] + Rights(extra);
      extra == 0 || side == Right ==> all[..|all| - 1] == below + Rights(extra)
  {
  }

  /** In the left half no step is left over: the climb before the last step would be too long for the other half. */
  lemma SurplusIsOnTheRight(i: nat, sides: seq<Side>, leaf: Digest, proof: seq<Digest>, extra: nat, leaves: seq<Digest>)
    requires i < |leaves| && |leaves| > 1 && AllLeafHashes(leaves)
    requires sides == Sides(i, |leaves| - 1) + Rights(extra) && |proof| == |sides|
    requires Climb(sides, leaf, proof) == MerkleTreeHash(leaves)
    ensures extra == 0 || Split(|leaves|) <= i
  {
    var k, last := Split(|leaves|), |sides| - 1;
    if extra > 0 && i < k {
      TopStep(sides, leaf, proof, MerkleTreeHash(leaves[..k]), MerkleTreeHash(leaves[k..]));
      TooLongForTheRight(sides[..last], i, leaf, proof[..last], leaves);
      assert false;
    }
  }

  /** A climb to the hash of a tree of several leaves is, without its last step, a climb in the half that holds leaf i. */
  lemma {:induction false} OneStepDown(i: nat, sides: seq<Side>, leaf: Digest, proof: seq<Digest>, extra: nat, leaves: seq<Digest>)
    returns (j: nat, half: seq<Digest>, sibling: Digest)
    requires i < |leaves| && |leaves| > 1 && AllLeafHashes(leaves)
    requires sides == Sides(i, |leaves| - 1) + Rights(extra) && |proof| == |sides|
    requires Climb(sides, leaf, proof) == MerkleTreeHash(leaves)
    ensures 0 < |half| < |leaves| && j < |half| && half[j] == leaves[i] && AllLeafHashes(half)
    ensures InclusionPath(i, leaves) == InclusionPath(j, half) + [sibling]
    ensures
      sides != [] &&
      var last := |sides| - 1;
      sides[..last] == Sides(j, |half| - 1) + Rights(extra) && proof[last] == sibling &&
      Climb(sides[..last], leaf, proof[..last]) == MerkleTreeHash(half)
  {
    var k, last := Split(|leaves|), |sides| - 1;
    var side;
    j, side, half, sibling := PathFromTheTop(i, leaves);
    TopStep(sides, leaf, proof, MerkleTreeHash(leaves[..k]), MerkleTreeHash(leaves[k..]));
    SurplusIsOnTheRight(i, sides, leaf, proof, extra, leaves);
    CutLastSide(Sides(j, |half| - 1), side, extra);
  }

  lemma NothingClimbsFromOneLeaf(sides: seq<Side>, leaf: Digest, proof: seq<Digest>, extra: nat, leaves: seq<Digest>)
    requires |leaves| == 1 && AllLeafHashes(leaves) && IsLeafHash(leaf)
    requires sides == Sides(0, 0) + Rights(extra) && |proof| == |sides|
    requires Climb(sides, leaf, proof) == MerkleTreeHash(leaves)
    ensures extra == 0 && leaf == leaves[0] && proof == InclusionPath(0, leaves)
  {
    if sides != [] {
      ClimbLeavesTheLeaves(sides, leaf, proof);
    }
  }

  /** Soundness: only the true leaf with its own audit path climbs to the root; no longer proof does. */
  lemma {:induction false} OnlyThePathClimbs(i: nat, sides: seq<Side>, leaf: Digest, proof: seq<Digest>, extra: nat, leaves: seq<Digest>)
    requires i < |leaves| && AllLeafHashes(leaves) && IsLeafHash(leaf)
    requires sides == Sides(i, |leaves| - 1) + Rights(extra) && |proof| == |sides|
    requires Climb(sides, leaf, proof) == MerkleTreeHash(leaves)
    ensures extra == 0 && leaf == leaves[i] && proof == InclusionPath(i, leaves)
    decreases |leaves|
  {
    if |leaves| == 1 {
      NothingClimbsFromOneLeaf(sides, leaf, proof, extra, leaves);
    } else {
      var last := |proof| - 1;
      var j, half, sibling := OneStepDown(i, sides, leaf, proof, extra, leaves);
      OnlyThePathClimbs(j, sides[..last], leaf, proof[..last], extra, half);
      InitAndLast(proof);
    }
  }

  /** The inclusion check accepts exactly the leaf at that index with its audit path, for any proof length. */
  lemma {:induction false} InclusionIsExact(i: int, leaf: Digest, proof: seq<Digest>, leaves: seq<Digest>)
    requires AllLeafHashes(leaves) && IsLeafHash(leaf)
    ensures Root(i, |leaves|, leaf, proof) == Some(MerkleTreeHash(leaves)) <==>
            0 <= i < |leaves| && leaf == leaves[i] && proof == InclusionPath(i, leaves)
  {
    if 0 <= i < |leaves| {
      var sides := Sides(i, |leaves| - 1);
      PathClimbsToRoot(i, sides, leaves);
      assert sides + Rights(0) == sides;
      if Root(i, |leaves|, leaf, proof) == Some(MerkleTreeHash(leaves)) {
        OnlyThePathClimbs(i, sides + Rights(|proof| - |sides|), leaf, proof, |proof| - |sides|, leaves);
      }
    }
  }

  /**
   Two different leaf lists of one size never share a root: the tree hash binds every leaf.
   */
  lemma {:induction false} RootBindsLeaves(a: seq<Digest>, b: seq<Digest>)
    requires AllLeafHashes(a) && AllLeafHashes(b) && |a| == |b|
    requires MerkleTreeHash(a) == MerkleTreeHash(b)
    ensures a == b
  {
    forall i | 0 <= i < |a| ensures a[i] == b[i] {
      InclusionIsExact(i, a[i], InclusionPath(i, a), a);
      InclusionIsExact(i, a[i], InclusionPath(i, a), b);
    }
  }

  // ---------- the tree hash as the standard defines it ----------

  function LeafHashes(payloads: seq<Digest>): seq<Digest> {
    seq(|payloads|, i requires 0 <= i < |payloads| => LeafHash(payloads[i]))
  }

  /** The power of two below n. */
  ghost predicate SplitsAt(n: nat, k: nat) {
    0 < k < n <= 2 * k && IsPowerOfTwo(k)
  }

  /**
   Section 2.1 of RFC 6962: the hash of no entry is that of nothing, of one entry that of the byte 0 and
   the entry, and of several that of the byte 1, the tree of the first k and the tree of the others.
   */
  ghost function StandardHash(payloads: seq<Digest>): Digest
    decreases |payloads|
  {
    if |payloads| == 0 then Sha256([])
    else if |payloads| == 1 then Sha256([Byte(0), Raw(payloads[0])])
    else
      assert SplitsAt(|payloads|, Split(|payloads|));
      var k: nat :| SplitsAt(|payloads|, k);
      Sha256([Byte(1), Raw(StandardHash(payloads[..k])), Raw(StandardHash(payloads[k..]))])
  }

  /** The tree hash is the one of the standard. */
  lemma {:induction false} TreeHashIsStandard(payloads: seq<Digest>)
    ensures MerkleTreeHash(LeafHashes(payloads)) == StandardHash(payloads)
    decreases |payloads|
  {
    if |payloads| > 1 {
      var k := Split(|payloads|);
      forall j: nat | SplitsAt(|payloads|, j) ensures j == k {
        PowerBelowIsUnique(j, k, |payloads|);
      }
      assert SplitsAt(|payloads|, k);
      assert LeafHashes(payloads)[..k] == LeafHashes(payloads[..k]) && LeafHashes(payloads)[k..] == LeafHashes(payloads[k..]);
      TreeHashIsStandard(payloads[..k]);
      TreeHashIsStandard(payloads[k..]);
    }
  }
}
