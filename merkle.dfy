/**
 * The Merkle layout shared by every component: 32-byte digests, the two hash shapes
 * (leaf and parent), the flat-array index walk (node 1 is the root, node i has children
 * 2i and 2i+1) and the proof fold the on-chain program replays.
 *
 * SHA-256 is not modelled: every operation that hashes takes the hash function `H` as a
 * parameter, so every result below holds for any hash function. The few that need
 * collision freedom ask for it only on the finitely many byte strings the proof at hand
 * hashes (`CollisionFreeOn`): no hash onto 32 bytes is collision-free everywhere.
 */
module Merkle {
  import opened Wrappers
  import opened Encoding

  type Digest = d: seq<Byte> | |d| == 32 witness seq(32, _ => 0)

  /** A hash function onto 32-byte digests (SHA-256 in the source). */
  type Hasher = seq<Byte> -> Digest

  /** The all-zero digest: the padding leaf and the unused slot 0 of a tree. */
  const ZERO: Digest := ZeroBytes(32)

  function ZeroBytes(n: nat): (r: seq<Byte>)
    ensures |r| == n
    ensures forall i :: 0 <= i < n ==> r[i] == 0
  {
    seq(n, _ => 0)
  }

  /** Parent of two nodes: the hash of left ++ right. */
  function HashChildren(H: Hasher, left: Digest, right: Digest): Digest
  {
    H(left + right)
  }

  /** The bytes a leaf hashes: the address's UTF-8 bytes ++ the 8-byte little-endian amount. */
  function LeafInput(address: string, amount: U64): seq<Byte>
  {
    Utf8(address) + U64Le(amount)
  }

  /**
   * For an ASCII address (base58 text is ASCII), the leaf input is the address's
   * character codes, one byte each, followed by the 8 amount bytes.
   */
  lemma LeafInputOfAscii(address: string, amount: U64)
    requires IsAscii(address)
    ensures |LeafInput(address, amount)| == |address| + 8
    ensures forall i :: 0 <= i < |address| ==> LeafInput(address, amount)[i] == address[i] as int
    ensures LeafInput(address, amount)[|address|..] == U64Le(amount)
  {
    Utf8OfAscii(address);
  }

  /** Leaf of a claim. */
  function LeafHash(H: Hasher, address: string, amount: U64): Digest
  {
    H(LeafInput(address, amount))
  }

  /** `H` has no collision between a string of `xs` and a string of `ys`. */
  predicate CollisionFreeOn(H: Hasher, xs: seq<seq<Byte>>, ys: seq<seq<Byte>>)
  {
    forall x, y :: x in xs && y in ys && H(x) == H(y) ==> x == y
  }

  /** Collision freedom on two lists gives it on their heads and on their tails. */
  lemma CollisionFreeOnParts(H: Hasher, x: seq<Byte>, xs: seq<seq<Byte>>, y: seq<Byte>, ys: seq<seq<Byte>>)
    requires CollisionFreeOn(H, [x] + xs, [y] + ys)
    ensures H(x) == H(y) ==> x == y
    ensures CollisionFreeOn(H, xs, ys)
  {
    assert x in [x] + xs && y in [y] + ys;
    forall u, v | u in xs && v in ys && H(u) == H(v)
      ensures u == v
    {
      assert u in [x] + xs && v in [y] + ys;
    }
  }

  /** One address with two amounts gives two different leaf inputs, whatever the hash. */
  lemma LeafInputAmountSensitive(address: string, x: U64, y: U64)
    requires x != y
    ensures LeafInput(address, x) != LeafInput(address, y)
  {
    if LeafInput(address, x) == LeafInput(address, y) {
      var a, b := LeafInput(address, x), LeafInput(address, y);
      assert a[|Utf8(address)|..] == U64Le(x);
      assert b[|Utf8(address)|..] == U64Le(y);
      U64LeInjective(x, y);
    }
  }

  /** Unless `H` collides on those two inputs, distinct amounts for one address give distinct leaves. */
  lemma LeafHashAmountSensitive(H: Hasher, address: string, x: U64, y: U64)
    requires x != y
    requires CollisionFreeOn(H, [LeafInput(address, x)], [LeafInput(address, y)])
    ensures LeafHash(H, address, x) != LeafHash(H, address, y)
  {
    LeafInputAmountSensitive(address, x, y);
    assert LeafInput(address, x) in [LeafInput(address, x)];
    assert LeafInput(address, y) in [LeafInput(address, y)];
  }

  // ---------------------------------------------------------------------------
  // Powers of two

  function Pow2(k: nat): (r: nat)
    ensures r >= 1
  {
    if k == 0 then 1 else 2 * Pow2(k - 1)
  }

  lemma {:induction false} Pow2Monotone(a: nat, b: nat)
    requires a <= b
    ensures Pow2(a) <= Pow2(b)
  {
    if a < b {
      Pow2Monotone(a, b - 1);
    }
  }

  /** The least p with 2^p >= n, by halving. */
  function CeilLog2(n: nat): nat
  {
    if n <= 1 then 0 else 1 + CeilLog2((n + 1) / 2)
  }

  lemma {:induction false} CeilLog2Bounds(n: nat)
    ensures Pow2(CeilLog2(n)) >= n
    ensures CeilLog2(n) > 0 ==> Pow2(CeilLog2(n) - 1) < n
  {
    if n > 1 {
      CeilLog2Bounds((n + 1) / 2);
    }
  }

  /** 2^p >= n and 2^(p-1) < n pin p down to CeilLog2(n). */
  lemma CeilLog2Unique(n: nat, p: nat)
    requires Pow2(p) >= n
    requires p > 0 ==> Pow2(p - 1) < n
    ensures p == CeilLog2(n)
  {
    var c := CeilLog2(n);
    CeilLog2Bounds(n);
    if p < c {
      Pow2Monotone(p, c - 1);
    } else if p > c {
      Pow2Monotone(c, p - 1);
    }
  }

  lemma {:induction false} CeilLog2Least(n: nat, q: nat)
    requires Pow2(q) >= n
    ensures CeilLog2(n) <= q
  {
    CeilLog2Bounds(n);
    if CeilLog2(n) > q {
      Pow2Monotone(q, CeilLog2(n) - 1);
    }
  }

  // ---------------------------------------------------------------------------
  // The index walk from a node up to the root

  /** The other child of the same parent: index+1 for an even index, index-1 for an odd one. */
  function Sibling(i: nat): nat
  {
    if i % 2 == 0 then i + 1 else i - 1
  }

  /** The sibling visited at each step while the index is above 1, then halved. */
  function SiblingIndices(i: nat): (r: seq<nat>)
    ensures i <= 1 <==> r == []
  {
    if i <= 1 then [] else [Sibling(i)] + SiblingIndices(i / 2)
  }

  /** A node on level p (2^p <= i < 2^(p+1)) is p steps below the root. */
  lemma {:induction false} WalkLength(i: nat, p: nat)
    requires Pow2(p) <= i < 2 * Pow2(p)
    ensures |SiblingIndices(i)| == p
  {
    if p > 0 {
      WalkLength(i / 2, p - 1);
    }
  }

  predicate AllBelow(idx: seq<nat>, n: nat)
  {
    forall k :: 0 <= k < |idx| ==> idx[k] < n
  }

  /** From a slot of an even-sized array every sibling on the way up is a slot too. */
  lemma {:induction false} WalkInRange(i: nat, n: nat)
    requires i < n && n % 2 == 0
    ensures AllBelow(SiblingIndices(i), n)
  {
    if i > 1 {
      WalkInRange(i / 2, n);
    }
  }

  /** The elements of t at the given indices, all of which are in range. */
  function Pick<T>(t: seq<T>, idx: seq<nat>): (r: seq<T>)
    requires AllBelow(idx, |t|)
    ensures |r| == |idx|
  {
    seq(|idx|, k requires 0 <= k < |idx| => t[idx[k]])
  }

  /** One more step of a walk: the sibling of `index` joins the indices walked so far. */
  lemma WalkStep(walked: seq<nat>, index: nat)
    requires index > 1
    ensures walked + SiblingIndices(index) == (walked + [Sibling(index)]) + SiblingIndices(index / 2)
    ensures (walked + SiblingIndices(index))[|walked|] == Sibling(index)
  {
    assert SiblingIndices(index) == [Sibling(index)] + SiblingIndices(index / 2);
  }

  /** Picking one more index appends one more element. */
  lemma PickAppend<T>(t: seq<T>, idx: seq<nat>, i: nat)
    requires AllBelow(idx, |t|) && i < |t|
    ensures AllBelow(idx + [i], |t|)
    ensures Pick(t, idx + [i]) == Pick(t, idx) + [t[i]]
  {
  }

  /** The elements of t at the given indices, skipping indices past the end of t. */
  function PickInRange<T>(t: seq<T>, idx: seq<nat>): (r: seq<T>)
    ensures |r| <= |idx|
  {
    if idx == [] then []
    else PickInRange(t, idx[..|idx| - 1]) + (if idx[|idx| - 1] < |t| then [t[idx[|idx| - 1]]] else [])
  }

  /** The elements of t at the given indices, `None` (JavaScript's `undefined`) past the end of t. */
  function PickOrUndefined<T>(t: seq<T>, idx: seq<nat>): (r: seq<Option<T>>)
    ensures |r| == |idx|
  {
    seq(|idx|, k requires 0 <= k < |idx| => if idx[k] < |t| then Some(t[idx[k]]) else None)
  }

  /** When every index is in range, skipping out-of-range indices skips nothing. */
  lemma {:induction false} PickInRangeAll<T>(t: seq<T>, idx: seq<nat>)
    requires AllBelow(idx, |t|)
    ensures PickInRange(t, idx) == Pick(t, idx)
  {
    if idx != [] {
      var init := idx[..|idx| - 1];
      assert AllBelow(init, |t|);
      PickInRangeAll(t, init);
    }
  }

  /** Skipped indices are exactly the out-of-range ones: the result has one entry per in-range index. */
  lemma {:induction false} PickInRangeShorter<T>(t: seq<T>, idx: seq<nat>)
    requires !AllBelow(idx, |t|)
    ensures |PickInRange(t, idx)| < |idx|
  {
    var init := idx[..|idx| - 1];
    if idx[|idx| - 1] < |t| {
      assert !AllBelow(init, |t|);
      PickInRangeShorter(t, init);
    }
  }

  /** A list with every entry present. */
  function Defined<T>(s: seq<T>): (r: seq<Option<T>>)
  {
    seq(|s|, k requires 0 <= k < |s| => Some(s[k]))
  }

  /** With every index in range, reading without a bounds check finds every entry: the entries are the skipping read's, all present. */
  lemma PickOrUndefinedInRange<T>(t: seq<T>, idx: seq<nat>)
    requires AllBelow(idx, |t|)
    ensures PickOrUndefined(t, idx) == Defined(PickInRange(t, idx))
  {
    PickInRangeAll(t, idx);
  }

  // ---------------------------------------------------------------------------
  // The proof fold

  /** The bytes one step hashes: an even index puts the current digest on the left, an odd one on the right. */
  function StepInput(current: Digest, index: nat, sibling: Digest): seq<Byte>
  {
    if index % 2 == 0 then current + sibling else sibling + current
  }

  function FoldStep(H: Hasher, current: Digest, index: nat, sibling: Digest): Digest
  {
    H(StepInput(current, index, sibling))
  }

  /** Replays a proof from `current` at `index`, halving the index after every entry. */
  function Fold(H: Hasher, current: Digest, index: nat, proof: seq<Digest>): Digest
    decreases |proof|
  {
    if proof == [] then current else Fold(H, FoldStep(H, current, index, proof[0]), index / 2, proof[1..])
  }

  /** The byte strings a fold hashes, step by step. */
  function FoldInputs(H: Hasher, current: Digest, index: nat, proof: seq<Digest>): (r: seq<seq<Byte>>)
    ensures |r| == |proof|
    decreases |proof|
  {
    if proof == [] then []
    else [StepInput(current, index, proof[0])] + FoldInputs(H, FoldStep(H, current, index, proof[0]), index / 2, proof[1..])
  }

  /** Slot i holds the hash of its children, slots 2i and 2i+1. */
  predicate ParentHashesChildren(H: Hasher, t: seq<Digest>, i: nat)
    requires 1 <= i && 2 * i + 1 < |t|
  {
    t[i] == HashChildren(H, t[2 * i], t[2 * i + 1])
  }

  /** Every parent slot below |t|/2 holds the hash of its two children. */
  predicate ParentsHashChildren(H: Hasher, t: seq<Digest>)
  {
    forall i: nat :: 1 <= i < |t| && 2 * i + 1 < |t| ==> ParentHashesChildren(H, t, i)
  }

  /**
   * Completeness: in a tree whose parents hash their children, folding any node with the
   * siblings on its way up reproduces the root, node 1.
   */
  lemma {:induction false} FoldReachesRoot(H: Hasher, t: seq<Digest>, j: nat)
    requires |t| % 2 == 0 && 1 <= j < |t|
    requires ParentsHashChildren(H, t)
    ensures AllBelow(SiblingIndices(j), |t|)
    ensures Fold(H, t[j], j, Pick(t, SiblingIndices(j))) == t[1]
  {
    WalkInRange(j, |t|);
    if j > 1 {
      var q := j / 2;
      WalkInRange(q, |t|);
      var proof := Pick(t, SiblingIndices(j));
      assert proof[0] == t[Sibling(j)];
      assert proof[1..] == Pick(t, SiblingIndices(q));
      assert ParentHashesChildren(H, t, q);
      assert FoldStep(H, t[j], j, proof[0]) == t[q];
      FoldReachesRoot(H, t, q);
    }
  }

  /**
   * Tamper sensitivity: two folds of equal-length proofs from the same index that reach the
   * same digest started from the same digest with the same proof, unless `H` collides
   * between a string one fold hashes and a string the other hashes.
   */
  lemma {:induction false} FoldInjective(H: Hasher, a: Digest, b: Digest, index: nat, p: seq<Digest>, q: seq<Digest>)
    requires |p| == |q|
    requires CollisionFreeOn(H, FoldInputs(H, a, index, p), FoldInputs(H, b, index, q))
    requires Fold(H, a, index, p) == Fold(H, b, index, q)
    ensures a == b && p == q
    decreases |p|
  {
    if p != [] {
      var x, y := StepInput(a, index, p[0]), StepInput(b, index, q[0]);
      CollisionFreeOnParts(H, x, FoldInputs(H, H(x), index / 2, p[1..]), y, FoldInputs(H, H(y), index / 2, q[1..]));
      FoldInjective(H, H(x), H(y), index / 2, p[1..], q[1..]);
      assert x == y;
      if index % 2 == 0 {
        assert a == x[..32] && b == y[..32];
        assert p[0] == x[32..] && q[0] == y[32..];
      } else {
        assert p[0] == x[..32] && q[0] == y[..32];
        assert a == x[32..] && b == y[32..];
      }
      assert p == [p[0]] + p[1..] && q == [q[0]] + q[1..];
    }
  }

  /**
   * A proof binds its leaf: in any even-sized tree whose parents hash their children (a tree
   * `construct_merkle_tree` builds is one), a leaf and a proof as long as the walk from slot j
   * that fold to the root are the digest stored at j and the siblings `create_proof` picks,
   * unless `H` collides between what this fold hashes and what the fold of the stored path hashes.
   */
  lemma ProofBindsLeaf(H: Hasher, t: seq<Digest>, j: nat, leaf: Digest, proof: seq<Digest>)
    requires |t| % 2 == 0 && ParentsHashChildren(H, t)
    requires 1 <= j < |t|
    requires |proof| == |SiblingIndices(j)|
    requires CollisionFreeOn(H, FoldInputs(H, leaf, j, proof), FoldInputs(H, t[j], j, PickInRange(t, SiblingIndices(j))))
    requires Fold(H, leaf, j, proof) == t[1]
    ensures AllBelow(SiblingIndices(j), |t|)
    ensures leaf == t[j] && proof == Pick(t, SiblingIndices(j))
  {
    FoldReachesRoot(H, t, j);
    PickInRangeAll(t, SiblingIndices(j));
    FoldInjective(H, leaf, t[j], j, proof, Pick(t, SiblingIndices(j)));
  }

  /** The byte strings a claim hashes: its leaf input, then the inputs of its fold. */
  function ClaimInputs(H: Hasher, address: string, amount: U64, index: nat, proof: seq<Digest>): seq<seq<Byte>>
  {
    [LeafInput(address, amount)] + FoldInputs(H, LeafHash(H, address, amount), index, proof)
  }

  /**
   * A proof that verifies an address with one amount does not verify it with another,
   * unless `H` collides between what the two claims hash.
   */
  lemma WrongAmountFails(H: Hasher, address: string, amount: U64, wrong: U64, index: nat, proof: seq<Digest>, root: Digest)
    requires amount != wrong
    requires CollisionFreeOn(H, ClaimInputs(H, address, amount, index, proof), ClaimInputs(H, address, wrong, index, proof))
    requires Fold(H, LeafHash(H, address, amount), index, proof) == root
    ensures Fold(H, LeafHash(H, address, wrong), index, proof) != root
  {
    var x, y := LeafInput(address, amount), LeafInput(address, wrong);
    CollisionFreeOnParts(H, x, FoldInputs(H, H(x), index, proof), y, FoldInputs(H, H(y), index, proof));
    LeafInputAmountSensitive(address, amount, wrong);
    if Fold(H, LeafHash(H, address, wrong), index, proof) == root {
      FoldInjective(H, H(x), H(y), index, proof, proof);
    }
  }
}
