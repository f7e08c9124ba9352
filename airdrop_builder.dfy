/**
 * The off-chain builder (`cli/src/instructions/create_airdrop.rs`): CSV rows become leaves,
 * leaves become a flat Merkle tree padded to a power of two with the all-zero digest, and
 * every address gets a claim entry with its amount text and leaf slot.
 */
module AirdropBuilder {
  import opened Wrappers
  import opened Encoding
  import opened Merkle

  /** One entry of the `claims` map: the amount as written in the CSV and the tree slot of the leaf. */
  datatype ClaimEntry = ClaimEntry(amount: string, leafIndex: nat)

  /** What `airdrop.json` holds. */
  datatype AirdropData = AirdropData(merkleRoot: Digest, merkleTree: seq<Digest>, claims: map<string, ClaimEntry>)

  datatype CsvError = UnequalLengths(expected: nat, found: nat) | MissingAddress | MissingAmount | InvalidAmount(text: string) | NoRows

  /** A CSV record that parsed: the address, the amount text and its `u64` value. */
  datatype Row = Row(address: string, amountText: string, amount: U64)

  /** The leaves, addresses and amount texts that `parse_airdrop_csv` returns, row by row. */
  datatype ParsedCsv = ParsedCsv(leaves: seq<Digest>, addresses: seq<string>, amounts: seq<string>)

  // ---------------------------------------------------------------------------
  // Tree construction

  /**
   * The tree `construct_merkle_tree` lays out for `leaves`: with n = 2^p the least power of
   * two that holds them, 2n slots; slot 0 all-zero; slots n .. 2n-1 the leaves in order and
   * then all-zero padding; every slot 1 <= i < n the hash of slots 2i and 2i+1.
   */
  predicate IsMerkleTree(H: Hasher, leaves: seq<Digest>, t: seq<Digest>)
  {
    && |t| == 2 * LeafSlots(|leaves|)
    && t[0] == ZERO
    && (forall i :: LeafSlots(|leaves|) <= i < |t| ==> t[i] == PaddedLeaf(leaves, i - LeafSlots(|leaves|)))
    && ParentsHashChildren(H, t)
  }

  /** The number of leaf slots of the tree for `count` leaves: the least power of two >= count. */
  function LeafSlots(count: nat): (n: nat)
    ensures count <= n
  {
    CeilLog2Bounds(count);
    Pow2(CeilLog2(count))
  }

  /** Leaf slot k after padding: the k-th leaf, or the all-zero digest past the last one. */
  function PaddedLeaf(leaves: seq<Digest>, k: nat): Digest
  {
    if k < |leaves| then leaves[k] else ZERO
  }

  /** `min_power_of_2`: the least power p with 2^p >= numLeaves. */
  method MinPowerOf2(numLeaves: nat) returns (power: nat)
    ensures Pow2(power) >= numLeaves
    ensures forall q: nat :: Pow2(q) >= numLeaves ==> power <= q
    ensures power == CeilLog2(numLeaves)
  {
    var num := 1;
    power := 0;
    while num < numLeaves
      invariant num == Pow2(power)
      invariant power > 0 ==> Pow2(power - 1) < numLeaves
      decreases numLeaves - num
    {
      num := num * 2;
      power := power + 1;
    }
    CeilLog2Unique(numLeaves, power);
    forall q: nat | Pow2(q) >= numLeaves
      ensures power <= q
    {
      CeilLog2Least(numLeaves, q);
    }
  }

  /** `construct_merkle_tree`: pads the leaves, stores them in the bottom row and hashes upwards. */
  method ConstructMerkleTree(H: Hasher, leaves: seq<Digest>) returns (tree: seq<Digest>)
    ensures IsMerkleTree(H, leaves, tree)
  {
    var power := MinPowerOf2(|leaves|);
    var treeLevels := power + 1;
    var treeLeafNodes := Pow2(power);
    var nodes := new Digest[Pow2(treeLevels)](_ => ZERO);
    assert nodes.Length == 2 * treeLeafNodes;

    var padded := leaves;
    while |padded| < treeLeafNodes
      invariant |leaves| <= |padded| <= treeLeafNodes
      invariant forall k :: 0 <= k < |padded| ==> padded[k] == PaddedLeaf(leaves, k)
    {
      padded := padded + [ZERO];
    }

    ghost var t := nodes[..];
    for i := 0 to treeLeafNodes
      invariant nodes[..] == t && |t| == 2 * treeLeafNodes
      invariant t[0] == ZERO
      invariant t[treeLeafNodes..treeLeafNodes + i] == padded[..i]
    {
      nodes[i + treeLeafNodes] := padded[i];
      CopyOneLeaf(t, padded, treeLeafNodes, i);
      t := t[i + treeLeafNodes := padded[i]];
    }
    assert padded[..treeLeafNodes] == padded;
    var i := treeLeafNodes - 1;
    while i >= 1
      invariant 0 <= i < treeLeafNodes
      invariant nodes[..] == t && |t| == 2 * treeLeafNodes
      invariant t[0] == ZERO
      invariant t[treeLeafNodes..] == padded
      invariant ParentsHashChildrenAbove(H, t, i, treeLeafNodes)
    {
      var parent := HashChildren(H, nodes[i * 2], nodes[i * 2 + 1]);
      assert parent == HashChildren(H, t[2 * i], t[2 * i + 1]);
      nodes[i] := parent;
      HashOneParent(H, t, i, treeLeafNodes);
      t := t[i := parent];
      i := i - 1;
    }
    tree := nodes[..];
    FilledTreeIsMerkleTree(H, leaves, padded, t);
  }

  /** The state the upward pass ends in is the tree `IsMerkleTree` describes. */
  lemma FilledTreeIsMerkleTree(H: Hasher, leaves: seq<Digest>, padded: seq<Digest>, t: seq<Digest>)
    requires |padded| == LeafSlots(|leaves|) && |t| == 2 * |padded|
    requires forall k :: 0 <= k < |padded| ==> padded[k] == PaddedLeaf(leaves, k)
    requires t[0] == ZERO
    requires t[|padded|..] == padded
    requires ParentsHashChildrenAbove(H, t, 0, |padded|)
    ensures IsMerkleTree(H, leaves, t)
  {
    var n := |padded|;
    forall i | n <= i < |t|
      ensures t[i] == PaddedLeaf(leaves, i - n)
    {
      assert t[i] == t[n..][i - n];
    }
    forall i: nat | 1 <= i < |t| && 2 * i + 1 < |t|
      ensures ParentHashesChildren(H, t, i)
    {
      assert 0 < i < n;
    }
  }

  /** Slots i+1 .. n-1 of a 2n-slot tree hash their children. */
  predicate ParentsHashChildrenAbove(H: Hasher, t: seq<Digest>, i: nat, n: nat)
    requires |t| == 2 * n
  {
    forall k: nat :: i < k < n ==> ParentHashesChildren(H, t, k)
  }

  /** Copying leaf i into slot n + i extends the copied part of the bottom row and keeps slot 0. */
  lemma CopyOneLeaf(t: seq<Digest>, padded: seq<Digest>, n: nat, i: nat)
    requires |t| == 2 * n && i < n == |padded|
    requires t[n..n + i] == padded[..i]
    ensures t[n + i := padded[i]][n..n + i + 1] == padded[..i + 1]
    ensures t[n + i := padded[i]][0] == t[0]
  {
    assert padded[..i + 1] == padded[..i] + [padded[i]];
  }

  /**
   * Filling slot i from its children keeps the slots above it consistent and leaves slot 0
   * and the bottom row alone.
   */
  lemma HashOneParent(H: Hasher, t: seq<Digest>, i: nat, n: nat)
    requires |t| == 2 * n && 1 <= i < n
    requires ParentsHashChildrenAbove(H, t, i, n)
    ensures ParentsHashChildrenAbove(H, t[i := HashChildren(H, t[2 * i], t[2 * i + 1])], i - 1, n)
    ensures t[i := HashChildren(H, t[2 * i], t[2 * i + 1])][n..] == t[n..]
    ensures t[i := HashChildren(H, t[2 * i], t[2 * i + 1])][0] == t[0]
  {
    var u := t[i := HashChildren(H, t[2 * i], t[2 * i + 1])];
    forall k: nat | i - 1 < k < n
      ensures ParentHashesChildren(H, u, k)
    {
      if k > i {
        assert ParentHashesChildren(H, t, k);
      }
    }
  }

  /** The tree is a function of the leaves: two trees built from the same leaves are equal. */
  lemma MerkleTreeDeterministic(H: Hasher, leaves: seq<Digest>, t1: seq<Digest>, t2: seq<Digest>)
    requires IsMerkleTree(H, leaves, t1) && IsMerkleTree(H, leaves, t2)
    ensures t1 == t2
  {
    AgreeFrom(H, leaves, t1, t2, 1);
    assert t1[0] == t2[0];
  }

  lemma {:induction false} AgreeFrom(H: Hasher, leaves: seq<Digest>, t1: seq<Digest>, t2: seq<Digest>, k: nat)
    requires IsMerkleTree(H, leaves, t1) && IsMerkleTree(H, leaves, t2)
    requires 1 <= k <= |t1| / 2
    ensures forall i :: k <= i < |t1| ==> t1[i] == t2[i]
    decreases |t1| - k
  {
    if k < |t1| / 2 {
      AgreeFrom(H, leaves, t1, t2, k + 1);
      assert ParentHashesChildren(H, t1, k) && ParentHashesChildren(H, t2, k);
    }
  }

  // ---------------------------------------------------------------------------
  // Proofs from the tree

  /**
   * `create_proof`: the sibling of every node on the way from `leafIndex` up to the root.
   * `None` stands for the out-of-bounds panic of `tree[sibling_index]`.
   */
  method CreateProof(tree: seq<Digest>, leafIndex: nat) returns (r: Option<seq<Digest>>)
    ensures r.Some? <==> AllBelow(SiblingIndices(leafIndex), |tree|)
    ensures r.Some? ==> r.value == Pick(tree, SiblingIndices(leafIndex))
  {
    var proof: seq<Digest> := [];
    var index := leafIndex;
    ghost var walked: seq<nat> := [];
    while index > 1
      invariant SiblingIndices(leafIndex) == walked + SiblingIndices(index)
      invariant AllBelow(walked, |tree|)
      invariant proof == Pick(tree, walked)
      decreases index
    {
      var siblingIndex: nat := if index % 2 == 0 then index + 1 else index - 1;
      WalkStep(walked, index);
      if siblingIndex >= |tree| {
        return None;
      }
      proof := proof + [tree[siblingIndex]];
      PickAppend(tree, walked, siblingIndex);
      walked := walked + [siblingIndex];
      index := index / 2;
    }
    return Some(proof);
  }

  /** The k-th ancestor of node j: j halved k times. */
  function Ancestor(j: nat, k: nat): nat
  {
    if k == 0 then j else Ancestor(j / 2, k - 1)
  }

  /** Entry k of the walk from j is the sibling of j's k-th ancestor. */
  lemma {:induction false} SiblingOfAncestor(j: nat, k: nat)
    requires k < |SiblingIndices(j)|
    ensures SiblingIndices(j)[k] == Sibling(Ancestor(j, k))
  {
    if k > 0 {
      SiblingOfAncestor(j / 2, k - 1);
    }
  }

  /**
   * A leaf's proof: for leaf k of a tree built by `construct_merkle_tree`, the walk from its
   * slot |t|/2 + k stays inside the tree, has exactly `min_power_of_2` steps, and folding the
   * leaf with the siblings it picks reproduces the root, slot 1.
   */
  lemma LeafProofReachesRoot(H: Hasher, leaves: seq<Digest>, t: seq<Digest>, k: nat)
    requires IsMerkleTree(H, leaves, t)
    requires k < |leaves|
    ensures |t| / 2 + k < |t|
    ensures AllBelow(SiblingIndices(|t| / 2 + k), |t|)
    ensures |SiblingIndices(|t| / 2 + k)| == CeilLog2(|leaves|)
    ensures Fold(H, leaves[k], |t| / 2 + k, Pick(t, SiblingIndices(|t| / 2 + k))) == t[1]
  {
    var j := |t| / 2 + k;
    assert t[j] == leaves[k];
    LeafWalk(H, t, j, CeilLog2(|leaves|));
  }

  /** The walk from a bottom-row slot of a tree with 2^p leaf slots. */
  lemma LeafWalk(H: Hasher, t: seq<Digest>, j: nat, p: nat)
    requires |t| == 2 * Pow2(p) && Pow2(p) <= j < |t|
    requires ParentsHashChildren(H, t)
    ensures AllBelow(SiblingIndices(j), |t|)
    ensures |SiblingIndices(j)| == p
    ensures Fold(H, t[j], j, Pick(t, SiblingIndices(j))) == t[1]
  {
    FoldReachesRoot(H, t, j);
    WalkLength(j, p);
  }

  // ---------------------------------------------------------------------------
  // CSV rows to leaves

  /**
   * One CSV record after the header: the reader refuses a record with another number of
   * fields than the header; then field 0 is the address and field 1 the amount.
   */
  function RecordRow(header: seq<string>, record: seq<string>): Result<Row, CsvError>
  {
    if |record| != |header| then Err(UnequalLengths(|header|, |record|))
    else if |record| < 1 then Err(MissingAddress)
    else if |record| < 2 then Err(MissingAmount)
    else match ParseU64(record[1])
      case None => Err(InvalidAmount(record[1]))
      case Some(v) => Ok(Row(record[0], record[1], v))
  }

  predicate AllRowsParse(header: seq<string>, records: seq<seq<string>>)
  {
    forall i :: 0 <= i < |records| ==> RecordRow(header, records[i]).Ok?
  }

  /** Record i is the first one that fails. */
  predicate FirstFailureAt(header: seq<string>, records: seq<seq<string>>, i: nat)
  {
    && i < |records|
    && RecordRow(header, records[i]).Err?
    && forall j :: 0 <= j < i ==> RecordRow(header, records[j]).Ok?
  }

  /** Row by row, `p` holds the address and amount text of each record. */
  predicate ParsedFrom(records: seq<seq<string>>, p: ParsedCsv)
  {
    && |p.addresses| == |records| && |p.amounts| == |records|
    && forall i :: 0 <= i < |records| ==>
      |records[i]| >= 2 && p.addresses[i] == records[i][0] && p.amounts[i] == records[i][1]
  }

  /** Leaf i is H(address i ++ amount i as 8 little-endian bytes), and every amount text parses. */
  predicate LeavesOfRows(H: Hasher, p: ParsedCsv)
  {
    && |p.leaves| == |p.addresses| == |p.amounts|
    && forall i :: 0 <= i < |p.leaves| ==>
      ParseU64(p.amounts[i]).Some? && p.leaves[i] == LeafHash(H, p.addresses[i], ParseU64(p.amounts[i]).value)
  }

  /**
   * `parse_airdrop_csv`: `header` is the first record, which the reader takes as the header.
   * Every later record becomes a leaf H(address ++ amount as 8 little-endian bytes), its
   * address and its amount text, in order. The first bad record stops the parse with its
   * error (the reader's own field-count error first), and no records at all is an error of its own.
   */
  method ParseAirdropCsv(H: Hasher, header: seq<string>, records: seq<seq<string>>) returns (r: Result<ParsedCsv, CsvError>)
    ensures r.Ok? <==> |records| > 0 && AllRowsParse(header, records)
    ensures r.Ok? ==> ParsedFrom(records, r.value) && LeavesOfRows(H, r.value)
    ensures r.Err? && |records| == 0 ==> r.error == NoRows
    ensures r.Err? && |records| > 0 ==> exists i: nat :: FirstFailureAt(header, records, i) && RecordRow(header, records[i]) == Err(r.error)
  {
    var leaves: seq<Digest> := [];
    var addresses: seq<string> := [];
    var amounts: seq<string> := [];
    for i := 0 to |records|
      invariant forall j :: 0 <= j < i ==> RecordRow(header, records[j]).Ok?
      invariant ParsedFrom(records[..i], ParsedCsv(leaves, addresses, amounts))
      invariant LeavesOfRows(H, ParsedCsv(leaves, addresses, amounts))
    {
      var record := records[i];
      if |record| != |header| {
        assert FirstFailureAt(header, records, i);
        return Err(UnequalLengths(|header|, |record|));
      }
      if |record| < 1 {
        assert FirstFailureAt(header, records, i);
        return Err(MissingAddress);
      }
      var address := record[0];
      if |record| < 2 {
        assert FirstFailureAt(header, records, i);
        return Err(MissingAmount);
      }
      var amount := record[1];
      var parsed := ParseU64(amount);
      if parsed.None? {
        assert FirstFailureAt(header, records, i);
        return Err(InvalidAmount(amount));
      }
      leaves := leaves + [LeafHash(H, address, parsed.value)];
      addresses := addresses + [address];
      amounts := amounts + [amount];
    }
    assert records[..|records|] == records;
    if |leaves| == 0 {
      return Err(NoRows);
    }
    r := Ok(ParsedCsv(leaves, addresses, amounts));
  }

  // ---------------------------------------------------------------------------
  // The claims map and airdrop.json

  /** The map the insert loop builds from the first m rows: a later row replaces an earlier one. */
  function ClaimsOf(addresses: seq<string>, amounts: seq<string>, offset: nat, m: nat): map<string, ClaimEntry>
    requires m <= |addresses| && m <= |amounts|
  {
    if m == 0 then map[]
    else ClaimsOf(addresses, amounts, offset, m - 1)[addresses[m - 1] := ClaimEntry(amounts[m - 1], m - 1 + offset)]
  }

  /** The claims map has one key per distinct address among the first m rows. */
  lemma {:induction false} ClaimsKeys(addresses: seq<string>, amounts: seq<string>, offset: nat, m: nat)
    requires m <= |addresses| && m <= |amounts|
    ensures ClaimsOf(addresses, amounts, offset, m).Keys == set i | 0 <= i < m :: addresses[i]
  {
    if m > 0 {
      ClaimsKeys(addresses, amounts, offset, m - 1);
      assert (set i | 0 <= i < m :: addresses[i]) == (set i | 0 <= i < m - 1 :: addresses[i]) + {addresses[m - 1]};
    }
  }

  /** Row i is the last of the first m rows with address a. */
  predicate LastRowOf(addresses: seq<string>, m: nat, i: int, a: string)
  {
    0 <= i < m <= |addresses| && addresses[i] == a && forall j :: i < j < m ==> addresses[j] != a
  }

  /**
   * Every claim comes from the last row with its address: that row's amount text, and the
   * row position plus the offset as the leaf slot.
   */
  lemma {:induction false} ClaimIsLastRow(addresses: seq<string>, amounts: seq<string>, offset: nat, m: nat, a: string)
    requires m <= |addresses| && m <= |amounts|
    requires a in ClaimsOf(addresses, amounts, offset, m)
    ensures exists i ::
      LastRowOf(addresses, m, i, a) && ClaimsOf(addresses, amounts, offset, m)[a] == ClaimEntry(amounts[i], i + offset)
  {
    if addresses[m - 1] == a {
      assert LastRowOf(addresses, m, m - 1, a);
    } else {
      ClaimIsLastRow(addresses, amounts, offset, m - 1, a);
      var i :| LastRowOf(addresses, m - 1, i, a)
        && ClaimsOf(addresses, amounts, offset, m - 1)[a] == ClaimEntry(amounts[i], i + offset);
      assert LastRowOf(addresses, m, i, a);
      assert ClaimsOf(addresses, amounts, offset, m)[a] == ClaimEntry(amounts[i], i + offset);
    }
  }

  function Min(a: nat, b: nat): nat
  {
    if a < b then a else b
  }

  /**
   * `write_airdrop_json`: the root is slot 1 of the tree, the tree is kept whole, and the
   * claims map is built by inserting row i (of the rows `zip` pairs up) under its address with
   * slot i + leafOffset.
   */
  method WriteAirdropJson(tree: seq<Digest>, addresses: seq<string>, amounts: seq<string>, leafOffset: nat)
    returns (data: AirdropData)
    requires |tree| >= 2
    ensures data.merkleRoot == tree[1] && data.merkleTree == tree
    ensures data.claims == ClaimsOf(addresses, amounts, leafOffset, Min(|addresses|, |amounts|))
  {
    var merkleRoot := tree[1];
    var claims: map<string, ClaimEntry> := map[];
    for i := 0 to Min(|addresses|, |amounts|)
      invariant claims == ClaimsOf(addresses, amounts, leafOffset, i)
    {
      var leafIndex := i + leafOffset;
      claims := claims[addresses[i] := ClaimEntry(amounts[i], leafIndex)];
    }
    data := AirdropData(merkleRoot, tree, claims);
  }

  // ---------------------------------------------------------------------------
  // The whole command

  /** `data` is what the command writes for the parsed rows `p`. */
  predicate Commits(H: Hasher, p: ParsedCsv, data: AirdropData)
    requires |p.addresses| == |p.amounts| == |p.leaves|
  {
    && IsMerkleTree(H, p.leaves, data.merkleTree)
    && data.merkleRoot == data.merkleTree[1]
    && data.claims == ClaimsOf(p.addresses, p.amounts, |data.merkleTree| / 2, |p.leaves|)
  }

  /** `create_airdrop`: parse the rows, build the tree, and lay out airdrop.json. */
  method CreateAirdrop(H: Hasher, header: seq<string>, records: seq<seq<string>>) returns (r: Result<AirdropData, CsvError>)
    ensures r.Ok? <==> |records| > 0 && AllRowsParse(header, records)
    ensures r.Ok? ==> exists p :: ParsedFrom(records, p) && LeavesOfRows(H, p) && Commits(H, p, r.value)
    ensures r.Err? && |records| == 0 ==> r.error == NoRows
    ensures r.Err? && |records| > 0 ==> exists i: nat :: FirstFailureAt(header, records, i) && RecordRow(header, records[i]) == Err(r.error)
  {
    var parsed := ParseAirdropCsv(H, header, records);
    if parsed.Err? {
      return Err(parsed.error);
    }
    var merkleTree := ConstructMerkleTree(H, parsed.value.leaves);
    var leafOffset := |merkleTree| / 2;
    var data := WriteAirdropJson(merkleTree, parsed.value.addresses, parsed.value.amounts, leafOffset);
    assert Commits(H, parsed.value, data);
    return Ok(data);
  }

  /**
   * The claim entry of `address` checks out against `root`: its amount text parses, its slot
   * is in the tree, and the leaf of the address and amount folded with the siblings of the slot
   * reproduces the root.
   */
  predicate EntryVerifies(H: Hasher, root: Digest, tree: seq<Digest>, address: string, e: ClaimEntry)
  {
    && ParseU64(e.amount).Some?
    && e.leafIndex < |tree|
    && AllBelow(SiblingIndices(e.leafIndex), |tree|)
    && Fold(H, LeafHash(H, address, ParseU64(e.amount).value), e.leafIndex, Pick(tree, SiblingIndices(e.leafIndex))) == root
  }

  /** Completeness of the whole off-chain half: every entry of the claims map checks out against the root. */
  lemma EveryClaimVerifies(H: Hasher, p: ParsedCsv, data: AirdropData, a: string)
    requires LeavesOfRows(H, p)
    requires Commits(H, p, data)
    requires a in data.claims
    ensures EntryVerifies(H, data.merkleRoot, data.merkleTree, a, data.claims[a])
  {
    var i := ClaimedRow(H, p, data, a);
    RowEntryVerifies(H, p.leaves, data.merkleTree, i, a, data.claims[a], data.merkleRoot);
  }

  /** The entry written for row i checks out. */
  lemma RowEntryVerifies(H: Hasher, leaves: seq<Digest>, t: seq<Digest>, i: nat, a: string, e: ClaimEntry, root: Digest)
    requires IsMerkleTree(H, leaves, t) && root == t[1]
    requires i < |leaves| && e.leafIndex == |t| / 2 + i && ParseU64(e.amount).Some?
    requires leaves[i] == LeafHash(H, a, ParseU64(e.amount).value)
    ensures EntryVerifies(H, root, t, a, e)
  {
    LeafProofReachesRoot(H, leaves, t, i);
  }

  /** The row a claim comes from, with the leaf built from it. */
  lemma ClaimedRow(H: Hasher, p: ParsedCsv, data: AirdropData, a: string) returns (i: nat)
    requires LeavesOfRows(H, p)
    requires Commits(H, p, data)
    requires a in data.claims
    ensures i < |p.leaves| && ParseU64(p.amounts[i]).Some?
    ensures data.claims[a] == ClaimEntry(p.amounts[i], |data.merkleTree| / 2 + i)
    ensures p.leaves[i] == LeafHash(H, a, ParseU64(p.amounts[i]).value)
  {
    ClaimIsLastRow(p.addresses, p.amounts, |data.merkleTree| / 2, |p.leaves|, a);
    i :| LastRowOf(p.addresses, |p.leaves|, i, a)
      && data.claims[a] == ClaimEntry(p.amounts[i], i + |data.merkleTree| / 2);
  }

}
