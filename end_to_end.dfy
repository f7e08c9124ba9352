/**
 * The two halves together: an airdrop built by the CLI and registered on chain can be claimed
 * by every listed address with exactly the request `claim-airdrop` builds from the JSON file.
 */
module EndToEnd {
  import opened Wrappers
  import opened Encoding
  import opened Merkle
  import opened Keys
  import opened AirdropBuilder
  import opened AirdropProgram

  /**
   * After `create_airdrop` registers the root of a built airdrop, the claim of a listed
   * address, with the proof read from the tree (out-of-range siblings skipped), the parsed
   * amount and the slot cut to 32 bits, passes the proof check; it succeeds exactly when the
   * pool holds the amount and the claimant's balance does not overflow.
   */
  lemma BuiltAirdropIsClaimable(H: Hasher, codec: Base58, p: ParsedCsv, data: AirdropData, s: Ledger,
                                creator: Pubkey, mint: Pubkey, total: U64, authority: Pubkey)
    requires LeavesOfRows(H, p) && Commits(H, p, data)
    requires codec.encode(authority) in data.claims
    requires |data.merkleTree| <= U32_LIMIT
    requires Register(s, creator, mint, data.merkleRoot, total).Ok?
    requires (data.merkleRoot, authority) !in s.receipts
    ensures
      var e := data.claims[codec.encode(authority)];
      var s' := Register(s, creator, mint, data.merkleRoot, total).value;
      var proof := PickInRange(data.merkleTree, SiblingIndices(e.leafIndex));
      && ParseU64(e.amount).Some?
      && e.leafIndex % U32_LIMIT == e.leafIndex
      && ClaimStep(H, codec, s', authority, mint, data.merkleRoot, proof, ParseU64(e.amount).value, e.leafIndex % U32_LIMIT)
         != Err(InvalidProof)
      && (ClaimStep(H, codec, s', authority, mint, data.merkleRoot, proof, ParseU64(e.amount).value, e.leafIndex % U32_LIMIT).Ok?
          <==>
          && ParseU64(e.amount).value <= s'.balances[Ata(RootAuthority(data.merkleRoot), mint)]
          && BalanceOrZero(s', Ata(Wallet(authority), mint)) + ParseU64(e.amount).value < U64_LIMIT)
  {
    var key := codec.encode(authority);
    var e := data.claims[key];
    var s' := Register(s, creator, mint, data.merkleRoot, total).value;
    EveryClaimVerifies(H, p, data, key);
    PickInRangeAll(data.merkleTree, SiblingIndices(e.leafIndex));
    var leafIndex: U32 := e.leafIndex;
    CastU32OfSmall(leafIndex);
    RegisteredRootAcceptsItsProofs(H, codec, s, creator, mint, total, authority, data.merkleRoot,
      PickInRange(data.merkleTree, SiblingIndices(e.leafIndex)), ParseU64(e.amount).value, leafIndex);
  }

  /** Right after registration, a claim whose proof folds to the registered hash passes every check but the two balance checks. */
  lemma RegisteredRootAcceptsItsProofs(H: Hasher, codec: Base58, s: Ledger, creator: Pubkey, mint: Pubkey, total: U64,
                                       authority: Pubkey, root: Digest, proof: seq<Digest>, amount: U64, leafIndex: U32)
    requires Register(s, creator, mint, root, total).Ok?
    requires (root, authority) !in s.receipts
    requires Fold(H, LeafHash(H, codec.encode(authority), amount), leafIndex, proof) == root
    ensures
      var s' := Register(s, creator, mint, root, total).value;
      && ClaimStep(H, codec, s', authority, mint, root, proof, amount, leafIndex) != Err(InvalidProof)
      && (ClaimStep(H, codec, s', authority, mint, root, proof, amount, leafIndex).Ok? <==>
          amount <= s'.balances[Ata(RootAuthority(root), mint)] && BalanceOrZero(s', Ata(Wallet(authority), mint)) + amount < U64_LIMIT)
  {
    var s' := Register(s, creator, mint, root, total).value;
    assert s'.roots[root].hash == root;
  }
}
