/**
 * The `claim-airdrop` command (`cli/src/instructions/claim_airdrop.rs`) up to the point where
 * it sends the transaction: pick the mint and the claiming address, look the address up in
 * airdrop.json, parse its amount and rebuild its proof from the stored tree.
 */
module ClaimCli {
  import opened Wrappers
  import opened Encoding
  import opened Merkle
  import opened Keys
  import opened Networks
  import AirdropBuilder

  /** What the command reads from airdrop.json; `deploy-airdrop` may have added the mint. */
  datatype AirdropJson = AirdropJson(
    merkleRoot: Digest,
    merkleTree: seq<Digest>,
    claims: map<string, AirdropBuilder.ClaimEntry>,
    mint: Option<string>)

  /** The command-line arguments the modelled part uses. */
  datatype ClaimArgs = ClaimArgs(mint: Option<string>, address: Option<string>, network: Network, programId: string)

  datatype ClaimError =
    | InvalidProgramId
    | InvalidMint
    | NoMint
    | InvalidJsonMint
    | KeypairUnreadable
    | InvalidAddress
    | AddressNotFound(address: string)
    | InvalidClaimAmount

  /** The `claim` instruction the command sends, with the cluster it sends it to. */
  datatype ClaimRequest = ClaimRequest(
    cluster: Cluster,
    programId: Pubkey,
    mint: Pubkey,
    authority: Pubkey,
    merkleRootHash: Digest,
    proof: seq<Digest>,
    amount: U64,
    leafIndex: U32)

  /**
   * `generate_proof`: walks from `leafIndex` up to the root like `create_proof`, but a
   * sibling past the end of the tree is skipped instead of read.
   */
  method GenerateProof(merkleTree: seq<Digest>, leafIndex: nat) returns (proof: seq<Digest>)
    ensures proof == PickInRange(merkleTree, SiblingIndices(leafIndex))
    ensures leafIndex <= 1 ==> proof == []
  {
    proof := [];
    var index := leafIndex;
    ghost var walked: seq<nat> := [];
    while index > 1
      invariant SiblingIndices(leafIndex) == walked + SiblingIndices(index)
      invariant proof == PickInRange(merkleTree, walked)
      decreases index
    {
      var siblingIndex: nat := if index % 2 == 0 then index + 1 else index - 1;
      WalkStep(walked, index);
      if siblingIndex < |merkleTree| {
        proof := proof + [merkleTree[siblingIndex]];
      }
      assert (walked + [siblingIndex])[..|walked|] == walked;
      walked := walked + [siblingIndex];
      index := index / 2;
    }
    assert walked + [] == walked;
  }

  /**
   * The mint: `--mint` when given, otherwise the mint recorded in the JSON; neither is an
   * error, and so is text that is not a key.
   */
  function SelectMint(codec: Base58, argMint: Option<string>, jsonMint: Option<string>): (r: Result<Pubkey, ClaimError>)
    ensures argMint.Some? ==> (r.Ok? <==> codec.decode(argMint.value).Some?)
    ensures argMint.Some? && r.Ok? ==> Some(r.value) == codec.decode(argMint.value)
    ensures argMint.None? && jsonMint.None? ==> r == Err(NoMint)
    ensures argMint.None? && jsonMint.Some? ==> (r.Ok? <==> codec.decode(jsonMint.value).Some?)
    ensures argMint.None? && jsonMint.Some? && r.Ok? ==> Some(r.value) == codec.decode(jsonMint.value)
  {
    match argMint
    case Some(text) =>
      (match codec.decode(text)
       case Some(k) => Ok(k)
       case None => Err(InvalidMint))
    case None =>
      (match jsonMint
       case None => Err(NoMint)
       case Some(text) =>
         match codec.decode(text)
         case Some(k) => Ok(k)
         case None => Err(InvalidJsonMint))
  }

  /** The claiming address: `--address` when given, otherwise the keypair's own key. */
  function ClaimingAddress(codec: Base58, argAddress: Option<string>, payer: Pubkey): (r: Result<Pubkey, ClaimError>)
    ensures argAddress.None? ==> r == Ok(payer)
    ensures argAddress.Some? ==> (r.Ok? <==> codec.decode(argAddress.value).Some?)
    ensures argAddress.Some? && r.Ok? ==> Some(r.value) == codec.decode(argAddress.value)
  {
    match argAddress
    case None => Ok(payer)
    case Some(text) =>
      match codec.decode(text)
      case Some(k) => Ok(k)
      case None => Err(InvalidAddress)
  }

  /**
   * `claim_airdrop` up to building the instruction. `payer` is the keypair file's key, `None`
   * when the file cannot be read. The checks run in the source's order and the first failure
   * is the result; on success the request carries the looked-up amount, the leaf slot cut to
   * 32 bits, and the proof `generate_proof` rebuilds from the stored tree.
   */
  method ClaimAirdrop(codec: Base58, args: ClaimArgs, json: AirdropJson, payer: Option<Pubkey>)
    returns (r: Result<ClaimRequest, ClaimError>)
    ensures codec.decode(args.programId).None? ==> r == Err(InvalidProgramId)
    ensures codec.decode(args.programId).Some? && SelectMint(codec, args.mint, json.mint).Err? ==>
      r == Err(SelectMint(codec, args.mint, json.mint).error)
    ensures codec.decode(args.programId).Some? && SelectMint(codec, args.mint, json.mint).Ok? && payer.None? ==>
      r == Err(KeypairUnreadable)
    ensures codec.decode(args.programId).Some? && SelectMint(codec, args.mint, json.mint).Ok? && payer.Some? ==>
      match ClaimingAddress(codec, args.address, payer.value)
      case Err(e) => r == Err(e)
      case Ok(authority) =>
        var key := codec.encode(authority);
        if key !in json.claims then r == Err(AddressNotFound(key))
        else if ParseU64(json.claims[key].amount).None? then r == Err(InvalidClaimAmount)
        else r.Ok? && r.value == ClaimRequest(
          ToCluster(args.network),
          codec.decode(args.programId).value,
          SelectMint(codec, args.mint, json.mint).value,
          authority,
          json.merkleRoot,
          PickInRange(json.merkleTree, SiblingIndices(json.claims[key].leafIndex)),
          ParseU64(json.claims[key].amount).value,
          json.claims[key].leafIndex % U32_LIMIT)
  {
    var merkleRootHash := json.merkleRoot;
    var programId := codec.decode(args.programId);
    if programId.None? {
      return Err(InvalidProgramId);
    }
    var mint := SelectMint(codec, args.mint, json.mint);
    if mint.Err? {
      return Err(mint.error);
    }
    if payer.None? {
      return Err(KeypairUnreadable);
    }
    var claimingAddress := ClaimingAddress(codec, args.address, payer.value);
    if claimingAddress.Err? {
      return Err(claimingAddress.error);
    }
    var key := codec.encode(claimingAddress.value);
    if key !in json.claims {
      return Err(AddressNotFound(key));
    }
    var claimInfo := json.claims[key];
    var amount := ParseU64(claimInfo.amount);
    if amount.None? {
      return Err(InvalidClaimAmount);
    }
    var leafIndex := claimInfo.leafIndex;
    var proof := GenerateProof(json.merkleTree, leafIndex);
    r := Ok(ClaimRequest(ToCluster(args.network), programId.value, mint.value, claimingAddress.value,
                         merkleRootHash, proof, amount.value, leafIndex % U32_LIMIT));
  }
}
