/**
 * The SDK test helpers that stand in for the proof server (`sdk/__tests__/fixtures/cliHelpers.ts`).
 * Their declared JSON shape has the root and the nodes as hex strings.
 */
module CliHelpers {
  import opened Wrappers
  import opened Merkle
  import opened HexUtils
  import AirdropBuilder

  datatype AirdropJson = AirdropJson(
    merkleRoot: string,
    merkleTree: seq<string>,
    claims: map<string, AirdropBuilder.ClaimEntry>)

  datatype ClaimData = ClaimData(amount: string, leafIndex: nat)

  datatype ClaimResponse = ClaimResponse(claim: ClaimData, proof: seq<string>)

  datatype HelperError = AddressNotFound(address: string)

  /** `merkleRootToBytes`: the same two-character `parseInt` loop as `hexToBytes`. */
  method MerkleRootToBytes(merkleRoot: string) returns (bytes: seq<JsNumber>)
    ensures bytes == HexDecode(merkleRoot)
  {
    bytes := [];
    var i := 0;
    ghost var k := 0;
    while i < |merkleRoot|
      invariant i == 2 * k && k <= (|merkleRoot| + 1) / 2
      invariant |bytes| == k
      invariant forall m :: 0 <= m < k ==> bytes[m] == ParseInt16(Chunk(merkleRoot, m))
    {
      bytes := bytes + [ParseInt16(merkleRoot[i .. if i + 2 <= |merkleRoot| then i + 2 else |merkleRoot|])];
      i := i + 2;
      k := k + 1;
    }
    forall m | 0 <= m < k
      ensures bytes[m] == HexDecode(merkleRoot)[m]
    {
      HexDecodeAt(merkleRoot, m);
    }
  }

  /** `generateProof`: the parity/halving walk, skipping siblings at or past the end of the tree. */
  method GenerateProof<T>(merkleTree: seq<T>, leafIndex: nat) returns (proof: seq<T>)
    ensures proof == PickInRange(merkleTree, SiblingIndices(leafIndex))
  {
    proof := [];
    var index := leafIndex;
    ghost var walked: seq<nat> := [];
    while index > 1
      invariant SiblingIndices(leafIndex) == walked + SiblingIndices(index)
      invariant proof == PickInRange(merkleTree, walked)
      decreases index
    {
      var siblingIndex: nat := if index % 2 == 0 then index + 1 else index - 1;
      WalkStep(walked, index);
      if siblingIndex < |merkleTree| {
        proof := proof + [merkleTree[siblingIndex]];
      }
      assert (walked + [siblingIndex])[..|walked|] == walked;
      walked := walked + [siblingIndex];
      index := index / 2;
    }
    assert walked + [] == walked;
  }

  /** `getClaimDataFromJson`: the entry's amount and slot unchanged, with the proof for that slot. */
  method GetClaimDataFromJson(airdropJson: AirdropJson, address: string) returns (r: Result<ClaimResponse, HelperError>)
    ensures address !in airdropJson.claims ==> r == Err(AddressNotFound(address))
    ensures address in airdropJson.claims ==>
      var e := airdropJson.claims[address];
      r == Ok(ClaimResponse(ClaimData(e.amount, e.leafIndex), PickInRange(airdropJson.merkleTree, SiblingIndices(e.leafIndex))))
  {
    if address !in airdropJson.claims {
      return Err(AddressNotFound(address));
    }
    var claim := airdropJson.claims[address];
    var proof := GenerateProof(airdropJson.merkleTree, claim.leafIndex);
    r := Ok(ClaimResponse(ClaimData(claim.amount, claim.leafIndex), proof));
  }
}
