/**
 * The proof server (`server/airdrop.ts`): an `AirdropController` loads every airdrop JSON
 * file of a directory into a dictionary keyed by the hex of its Merkle root, then answers
 * claim lookups and proof requests against it.
 */
module ProofServer {
  import opened Wrappers
  import opened Encoding
  import opened Merkle
  import opened HexUtils
  import AirdropBuilder

  /** One airdrop JSON file as the server parses it: the root and the nodes as byte arrays. */
  datatype AirdropRaw = AirdropRaw(
    merkleRoot: seq<Byte>,
    merkleTree: seq<seq<Byte>>,
    claims: map<string, AirdropBuilder.ClaimEntry>)

  /** A directory entry: its file name and, for the files that are read, their content. */
  datatype AirdropFile = AirdropFile(name: string, data: AirdropRaw)

  /** What the dictionary keeps of a file. */
  datatype Airdrop = Airdrop(claims: map<string, AirdropBuilder.ClaimEntry>, merkleTree: seq<seq<Byte>>)

  datatype ServerError =
    | AirdropNotFound(rootHex: string)
    | UserNotFound(address: string, rootHex: string)

  predicate EndsWithJson(name: string)
  {
    |name| >= 5 && name[|name| - 5..] == ".json"
  }

  /** The dictionary entry file i contributes. */
  function EntryOf(f: AirdropFile): Airdrop
  {
    Airdrop(f.data.claims, f.data.merkleTree)
  }

  /** The dictionary after the files in directory order: non-JSON names are skipped, a later root replaces an earlier one. */
  function Index(files: seq<AirdropFile>): map<string, Airdrop>
    decreases |files|
  {
    if files == [] then map[]
    else
      var f := files[|files| - 1];
      var m := Index(files[..|files| - 1]);
      if EndsWithJson(f.name) then m[NumberArrayToHex(f.data.merkleRoot) := EntryOf(f)] else m
  }

  /** `f` is a JSON file whose root prints as `rootHex`. */
  predicate JsonFileFor(f: AirdropFile, rootHex: string)
  {
    EndsWithJson(f.name) && NumberArrayToHex(f.data.merkleRoot) == rootHex
  }

  /** File i is the last JSON file whose root prints as `rootHex`. */
  predicate LastFileFor(files: seq<AirdropFile>, rootHex: string, i: int)
  {
    && 0 <= i < |files| && JsonFileFor(files[i], rootHex)
    && forall j :: i < j < |files| ==> !JsonFileFor(files[j], rootHex)
  }

  /** The keys are exactly the hex roots of the JSON files. */
  lemma {:induction false} IndexKeys(files: seq<AirdropFile>, rootHex: string)
    ensures rootHex in Index(files) <==> exists i :: 0 <= i < |files| && JsonFileFor(files[i], rootHex)
    decreases |files|
  {
    if files != [] {
      var n := |files| - 1;
      var init := files[..n];
      IndexKeys(init, rootHex);
      if rootHex in Index(init) {
        var i :| 0 <= i < |init| && JsonFileFor(init[i], rootHex);
        assert files[i] == init[i];
      }
      if exists i :: 0 <= i < |files| && JsonFileFor(files[i], rootHex) {
        var i :| 0 <= i < |files| && JsonFileFor(files[i], rootHex);
        if i < n {
          assert init[i] == files[i];
        }
      }
    }
  }

  /** A root's entry is the one of the last JSON file with that root: later files replace earlier ones. */
  lemma {:induction false} IndexLastFileWins(files: seq<AirdropFile>, rootHex: string, i: int)
    requires LastFileFor(files, rootHex, i)
    ensures rootHex in Index(files) && Index(files)[rootHex] == EntryOf(files[i])
    decreases |files|
  {
    var n := |files| - 1;
    if i < n {
      var init := files[..n];
      assert !JsonFileFor(files[n], rootHex);
      assert LastFileFor(init, rootHex, i) by {
        forall j | i < j < |init|
          ensures !JsonFileFor(init[j], rootHex)
        {
          assert init[j] == files[j];
        }
      }
      IndexLastFileWins(init, rootHex, i);
    }
  }

  /** Airdrops whose roots differ are both kept, under keys that differ. */
  lemma DistinctRootsDistinctKeys(a: seq<Byte>, b: seq<Byte>)
    requires a != b
    ensures NumberArrayToHex(a) != NumberArrayToHex(b)
  {
    BytesRoundTrip(a);
    BytesRoundTrip(b);
  }

  /**
   * On a slot of an even-sized tree (every slot of a built tree is one), the server's proof has
   * no `undefined` entry: it is, entry by entry, the proof the CLI and the SDK helpers build,
   * which is the one `create_proof` builds.
   */
  lemma ServerProofMatchesClientProof<T>(tree: seq<T>, leafIndex: nat)
    requires |tree| % 2 == 0 && leafIndex < |tree|
    ensures PickOrUndefined(tree, SiblingIndices(leafIndex)) == Defined(PickInRange(tree, SiblingIndices(leafIndex)))
    ensures AllBelow(SiblingIndices(leafIndex), |tree|) && PickInRange(tree, SiblingIndices(leafIndex)) == Pick(tree, SiblingIndices(leafIndex))
  {
    WalkInRange(leafIndex, |tree|);
    PickOrUndefinedInRange(tree, SiblingIndices(leafIndex));
    PickInRangeAll(tree, SiblingIndices(leafIndex));
  }

  class AirdropController {
    var airdrops: map<string, Airdrop>

    /** Loads the files in directory order. */
    constructor (files: seq<AirdropFile>)
      ensures airdrops == Index(files)
    {
      var index: map<string, Airdrop> := map[];
      for i := 0 to |files|
        invariant index == Index(files[..i])
      {
        assert files[..i + 1][..i] == files[..i];
        var fn := files[i];
        if !EndsWithJson(fn.name) {
          continue;
        }
        var data := fn.data;
        var rootHex := NumberArrayToHex(data.merkleRoot);
        index := index[rootHex := Airdrop(data.claims, data.merkleTree)];
      }
      assert files[..|files|] == files;
      airdrops := index;
    }

    /** `getUserClaim`: the stored entry, or an error naming what is missing. */
    method GetUserClaim(rootHex: string, address: string) returns (r: Result<AirdropBuilder.ClaimEntry, ServerError>)
      ensures rootHex !in airdrops ==> r == Err(AirdropNotFound(rootHex))
      ensures rootHex in airdrops && address !in airdrops[rootHex].claims ==> r == Err(UserNotFound(address, rootHex))
      ensures rootHex in airdrops && address in airdrops[rootHex].claims ==> r == Ok(airdrops[rootHex].claims[address])
    {
      if rootHex !in airdrops {
        return Err(AirdropNotFound(rootHex));
      }
      var airdrop := airdrops[rootHex];
      if address !in airdrop.claims {
        return Err(UserNotFound(address, rootHex));
      }
      r := Ok(airdrop.claims[address]);
    }

    /**
     * `generateProof`: one entry per halving step from `leafIndex` down to 1, read without a
     * bounds check, so a sibling past the end of the tree is `undefined` (`None`).
     */
    method GenerateProof(rootHex: string, leafIndex: nat) returns (r: Result<seq<Option<seq<Byte>>>, ServerError>)
      ensures rootHex !in airdrops ==> r == Err(AirdropNotFound(rootHex))
      ensures rootHex in airdrops ==> r == Ok(PickOrUndefined(airdrops[rootHex].merkleTree, SiblingIndices(leafIndex)))
    {
      if rootHex !in airdrops {
        return Err(AirdropNotFound(rootHex));
      }
      var tree := airdrops[rootHex].merkleTree;
      var proof: seq<Option<seq<Byte>>> := [];
      var index := leafIndex;
      ghost var walked: seq<nat> := [];
      while index > 1
        invariant SiblingIndices(leafIndex) == walked + SiblingIndices(index)
        invariant proof == PickOrUndefined(tree, walked)
        decreases index
      {
        var siblingIndex: nat := if index % 2 == 0 then index + 1 else index - 1;
        WalkStep(walked, index);
        var sibling := if siblingIndex < |tree| then Some(tree[siblingIndex]) else None;
        proof := proof + [sibling];
        walked := walked + [siblingIndex];
        index := index / 2;
      }
      assert walked + [] == walked;
      r := Ok(proof);
    }
  }
}
