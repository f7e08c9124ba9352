/**
 * The on-chain program (`airdrop-contract`): `create_airdrop` registers a root hash and funds
 * its pool, `claim` replays a proof against a registered root and pays the claimant once.
 *
 * Accounts are modelled by what identifies them: a root record by its root hash (the seed of
 * its address), a receipt by (root hash, claimant), a token account by its owner and mint.
 * Token balances are u64, moved by `transfer_checked` with its insufficient-funds and
 * overflow checks. Every instruction is all-or-nothing: on an error nothing changes.
 */
module AirdropProgram {
  import opened Wrappers
  import opened Encoding
  import opened Merkle
  import opened Keys

  /** Who owns a token account: a wallet, or the root record's address (the pool). */
  datatype Owner = Wallet(key: Pubkey) | RootAuthority(root: Digest)

  /** The associated token account of an owner for a mint. */
  datatype TokenAccount = Ata(owner: Owner, mint: Pubkey)

  /** The root record: the handler writes `hash` only, so `bump` and `mint` keep their zero value. */
  datatype MerkleRootRecord = MerkleRootRecord(hash: Digest, bump: Byte, mint: Pubkey)

  datatype ProgramError =
    | AccountNotInitialized   // a required account does not exist
    | AccountAlreadyInUse     // an `init` account exists already
    | InvalidProof
    | InsufficientFunds
    | Overflow

  /** The accounts the program reads and writes. */
  datatype Ledger = Ledger(
    roots: map<Digest, MerkleRootRecord>,
    receipts: set<(Digest, Pubkey)>,
    balances: map<TokenAccount, U64>)

  const ZERO_KEY: Pubkey := ZeroBytes(32)

  function NewRecord(hash: Digest): MerkleRootRecord
  {
    MerkleRootRecord(hash, 0, ZERO_KEY)
  }

  /** An account that `init_if_needed` creates holds zero tokens. */
  function BalanceOrZero(s: Ledger, a: TokenAccount): U64
  {
    if a in s.balances then s.balances[a] else 0
  }

  /** Every record sits at its own hash, and every receipt belongs to a registered root. */
  ghost predicate WellFormed(s: Ledger)
  {
    && (forall h :: h in s.roots ==> s.roots[h].hash == h)
    && (forall c :: c in s.receipts ==> c.0 in s.roots)
  }

  /**
   * `create_airdrop`: the authority's token account must exist; the record is `init` on the
   * root hash, so a registered hash is refused; then `amount` moves from the authority to the
   * pool (created empty when missing) and the record stores the hash.
   */
  function Register(s: Ledger, authority: Pubkey, mint: Pubkey, hash: Digest, amount: U64): (r: Result<Ledger, ProgramError>)
    ensures Ata(Wallet(authority), mint) !in s.balances ==> r == Err(AccountNotInitialized)
    ensures Ata(Wallet(authority), mint) in s.balances && hash in s.roots ==> r == Err(AccountAlreadyInUse)
    ensures r.Ok? <==>
      && Ata(Wallet(authority), mint) in s.balances
      && hash !in s.roots
      && amount <= s.balances[Ata(Wallet(authority), mint)]
      && BalanceOrZero(s, Ata(RootAuthority(hash), mint)) + amount < U64_LIMIT
    ensures r.Ok? ==> r.value.roots == s.roots[hash := NewRecord(hash)] && r.value.roots[hash].hash == hash
    ensures r.Ok? ==> r.value.receipts == s.receipts
    ensures r.Ok? ==> r.value.balances.Keys == s.balances.Keys + {Ata(RootAuthority(hash), mint)}
    ensures r.Ok? ==> r.value.balances[Ata(Wallet(authority), mint)] == s.balances[Ata(Wallet(authority), mint)] - amount
    ensures r.Ok? ==> r.value.balances[Ata(RootAuthority(hash), mint)] == BalanceOrZero(s, Ata(RootAuthority(hash), mint)) + amount
    ensures r.Ok? ==> forall a :: a in s.balances && a != Ata(Wallet(authority), mint) && a != Ata(RootAuthority(hash), mint) ==>
      r.value.balances[a] == s.balances[a]
  {
    var from := Ata(Wallet(authority), mint);
    var pool := Ata(RootAuthority(hash), mint);
    if from !in s.balances then Err(AccountNotInitialized)
    else if hash in s.roots then Err(AccountAlreadyInUse)
    else if s.balances[from] < amount then Err(InsufficientFunds)
    else if BalanceOrZero(s, pool) + amount >= U64_LIMIT then Err(Overflow)
    else
      var balances := s.balances[from := s.balances[from] - amount][pool := BalanceOrZero(s, pool) + amount];
      Ok(Ledger(s.roots[hash := NewRecord(hash)], s.receipts, balances))
  }

  /** The digest `claim` starts from: the leaf of the signer's base58 text and the amount. */
  function ClaimLeaf(H: Hasher, codec: Base58, authority: Pubkey, amount: U64): Digest
  {
    LeafHash(H, codec.encode(authority), amount)
  }

  /**
   * `claim`: the pool must exist, the root record must exist, and the receipt is `init` on
   * (root, claimant), so a second claim is refused. The proof is folded from the claimant's
   * leaf at `leafIndex` and must land on the stored hash; neither its length nor the final
   * index is checked. Then `amount` moves from the pool to the claimant's token account
   * (created empty when missing) and the receipt is recorded.
   */
  function ClaimStep(H: Hasher, codec: Base58, s: Ledger, authority: Pubkey, mint: Pubkey, root: Digest,
                     proof: seq<Digest>, amount: U64, leafIndex: U32): (r: Result<Ledger, ProgramError>)
    ensures (root, authority) in s.receipts ==> r.Err?
    ensures r == Err(InvalidProof) <==>
      && Ata(RootAuthority(root), mint) in s.balances
      && root in s.roots
      && (root, authority) !in s.receipts
      && Fold(H, ClaimLeaf(H, codec, authority, amount), leafIndex, proof) != s.roots[root].hash
    ensures r.Ok? <==>
      && Ata(RootAuthority(root), mint) in s.balances
      && root in s.roots
      && (root, authority) !in s.receipts
      && Fold(H, ClaimLeaf(H, codec, authority, amount), leafIndex, proof) == s.roots[root].hash
      && amount <= s.balances[Ata(RootAuthority(root), mint)]
      && BalanceOrZero(s, Ata(Wallet(authority), mint)) + amount < U64_LIMIT
    ensures r.Ok? ==> r.value.roots == s.roots
    ensures r.Ok? ==> r.value.receipts == s.receipts + {(root, authority)}
    ensures r.Ok? ==> r.value.balances.Keys == s.balances.Keys + {Ata(Wallet(authority), mint)}
    ensures r.Ok? ==> r.value.balances[Ata(RootAuthority(root), mint)] == s.balances[Ata(RootAuthority(root), mint)] - amount
    ensures r.Ok? ==> r.value.balances[Ata(Wallet(authority), mint)] == BalanceOrZero(s, Ata(Wallet(authority), mint)) + amount
    ensures r.Ok? ==> forall a :: a in s.balances && a != Ata(Wallet(authority), mint) && a != Ata(RootAuthority(root), mint) ==>
      r.value.balances[a] == s.balances[a]
  {
    var to := Ata(Wallet(authority), mint);
    var pool := Ata(RootAuthority(root), mint);
    if pool !in s.balances then Err(AccountNotInitialized)
    else if root !in s.roots then Err(AccountNotInitialized)
    else if (root, authority) in s.receipts then Err(AccountAlreadyInUse)
    else if Fold(H, ClaimLeaf(H, codec, authority, amount), leafIndex, proof) != s.roots[root].hash then Err(InvalidProof)
    else if s.balances[pool] < amount then Err(InsufficientFunds)
    else if BalanceOrZero(s, to) + amount >= U64_LIMIT then Err(Overflow)
    else
      var balances := s.balances[pool := s.balances[pool] - amount][to := BalanceOrZero(s, to) + amount];
      Ok(Ledger(s.roots, s.receipts + {(root, authority)}, balances))
  }

  /** The proof loop of `claim`: fold each neighbour in, on the side the index's parity says, halving the index. */
  method FoldProof(H: Hasher, leaf: Digest, leafIndex: U32, proof: seq<Digest>) returns (hash: Digest)
    ensures hash == Fold(H, leaf, leafIndex, proof)
  {
    hash := leaf;
    var proofIndex: U32 := leafIndex;
    for i := 0 to |proof|
      invariant Fold(H, hash, proofIndex, proof[i..]) == Fold(H, leaf, leafIndex, proof)
    {
      var neighborHash := proof[i];
      assert proof[i..][1..] == proof[i + 1..];
      if proofIndex % 2 == 0 {
        hash := HashChildren(H, hash, neighborHash);
      } else {
        hash := HashChildren(H, neighborHash, hash);
      }
      proofIndex := proofIndex / 2;
    }
  }

  /** The program's accounts, updated in place by the two instructions. */
  class Program {
    var roots: map<Digest, MerkleRootRecord>
    var receipts: set<(Digest, Pubkey)>
    var balances: map<TokenAccount, U64>

    function State(): Ledger
      reads this
    {
      Ledger(roots, receipts, balances)
    }

    /** A fresh deployment: no roots, no receipts, the given token accounts. */
    constructor (tokenAccounts: map<TokenAccount, U64>)
      ensures State() == Ledger(map[], {}, tokenAccounts)
      ensures WellFormed(State())
    {
      roots := map[];
      receipts := {};
      balances := tokenAccounts;
    }

    /** The `create_airdrop` instruction. */
    method CreateAirdrop(authority: Pubkey, mint: Pubkey, merkleRootHash: Digest, amount: U64)
      returns (r: Result<(), ProgramError>)
      requires WellFormed(State())
      modifies this
      ensures WellFormed(State())
      ensures Register(old(State()), authority, mint, merkleRootHash, amount).Ok? ==>
        r == Ok(()) && State() == Register(old(State()), authority, mint, merkleRootHash, amount).value
      ensures Register(old(State()), authority, mint, merkleRootHash, amount).Err? ==>
        r == Err(Register(old(State()), authority, mint, merkleRootHash, amount).error) && State() == old(State())
    {
      var from := Ata(Wallet(authority), mint);
      var pool := Ata(RootAuthority(merkleRootHash), mint);
      if from !in balances {
        return Err(AccountNotInitialized);
      }
      if merkleRootHash in roots {
        return Err(AccountAlreadyInUse);
      }
      var poolBalance: U64 := if pool in balances then balances[pool] else 0;
      // transfer_checked
      if balances[from] < amount {
        return Err(InsufficientFunds);
      }
      if poolBalance + amount >= U64_LIMIT {
        return Err(Overflow);
      }
      balances := balances[from := balances[from] - amount][pool := poolBalance + amount];
      roots := roots[merkleRootHash := NewRecord(merkleRootHash)];
      r := Ok(());
    }

    /** The `claim` instruction, signed by `authority`. */
    method Claim(H: Hasher, codec: Base58, authority: Pubkey, mint: Pubkey, merkleRoot: Digest,
                 proof: seq<Digest>, amount: U64, leafIndex: U32)
      returns (r: Result<(), ProgramError>)
      requires WellFormed(State())
      modifies this
      ensures WellFormed(State())
      ensures ClaimStep(H, codec, old(State()), authority, mint, merkleRoot, proof, amount, leafIndex).Ok? ==>
        r == Ok(()) && State() == ClaimStep(H, codec, old(State()), authority, mint, merkleRoot, proof, amount, leafIndex).value
      ensures ClaimStep(H, codec, old(State()), authority, mint, merkleRoot, proof, amount, leafIndex).Err? ==>
        r == Err(ClaimStep(H, codec, old(State()), authority, mint, merkleRoot, proof, amount, leafIndex).error)
        && State() == old(State())
    {
      var to := Ata(Wallet(authority), mint);
      var pool := Ata(RootAuthority(merkleRoot), mint);
      if pool !in balances || merkleRoot !in roots {
        return Err(AccountNotInitialized);
      }
      if (merkleRoot, authority) in receipts {
        return Err(AccountAlreadyInUse);
      }
      var address := codec.encode(authority);
      var hash := FoldProof(H, LeafHash(H, address, amount), leafIndex, proof);
      if hash != roots[merkleRoot].hash {
        return Err(InvalidProof);
      }
      var toBalance: U64 := if to in balances then balances[to] else 0;
      // transfer_checked, signed by the root record
      if balances[pool] < amount {
        return Err(InsufficientFunds);
      }
      if toBalance + amount >= U64_LIMIT {
        return Err(Overflow);
      }
      balances := balances[pool := balances[pool] - amount][to := toBalance + amount];
      receipts := receipts + {(merkleRoot, authority)};
      r := Ok(());
    }
  }

  // ---------------------------------------------------------------------------
  // Runs of instructions

  datatype Instruction =
    | CreateAirdropIx(authority: Pubkey, mint: Pubkey, merkleRootHash: Digest, amount: U64)
    | ClaimIx(claimant: Pubkey, claimMint: Pubkey, merkleRoot: Digest, proof: seq<Digest>, claimAmount: U64, leafIndex: U32)

  function Execute(H: Hasher, codec: Base58, s: Ledger, ix: Instruction): Result<Ledger, ProgramError>
  {
    match ix
    case CreateAirdropIx(authority, mint, hash, amount) => Register(s, authority, mint, hash, amount)
    case ClaimIx(claimant, mint, root, proof, amount, leafIndex) => ClaimStep(H, codec, s, claimant, mint, root, proof, amount, leafIndex)
  }

  /** The state after an instruction: a failed one changes nothing. */
  function After(H: Hasher, codec: Base58, s: Ledger, ix: Instruction): Ledger
  {
    match Execute(H, codec, s, ix)
    case Ok(t) => t
    case Err(_) => s
  }

  /** The state after a sequence of instructions, each applied to the state the previous one left. */
  function Run(H: Hasher, codec: Base58, s: Ledger, ixs: seq<Instruction>): Ledger
    decreases |ixs|
  {
    if ixs == [] then s else Run(H, codec, After(H, codec, s, ixs[0]), ixs[1..])
  }

  /** The (root, claimant) pairs paid by the successful claims of a run, in order. */
  function Payouts(H: Hasher, codec: Base58, s: Ledger, ixs: seq<Instruction>): seq<(Digest, Pubkey)>
    decreases |ixs|
  {
    if ixs == [] then []
    else
      var paid := if ixs[0].ClaimIx? && Execute(H, codec, s, ixs[0]).Ok? then [(ixs[0].merkleRoot, ixs[0].claimant)] else [];
      paid + Payouts(H, codec, After(H, codec, s, ixs[0]), ixs[1..])
  }

  /** One instruction keeps the ledger well formed, keeps every record and every receipt. */
  lemma AfterPreserves(H: Hasher, codec: Base58, s: Ledger, ix: Instruction)
    requires WellFormed(s)
    ensures WellFormed(After(H, codec, s, ix))
    ensures s.receipts <= After(H, codec, s, ix).receipts
    ensures forall h :: h in s.roots ==> h in After(H, codec, s, ix).roots && After(H, codec, s, ix).roots[h] == s.roots[h]
  {
  }

  /**
   * Over any run from a well-formed ledger: the ledger stays well formed, registered records
   * never change, receipts are never removed, and each (root, claimant) pair is paid at most
   * once — never twice within the run, never if it was paid before it.
   */
  lemma {:induction false} RunPaysEachClaimOnce(H: Hasher, codec: Base58, s: Ledger, ixs: seq<Instruction>)
    requires WellFormed(s)
    ensures WellFormed(Run(H, codec, s, ixs))
    ensures s.receipts <= Run(H, codec, s, ixs).receipts
    ensures forall h :: h in s.roots ==> h in Run(H, codec, s, ixs).roots && Run(H, codec, s, ixs).roots[h] == s.roots[h]
    ensures forall k :: 0 <= k < |Payouts(H, codec, s, ixs)| ==> Payouts(H, codec, s, ixs)[k] !in s.receipts
    ensures forall k :: 0 <= k < |Payouts(H, codec, s, ixs)| ==> Payouts(H, codec, s, ixs)[k] in Run(H, codec, s, ixs).receipts
    ensures forall i, j :: 0 <= i < j < |Payouts(H, codec, s, ixs)| ==> Payouts(H, codec, s, ixs)[i] != Payouts(H, codec, s, ixs)[j]
    decreases |ixs|
  {
    if ixs != [] {
      var next := After(H, codec, s, ixs[0]);
      AfterPreserves(H, codec, s, ixs[0]);
      RunPaysEachClaimOnce(H, codec, next, ixs[1..]);
      var paid := if ixs[0].ClaimIx? && Execute(H, codec, s, ixs[0]).Ok? then [(ixs[0].merkleRoot, ixs[0].claimant)] else [];
      var rest := Payouts(H, codec, next, ixs[1..]);
      assert Payouts(H, codec, s, ixs) == paid + rest;
      assert Run(H, codec, s, ixs) == Run(H, codec, next, ixs[1..]);
      if paid != [] {
        assert paid[0] in next.receipts;
      }
    }
  }

  /** A claim that succeeded cannot be repeated, whatever proof, amount, index or mint comes with it. */
  lemma ClaimOnlyOnce(H: Hasher, codec: Base58, s: Ledger, authority: Pubkey, mint: Pubkey, root: Digest,
                      proof: seq<Digest>, amount: U64, leafIndex: U32,
                      mint2: Pubkey, proof2: seq<Digest>, amount2: U64, leafIndex2: U32)
    requires ClaimStep(H, codec, s, authority, mint, root, proof, amount, leafIndex).Ok?
    ensures ClaimStep(H, codec, ClaimStep(H, codec, s, authority, mint, root, proof, amount, leafIndex).value,
                      authority, mint2, root, proof2, amount2, leafIndex2).Err?
    ensures mint2 == mint ==>
      ClaimStep(H, codec, ClaimStep(H, codec, s, authority, mint, root, proof, amount, leafIndex).value,
                authority, mint2, root, proof2, amount2, leafIndex2) == Err(AccountAlreadyInUse)
  {
  }

  /**
   * Tamper sensitivity: against a root that is the top of a tree whose parents hash their
   * children, a claim whose proof has one entry per level of the walk from `leafIndex` passes
   * the proof check only with the leaf stored at that slot and the siblings the tree holds,
   * unless `H` collides between what the claim's fold hashes and what the stored path's fold hashes.
   */
  lemma ClaimRejectsForeignLeaf(H: Hasher, codec: Base58, s: Ledger, t: seq<Digest>, authority: Pubkey, mint: Pubkey,
                                root: Digest, proof: seq<Digest>, amount: U64, leafIndex: U32)
    requires |t| % 2 == 0 && ParentsHashChildren(H, t)
    requires 1 <= leafIndex < |t| && |proof| == |SiblingIndices(leafIndex)|
    requires root in s.roots && s.roots[root].hash == t[1]
    requires CollisionFreeOn(H, FoldInputs(H, ClaimLeaf(H, codec, authority, amount), leafIndex, proof),
                                FoldInputs(H, t[leafIndex], leafIndex, PickInRange(t, SiblingIndices(leafIndex))))
    ensures ClaimLeaf(H, codec, authority, amount) != t[leafIndex] ==> ClaimStep(H, codec, s, authority, mint, root, proof, amount, leafIndex).Err?
    ensures proof != PickInRange(t, SiblingIndices(leafIndex)) ==> ClaimStep(H, codec, s, authority, mint, root, proof, amount, leafIndex).Err?
  {
    if Fold(H, ClaimLeaf(H, codec, authority, amount), leafIndex, proof) == s.roots[root].hash {
      ProofBindsLeaf(H, t, leafIndex, ClaimLeaf(H, codec, authority, amount), proof);
      PickInRangeAll(t, SiblingIndices(leafIndex));
    }
  }
}
