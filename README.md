# Merkle airdrop — a Dafny model

This project models the core of a Solana token airdrop that commits to its claims with a
Merkle root. It has five parts:

- **The CLI builder** (`create-airdrop`) reads `address,amount` rows. Each leaf is
  `sha256(address bytes ++ amount as 8 little-endian bytes)`. The leaves are padded with
  all-zero digests to a power of two and laid out as a flat binary tree: slot 1 is the root
  and slot `i` has children `2i` and `2i+1`. The builder then writes `airdrop.json` with
  the root, the whole tree and, per address, the amount text and the leaf's slot.
- **The on-chain program** has two instructions:
  - `create_airdrop` registers a root hash at an address derived from it and funds the
    root's token pool.
  - `claim` rebuilds the claimant's leaf from its own key, folds the supplied proof into
    it and compares the result with the stored hash. It then creates a once-only claim
    receipt and pays the claimant from the pool.
- **The CLI claimer** (`claim-airdrop`) looks the caller up in `airdrop.json`. It rebuilds
  the proof from the stored tree and builds the claim instruction. The `--network` option
  picks the cluster.
- **The proof server** (`server/airdrop.ts`) indexes airdrop files by the hex of their
  root. It answers claim lookups and proof requests.
- **The SDK helpers**: `numberArrayToHex` and `hexToBytes`, plus the test helpers that
  stand in for the server.

SHA-256 is a parameter `H` of the model. No property of it is assumed for completeness
(every listed claim verifies). No function from byte strings onto 32-byte digests is
injective, so the tamper-resistance results assume less. Each one assumes only that `H` has
no collision between the finitely many byte strings its two claims hash
(`Merkle.CollisionFreeOn`). The base58 key codec is a parameter too (`Keys.Base58`).

Where the code and its design description differ, the model follows the code:

- The leaf hashes the address and the amount only, not the leaf index.
- Padding leaves are the all-zero digest, not a hash.
- `claim` checks neither the proof's length nor the final index. Any proof that folds to
  the stored hash is accepted.
- The proof builders of the claimer and of the SDK helpers skip out-of-range siblings.
  The server's builder reads them as `undefined`.

Modules:

- `Encoding`: bytes, u64, UTF-8, decimal parse and print.
- `Merkle`: digests, leaves, the sibling walk, the proof fold and its lemmas.
- `AirdropBuilder`: the CLI builder.
- `AirdropProgram`: the on-chain program, as a class over its accounts plus pure step
  functions.
- `ClaimCli`: the CLI claimer.
- `Networks`: the network option.
- `Keys`: keys and their text form.
- `HexUtils`: the SDK hex helpers with JavaScript's `parseInt`.
- `ProofServer`: the server.
- `CliHelpers`: the SDK test helpers.
- `EndToEnd`: the halves put together.

## Model

| member | source | states |
|---|---|---|
| Merkle.LeafInputAmountSensitive | cli/src/instructions/create_airdrop.rs:77 | one address with two different amounts gives two different leaf byte strings, for any hash |
| Merkle.LeafInputOfAscii | airdrop-contract/programs/airdrop-contract/src/instructions/claim.rs:43-44 | for an ASCII (base58) address, the hashed leaf bytes are the address's character codes, one byte each, then the 8 little-endian amount bytes |
| Merkle.LeafHashAmountSensitive | cli/src/instructions/create_airdrop.rs:76-78 | one address with two different amounts gives two different leaves, unless the hash collides on exactly those two leaf byte strings |
| Merkle.SiblingIndices | cli/src/instructions/create_airdrop.rs:149-153 | the walk of sibling slots is empty exactly when the start slot is 0 or 1 |
| Merkle.WalkLength | server/airdrop.ts:62-69 | from a slot on level p (2^p <= i < 2^(p+1)) the walk has exactly p entries, so the server's proof length is floor(log2 leafIndex) |
| Merkle.WalkInRange | cli/src/instructions/create_airdrop.rs:145-156 | from any slot of an even-sized tree every sibling visited is a slot of the tree, so `create_proof` never indexes out of bounds |
| Merkle.PickOrUndefinedInRange | server/airdrop.ts:66-67 | when every sibling slot is in the tree, the unchecked read has no `undefined` entry and lists what the skipping read lists |
| Merkle.PickInRangeAll | cli/src/instructions/claim_airdrop.rs:48-53 | when every sibling is in range, the skipping proof builder equals the plain one |
| Merkle.PickInRangeShorter | cli/src/instructions/claim_airdrop.rs:48-53 | when some sibling is out of range, the skipping proof builder returns fewer entries than steps |
| Merkle.FoldReachesRoot | airdrop-contract/programs/airdrop-contract/src/instructions/claim.rs:48-56 | in a tree whose parents hash their children, folding any node with its sibling path reaches the root (slot 1) |
| Merkle.FoldInjective | airdrop-contract/programs/airdrop-contract/src/instructions/claim.rs:48-56 | two folds of equal length from one index that reach the same digest started from the same leaf with the same proof, unless the hash collides between a string one fold hashes and a string the other hashes |
| Merkle.ProofBindsLeaf | airdrop-contract/programs/airdrop-contract/src/instructions/claim.rs:58-60 | a leaf and a proof of walk length that fold to the root at slot j are the leaf stored at j and its sibling path, unless the hash collides between this fold's inputs and the stored path's |
| Merkle.WrongAmountFails | cli/src/instructions/create_airdrop.rs:504-548 | a proof that verifies an address with one amount fails for the same address with any other amount, unless the hash collides between what the two claims hash |
| Merkle.CeilLog2Unique | cli/src/instructions/create_airdrop.rs:551-560 | 2^p >= n and 2^(p-1) < n single out the ceiling of log2 n, the value the tests expect of `min_power_of_2` |
| AirdropBuilder.MinPowerOf2 | cli/src/instructions/create_airdrop.rs:49-59 | the result p is the least power with 2^p >= numLeaves (so 0 for 0 or 1 leaves) |
| AirdropBuilder.LeafSlots | cli/src/instructions/create_airdrop.rs:94 | the number of leaf slots is at least the number of leaves |
| AirdropBuilder.ConstructMerkleTree | cli/src/instructions/create_airdrop.rs:91-110 | the result is 2·2^p slots long; slot 0 is zero; the bottom row holds the leaves and then zero digests; every parent is the hash of its two children |
| AirdropBuilder.MerkleTreeDeterministic | cli/src/instructions/create_airdrop.rs:91-110 | the tree is a function of the leaves: two trees meeting that description are equal |
| AirdropBuilder.CreateProof | cli/src/instructions/create_airdrop.rs:145-156 | returns a proof exactly when every sibling slot is in the tree (otherwise the source panics); the proof is the nodes at the sibling slots, in walk order |
| AirdropBuilder.SiblingOfAncestor | cli/src/instructions/create_airdrop.rs:145-156 | entry k of the walk from slot j is the sibling of j halved k times, the slot `index` holds on the loop's k-th pass |
| AirdropBuilder.LeafProofReachesRoot | cli/src/instructions/create_airdrop.rs:23 | for leaf k at slot \|tree\|/2 + k, the walk stays in the tree, has CeilLog2(#leaves) steps and folds the leaf to the root |
| AirdropBuilder.ParseAirdropCsv | cli/src/instructions/create_airdrop.rs:62-88 | succeeds exactly when there is at least one row and every row has the header's field count, both fields and a u64 amount; then the rows are kept in order with their leaves; otherwise the error is the first failing row's, or "no rows" |
| AirdropBuilder.ClaimsKeys | cli/src/instructions/create_airdrop.rs:124-133 | the claims map has one key per distinct address among the rows |
| AirdropBuilder.ClaimIsLastRow | cli/src/instructions/create_airdrop.rs:124-133 | the entry of an address comes from its last row: that row's amount text and slot offset + row |
| AirdropBuilder.WriteAirdropJson | cli/src/instructions/create_airdrop.rs:113-142 | the root is tree slot 1, the tree is written whole, the claims come from the rows zipped up to the shorter list |
| AirdropBuilder.CreateAirdrop | cli/src/instructions/create_airdrop.rs:20-27 | succeeds exactly when the CSV parses; the output commits to the parsed rows with leaf offset \|tree\|/2; otherwise the parse error |
| AirdropBuilder.EveryClaimVerifies | cli/src/instructions/create_airdrop.rs:20-27 | every entry of the written claims map has a parseable amount and an in-range slot, and its leaf folded with its sibling path reproduces the written root |
| AirdropBuilder.ClaimedRow | cli/src/instructions/create_airdrop.rs:124-131 | each claims entry is some row's amount text at slot \|tree\|/2 + row, and that row's leaf is the leaf of that address and amount |
| AirdropProgram.Register | airdrop-contract/programs/airdrop-contract/src/instructions/create_airdrop.rs:7-58 | errors in order: missing authority token account, root already registered, insufficient funds, pool overflow; succeeds exactly when none applies; then the root is stored under its own hash, receipts are unchanged, `amount` moves from the authority to the pool (created if missing) and no other balance changes |
| AirdropProgram.ClaimStep | airdrop-contract/programs/airdrop-contract/src/instructions/claim.rs:7-81 | the claim fails with InvalidProof exactly when the accounts exist, there is no receipt and the fold of the claimant's leaf differs from the stored hash; succeeds exactly when the fold matches and the transfer is possible; then the receipt is added, roots are unchanged and exactly `amount` moves from pool to claimant |
| AirdropProgram.FoldProof | airdrop-contract/programs/airdrop-contract/src/instructions/claim.rs:44-56 | the loop computes the fold of the leaf at `leafIndex` with the proof: even index hashes current ‖ neighbour, odd neighbour ‖ current |
| AirdropProgram.Program.CreateAirdrop | airdrop-contract/programs/airdrop-contract/src/instructions/create_airdrop.rs:39-58 | the accounts become `Register`'s result on success and stay unchanged on an error; WellFormed is kept |
| AirdropProgram.Program.Claim | airdrop-contract/programs/airdrop-contract/src/instructions/claim.rs:41-81 | the accounts become `ClaimStep`'s result on success and stay unchanged on an error; WellFormed is kept |
| AirdropProgram.RunPaysEachClaimOnce | airdrop-contract/programs/airdrop-contract/src/instructions/claim.rs:28-35 | over any sequence of instructions: WellFormed is kept, registered roots never change, receipts only grow, and each (root, claimant) is paid at most once, never if it held a receipt at the start |
| AirdropProgram.ClaimOnlyOnce | airdrop-contract/programs/airdrop-contract/src/instructions/claim.rs:28-35 | after a successful claim, the same claimant's next claim against that root fails whatever its proof, amount, index or mint, and with AccountAlreadyInUse when the mint is the same |
| AirdropProgram.ClaimRejectsForeignLeaf | airdrop-contract/programs/airdrop-contract/src/instructions/claim.rs:58-60 | against the stored root of a tree whose parents hash their children, a claim with a proof of walk length is rejected when the claimant's leaf is not the node at its slot or the proof is not that slot's sibling path, unless the hash collides between the claim's fold inputs and the stored path's |
| ClaimCli.GenerateProof | cli/src/instructions/claim_airdrop.rs:42-58 | the proof is the nodes at the sibling slots of the walk that are inside the tree, in walk order; empty for slots 0 and 1 |
| ClaimCli.SelectMint | cli/src/instructions/claim_airdrop.rs:75-86 | an explicit `--mint` wins and must decode; otherwise the JSON mint must be present and decode |
| ClaimCli.ClaimingAddress | cli/src/instructions/claim_airdrop.rs:93-96 | an explicit `--address` must decode; without one, the payer's key |
| ClaimCli.ClaimAirdrop | cli/src/instructions/claim_airdrop.rs:60-131 | checks in source order: program id, mint, keypair, address, lookup under the key's base58 text, amount parse; the first failure is the result; on success the request carries the cluster, program id, mint, claimant, root, proof from the stored tree, amount and slot cut to 32 bits |
| Networks.FromStrAccepts | cli/src/instructions/deploy_airdrop.rs:37-45 | a string parses to a network exactly when its lower-cased form is that network's name or alias |
| Networks.FromStrRejects | cli/src/instructions/deploy_airdrop.rs:43 | any other string is an error that names it |
| Networks.FromStrIgnoresCase | cli/src/instructions/deploy_airdrop.rs:38 | two strings with the same lower-cased form parse alike |
| Networks.NameRoundTrip | cli/src/instructions/deploy_airdrop.rs:58-65 | every name is lower case and parses back to its network |
| Networks.AliasesParse | cli/src/instructions/deploy_airdrop.rs:41-42 | "MAINNET-BETA" is mainnet and "LocalHost" is localnet |
| Networks.ToClusterInjective | cli/src/instructions/deploy_airdrop.rs:49-56 | distinct networks map to distinct clusters |
| Encoding.U64LeInjective | cli/src/instructions/create_airdrop.rs:77 | two amounts with the same 8-byte little-endian encoding are equal |
| Encoding.LittleEndianRoundTrip | cli/src/instructions/create_airdrop.rs:77 | reading back the little-endian bytes of a value that fits gives the value |
| Encoding.Utf8OfAscii | airdrop-contract/programs/airdrop-contract/src/instructions/claim.rs:44-45 | an ASCII address is encoded one byte per character, each byte being the character's code |
| Encoding.ParseU64 | cli/src/instructions/create_airdrop.rs:76 | an accepted amount text starts with `+` or a digit |
| Encoding.ParseDecimalString | cli/src/instructions/claim_airdrop.rs:121-124 | an amount printed in decimal parses back to itself |
| HexUtils.NumberArrayToHex | sdk/src/core/utils.ts:4-6 | two characters per byte |
| HexUtils.PrintedDigits | sdk/src/core/utils.ts:5 | byte k prints as its high nibble's and its low nibble's lower-case digits |
| HexUtils.HexToBytes | sdk/src/core/utils.ts:11-17 | the loop yields one number per pair of characters (a last single character alone), each `parseInt(pair, 16)` |
| HexUtils.HexPrefixLength | sdk/src/core/utils.ts:14 | `parseInt` reads the longest run of hex digits |
| HexUtils.ParseTwoDigits | sdk/src/core/utils.ts:14 | two hex digits parse to 16·first + second |
| HexUtils.HexDecodeDigits | sdk/src/core/utils.ts:11-17 | on a string of hex digits, entry k is the value of chars 2k and 2k+1 (or of the last char alone) |
| HexUtils.BytesRoundTrip | sdk/__tests__/unit/utils.test.ts:46-49 | `hexToBytes(numberArrayToHex(bytes))` gives the bytes back |
| HexUtils.HexRoundTrip | sdk/__tests__/unit/utils.test.ts:51-54 | an even-length lower-case hex string is the print of the bytes it reads as, and `hexToBytes` reads exactly those bytes |
| HexUtils.HexDecodeIgnoresCase | sdk/src/core/utils.ts:14 | on hex digits, decoding does not depend on letter case |
| HexUtils.PrintExamples | sdk/__tests__/unit/utils.test.ts:6-16 | [1,2,3] prints "010203", [0,255,128] prints "00ff80", [] prints "" |
| HexUtils.ReadExamples | sdk/__tests__/unit/utils.test.ts:32-42 | "ABCDEF" and "abcdef" both read as [171,205,239]; "" reads as [] |
| ProofServer.IndexKeys | server/airdrop.ts:24-35 | the index has a key exactly for the hex root of each file whose name ends in ".json" |
| ProofServer.IndexLastFileWins | server/airdrop.ts:32-35 | a root's entry is the claims and tree of the last JSON file with that root |
| ProofServer.DistinctRootsDistinctKeys | server/airdrop.ts:30 | different roots never share a key |
| ProofServer.ServerProofMatchesClientProof | server/airdrop.ts:54-72 | for any slot of an even-sized tree (every slot of a built tree), the server's proof has no `undefined` entry and is, entry by entry, the proof the CLI, the SDK helpers and `create_proof` build |
| ProofServer.AirdropController.constructor | server/airdrop.ts:20-37 | the controller's index is `Index` of the files in directory order |
| ProofServer.AirdropController.GetUserClaim | server/airdrop.ts:39-52 | an unknown root and an unknown address are distinct errors; otherwise the stored entry |
| ProofServer.AirdropController.GenerateProof | server/airdrop.ts:54-72 | unknown root is an error; otherwise one entry per halving step, the node or `undefined` past the end of the tree |
| CliHelpers.MerkleRootToBytes | sdk/__tests__/fixtures/cliHelpers.ts:73-79 | the same result as `hexToBytes` on every string |
| CliHelpers.GenerateProof | sdk/__tests__/fixtures/cliHelpers.ts:108-124 | the nodes at the in-range sibling slots, in walk order |
| CliHelpers.GetClaimDataFromJson | sdk/__tests__/fixtures/cliHelpers.ts:84-102 | a missing address is an error; otherwise amount and slot unchanged, with the proof for that slot |
| EndToEnd.BuiltAirdropIsClaimable | airdrop-contract/programs/airdrop-contract/src/instructions/claim.rs:41-81 | once a built airdrop's root is registered, each listed address's claim, with the proof the claimer builds, passes the proof check; with the transfer idealised (see "Left out": as written, the transfer's signature fails), it succeeds exactly when the pool and the claimant's balance allow it |
| EndToEnd.RegisteredRootAcceptsItsProofs | airdrop-contract/programs/airdrop-contract/src/instructions/create_airdrop.rs:54-55 | right after registration, a claim whose proof folds to the registered hash is never InvalidProof |

## Left out

- File and network I/O are not modelled, and no printing is. The CSV file and its reader
  are reduced to the header record and the list of records after it. The reader's
  field-count check against the header is modelled; its quoting, trimming and
  blank-line handling are not. `airdrop.json` is a value.
  The server's directory listing is a list of files.
- JSON parse failures are not modelled.
- The RPC client, transaction signing and sending are left out.
- The keypair file is modelled only as present or unreadable.
- SHA-256 is the parameter `H`. The only property ever assumed of it is that it has no
  collision among the finitely many byte strings a tamper lemma hashes
  (`Merkle.CollisionFreeOn`).
- The base58 codec is `Keys.Base58`, taken as given.
- Program-derived addresses are identified by their seeds: a root record by its hash, a
  receipt by (root, claimant). The bump search, rent and lamports are not modelled.
- The stored record's `bump` and `mint` are never written by `create_airdrop`, so they
  keep their zero value.
- The claim transfer's signature is not modelled. `claim` signs the pool transfer with
  seeds ending in the stored `bump` (claim.rs:70-78). That bump is always 0, so unless the
  root account's canonical bump happens to be 0, the signature does not match the pool's
  authority. As written, the source therefore rejects essentially every claim at the
  transfer. `AirdropProgram.ClaimStep`, `AirdropProgram.Program.Claim` and
  `EndToEnd.BuiltAirdropIsClaimable` treat the transfer as authorised: they describe the
  evidently intended transfer, not the failing one.
- SPL token details are not modelled: decimals, frozen accounts and associated-token
  address derivation. Token accounts are keyed by (owner, mint).
- `lib.rs` forwards three arguments to a `claim` handler that takes four, and `errors.rs`
  declares only `InvalidAmount`. The model uses the handler's own signature and its
  `InvalidProof` error.
- `ClaimReceipt` and the seed constants are not part of this model.
- The amount field of the claim receipt is not modelled: the handler never writes it.
- `usize` arithmetic on tree sizes is unbounded here: there is no overflow of
  `2^(power+1)`.
- A tree node of another length than 32 bytes is not modelled: `copy_from_slice` in the
  claimer would panic on it. Nodes are `Digest`s.
- HexUtils.NumberArrayToHex takes bytes. `utils.ts` takes any `number[]`, and for a value
  above 255 `toString(16)` gives three or more digits that `padStart` does not trim. Such
  inputs, and negative or fractional ones, are not modelled.
- The server's nodes are byte arrays. `Buffer.from`'s masking of values outside 0..255
  is not modelled.
- The helpers' JSON types the root and the nodes as hex strings, as `cliHelpers.ts`
  declares them, while the builder writes number arrays.
- JavaScript numbers are modelled as naturals. A negative or fractional `leafIndex` is
  left out, and so are `-0` and the loss of precision above 2^53.
- Object keys such as `__proto__`, which JavaScript dictionaries inherit, are not
  modelled.
- UTF-16 surrogate pairs are not modelled.
- Networks.FromStr: Rust's Unicode `to_lowercase` is modelled as ASCII lower-casing. That
  accepts exactly the same strings: the only non-ASCII character that lower-cases to an
  ASCII letter is the Kelvin sign, and no network name contains `k`.
- ClaimCli.SelectMint: its contract says when the mint is accepted, not which of the two
  invalid-mint errors is returned. The function returns `InvalidMint` for `--mint` and
  `InvalidJsonMint` for the JSON mint.
