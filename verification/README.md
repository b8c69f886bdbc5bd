# Verified model of the Kanon Mode B (ZK) plugin

A Dafny 4.11 model of the zero-knowledge half of the plugin under
`did_kanon/v1_0/zk`, with the event scan of
`did_kanon/v1_0/contracts/merkle_state.py`. `dafny verify dfyconfig.toml`
checks the whole project.

What is modelled, from the top:

- **The issuer** (`IssuerSpec`, `IssuerRuns`, `Calls`, `Overlap`, `Queues`,
  `Commitment`, `Issuer`). One credDef's issuer is a machine over the chain's append-only
  event log, the transactions sent and not yet mined, the wallet's checkpoint
  and an issuer object. Its calls can meet an unreadable checkpoint, a failed
  scan, a lost save, a failed initialisation, a refused batch, and a batch left
  pending when the wait for its receipt raises, which is mined later or never.
  `Calls` says what each call does: when it returns, what every key maps to then,
  and what it has mined. `Overlap` and `Queues` say exactly what a batch sent from
  behind any number of pending ones costs.
  `Issuer` holds the classes that update their fields in place as the source
  does, and each of their methods is proved to perform exactly the machine's
  step. `Dict`, `Events`, `Reorder` and `Scan` are the insertion-ordered dict,
  the replay, what replaying twice does to the order, and the scan.
- **The two Merkle trees** (`MerkleKeccak`, `MerklePoseidon`): the sorted-pair
  keccak tree with odd-node promotion, and the sparse tagged Poseidon tree
  proved equal to the dense one it replaces.
- **Curve and signature** (`Field`, `BabyJub`, `CurveLaw`, `ScalarMul`,
  `Eddsa`, `EddsaBinding`, `Instances`): twisted Edwards addition over any complete
  curve, double-and-add, clamping, sign-then-verify, and what a signature is bound to.
- **Hashes and limbs** (`Words`, `BlakeRounds`, `Blake`, `Fermat`, `Poseidon`,
  `Witness`, `Encoding`): BLAKE-512 down to its bits, the Poseidon rounds with
  Fermat's little theorem for their S-box, and the limb transport into the
  circuit's shared memory.
- **The leaf** (`Leaf`, `LeafBinding`): the credential leaf that the signing and the
  publishing side compute separately, and what two equal leaves share.
- **Key provisioning** (`KeyService`, `KeyAnswers`): tasks of many service instances,
  interleaved at every await, with a lock table, caches and one stored record; who
  agrees on which key, and that every call can end with it.

keccak256, UTF-8 encoding and, wherever only its type matters, Poseidon are
function-valued parameters. Nothing is assumed of them: binding results say
that the claim holds or that a named function returns two distinct inputs with
one image. Number-theoretic facts appear as hypotheses of the results that use
them (p prime, a a nonzero square, d a non-square, `add` associative on
multiples of the base, the base's order), and `Instances` and `Poseidon` show
that they hold together on a small instance.

The issuer results assume of the environment: calls on one credDef are
serialised and there is a single writer, whose transactions have consecutive
nonces and so are mined in the order they were sent; each batch has a block of
its own, with its events in array order; a mined batch is applied, so that a
returned receipt means just that; every caller builds a new issuer for its call,
so no issuer object outlives the arrival of a pending batch; the scan's tip is
the block the watermark is then set to. Where an assumption about the order of
things matters, what fails without it is stated exactly: `QueueRun` and
`QueueLeftRun` for a batch sent from behind pending ones, `ReorderExact` for blocks
mixing adds and revokes, `LateWatermarkExact` for a watermark ahead of the scan.

Where the code and its own documentation disagree, the model follows the code:

- `add_issued` takes its rollback snapshot after the loop has already written
  the new leaves (zk_issuer.py:405, :420, :445), so the restore keeps them;
  its comment (:413-419) says they must not survive. `revoke` deletes at :284
  and restores nothing. `AddRaisesExact` and `RevokeRaisesExact` say when a raise
  leaves the map as it was, `MovedExact` what moving the snapshot alone would
  repair. Callers build a new issuer for each call, and recovery is proved for a
  new issuer.
- The same comment takes a raise of `batch_update` to mean that the chain never
  accepted the batch. A raise while waiting for the receipt
  (merkle_state.py:375-377) leaves it pending, and it can be mined later.
- The docstring of `add_issued` (zk_issuer.py:317-318) describes a keccak of
  the id's UTF-8 text; `derive_leaf` (:65-93) hashes the 32 decoded bytes.
- The class comment of the keccak tree (merkle_keccak.py:31-33) gives `[]` as
  the root of an empty tree; the code (:48-52) returns 32 zero bytes.
- At lengths of 111 mod 128 `blake512` (_blake1.py:186-192) emits an extra
  block where section 2.2 of the SHA-3 proposal BLAKE (2010) merges both marker
  bits into one byte, 0x81.
- `invalidate` (zk_issuer_key.py:202-209) calls dropping the lock safe. It is
  safe exactly when no provision is in flight or a record is already stored
  (`InvalidateExact`).

## Model

| member | source | states |
|---|---|---|
| IssuerRuns.FreshIssuerRecovers | did_kanon/v1_0/zk/zk_issuer.py:248-263 | Main result. After any run of calls, failed scans, lost or unreadable checkpoints, refused batches, batches left pending that arrive later or never, restarts and passing blocks: if no call returned from behind a pending batch, a fresh issuer whose own scan succeeds reaches exactly the ordered map of a cold fold of the whole log; if moreover none was sent behind one, the last published root pair is that map's |
| IssuerRuns.RunKeeps | did_kanon/v1_0/zk/zk_issuer.py:234-458 | Every state of such runs keeps: log in chain order with no key re-added in the block that revoked it, a readable checkpoint equal to the fold up to its own watermark, a live cache equal to the fold of the whole log; and, in the second case, published roots of the active set and at most one pending batch, with the roots it leads to |
| IssuerRuns.ReplayRecovers | did_kanon/v1_0/zk/zk_issuer.py:495-508 | Whatever checkpoint was loaded, including none, replaying from its watermark inclusive ends at the cold fold |
| IssuerRuns.SaveKeeps | did_kanon/v1_0/zk/zk_issuer.py:528-561 | Writing or losing the checkpoint of a correct state keeps the log and record invariants |
| IssuerRuns.GetOrInitKeeps | did_kanon/v1_0/zk/zk_issuer.py:248-263 | `get_or_init` keeps the invariants under every failure, changes at most the record, and returns the cold fold whenever it returns |
| IssuerRuns.AddLoopFolds | did_kanon/v1_0/zk/zk_issuer.py:383-407 | The map left by the add loop is the replay of the batch it collected, for every list of credentials, with repeats, already active ids and failures part way |
| IssuerRuns.RevokeLoopFolds | did_kanon/v1_0/zk/zk_issuer.py:274-284 | The same for the revoke loop |
| IssuerRuns.AddLoopFits | did_kanon/v1_0/zk/zk_issuer.py:383-407 | What the add loop collects are distinct keys, none active before |
| IssuerRuns.RevokeLoopFits | did_kanon/v1_0/zk/zk_issuer.py:274-284 | What the revoke loop collects are distinct keys, all active before |
| IssuerRuns.MineKeepsMap | did_kanon/v1_0/zk/zk_issuer.py:289-298 | A mined batch extends the ordered log by one later block, and the cold fold by the batch; old checkpoints stay valid |
| IssuerRuns.SubmitKeeps | did_kanon/v1_0/zk/zk_issuer.py:432-458 | Each fate of a submission keeps the invariants: the map ones unless it returns from behind a pending batch, all of them unless it is sent behind one |
| IssuerRuns.PublishKeeps | did_kanon/v1_0/zk/zk_issuer.py:423-458 | The same for root computation, batch, watermark and save together |
| IssuerRuns.AddIssuedKeeps | did_kanon/v1_0/zk/zk_issuer.py:302-458 | `add_issued` keeps the invariants for all inputs and failures, and a returning call leaves a correct cache |
| IssuerRuns.RevokeKeeps | did_kanon/v1_0/zk/zk_issuer.py:265-300 | `revoke` keeps the invariants for all inputs and failures, and a returning call leaves a correct cache |
| IssuerRuns.LandKeeps | did_kanon/v1_0/contracts/merkle_state.py:342-377 | A pending transaction mined later keeps the map invariants, and all of them when they held |
| Queues.QueueRun | did_kanon/v1_0/contracts/merkle_state.py:342-377 | Main result. After any run in which no call returned from behind a pending batch, a call that is sent behind a queue of any length and returns: the published roots are those of the map without the queue, and a fresh issuer finds the active map if and only if that is the same map, or the call's checkpoint was lost or cannot be read. Where nothing pending arrived with others behind it, that is if and only if the call's batch repeats the queue |
| Queues.QueueLeftRun | did_kanon/v1_0/contracts/merkle_state.py:342-394 | Main result. When that call is left pending too and the whole queue arrives: a fresh issuer always finds the map, and the published roots are its own under the same condition, exactly |
| Queues.OverlapRun | did_kanon/v1_0/contracts/merkle_state.py:342-377 | The first call sent behind a single pending batch, if it returns: both halves are decided by whether the new batch repeats the pending one (same kind; its adds first and in order, or all its revokes) |
| Queues.OverlapLoses | did_kanon/v1_0/contracts/merkle_state.py:342-377 | A run in which both halves fail: one leaf's batch left pending, another leaf's call returning from behind it |
| Queues.QueueExact | did_kanon/v1_0/zk/zk_issuer.py:432-458 | The same for one submission behind any queue in any state whose map is recoverable |
| Queues.QueueChanges | did_kanon/v1_0/zk/zk_issuer.py:501-507 | Of batches computed over one map, however many, applying the others before the last changes the result unless the last repeats them: the same kind, with their adds first in order of first arrival, or all their revokes; both directions, insertion order included |
| Queues.OverlapChanges | did_kanon/v1_0/zk/zk_issuer.py:501-507 | For two batches, all four pairs of kinds |
| Queues.QueueFits | did_kanon/v1_0/zk/zk_issuer.py:383-407 | In such runs every pending batch was computed over the map that is still active |
| Queues.LandsAll | did_kanon/v1_0/contracts/merkle_state.py:342-377 | A whole queue mined in order: the cold fold goes through every batch, old checkpoints stay valid, and the last batch's roots are published |
| Overlap.AddsOverAdds | did_kanon/v1_0/zk/zk_issuer.py:501-507 | For two add batches: exactly when the first one's keys are a prefix of the second one's |
| Overlap.RevokesOverRevokes | did_kanon/v1_0/zk/zk_issuer.py:501-507 | For two revoke batches: exactly when the first one's keys are among the second one's |
| Overlap.SavedOverlap | did_kanon/v1_0/zk/zk_issuer.py:453-458 | The checkpoint saved after a batch is read back as the map that batch was computed to lead to, whatever else the log holds before it |
| Calls.RevokeExact | did_kanon/v1_0/zk/zk_issuer.py:265-300 | Main result. With nothing pending, `revoke` returns if and only if the state loads, every listed id resolves, is active and is listed once, at most 2^26 leaves stay, and the batch is mined; then no listed key is active and every other key keeps its value. A call that raises changes nothing on chain |
| Calls.RevokeMines | did_kanon/v1_0/zk/zk_issuer.py:286-300 | A returned `revoke` has mined one later block with one revocation per listed id, in the order listed, each with the value its key had; the receipt names that block, and the checkpoint, unless lost, has it as watermark |
| Calls.RevokeLoopExact | did_kanon/v1_0/zk/zk_issuer.py:274-284 | For every duplicate-free map and list of ids the loop raises unless all are present, active and pairwise distinct; otherwise its batch lists every id with its value, and exactly the listed keys are gone |
| Calls.AddExact | did_kanon/v1_0/zk/zk_issuer.py:302-458 | Main result. With nothing pending, `add_issued` returns if and only if the state loads, every leaf it needs can be computed, and nothing listed is new or the new leaves fit the tree and the batch is mined; then every listed key is active, with the value it had or that of its first credential, and every other key keeps its value. A call that raises changes nothing on chain |
| Calls.AddMines | did_kanon/v1_0/zk/zk_issuer.py:357-458 | A returned `add_issued` has mined the new leaves, in the order listed, in one later block that the receipt names, or returns None with the log unchanged exactly when none was new; it leaves the credDef marked as initialised if and only if it was or the call initialised it without failing |
| Calls.AddLoopExact | did_kanon/v1_0/zk/zk_issuer.py:383-407 | For every map and list of credentials: when the loop raises, what every key maps to after it, and that the new keys are appended in the order of their first mention |
| Commitment.PublishedCommits | did_kanon/v1_0/zk/zk_issuer.py:473-493 | Main result. After any run that published something, no batch sent behind a pending one, every i-th active pair proves itself at index i: the keccak leaf climbs to the published keccak root, the Poseidon leaf is accepted against the published Poseidon root by a path that spells i |
| Commitment.AcceptedIsActive | did_kanon/v1_0/zk/zk_issuer.py:473-478 | Main result. A derived leaf that verifies against the published keccak root with a proof of any length is active, or two colliding keccak inputs are returned, or, when nothing is active and a zero leaf is published, an input hashing to it |
| Commitment.AcceptedPoseidonIsActive | did_kanon/v1_0/zk/zk_issuer.py:484-493 | A depth-26 proof accepted against the published Poseidon root forces the active leaf at the index it spells, or 0 beyond the active leaves, or two colliding Poseidon inputs are returned |
| Commitment.ActiveIffLastAdded | did_kanon/v1_0/zk/zk_issuer.py:501-507 | After any run a key is active if and only if its last event in the log is an add |
| Commitment.AcceptedTaggedIsActive | did_kanon/v1_0/zk/zk_issuer.py:484-493 | A leaf-tagged value that verifies against the published Poseidon root with a proof of any length, shorter or longer than the tree, is an active leaf, or two colliding Poseidon inputs or an input hashing to zero are returned |
| Commitment.PreimagesExist | did_kanon/v1_0/zk/zk_issuer.py:383-407 | In every reachable state every active key is the digest of a 32-byte digest and every active value the hash of a leaf-tagged input, with the preimages in order |
| Commitment.AddRaisesExact | did_kanon/v1_0/zk/zk_issuer.py:383-447 | However `add_issued` raises past `get_or_init` (a credential failing part-way, more than 2^26 leaves, a batch refused or left pending), the instance's map has the leaves the loop got to appended; it is the entry map if and only if there were none |
| Commitment.RevokeRaisesExact | did_kanon/v1_0/zk/zk_issuer.py:274-297 | However `revoke` raises past `get_or_init`, the instance's map lacks the leaves the loop got to; it is the entry map if and only if there were none |
| Commitment.RetryOnFailedInstanceSkips | did_kanon/v1_0/zk/zk_issuer.py:383-411 | After a raise past the loop, retrying the same credentials on that instance returns None and sends nothing |
| Commitment.MovedExact | did_kanon/v1_0/zk/zk_issuer.py:413-447 | With only the snapshot moved above the loop, the map is restored if and only if nothing was collected or the raise came from inside the `try` |
| Commitment.GuardedKeeps | did_kanon/v1_0/zk/zk_issuer.py:413-447 | With the `try` around loop, roots and batch as well, every outcome leaves an instance that is the cold fold of the log |
| IssuerSpec.CheckpointRoundTrip | did_kanon/v1_0/zk/zk_issuer.py:203-224 | `from_dict(to_dict(state))` is the state, with its insertion order |
| Issuer.ResolvedAreGenuine | did_kanon/v1_0/zk/zk_issuer.py:383-402 | Whatever credentials `add_issued` is given, each pair it computes is a digest of a digest and a hash of a leaf-tagged input |
| Issuer.KanonZkIssuerState.Replay | did_kanon/v1_0/zk/zk_issuer.py:501-508 | The in-place replay loop is the fold of the events, and moves the watermark to the tip |
| Issuer.KanonZkIssuer.constructor | did_kanon/v1_0/zk/zk_issuer.py:234-242 | A fresh object is the machine's fresh instance |
| Issuer.KanonZkIssuer.GetOrInit | did_kanon/v1_0/zk/zk_issuer.py:248-263 | The object, the wallet and the result after the call are those of the `GetOrInit` step; the state returned is the cached one |
| Issuer.KanonZkIssuer.LoadCheckpoint | did_kanon/v1_0/zk/zk_issuer.py:510-526 | A missing, unreadable or malformed record gives a fresh state, any other the state it encodes |
| Issuer.KanonZkIssuer.SaveCheckpoint | did_kanon/v1_0/zk/zk_issuer.py:528-561 | The record becomes the state's encoding, or stays as it was when storage fails |
| Issuer.KanonZkIssuer.ComputeKeccakRoot | did_kanon/v1_0/zk/zk_issuer.py:473-478 | Building the tree over the keys in order gives their root; a single zero leaf stands for the empty set |
| Issuer.KanonZkIssuer.ComputePoseidonRoot | did_kanon/v1_0/zk/zk_issuer.py:484-493 | ValueError exactly above 2^26 leaves; otherwise the sparse tree's root is the dense root of the values in order |
| Issuer.KanonZkIssuer.PublishBatch | did_kanon/v1_0/zk/zk_issuer.py:423-458 | Roots, batch, watermark and checkpoint together are the `Publish` step |
| Issuer.KanonZkIssuer.SubmitBatch | did_kanon/v1_0/zk/zk_issuer.py:432-458 | Sending the batch and what follows is the `Submit` step for every fate |
| Issuer.KanonZkIssuer.AdvanceAndSave | did_kanon/v1_0/zk/zk_issuer.py:454-457 | The watermark rises to the receipt's block and never falls, then the new state is saved |
| Issuer.KanonZkIssuer.AddIssued | did_kanon/v1_0/zk/zk_issuer.py:302-458 | The whole call, with its in-place loop and its late snapshot, is the `AddIssued` step of the machine |
| Issuer.KanonZkIssuer.EnsureChainInitialized | did_kanon/v1_0/zk/zk_issuer.py:357-372 | Initialises once, marks only success, swallows failure |
| Issuer.KanonZkIssuer.AddEachAndPublish | did_kanon/v1_0/zk/zk_issuer.py:381-458 | The loop, the late snapshot, the batch and the restore together are the `AddBatch` step |
| Issuer.KanonZkIssuer.AddEach | did_kanon/v1_0/zk/zk_issuer.py:381-407 | The loop's final map, batch and failure are those of `AddLoop` on the resolved credentials |
| Issuer.KanonZkIssuer.Revoke | did_kanon/v1_0/zk/zk_issuer.py:265-300 | The whole call is the `Revoke` step of the machine, of which `RevokeExact` says what it does |
| Issuer.KanonZkIssuer.RevokeEachAndPublish | did_kanon/v1_0/zk/zk_issuer.py:272-300 | The deletions, the batch and what follows are the `RevokeBatch` step |
| Issuer.KanonZkIssuer.RevokeEach | did_kanon/v1_0/zk/zk_issuer.py:272-284 | The loop's final map, batch and failure are those of `RevokeLoop` on the derived leaves, of which `RevokeLoopExact` says what they are |
| Issuer.AddLoopUnchanged | did_kanon/v1_0/zk/zk_issuer.py:409-411 | A loop that collects nothing has changed nothing |
| Issuer.Backend.LeafEvents | did_kanon/v1_0/contracts/merkle_state.py:400-456 | The scan returns the log from the given block on, in chain order, or raises |
| Issuer.Backend.BatchUpdate | did_kanon/v1_0/contracts/merkle_state.py:299-394 | The environment step: the batch becomes one later block with its events in array order, or nothing changes |
| Scan.GetLeafEvents | did_kanon/v1_0/contracts/merkle_state.py:400-456 | Concatenating adds and revokes and sorting by (block, log index) returns exactly the log between the two blocks, in chain order |
| Scan.SortCorrect | did_kanon/v1_0/contracts/merkle_state.py:447-447 | The sort orders its input and keeps it as a multiset |
| Scan.SortedUnique | did_kanon/v1_0/contracts/merkle_state.py:447-447 | Chain order is the only sorted arrangement, so the sort is exact |
| Scan.LateWatermarkExact | did_kanon/v1_0/contracts/merkle_state.py:413-413 | For every ordered log scanned up to t1 and saved with a later watermark t2: after the next replay a key has its true value if and only if an event from t2 on settles it, or the last event strictly between says what the scan had found |
| Scan.LateWatermarkRecovers | did_kanon/v1_0/contracts/merkle_state.py:413-413 | With no event strictly between, the insertion order is right as well |
| Scan.LateWatermarkLoses | did_kanon/v1_0/contracts/merkle_state.py:413-413 | What an event strictly between changed, and none from t2 on settles, is lost: the replay keeps the old value |
| Scan.ReplayComposes | did_kanon/v1_0/zk/zk_issuer.py:498-508 | Folding to block b and then from b inclusive is one fold, with the same insertion order, for every ordered log in which no block re-adds a key it revoked |
| Scan.ReplayComposesAsMap | did_kanon/v1_0/zk/zk_issuer.py:498-508 | Without that condition every key still keeps its value |
| Reorder.ReorderExact | did_kanon/v1_0/zk/zk_issuer.py:501-507 | Main result. For every map and block, replaying the block twice gives the ordered map of replaying it once if and only if, in that map, no key the block revokes precedes one it never revokes |
| Reorder.DropRevoked | did_kanon/v1_0/zk/zk_issuer.py:501-507 | A replay that revokes a key ends the same with that key or without it at the start |
| Reorder.PartFold | did_kanon/v1_0/zk/zk_issuer.py:501-507 | The part of a replay under any set of keys is the replay of that part |
| Events.FoldTwiceSameOrder | did_kanon/v1_0/zk/zk_issuer.py:501-507 | Replaying a block in which no key is added again after its revocation twice gives the same ordered map as once; blocks of adds or of revokes are such |
| Events.FoldTwiceSameMap | did_kanon/v1_0/zk/zk_issuer.py:501-507 | Replaying any events twice gives every key the same value as once |
| Events.MixedBlockReorders | did_kanon/v1_0/zk/zk_issuer.py:501-507 | A block mixing both kinds can change the insertion order, and so both roots, when replayed twice: a concrete block |
| Events.FoldGet | did_kanon/v1_0/zk/zk_issuer.py:501-507 | A key's value after a replay is what its last event says, or what it was |
| MerkleKeccak.ProofClimbs | did_kanon/v1_0/zk/merkle_keccak.py:65-109 | Main result. For every non-empty list and index, the leaf's own proof climbs to the root, through odd-node promotion |
| MerkleKeccak.Refute | did_kanon/v1_0/zk/merkle_keccak.py:74-109 | Main result. From any accepted proof, of any length, that the digest of a 32-byte value is under the root of a list of such digests: the value is in the list, or the function returns two distinct keccak inputs with one digest |
| MerkleKeccak.RefutePublished | did_kanon/v1_0/zk/merkle_keccak.py:74-109 | The same for the list as published, an empty one as a single zero leaf: then an input hashing to zero is returned |
| MerkleKeccak.Descend | did_kanon/v1_0/zk/merkle_keccak.py:74-86 | The walk behind it, from any node of any layer: a claimed leaf below that node, or a collision of two 64-byte nodes or of a 32-byte leaf preimage with a 64-byte node |
| MerkleKeccak.Height | did_kanon/v1_0/zk/merkle_keccak.py:92-109 | The build stops after ceil(log2 N) + 1 layers: N <= 2^h and 2^(h-1) < N |
| MerkleKeccak.ProofLength | did_kanon/v1_0/zk/merkle_keccak.py:65-72 | No proof is longer than the height |
| MerkleKeccak.LayersLinked | did_kanon/v1_0/zk/merkle_keccak.py:97-108 | Each layer is the one below hashed in pairs, the odd last node promoted |
| MerkleKeccak.ClimbOnce | did_kanon/v1_0/zk/merkle_keccak.py:65-72 | A node hashed with its sibling, or left alone without one, is the node above it |
| MerkleKeccak.SortedPairSymmetric | did_kanon/v1_0/zk/merkle_keccak.py:23-25 | The pair hashed is the same from both sides: 64 bytes, the smaller half first |
| MerkleKeccak.SortedPairInjective | did_kanon/v1_0/zk/merkle_keccak.py:23-25 | A pair input determines its two children up to order |
| MerkleKeccak.LessIsNumeric | did_kanon/v1_0/zk/merkle_keccak.py:23-25 | The comparison that sorts a pair is that of the two nodes as big-endian numbers |
| MerkleKeccak.ThreeLeaves | did_kanon/v1_0/zk/merkle_keccak.py:93-109 | The root of three leaves written out: the smaller number first in each pair, the third leaf promoted |
| MerkleKeccak.OZStandardMerkleTree.constructor | did_kanon/v1_0/zk/merkle_keccak.py:36-42 | The layers built are those of the leaves |
| MerkleKeccak.OZStandardMerkleTree.RootOf | did_kanon/v1_0/zk/merkle_keccak.py:48-52 | The root of the leaves; 32 zero bytes when there are none |
| MerkleKeccak.OZStandardMerkleTree.ProofFor | did_kanon/v1_0/zk/merkle_keccak.py:54-63 | ValueError exactly for an absent leaf; otherwise the proof climbs from the leaf to the root |
| MerkleKeccak.OZStandardMerkleTree.ProofForIndex | did_kanon/v1_0/zk/merkle_keccak.py:65-72 | For every integer the proof Python collects, or its IndexError; from 0 on it never raises, has no more entries than the height, and climbs from the leaf to the root for an index in range |
| MerkleKeccak.PathFromEnd | did_kanon/v1_0/zk/merkle_keccak.py:65-72 | A negative index, read from the end of each layer, gives the proof of the leaf it names where every layer is twice as wide as the next |
| MerkleKeccak.FromEndClimbs | did_kanon/v1_0/zk/merkle_keccak.py:65-72 | With 2^h leaves the j-th leaf from the end proves itself under index -j |
| MerkleKeccak.FromEndExact | did_kanon/v1_0/zk/merkle_keccak.py:65-72 | Index -1 gives the last leaf's own proof, and every index -j the proof of the j-th leaf from the end, if and only if the number of leaves is a power of two; otherwise the path under -1 has more entries than that proof |
| MerkleKeccak.FromEndFails | did_kanon/v1_0/zk/merkle_keccak.py:65-72 | With three leaves index -1 gives two entries where the last leaf's proof has one |
| MerkleKeccak.OZStandardMerkleTree.Walk | did_kanon/v1_0/zk/merkle_keccak.py:66-72 | The sibling loop collects exactly the siblings on the way up |
| MerkleKeccak.OZStandardMerkleTree.Verify | did_kanon/v1_0/zk/merkle_keccak.py:74-86 | Accepts exactly when all lengths are 32 and the climb reaches the root |
| MerkleKeccak.OZStandardMerkleTree.BuildLayers | did_kanon/v1_0/zk/merkle_keccak.py:92-109 | The nested loops end and compute the layers |
| MerkleKeccak.OZStandardMerkleTree.BuildNext | did_kanon/v1_0/zk/merkle_keccak.py:98-107 | One layer above a layer, the odd last node promoted |
| MerklePoseidon.PoseidonMerkleTree.constructor | did_kanon/v1_0/zk/merkle_poseidon.py:63-86 | Main result. After construction `_node_at` equals the dense tagged tree over the zero-padded leaves, at every level and index |
| MerklePoseidon.Refute | did_kanon/v1_0/zk/merkle_poseidon.py:115-127 | Main result. A proof of length depth accepted against the root forces the padded leaf at the index its bits spell, in range, or two colliding node inputs are returned |
| MerklePoseidon.RefuteTagged | did_kanon/v1_0/zk/merkle_poseidon.py:25-37 | Main result. The tags keep nodes and leaves apart: from any accepted proof of any length that a leaf-tagged value is under the root of leaf-tagged values, the value is one of them, or two colliding inputs or an input hashing to an empty slot's zero are returned |
| MerklePoseidon.DescendTagged | did_kanon/v1_0/zk/merkle_poseidon.py:25-37 | The walk behind it, which can stop early at a node or run on below a leaf |
| MerklePoseidon.CompareRoots | did_kanon/v1_0/zk/merkle_poseidon.py:96-98 | Equal roots at one depth mean equal padded leaf vectors, or two colliding node inputs are returned |
| MerklePoseidon.Compare | did_kanon/v1_0/zk/merkle_poseidon.py:32-37 | The same below any node: agreement on every leaf under it, or a collision |
| MerklePoseidon.ProofVerifies | did_kanon/v1_0/zk/merkle_poseidon.py:100-127 | Main result. For every index below 2^depth, inserted or not, the generated path verifies the padded leaf against the root and its bits decode to the index |
| MerklePoseidon.DenseIsRow | did_kanon/v1_0/zk/merkle_poseidon.py:46-61 | Materialising all 2^depth padded leaves and hashing row by row gives the same nodes as the dense tree |
| MerklePoseidon.FourLeaves | did_kanon/v1_0/zk/merkle_poseidon.py:32-61 | The tree of depth 2 over three leaves written out, with tag 2, left node first and a zero in the empty slot |
| MerklePoseidon.DenseLocal | did_kanon/v1_0/zk/merkle_poseidon.py:137-149 | Appending a leaf changes only the nodes above it |
| MerklePoseidon.BelowIsSpelled | did_kanon/v1_0/zk/merkle_poseidon.py:115-127 | Following the sides down from the root reaches the index they spell |
| MerklePoseidon.PathSpells | did_kanon/v1_0/zk/merkle_poseidon.py:104-113 | The path bits of an index, with what is left above them, are the index |
| MerklePoseidon.Descend | did_kanon/v1_0/zk/merkle_poseidon.py:115-127 | The binding walk from any node down to the leaf |
| MerklePoseidon.PoseidonMerkleTree.New | did_kanon/v1_0/zk/merkle_poseidon.py:63-71 | ValueError exactly for a depth below 1 or more than 2^depth leaves; otherwise a valid tree over the reduced leaves |
| MerklePoseidon.PoseidonMerkleTree.Zeros | did_kanon/v1_0/zk/merkle_poseidon.py:78-80 | Each precomputed zero is the root of an empty subtree of that height, at every index |
| MerklePoseidon.PoseidonMerkleTree.InsertAll | did_kanon/v1_0/zk/merkle_poseidon.py:85-86 | Inserting the leaves in order takes the sparse tree from empty to all of them |
| MerklePoseidon.PoseidonMerkleTree.Insert | did_kanon/v1_0/zk/merkle_poseidon.py:137-149 | Writing the next leaf and rehashing its ancestors takes the sparse tree from one dense tree to the next, on all levels |
| MerklePoseidon.PoseidonMerkleTree.Rehash | did_kanon/v1_0/zk/merkle_poseidon.py:140-149 | Each turn of that loop moves the border between the old and the new dense tree up one level |
| MerklePoseidon.PoseidonMerkleTree.SetNode | did_kanon/v1_0/zk/merkle_poseidon.py:137-149 | One dictionary write changes one node and no other |
| MerklePoseidon.PoseidonMerkleTree.RootOf | did_kanon/v1_0/zk/merkle_poseidon.py:96-98 | The dense root |
| MerklePoseidon.PoseidonMerkleTree.ProofForIndex | did_kanon/v1_0/zk/merkle_poseidon.py:100-113 | ValueError exactly out of range, otherwise the path of the index in the dense tree |
| MerklePoseidon.PoseidonMerkleTree.Verify | did_kanon/v1_0/zk/merkle_poseidon.py:114-127 | Accepts exactly when the lengths agree and the climb reaches the root mod p |
| BabyJub.AddComplete | did_kanon/v1_0/zk/_babyjub.py:73-99 | Main result. For on-curve inputs, with p an odd prime, a a nonzero square and d a non-square, `add` never raises and its result satisfies `in_curve` and is reduced |
| BabyJub.AddComputes | did_kanon/v1_0/zk/_babyjub.py:73-99 | When both denominators are nonzero `add` returns the two quotients of the addition formula |
| BabyJub.DenominatorsNonzero | did_kanon/v1_0/zk/_babyjub.py:92-95 | Neither denominator vanishes on the curve |
| BabyJub.NotUnit | did_kanon/v1_0/zk/_babyjub.py:92-95 | d times the cross product of two curve points is never 1 or -1: otherwise d would be a square |
| BabyJub.SumOnCurve | did_kanon/v1_0/zk/_babyjub.py:73-99 | A point satisfying the addition formula for curve points is on the curve |
| BabyJub.SumUnique | did_kanon/v1_0/zk/_babyjub.py:73-99 | The formula has one reduced solution |
| BabyJub.InCurveIsOn | did_kanon/v1_0/zk/_babyjub.py:127-134 | `in_curve`, with its intermediate reductions, decides the curve equation mod p |
| Field.ModInv | did_kanon/v1_0/zk/_babyjub.py:64-67 | The inverse, reduced, when one exists; no inverse exists when it raises |
| Field.PrimeInverse | did_kanon/v1_0/zk/_babyjub.py:64-67 | Mod a prime every nonzero residue has one |
| CurveLaw.CurveIsLawful | did_kanon/v1_0/zk/_babyjub.py:73-99 | On a complete curve `add` is total and closed on curve points, with (0, 1) neutral on both sides |
| CurveLaw.Commutative | did_kanon/v1_0/zk/_babyjub.py:73-99 | `add(p, q) == add(q, p)` on the curve |
| CurveLaw.Neutral | did_kanon/v1_0/zk/_babyjub.py:117-117 | (0, 1) is on the curve and neutral |
| CurveLaw.Inverse | did_kanon/v1_0/zk/_babyjub.py:73-99 | (-x, y) is on the curve and the inverse of (x, y) |
| ScalarMul.ScalarIsTimes | did_kanon/v1_0/zk/_babyjub.py:108-124 | Main result. `mul(b, k)` is the k-fold sum and `mul(b, j + k) == add(mul(b, j), mul(b, k))` for all j and k, given associativity on multiples of b |
| ScalarMul.LadderTimes | did_kanon/v1_0/zk/_babyjub.py:119-124 | From n*b and m*b the loop reaches (n + m*k)*b |
| ScalarMul.LadderTotal | did_kanon/v1_0/zk/_babyjub.py:119-124 | On any curve point the loop never raises and stays on the curve |
| ScalarMul.Mul | did_kanon/v1_0/zk/_babyjub.py:108-124 | The loop computes the double-and-add value; ValueError for a negative scalar |
| ScalarMul.TimesMod | did_kanon/v1_0/zk/_babyjub.py:39-43 | Multiples of a point of order dividing n depend only on the scalar mod n |
| ScalarMul.ScalarOfMultiple | did_kanon/v1_0/zk/_babyjub.py:108-124 | `mul(m*b, k)` is (m*k)*b |
| Instances.BabyJubjubComplete | did_kanon/v1_0/zk/_babyjub.py:33-43 | At the source's constants completeness needs only that P is prime and D a non-square; A is a nonzero square by an explicit root, and ORDER is 8 times SUB_ORDER |
| Instances.CurveSignThenVerify | did_kanon/v1_0/zk/eddsa.py:110-200 | Sign-then-verify over the real addition law: only associativity on multiples of the base and the base's order remain as hypotheses |
| Instances.HypothesesSatisfiable | did_kanon/v1_0/zk/eddsa.py:163-200 | Every hypothesis of the signature theorem holds together on the curve 4x^2 + y^2 = 1 + 6x^2y^2 over 7 elements with base (1, 4) of order 3 |
| Eddsa.SignThenVerify | did_kanon/v1_0/zk/eddsa.py:110-200 | Main result. For every 32-byte key and every leaf, verifying the signature under the restored key answers exactly: S is not 0, R8 is not the identity and A is not the identity |
| Eddsa.VerificationEquation | did_kanon/v1_0/zk/eddsa.py:197-200 | S*b = r*b + k*(m*b) when S is r + m*k mod the order of b |
| Eddsa.ScalarsAgree | did_kanon/v1_0/zk/eddsa.py:159-198 | (8c mod 8n)*(s/8) and c*s agree mod n because clamping makes s a multiple of 8 |
| Eddsa.Clamped | did_kanon/v1_0/zk/eddsa.py:78-86 | The clamped scalar is a multiple of 8 with bit 254 set and bit 255 clear |
| Eddsa.BitMasks | did_kanon/v1_0/zk/eddsa.py:83-85 | The three masks keep the high five bits, the low seven bits, and set bit 6 |
| Eddsa.Prune | did_kanon/v1_0/zk/eddsa.py:78-86 | ValueError exactly off 32 bytes; otherwise only the low three bits and the top two of the buffer change, as clamping says |
| Eddsa.KeyTextRoundTrip | did_kanon/v1_0/zk/eddsa.py:104-116 | The text `generate_issuer_key` stores decodes to the bytes it was made from |
| Eddsa.RestoreIssuerKey | did_kanon/v1_0/zk/eddsa.py:110-127 | The restored key pairs the public point of the decoded key with a text that has its 0x and decodes to the same key; ValueError for any text that is not 32 bytes of hex |
| Eddsa.SignPoseidon | did_kanon/v1_0/zk/eddsa.py:130-160 | The signature is that of the specification, with ValueError for a malformed key |
| Eddsa.VerifyPoseidon | did_kanon/v1_0/zk/eddsa.py:163-200 | The early rejections and the equation decide as specified |
| Eddsa.VerifyRaises | did_kanon/v1_0/zk/eddsa.py:163-200 | Verification raises exactly on a negative S that passes the early checks |
| Eddsa.OneResponse | did_kanon/v1_0/zk/eddsa.py:174-200 | What the bound on S buys: for one R8, leaf and key at most one S is accepted, if no smaller positive multiple of the base is neutral |
| Eddsa.SecondResponseRejected | did_kanon/v1_0/zk/eddsa.py:174-200 | Only the bound stands in the way: adding SUB_ORDER to an accepted S gives the same multiple of the base, and verification answers False |
| EddsaBinding.SignatureBindsLeaf | did_kanon/v1_0/zk/eddsa.py:163-200 | Main result. One signature accepted for two leaves that differ mod p, by a key and nonce point that are multiples of the base: two colliding Poseidon inputs are returned, or the two challenges are distinct and agree mod SUB_ORDER |
| EddsaBinding.CompareChallenges | did_kanon/v1_0/zk/eddsa.py:193-195 | Equal challenges mean the same nonce point, key and leaf mod p, or two colliding Poseidon inputs are returned |
| EddsaBinding.TwoLeaves | did_kanon/v1_0/zk/eddsa.py:193-200 | For any key and nonce point: a collision, or two distinct challenges whose multiples of the key give the same right-hand side |
| EddsaBinding.ChallengesAnnihilate | did_kanon/v1_0/zk/eddsa.py:197-200 | The difference of two such challenges, times the cofactor, annihilates the key |
| EddsaBinding.AcceptedExact | did_kanon/v1_0/zk/eddsa.py:174-200 | A signature is accepted if and only if 0 < S < SUB_ORDER, both points are on the curve and neither is neutral, and S times the base is R8 plus 8c times the key, for c the hash of both points and the leaf |
| EddsaBinding.NonceReuse | did_kanon/v1_0/zk/eddsa.py:147-151 | Two leaves that differ mod p and get one nonce under one key: the function returns the two different 64-byte texts, the key half then the leaf, whose digests agree mod SUB_ORDER |
| EddsaBinding.SecretBytes | did_kanon/v1_0/zk/eddsa.py:142-144 | The bytes of the secret scalar, lowest first, are those of the digest's first half but for the five bits that clamping fixes |
| Eddsa.Encode | did_kanon/v1_0/zk/eddsa.py:203-210 | Encoding succeeds exactly when the three values fit in 32 bytes, and then is 96 bytes |
| Eddsa.EncodeDecode | did_kanon/v1_0/zk/eddsa.py:203-223 | Decoding an encoded signature gives it back; bytes 0-31 read as R8's x, 32-63 as its y and 64-95 as S |
| Eddsa.DecodeEncode | did_kanon/v1_0/zk/eddsa.py:203-223 | Encoding what 96 bytes decode to gives the bytes back |
| KeyService.AllCallersAgree | did_kanon/v1_0/zk/zk_issuer_key.py:106-194 | Main result. In every interleaving of any number of tasks and service instances, with failures and crashes, every provision, load and signing gets the one key whose private half is stored, provided each `invalidate` finds no provision in flight or a record already stored |
| KeyService.InvalidateExact | did_kanon/v1_0/zk/zk_issuer_key.py:198-209 | Main result. That proviso is exact: after any run meeting it, a further `invalidate` leaves all callers agreeing in every failure-free continuation if and only if no provision is in flight or a record is already stored |
| KeyService.InvalidateInFlightBreaks | did_kanon/v1_0/zk/zk_issuer_key.py:198-209 | The failing half, from every such state: with a provision in flight and nothing stored, two callers go on to get different keys with no failure at all |
| KeyAnswers.LoadAnswersStored | did_kanon/v1_0/zk/zk_issuer_key.py:157-165 | A load that starts, or has yet to read, when a record is stored answers with that record's key and never with None |
| KeyAnswers.AnswersAreStored | did_kanon/v1_0/zk/zk_issuer_key.py:106-194 | Main result. In every run meeting the proviso, from the moment a record is stored, no task that had read nothing else ever holds or answers anything else, whatever fails, crashes or is invalidated |
| KeyAnswers.ReadersEnd | did_kanon/v1_0/zk/zk_issuer_key.py:145-194 | Main result. Progress: from then on a load or signing that takes at most three steps of its own and is not failed ends with that key, whatever every other task does meanwhile |
| KeyAnswers.FailsOnlyByFail | did_kanon/v1_0/zk/zk_issuer_key.py:181-188 | From then on such a task is found failed only after a failure of its own: a signing always finds its key |
| KeyAnswers.NoDeadlock | did_kanon/v1_0/zk/zk_issuer_key.py:120-143 | Main result. After every run whatever, each unfinished call can be brought to its end by steps alone; it fails only as a signing that finds no key |
| KeyAnswers.NoKeyAfterStore | did_kanon/v1_0/zk/zk_issuer_key.py:128-136 | Once a record is stored no further key is generated |
| KeyAnswers.ReturnsFromCache | did_kanon/v1_0/zk/zk_issuer_key.py:116-126 | Without crash or `invalidate`, once a service has returned a key its further calls return that key in their first step, those waiting as soon as the lock is free, with no read |
| KeyAnswers.ReadsAfterInvalidate | did_kanon/v1_0/zk/zk_issuer_key.py:198-209 | After an `invalidate` the service's next load reads the store, and its next provision takes a lock object that no task holds or waits for |
| KeyService.AtMostOneKey | did_kanon/v1_0/zk/zk_issuer_key.py:106-143 | Main result. No more keys are generated than failures and crashes plus one; with none, at most one |
| KeyService.StoredForGood | did_kanon/v1_0/zk/zk_issuer_key.py:258-291 | Once a record is stored it never changes |
| KeyService.MutualExclusion | did_kanon/v1_0/zk/zk_issuer_key.py:120-143 | Two tasks inside the lock's block are one task: in every run when they entered by one lock object, while nothing is stored in every run meeting the proviso, and always when no `invalidate` finds a provision in flight |
| KeyService.LocksAlways | did_kanon/v1_0/zk/zk_issuer_key.py:120-143 | In every run whatever, a task inside the block owns its lock object, and an owned lock object is held by a live task inside its block |
| KeyService.RunKeeps | did_kanon/v1_0/zk/zk_issuer_key.py:106-194 | The inductive invariant of all interleavings: locks, caches, the store and what each task knows of it |
| Blake.HashMeetsSpec | did_kanon/v1_0/zk/_blake1.py:159-223 | Main result. At every length not 111 mod 128 the code's hash is the fold of compression over the specified padded blocks, with the specified counters |
| Blake.PaddingMeetsSpec | did_kanon/v1_0/zk/_blake1.py:186-194 | The padded bits are the specified ones if and only if the length is not 111 mod 128; there they are one block longer |
| Blake.CountsAgree | did_kanon/v1_0/zk/_blake1.py:186-192 | The two counts of zero bits, for every length |
| Blake.TailBits | did_kanon/v1_0/zk/_blake1.py:187-194 | The bits the code appends, marker by marker |
| Blake.ChainsAgree | did_kanon/v1_0/zk/_blake1.py:171-220 | Chaining over bytes and over the packed bits agree, block by block |
| Blake.Blake512 | did_kanon/v1_0/zk/_blake1.py:159-223 | The method computes that hash, 64 bytes, and fails exactly where the length field overflows |
| Blake.FullBlocks | did_kanon/v1_0/zk/_blake1.py:171-176 | After the loop every full block is hashed, each with its counter |
| Blake.PadRemainder | did_kanon/v1_0/zk/_blake1.py:186-192 | The fill loop ends after exactly the zero bytes that reach 111 mod 128 |
| Blake.FinalBlocks | did_kanon/v1_0/zk/_blake1.py:195-220 | The last one or two blocks, counter 0 where no message bit is left |
| Blake.TailChain | did_kanon/v1_0/zk/_blake1.py:195-220 | Those blocks are the last steps of the chain |
| Blake.Compress | did_kanon/v1_0/zk/_blake1.py:123-156 | The in-place compression is the sixteen rounds between initial state and finalisation |
| Blake.RoundInPlace | did_kanon/v1_0/zk/_blake1.py:139-152 | The eight in-place mixings are one round |
| Blake.FoldBack | did_kanon/v1_0/zk/_blake1.py:154-156 | Each word of h takes in both halves of v and the salt |
| Blake.WordsAreBigEndian | did_kanon/v1_0/zk/_blake1.py:126-126 | Each of the sixteen message words is spelled by its eight bytes of the block, highest first |
| Blake.InitialWords | did_kanon/v1_0/zk/_blake1.py:128-137 | Without the constants the initial state is the chaining value, the salt, the low 64 bits of the counter twice and the next 64 bits twice |
| Blake.OutputBytes | did_kanon/v1_0/zk/_blake1.py:223-223 | Bytes 8i to 8i + 8 of the digest spell word i, highest first |
| Blake.CompressionBack | did_kanon/v1_0/zk/_blake1.py:139-156 | The compression's output is the fold-back of a state from which sixteen rounds backwards reach the initial state |
| Blake.FinishBack | did_kanon/v1_0/zk/_blake1.py:154-156 | Xoring an output word with the salt and both halves of that state gives the old word back |
| Blake.PackByteBits | did_kanon/v1_0/zk/_blake1.py:126-126 | Packing the bits of bytes gives the bytes |
| Blake.LengthBits | did_kanon/v1_0/zk/_blake1.py:194-194 | The sixteen length bytes spell the 128-bit length |
| BlakeRounds.SixteenRoundsBijective | did_kanon/v1_0/zk/_blake1.py:139-152 | Main result. For a fixed block the sixteen rounds are a bijection on sixteen 64-bit words, with an explicit inverse |
| BlakeRounds.MixInverse | did_kanon/v1_0/zk/_blake1.py:102-120 | `_G` with its message inputs fixed is a bijection on four words |
| BlakeRounds.MixDetermines | did_kanon/v1_0/zk/_blake1.py:102-120 | A mixing hides neither message input: the four words before and after determine both |
| BlakeRounds.LaneForm | did_kanon/v1_0/zk/_blake1.py:143-152 | The first four mixings take the columns of the 4 x 4 state, the last four its diagonals |
| BlakeRounds.MixingShowsWords | did_kanon/v1_0/zk/_blake1.py:139-152 | Neither half of a round hides any of the eight message words its row names there: two blocks that take a state to one state before the half and to one after it agree on both words of each of its mixings |
| BlakeRounds.RoundInverse | did_kanon/v1_0/zk/_blake1.py:141-152 | Any number of mixings of a round, undone in reverse order |
| BlakeRounds.MixInPlace | did_kanon/v1_0/zk/_blake1.py:102-120 | The eight in-place assignments are the mixing on the four named words and leave the others |
| BlakeRounds.HalfInPlace | did_kanon/v1_0/zk/_blake1.py:113-120 | Four of the eight assignments on the array are the four steps on the named words |
| Words.RotrBack | did_kanon/v1_0/zk/_blake1.py:41-43 | Rotating by n and on by 64 - n is the identity, from the shifts, or and mask as written |
| Words.XorCancels | did_kanon/v1_0/zk/_blake1.py:114-120 | Xor with the same word twice is the identity |
| Poseidon.PoseidonHash | did_kanon/v1_0/zk/poseidon.py:99-158 | ValueError exactly for no input or more than 16; otherwise the in-place round loops compute the specified permutation's first element |
| Poseidon.FieldPermutationInjective | did_kanon/v1_0/zk/poseidon.py:135-156 | Main result. Over a prime field with 5e = 1 mod p - 1 and an inverse of the matrix, distinct reduced states stay distinct through any number of rounds: the hash can collide only in what it discards of the last state |
| Poseidon.LastStateDetermines | did_kanon/v1_0/zk/poseidon.py:131-156 | Main result. Under the same hypotheses the last state determines the capacity element and every input mod p |
| Poseidon.ThreePhases | did_kanon/v1_0/zk/poseidon.py:135-156 | The permutation is four full rounds, then the partial ones, then four full rounds, each phase its own iteration |
| Poseidon.PartialRoundAffine | did_kanon/v1_0/zk/poseidon.py:141-156 | A partial round bends only its first element: on states that share it, the results differ by the matrix times the states' difference mod p |
| Poseidon.PermuteInjective | did_kanon/v1_0/zk/poseidon.py:135-156 | The same from injective layers |
| Poseidon.RoundInjective | did_kanon/v1_0/zk/poseidon.py:136-156 | One round, full or partial |
| Poseidon.InverseExponent | did_kanon/v1_0/zk/poseidon.py:91-96 | By Fermat's little theorem, proved in `Fermat`, an exponent with 5e = 1 mod p - 1 inverts the S-box on every residue |
| Poseidon.SboxAtTheSourcesPrime | did_kanon/v1_0/zk/poseidon.py:91-96 | At BN254_PRIME the S-box is injective on residues, given that it is prime |
| Poseidon.InverseGivesInjective | did_kanon/v1_0/zk/poseidon.py:148-156 | The matrix product is injective on reduced states when the matrix has an inverse mod p |
| Poseidon.SboxInjective | did_kanon/v1_0/zk/poseidon.py:91-96 | The S-box is injective on residues when the fifth power has an inverse exponent |
| Poseidon.Pow5IsFifthPower | did_kanon/v1_0/zk/poseidon.py:91-96 | `_pow5` is x^5 mod p |
| Poseidon.HashOfResidues | did_kanon/v1_0/zk/poseidon.py:131-132 | The hash depends only on the inputs mod p |
| Poseidon.AddRound | did_kanon/v1_0/zk/poseidon.py:136-139 | The constant loop adds each element's constant |
| Poseidon.SboxRound | did_kanon/v1_0/zk/poseidon.py:141-146 | Full rounds apply the S-box to every element, partial rounds to the first |
| Poseidon.MixRound | did_kanon/v1_0/zk/poseidon.py:148-156 | The nested loops are the matrix product |
| Poseidon.HypothesesSatisfiable | did_kanon/v1_0/zk/poseidon.py:91-96 | The hypotheses hold together where both layers act: modulus 7, exponent 5, the matrix 2 1 / 1 1 |
| Witness.WriteLimbs | did_kanon/v1_0/zk/witness.py:157-165 | After the write loop all words are signed 32-bit and reading back gives the value if and only if it is below 2^(32*n32); then word j, masked, is its digit of weight 2^(32j) |
| Witness.MemoryIsLittleEndian | did_kanon/v1_0/zk/witness.py:158-165 | Memory word j, masked, is the digit of weight 2^(32j) of the value read back |
| Witness.WordIsDigit | did_kanon/v1_0/zk/witness.py:71-79 | Masked words are the base-2^32 digits of their value, the last of weight 1 |
| Witness.WriteInput | did_kanon/v1_0/zk/witness.py:153-165 | Every raw input is read back as its residue mod a prime that fits, and word j holds the residue's digit j |
| Witness.ReadLimbs | did_kanon/v1_0/zk/witness.py:175-179 | The read loop is the masked recombination of the reversed words |
| Witness.PackUnpack | did_kanon/v1_0/zk/witness.py:59-79 | `_from_array32(_to_array32(n, size)) == n` for every n and size |
| Witness.UnpackPack | did_kanon/v1_0/zk/witness.py:59-79 | `_to_array32(_from_array32(words), n32) == words` for every n32 words |
| Witness.DigitCount | did_kanon/v1_0/zk/witness.py:59-68 | The digits fit in size words if and only if the value is below 2^(32*size) |
| Witness.ToArray32 | did_kanon/v1_0/zk/witness.py:59-68 | The two insertion loops give the digits, left-padded |
| Witness.FromArray32 | did_kanon/v1_0/zk/witness.py:71-79 | The loop is the masked recombination |
| Leaf.SignedIsPublished | did_kanon/v1_0/zk/mode_b.py:101-112 | Main result. The leaf signed at preparation is the leaf `add_issued` publishes, from the domain map in any insertion order or from the full prepared map, with the credDef id as text or bytes |
| Leaf.SigningAndPublishing | did_kanon/v1_0/zk/mode_b.py:83-112 | A credential is signed, and its credDef text accepted for publishing, exactly when the domain map has no reserved name and at most 16 entries and the text is 64 hex digits after any 0x |
| Leaf.EncodeIndependent | did_kanon/v1_0/zk/attributes.py:98-100 | Maps with the same values outside the excluded names encode alike, whatever their insertion order |
| Leaf.CanonicalOrder | did_kanon/v1_0/zk/attributes.py:98-99 | The encoded names are exactly the included ones, strictly ascending |
| Leaf.EncodeLooksUpPresent | did_kanon/v1_0/zk/attributes.py:100-100 | No lookup misses |
| Leaf.PadAttrs | did_kanon/v1_0/zk/attributes.py:108-125 | ValueError exactly above 16; otherwise the reduced felts followed by zeros to 16 |
| Leaf.CompareLeaves | did_kanon/v1_0/zk/zk_issuer.py:163-186 | Equal leaves name the same credDef, the same credential and the same sixteen attributes, or the function returns two colliding Poseidon inputs |
| LeafBinding.LeafBindsValues | did_kanon/v1_0/zk/zk_issuer.py:163-186 | Main result. Maps with the same included names whose published leaves are equal have the same value under every name, the same credential id, and credDef bytes that agree mod p; or the function returns two colliding Poseidon inputs, two texts whose keccak digests agree mod p, or one whose digest is 0 mod p |
| LeafBinding.ComparePublished | did_kanon/v1_0/zk/zk_issuer.py:163-186 | The same without the condition on names: the values agree in name order |
| LeafBinding.CompareSigned | did_kanon/v1_0/zk/mode_b.py:101-112 | The same for two leaves that are signed, on the bytes their credDef texts decode to |
| LeafBinding.CompareEncodings | did_kanon/v1_0/zk/attributes.py:98-100 | Maps with the same included names that encode alike have the same value under every one of them, or two texts with digests that agree mod p are returned |
| LeafBinding.EncodedResidue | did_kanon/v1_0/zk/attributes.py:77-100 | The i-th felt is the keccak digest mod p of the value under the i-th included name |
| LeafBinding.LeafFormula | did_kanon/v1_0/zk/zk_issuer.py:179-186 | The published leaf from the hash functions alone: the tag 1, the credDef bytes and the id's digest mod p, and the hash of sixteen slots filled in name order; none above 16 attributes |
| LeafBinding.NamesNotBound | did_kanon/v1_0/zk/attributes.py:98-100 | The names themselves are not hashed: one value under either of two names gives one leaf |
| LeafBinding.ReservedIgnored | did_kanon/v1_0/zk/attributes.py:46-54 | Exactly the three reserved names stay out of the leaf: setting one of them to anything leaves the published leaf as it was, any other name is encoded |
| LeafBinding.CompareDerived | did_kanon/v1_0/zk/zk_issuer.py:65-93 | Equal keccak leaves come from the same 32 bytes, or two colliding keccak inputs are returned |
| LeafBinding.NameOrderIsLexicographic | did_kanon/v1_0/zk/attributes.py:99-99 | The order of the names is the lexicographic order by characters |
| Leaf.PublishableText | did_kanon/v1_0/zk/zk_issuer.py:55-93 | A text accepted for signing is accepted for publishing exactly when it holds no whitespace |
| Encoding.BigEndianRoundTrip | did_kanon/v1_0/zk/eddsa.py:207-222 | Reading 32 big-endian bytes gives back the integer written |
| Encoding.BigEndianBytes | did_kanon/v1_0/zk/eddsa.py:207-222 | Writing what big-endian bytes read as gives the bytes back |
| Encoding.BigEndianDigits | did_kanon/v1_0/zk/eddsa.py:207-209 | Byte i of k is the base-256 digit of weight 256^(k - 1 - i) |
| Encoding.LittleEndianRoundTrip | did_kanon/v1_0/zk/eddsa.py:89-96 | Reading little-endian bytes gives back the integer written |
| Encoding.LittleEndianByte | did_kanon/v1_0/zk/eddsa.py:89-90 | Byte i of a little-endian buffer has weight 256^i in what it reads as |
| Encoding.HexCaseIgnored | did_kanon/v1_0/zk/eddsa.py:110-112 | The case of hex digits does not matter |
| Encoding.HexRoundTrip | did_kanon/v1_0/zk/eddsa.py:106-116 | `bytes.fromhex(b.hex()) == b` |

## Left out

- Concurrent issuers on one credDef: each computes roots from its own snapshot, and the commitment results do not extend there.
- Several credDefs in one issuer or key service: caches, locks and records are keyed by credDef and independent, so one is modelled.
- Chain reorganisations, and a receipt whose status says the transaction failed: a returned receipt is taken as applied.
- Issuer.Backend.BatchUpdate: the checks before sending (operator key, array lengths, byte lengths) and the transport errors are one refusal, because a batch is a list of leaf pairs here and each of them raises without sending; the receipt's status is not read, as in the source.
- A batch landing in the middle of a call: it is mined before that call's own batch, which is the pending queue's order, or else before or after the call.
- The hex text of active leaves and the 32-byte form of published felts: leaves are digests and felts; the hex and big-endian round trips are in `Encoding`.
- JSON and wallet storage: a record is its decoded content, and an unreadable one is a failure of the load. Letter case of stored hex is not modelled.
- IssuerSpec.CheckpointRoundTrip: the record is the pair of arrays and the watermark, because its JSON text and the case of its hex are the storage library's and the hex codec's.
- Eddsa.Encode: the 96 bytes only, because the base64 text around them is an unseen library's.
- Eddsa.EncodeDecode: on the 96 bytes, for the same reason.
- Eddsa.DecodeEncode: on the 96 bytes, for the same reason.
- Associativity of the curve law, primality of P, non-squareness of D, and that BASE8 is on the curve with order SUB_ORDER: hypotheses, as the values of GENERATOR and BASE8 are not re-checked.
- The hash inside `Eddsa` is any function to 64 bytes; `Blake` models BLAKE-512 on its own. Its constant tables are transcribed and have no independent reference here.
- The concrete Poseidon constant tables: the tables are a parameter of the right shape, and that each matrix has an inverse mod p is a hypothesis. Loading and parsing them (`_parse_field`) is left out.
- Type errors raised for arguments of the wrong Python type.
- Key records that exist but are empty or corrupt: the first reads as absent in the source, the second raises and is one of the failures a task can meet.
- Whether a key's write inserts a record or updates one: it replaces what is stored, and no result depends on an insert under an id taken since.
- Randomness: drawn keys and credential ids are parameters.
- The witness calculator's name hash, input flattening and the WASM calls; only the words that cross its memory are modelled.
- Pairings, the Groth16 prover and its file format, HTTP routes, the DID registrar and the other registry contracts: unseen libraries or plumbing around them.
- Encoding of the published events by the contract, and the Solidity and circom counterparts of both trees: not part of this model.
