# GitMesh in Dafny

GitMesh is a decentralised Git remote.  This project models the parts of it that carry
state or formats and proves what they promise:

* `RefModel`, `RefNames`, `RefStore`, `RefHistory`, `RefTamper`, `RefSnapshot`, `RefRoundTrip`: the coordinator's ref
  store.  Compare-and-swap refs, idempotency receipts, a mutation log and a hash-chained
  checkpoint log, their validator and their text snapshot.
* `RepoPolicy`, `RefSigning`: the epoch-versioned policy and signed ref updates.
* `GitOid`, `GitObjects`, `PackVarint`, `PackDelta`, `PackResolve`, `PackDerivation`, `Pack`,
  `PackRoundTrip`:
  Git's canonical objects, trees and commit links, and the pack codec with its memoising
  delta resolver, in the format of Git's gitformat-pack(5).
* `ObjectGraph`: ancestor search, closure export and tree validation.
* `Erasure`, `LocalRepair`: erasure-coded segments, their audit and local repair.
* `Network`, `Directory`, `DirectorySnapshot`, `Placement`, `Peer`: provider records, the
  availability directory, greedy placement and replay-safe peers.
* `TransportRepair`, `TransportSafety`, `TransportLiveness`, `TransportOutcomes`,
  `TransportListing`: audit and repair over a swarm of peers.
* `ObjectStore`, `ObjectStoreSafety`, `ObjectAvailability`: Git objects encrypted, encoded and
  read back, and the availability report of an object.
* `Daemon`, `DaemonSafety`, `PublicationGate`, `DaemonCommands`, `LocalAvailability`: the
  daemon's commands as steps of one state machine, and its whole-run safety.
* `Prelude`, `Text`, `Core`, `Ordering`: bytes, decimals, UTF-8, content identifiers and the
  iteration order of Rust's ordered collections.

Where the code updates fields in place there is a class whose methods do the same, each proved
against a function on values; the theorems are about those functions and about runs of them.
Lemmas named `...Exact` say what such a function computes over the stored fields and the
inputs, without naming it or its helpers, so that it is not its own specification.

## Hypotheses

Hashes, signatures, authenticated encryption, zlib and Reed-Solomon are parameters.  What the
theorems need of them is written as a predicate and required where it is used:

* `Core.CollisionFree`, and the predicates built on it (`RefTamper`, `LocalRepair.Lawful`,
  `TransportSafety.NoCollisions`): the hash separates the finitely many transcripts at hand.
* `Pack.Faithful`: inflating a deflated payload gives it back and reports the bytes it used.
* `Erasure.Mds`: any `k` of the `k + m` shards of a codeword determine all of them.
* `ObjectStore.SoundLibrary`: every code is MDS, and opening what was sealed gives it back.

Time and fresh encryption secrets are inputs of the commands that use them.  The order of
`BTreeMap` keys is computed where the code depends on it (`Ordering.StrLe`); for content and
object identifiers the results hold for any total order.

## Results that differ from the documentation

* An unsigned update passes before protected refs are looked at, so protection holds exactly
  for policies that refuse unsigned updates (`RepoPolicies.ProtectionExact`).
* A pack whose entries can all be derived may still be refused, because a candidate that fails
  inside the search for a base by id stays marked (`PackDerivation.ResolvablePackRefused`).  It
  resolves whenever bases precede deltas, and exactly when derivable if all bases are offsets.
* Size codes are not unique: bits shifted out of the word are lost (`PackVarint.LostBitsCollide`);
  offset codes are unique whenever the number fits in 64 bits.
* A greedy placement can miss a plan over two regions (`Placement.TwoRegionsMissed`);
  `Placement.PlanExact` says when it finds one.
* A failed request to store a shard still leaves the shard (`Peer.PutExact`).
* Pruning forgets lease epochs (`Directory.PruneForgets`).
* The local nodes of the daemon span two regions whatever the storage policy asks for, so with a
  larger minimum an object that was only put locally cannot be published
  (`LocalAvailability.PutThenPublishable`).

## Model

| member | source | states |
|---|---|---|
| Core.CidTranscriptInjective | crates/gitmesh-core/src/lib.rs:63-76 | the length-prefixed transcript of an identifier determines its kind and payload |
| Core.NewCidInjective | crates/gitmesh-core/src/lib.rs:63-76 | equal identifiers have equal kinds and payloads unless their two transcripts collide under the hash |
| Core.ShardTranscriptInjective | crates/gitmesh-core/src/lib.rs:209-217 | a shard identifier's transcript determines segment digest, index and bytes |
| Core.DecodeHexOfHex | crates/gitmesh-core/src/lib.rs:219-265 | the hexadecimal reader inverts the writer |
| Core.DecodeHexExact | crates/gitmesh-core/src/lib.rs:252-274 | a text is read exactly as the bytes whose hexadecimal form it is, up to case |
| Core.ParseCidOfText | crates/gitmesh-core/src/lib.rs:113-146 | reading the text form of any identifier gives the identifier back |
| Text.DecodeUtf8OfUtf8 | crates/gitmesh-network/src/lib.rs:1888-1890 | the UTF-8 decoder recovers every string from its encoding |
| Prelude.ParseUnsignedExact | crates/gitmesh-coordination/src/lib.rs:706-816 | a number field is read exactly from its decimal text, behind any zeros and at most one plus sign, when it is in range |
| Prelude.LinesStep | crates/gitmesh-coordination/src/lib.rs:706-720 | a line ends at its newline, without the carriage return before it, and the last one needs none |
| RefModel.FingerprintExact | crates/gitmesh-coordination/src/lib.rs:82-93 | two updates with valid ref names have equal fingerprints exactly when they agree on every fingerprinted field, although the colon-joined text ends in a free-form signer |
| RefModel.RefsRootInjective | crates/gitmesh-coordination/src/lib.rs:951-964 | equal refs roots mean equal ref maps, unless the transcripts collide |
| RefModel.RefsTranscriptPrefixFree | crates/gitmesh-coordination/src/lib.rs:951-964 | the refs transcript determines the ref map and where it ends, whatever follows it |
| RefModel.HistoryTranscriptInjective | crates/gitmesh-coordination/src/lib.rs:966-992 | a history root's transcript determines the previous root and every field of the mutation |
| RefModel.CheckpointTranscriptInjective | crates/gitmesh-coordination/src/lib.rs:994-1011 | a checkpoint's transcript determines sequence, parent, refs root and history root |
| RefNames.RefNameGrammar | crates/gitmesh-coordination/src/lib.rs:1172-1189 | a name is valid exactly when it is `refs` and one or more components joined by slashes, each non-empty, of allowed characters, without two dots in a row and not ending in `.lock` |
| RefNames.TransactionIdGrammar | crates/gitmesh-coordination/src/lib.rs:51-62 | a transaction id is one or more ASCII letters, digits, hyphens and underscores |
| RefStores.RefStore.ApplyUpdate | crates/gitmesh-coordination/src/lib.rs:573-623 | the new refs, receipts, mutation log and checkpoint log, and the receipt returned, for a first, repeated, reused, conflicting or committed update |
| RefStores.RefStore.AppendCheckpoint | crates/gitmesh-coordination/src/lib.rs:818-836 | exactly one checkpoint is appended, chained to the latest checkpoint and history root |
| RefHistory.CommitExact | crates/gitmesh-coordination/src/lib.rs:586-623 | a first update whose ref holds what it expects is committed: the name then holds exactly the new object or nothing, every other name what it held, and log, receipts and checkpoint chain grow by one entry given field by field |
| RefHistory.ConflictExact | crates/gitmesh-coordination/src/lib.rs:586-607 | a first update whose ref holds something else only files its receipt, the conflict with what the ref holds |
| RefHistory.RefsHoldLastGiven | crates/gitmesh-coordination/src/lib.rs:573-623 | after any run every name holds what the last committed update of it gave, and nothing if none did |
| RefHistory.CompareAndSwap | crates/gitmesh-coordination/src/lib.rs:573-623 | over any history a first update is committed exactly when it expects what the last committed update of its ref gave; else its receipt is the conflict with that |
| RefHistory.GivenByLastMove | crates/gitmesh-coordination/src/lib.rs:586-592 | what a ref was given last is the new object of the last first-time committed update that names it |
| RefHistory.ConsistentExact | crates/gitmesh-coordination/src/lib.rs:1073-1153 | the validator accepts exactly the stores with as many checkpoints as mutations, where every mutation's old object is what the log before it gave, every receipt and chained checkpoint matches, and every ref holds what the log gave it |
| RefStores.ValidateStoreConsistency | crates/gitmesh-coordination/src/lib.rs:1073-1129 | the loop accepts exactly the stores whose refs are the replay of their log, whose compare-and-swaps all held, whose receipts match and whose checkpoints are the recomputed ones |
| RefStores.ReachableLoadable | crates/gitmesh-coordination/src/lib.rs:573-623 | every store reached by any run of updates passes consistency, numbering and chain validation |
| RefStores.ExactlyOnce | crates/gitmesh-coordination/src/lib.rs:562-623 | a run ends in the same store when every update whose transaction id occurred earlier is deleted |
| RefStores.ExactlyOnceReceipts | crates/gitmesh-coordination/src/lib.rs:562-623 | and the updates that remain get the same receipts |
| RefStores.RepeatAnswered | crates/gitmesh-coordination/src/lib.rs:562-571 | a later update under a used id changes nothing and gets the original receipt exactly when it is the same operation, else an idempotency rejection |
| RefStores.FirstReceiptIsOriginal | crates/gitmesh-coordination/src/lib.rs:562-623 | a first receipt is never an idempotency rejection, so the two answers above are told apart |
| RefTamper.TamperEvidence | crates/gitmesh-coordination/src/lib.rs:1013-1129 | two stores that loading accepts and whose latest checkpoint identifiers are equal have equal logs, refs and checkpoint chains, unless two of their transcripts collide |
| RefSnapshot.FromSnapshot | crates/gitmesh-coordination/src/lib.rs:706-816 | the line loop computes the specified parse, line by line and error by error |
| RefSnapshot.LoadSound | crates/gitmesh-coordination/src/lib.rs:706-816 | whatever text is accepted gives a store that satisfies all of consistency, numbering and chaining |
| RefRoundTrip.SnapshotRoundTrip | crates/gitmesh-coordination/src/lib.rs:625-816 | reading the saved text of a loadable, well-named store gives exactly that store |
| RefRoundTrip.EveryRunRoundTrips | crates/gitmesh-coordination/src/lib.rs:625-816 | for every run, saving succeeds exactly when no first update's signer contains a tab, carriage return or newline, and then loading gives the store back |
| RefRoundTrip.AcceptedSavesAgain | crates/gitmesh-coordination/src/lib.rs:706-816 | every accepted text gives a store of valid names that can be saved, and the saved text loads to the same store |
| RefRoundTrip.HeaderAndBlanks | crates/gitmesh-coordination/src/lib.rs:706-720 | a text without its header is refused, and blank lines never matter |
| RefRoundTrip.ProtocolCidExact | crates/gitmesh-coordination/src/lib.rs:903-925 | an identifier field is accepted exactly as the text of a protocol object or as the bare digits of its digest |
| RefSigning.UpdateTranscriptInjective | crates/gitmesh-coordination/src/lib.rs:95-113 | the signed bytes of a ref update determine every field of it |
| RefSigning.VerifyExact | crates/gitmesh-coordination/src/lib.rs:136-149 | a signed update is taken as coming from its certificate's account and device exactly when it names that device as signer, the certificate is genuine and the device signed this update; and which error otherwise |
| RepoPolicies.RepoPolicy.SetRequireSigned | crates/gitmesh-coordination/src/lib.rs:179-184 | the rule is set and the epoch moves exactly when the rule changed |
| RepoPolicies.RepoPolicy.AllowWriterAccount | crates/gitmesh-coordination/src/lib.rs:186-196 | the account is added and the epoch moves exactly when it was new |
| RepoPolicies.RepoPolicy.AllowWriterDevice | crates/gitmesh-coordination/src/lib.rs:198-202 | the device is added and the epoch moves exactly when it was new |
| RepoPolicies.RepoPolicy.AllowForceAccount | crates/gitmesh-coordination/src/lib.rs:204-217 | the force-push account is added and the epoch moves exactly when it was new |
| RepoPolicies.RepoPolicy.AllowForceDevice | crates/gitmesh-coordination/src/lib.rs:219-226 | the force-push device is added and the epoch moves exactly when it was new |
| RepoPolicies.RepoPolicy.Protect | crates/gitmesh-coordination/src/lib.rs:228-232 | the ref is protected and the epoch moves exactly when it was not |
| RepoPolicies.EpochsAdvance | crates/gitmesh-coordination/src/lib.rs:179-232 | over any run of changes the epoch never falls, and stands still only if the policy did, until it saturates |
| RepoPolicies.AuthorizedUnderThatPolicy | crates/gitmesh-coordination/src/lib.rs:246-290 | an update that names an epoch is authorized later only while the policy is still the one of that epoch |
| RepoPolicies.ProtectionExact | crates/gitmesh-coordination/src/lib.rs:246-290 | only force-pushers can force or delete protected refs exactly when nothing is protected or unsigned updates are refused: an unsigned actor is let through before protected refs are looked at |
| RepoPolicies.AuthorizeExact | crates/gitmesh-coordination/src/lib.rs:246-290 | over the policy's fields: the exact condition of acceptance and of each of the four refusals, for unsigned and signed actors |
| RepoPolicies.GrantsExact | crates/gitmesh-coordination/src/lib.rs:179-232 | after any run of changes the policy holds exactly the accounts and devices granted, the refs protected and the last signature rule |
| RepoPolicies.EpochCountsChanges | crates/gitmesh-coordination/src/lib.rs:179-232 | the epoch is the number of changes that altered a rule, until it saturates |
| RepoPolicies.WritersAreGranted | crates/gitmesh-coordination/src/lib.rs:246-290 | after any run of changes an update is authorized exactly when no writer was ever granted or its own account or device was, and, if it forces or deletes a protected ref, that was granted too; unsigned only while nothing is granted and signatures are not required |
| GitObjects.ReadAsciiUsize | crates/gitmesh-git/src/lib.rs:350-365 | the overflow-checked digit loop reads exactly decimals without leading zeros below 2^64 |
| GitObjects.CanonicalExact | crates/gitmesh-git/src/lib.rs:209-239 | the canonical parser accepts exactly the canonical bytes of an object and recovers that object |
| GitObjects.CanonicalInjective | crates/gitmesh-git/src/lib.rs:209-217 | different objects have different canonical bytes |
| GitObjects.CanonicalForm | crates/gitmesh-git/src/lib.rs:209-217 | the canonical bytes of each kind of object, with its word, decimal length, NUL and payload |
| GitObjects.ReadTreeEntries | crates/gitmesh-git/src/lib.rs:173-207 | the cursor loop computes the specified tree parse |
| GitObjects.TreeExact | crates/gitmesh-git/src/lib.rs:173-207 | the tree parser accepts exactly the serialisations of well-formed entry lists and recovers the list |
| GitObjects.EntryTargetExact | crates/gitmesh-git/src/lib.rs:173-207 | which of the five modes name a tree, a blob and a commit; all others are refused |
| GitObjects.ReadCommitLinks | crates/gitmesh-git/src/lib.rs:151-171 | the header loop computes the specified commit links |
| GitObjects.CommitLinksRead | crates/gitmesh-git/src/lib.rs:151-171 | a commit in Git's form, with any other header lines and any message, is read as its tree and its parents in order |
| GitObjects.CommitLinksExact | crates/gitmesh-git/src/lib.rs:151-171 | for any payload: it is read exactly when every tree and parent line before the first blank line holds an object id and there is a tree line; the last tree line counts and the parents keep their order |
| PackVarint.DeltaVarint | crates/gitmesh-git/src/lib.rs:617-635 | the shift loop computes the specified value and cursor, on 64-bit words with shifted-out bits lost |
| PackVarint.DeltaVarintExact | crates/gitmesh-git/src/lib.rs:617-635 | a terminated group code reads as its value modulo 2^64 when its last group starts inside the word and is refused otherwise |
| PackVarint.DeltaVarintRoundTrip | crates/gitmesh-git/src/lib.rs:617-635 | every 64-bit size is read back from its encoding |
| PackVarint.LostBitsCollide | crates/gitmesh-git/src/lib.rs:617-635 | two different codes read as the same size, because the shift amount is checked and the lost bits are not |
| PackVarint.EntryHeader | crates/gitmesh-git/src/lib.rs:372-391 | the header loop computes the specified kind, size and length |
| PackVarint.WriteEntryHeader | crates/gitmesh-git/src/lib.rs:393-408 | the header writer's loop produces the specified bytes |
| PackVarint.EntryHeaderRoundTrip | crates/gitmesh-git/src/lib.rs:372-408 | kind and size are read back from a written header, whatever follows it |
| PackVarint.BaseOffset | crates/gitmesh-git/src/lib.rs:434-455 | the offset loop computes the specified base offset and consumed length |
| PackVarint.OffsetCodeInjective | crates/gitmesh-git/src/lib.rs:434-455 | the offset numeration is bijective: no two complete codes stand for the same number |
| PackVarint.OffsetCodeExact | crates/gitmesh-git/src/lib.rs:434-455 | a complete code whose number fits in 64 bits reads as an offset exactly when it is that offset's own encoding |
| PackVarint.OffsetRoundTrip | crates/gitmesh-git/src/lib.rs:938-948 | every 64-bit offset is read back from the test encoder's bytes with the exact length |
| PackDelta.ApplyPackDelta | crates/gitmesh-git/src/lib.rs:565-615 | the instruction loop computes the specified delta application |
| PackDelta.CopyEncodable | crates/gitmesh-git/src/lib.rs:577-600 | every copy with offset below 2^32 and size 1 to 2^24-1 has an encoding that decodes to it, size 0x10000 through the zero code |
| PackDelta.ApplyDeltaOfInstrs | crates/gitmesh-git/src/lib.rs:565-615 | applying the encoding of any in-range list of copies and inserts yields the concatenation they denote |
| PackDelta.ApplyDeltaSound | crates/gitmesh-git/src/lib.rs:565-615 | any accepted delta declares the base's length, has the declared target length, and is the concatenation its instructions denote |
| PackResolve.Resolver.ResolveEntry | crates/gitmesh-git/src/lib.rs:492-563 | the recursion updates `resolved`, `resolving` and the id index exactly as specified, terminates, and runs each entry's body at most once |
| PackResolve.Resolver.FindWithOid | crates/gitmesh-git/src/lib.rs:527-546 | the search resolves candidates in order until one has the wanted id |
| PackResolve.ResolvePackEntries | crates/gitmesh-git/src/lib.rs:464-490 | the main loop computes the specified resolution of the whole pack |
| PackDerivation.ResolutionSound | crates/gitmesh-git/src/lib.rs:464-563 | whenever resolution succeeds every object has a well-founded derivation from full objects by delta application |
| PackDerivation.CyclesNeverResolve | crates/gitmesh-git/src/lib.rs:492-563 | a pack in which entries are their own base through offsets, directly or in a cycle, never resolves |
| PackDerivation.DerivationsAgree | crates/gitmesh-git/src/lib.rs:464-563 | derivations are unique where ids do not collide, so a success does not depend on the order of resolution |
| PackDerivation.OrderedResolves | crates/gitmesh-git/src/lib.rs:464-563 | if every base precedes its delta and all deltas apply, resolution succeeds with the left-to-right fold |
| PackDerivation.OffsetPackExact | crates/gitmesh-git/src/lib.rs:464-563 | a pack whose deltas all use offsets resolves exactly when every entry is derivable |
| PackDerivation.ResolvablePackRefused | crates/gitmesh-git/src/lib.rs:505-546 | a pack with derivations for every entry that is refused, because a candidate that fails inside the id search stays marked as resolving |
| Pack.WritePackfile | crates/gitmesh-git/src/lib.rs:314-341 | the writer's loop produces the specified bytes |
| Pack.ReadPackEntry | crates/gitmesh-git/src/lib.rs:272-303 | one entry is read as specified, base reference and inflated payload included |
| Pack.ParsePackfile | crates/gitmesh-git/src/lib.rs:250-312 | the reader's loop computes the specified parse, checksum and trailing bytes included |
| Pack.PackRoundTrip | crates/gitmesh-git/src/lib.rs:250-341 | reading a written pack gives version 2 and exactly the objects written, for every list whose count fits in 32 bits |
| PackRoundTrips.ReadLayout | crates/gitmesh-git/src/lib.rs:250-312 | a serialised list of whole, OFS_DELTA and REF_DELTA entries is read as exactly these entries, each at its offset, with the offset of its base's own entry or its base's id |
| PackRoundTrips.DeltaPackRoundTrip | crates/gitmesh-git/src/lib.rs:250-312 | reading a pack of version 2 or 3 whose offset deltas follow their bases gives exactly the objects its entries denote |
| PackRoundTrips.ReadEntrySound | crates/gitmesh-git/src/lib.rs:272-303 | whatever entry is accepted lies between two cursors: a header with its type and size, its base reference, and a stream that inflates to a payload of that size and ends there |
| PackRoundTrips.AcceptedIsPack | crates/gitmesh-git/src/lib.rs:250-312 | whatever pack is accepted has the magic, version 2 or 3, a count, exactly that many entries that fill the body, the checksum of the body, and a derivation of each object |
| ObjectGraph.IsCommitAncestor | crates/gitmesh-repository/src/lib.rs:678-699 | the stack loop computes the specified search and terminates |
| ObjectGraph.AncestorExact | crates/gitmesh-repository/src/lib.rs:678-699 | the search answers yes only along a parent path, no exactly when all ancestors were loaded and none matches, and always answers when all ancestors load |
| ObjectGraph.GraphWalk.CollectFrom | crates/gitmesh-repository/src/lib.rs:611-636 | the recursion adds to `seen` exactly what is specified and terminates |
| ObjectGraph.CollectReachable | crates/gitmesh-repository/src/lib.rs:361-366 | the tips are collected into one set |
| ObjectGraph.ReachableExact | crates/gitmesh-repository/src/lib.rs:611-636 | collection succeeds exactly when some closed set of readable objects holds the tips, and yields the least one |
| ObjectGraph.ChildrenExact | crates/gitmesh-repository/src/lib.rs:611-636 | what a walk follows from an object, over its stored bytes: a commit's tree and parents, a tree's entries, nothing from blobs and tags; and when it fails |
| ObjectGraph.ParentsExact | crates/gitmesh-repository/src/lib.rs:678-699 | the parents the ancestor search reads, in order, and when it fails |
| ObjectGraph.RequireKindExact | crates/gitmesh-repository/src/lib.rs:661-676 | a required object is stored, durable and of the kind; and which error otherwise |
| ObjectGraph.GraphWalk.ValidateFrom | crates/gitmesh-repository/src/lib.rs:638-659 | the recursion over subtrees computes the specified check and terminates |
| ObjectGraph.ValidateTreeExact | crates/gitmesh-repository/src/lib.rs:638-676 | a tree is accepted exactly when its whole closure is stored and durable with the right kinds |
| ObjectGraph.SoundTreesExact | crates/gitmesh-repository/src/lib.rs:638-659 | a sound set of trees over the stored records and bytes |
| ObjectGraph.ValidateTargetExact | crates/gitmesh-repository/src/lib.rs:263-274 | a branch target is accepted exactly when it is a commit whose tree closure and direct parents are stored and durable with the right kinds |
| ObjectGraph.ValidateUpdateSound | crates/gitmesh-repository/src/lib.rs:242-261 | an accepted update names a stored durable object, a sound tip on a branch, and a descendant of the expected old tip unless forced |
| ObjectGraph.ValidateUpdateExact | crates/gitmesh-repository/src/lib.rs:242-274 | an update is accepted exactly when it deletes, or its target is stored and durable and, under `refs/heads/`, a sound tip that is forced, new, unchanged or found to descend from the old tip |
| ObjectGraph.FastForwardExact | crates/gitmesh-repository/src/lib.rs:242-274 | when all ancestors load, a branch move to a sound tip is accepted exactly when it is forced or a fast-forward from a stored durable commit, and is refused as not one exactly otherwise |
| ObjectGraph.SoundTipExact | crates/gitmesh-repository/src/lib.rs:594-609 | a sound tip over the stored records and bytes |
| Erasure.PlacementInData | crates/gitmesh-storage/src/lib.rs:378-383 | quotient and remainder of a byte's position stay within the data shards and the shard length |
| Erasure.PlaceBytes | crates/gitmesh-storage/src/lib.rs:375-383 | the byte loop cuts the ciphertext into zero-padded data shards |
| Erasure.ErasureEncode | crates/gitmesh-storage/src/lib.rs:375-403 | the encoder produces the specified shards |
| Erasure.ReconstructCiphertext | crates/gitmesh-storage/src/lib.rs:405-453 | the slot loop and the final truncation compute the specified ciphertext or error |
| Erasure.ReconstructExact | crates/gitmesh-storage/src/lib.rs:405-453 | from any list of harmless shards in any order, reconstruction returns exactly the ciphertext when at least `k` places of the codeword are stored, and fails otherwise |
| Erasure.DamagedHarmless | crates/gitmesh-storage/src/lib.rs:422-434 | a shard whose bytes changed while its identifier was kept does no harm and is used only if nothing changed |
| Erasure.OutOfRangeRefused | crates/gitmesh-storage/src/lib.rs:405-453 | among at least `k` shards the first one out of range is the error |
| LocalRepair.SimulatedNetwork.StoreShards | crates/gitmesh-storage/src/lib.rs:191-200 | each shard lands on the node of its index, up to the first index out of range |
| LocalRepair.SimulatedNetwork.DestroyNodes | crates/gitmesh-storage/src/lib.rs:202-212 | the named nodes lose their shard and go offline, up to the first one out of range |
| LocalRepair.SimulatedNetwork.CorruptNodeShard | crates/gitmesh-storage/src/lib.rs:214-229 | the first byte is flipped and the identifier kept |
| LocalRepair.SimulatedNetwork.AvailableShards | crates/gitmesh-storage/src/lib.rs:231-242 | the shards of the online nodes, in node order |
| LocalRepair.SimulatedNetwork.AuditShards | crates/gitmesh-storage/src/lib.rs:510-551 | the loop computes the specified three lists |
| LocalRepair.SimulatedNetwork.RepairShards | crates/gitmesh-storage/src/lib.rs:553-621 | the nodes and the outcome after a repair, and no change on failure |
| LocalRepair.AuditExact | crates/gitmesh-storage/src/lib.rs:510-551 | the audit puts every index in exactly one list: verified where the original shard is online, missing where nothing is, corrupt elsewhere |
| LocalRepair.RepairExact | crates/gitmesh-storage/src/lib.rs:553-621 | repair succeeds exactly when at least `k` shards are verified, rewrites exactly the missing and corrupt ones, leaves every shard equal to the original, and a second repair changes nothing |
| LocalRepair.EveryRunDiscerned | crates/gitmesh-storage/src/lib.rs:191-229 | after any run of storing, destroying, corrupting and repairing, verified means online and byte-equal to the original, so the two theorems above apply |
| LocalRepair.KeptNetwork | crates/gitmesh-repository/src/lib.rs:567-576 | storing some of the genuine shards in a fresh network makes exactly those available |
| LocalRepair.StoreExact | crates/gitmesh-storage/src/lib.rs:175-205 | storing puts every shard on the node of its index, the last of an index staying |
| LocalRepair.DestroyAudited | crates/gitmesh-storage/src/lib.rs:191-205 | after destroying nodes the next audit finds exactly these missing besides what was, and nothing else moves |
| LocalRepair.DamageAudited | crates/gitmesh-storage/src/lib.rs:207-229 | after corrupting a node the next audit finds its verified shard corrupt, or its corrupt shard restored, and nothing else moves |
| LocalRepair.AvailableExact | crates/gitmesh-storage/src/lib.rs:175-229 | available are exactly the shards that online nodes hold, in node order |
| Network.ParseRolesOfFormat | crates/gitmesh-network/src/lib.rs:1843-1856 | a non-empty role set is read back from its text |
| Network.SigningTranscriptInjective | crates/gitmesh-network/src/lib.rs:875-888 | the signed bytes of a provider record determine every field of it |
| Network.NamesExact | crates/gitmesh-network/src/lib.rs:23-120 | peers, operators and regions are named by ASCII letters, digits, hyphens and underscores, with their length limits |
| Directory.AvailabilityDirectory.Publish | crates/gitmesh-network/src/lib.rs:969-1028 | the records after a signed or unsigned publication, and no change on refusal |
| Directory.AvailabilityDirectory.ActiveRecordsForSegment | crates/gitmesh-network/src/lib.rs:1030-1043 | the unexpired records of the segment, in order |
| Directory.AvailabilityDirectory.PruneExpired | crates/gitmesh-network/src/lib.rs:1052-1067 | the records after pruning, empty segments dropped, and how many records went |
| Directory.DirectoryExact | crates/gitmesh-network/src/lib.rs:969-1028 | after any run the directory holds, per segment, shard, peer and index, exactly the entry of highest lease epoch, signed before unsigned, latest among equals |
| Directory.DirectoryHoldsBest | crates/gitmesh-network/src/lib.rs:969-1028 | the same over the fields: for one shard reference and one peer it holds the last of the entries with the highest lease epoch, signed ones first |
| Directory.AdmitExact | crates/gitmesh-network/src/lib.rs:934-1012 | which publications are admitted and which error refuses the others: expiry, certificate, device signature over this record, expiry at zero, roles |
| Directory.RunExact | crates/gitmesh-network/src/lib.rs:969-1028 | refused publications leave no trace in a run |
| Directory.OrderIrrelevant | crates/gitmesh-network/src/lib.rs:969-1028 | without ties the order of publication changes neither the entries held nor any availability report |
| Directory.PruneInvisible | crates/gitmesh-network/src/lib.rs:1052-1067 | pruning at one time changes no query and no report at that time or later |
| Directory.PruneForgets | crates/gitmesh-network/src/lib.rs:1052-1067 | after pruning, a record is listed that the unpruned directory would have refused exactly when an expired entry outranked it |
| Directory.PruneExact | crates/gitmesh-network/src/lib.rs:1052-1067 | pruning keeps exactly the unexpired entries and counts exactly the expired ones |
| Directory.ReportExact | crates/gitmesh-network/src/lib.rs:1232-1275 | a report's numbers are the sizes of these sets: unexpired records of the segment, those of nodes with the storage role, and the distinct indices, operators and regions of these |
| Directory.QualifiedNeverDecides | crates/gitmesh-network/src/lib.rs:1232-1321 | the qualified count is never below the distinct shard count, so its test never decides a report |
| DirectorySnapshot.FromSnapshot | crates/gitmesh-network/src/lib.rs:1131-1212 | the line loop computes the specified parse |
| DirectorySnapshot.SnapshotRoundTrip | crates/gitmesh-network/src/lib.rs:1090-1212 | reading the snapshot of a directory gives back the directory, evidence included |
| DirectorySnapshot.EveryRunRoundTrips | crates/gitmesh-network/src/lib.rs:1090-1212 | every directory that publishing and pruning can build survives a save and a load |
| DirectorySnapshot.LoadSound | crates/gitmesh-network/src/lib.rs:1131-1212 | every accepted text has its header and gives a directory with one entry for each key, well-formed records and evidence that verifies, which saves and loads again |
| Placement.PlanShardPlacement | crates/gitmesh-network/src/lib.rs:1394-1444 | the greedy loop with its three sets computes the specified plan |
| Placement.GreedyExact | crates/gitmesh-network/src/lib.rs:1405-1434 | the nodes chosen are the first representatives by peer id: eligible nodes, of least peer id for their operator where operators must differ |
| Placement.PlanExact | crates/gitmesh-network/src/lib.rs:1394-1444 | for any policy, a plan exists exactly when there are enough representatives and the first of them span enough operators and regions |
| Placement.PlanSound | crates/gitmesh-network/src/lib.rs:1394-1444 | every plan has indices 0 to n-1, distinct peers, distinct operators where required, eligible nodes only, and both minima |
| Placement.OneRegionComplete | crates/gitmesh-network/src/lib.rs:1394-1444 | with one region and distinct operators, planning succeeds exactly when eligible nodes have enough operators |
| Placement.OrderIrrelevant | crates/gitmesh-network/src/lib.rs:1394-1404 | the plan does not depend on the order the nodes are listed in |
| Placement.TwoRegionsMissed | crates/gitmesh-network/src/lib.rs:1410-1441 | three nodes for which a two-region plan exists and the greedy choice fails |
| Peer.InMemoryPeer.Handle | crates/gitmesh-network/src/lib.rs:1563-1672 | the shards, directory, receipts and answer after any request, nested transactions included |
| Peer.ReceiptsKept | crates/gitmesh-network/src/lib.rs:1641-1672 | no request removes or rewrites a receipt, only a success files one |
| Peer.KnownTransaction | crates/gitmesh-network/src/lib.rs:1653-1672 | under a known transaction id the state never changes: the same request gets the first response, any other is refused |
| Peer.ExactlyOnce | crates/gitmesh-network/src/lib.rs:1653-1672 | dropping any deliveries that repeat an idempotent request which had succeeded leaves the final state and all other answers of the run unchanged |
| Peer.RepeatAnswered | crates/gitmesh-network/src/lib.rs:1653-1672 | each such repeat gets the answer of the first success |
| Peer.PutExact | crates/gitmesh-network/src/lib.rs:1592-1615 | a storage peer keeps a verified shard whatever the lease says; the request succeeds exactly when the lease does not expire at zero |
| Peer.PutThenGet | crates/gitmesh-network/src/lib.rs:751-811 | a shard that was put is got back, audits as valid and answers any in-range challenge with its own bytes |
| Peer.StoreExact | crates/gitmesh-network/src/lib.rs:1592-1615 | a shard is taken exactly by storage peers that transfer shards when it is intact, and a success publishes this peer under the lease |
| Peer.ReadsExact | crates/gitmesh-network/src/lib.rs:1616-1640 | a shard is returned, audited as valid and used for a proof exactly when it is present, for this reference and intact |
| Peer.ProofTranscriptPrefixFree | crates/gitmesh-network/src/lib.rs:1965-1985 | the bytes an audit proof's digest covers determine shard, range, nonce and bytes shown |
| Peer.DirectoryPeerExact | crates/gitmesh-network/src/lib.rs:1575-1591 | a directory peer admits what the directory admits and lists exactly the unexpired records of a segment |
| Peer.FirstDelivery | crates/gitmesh-network/src/lib.rs:1641-1672 | a new, well-formed, mutating request under an id does what it does unwrapped, and a success is filed |
| Peer.SwarmExact | crates/gitmesh-network/src/lib.rs:1762-1773 | a request between known peers changes the receiver only, as it responds; others are refused |
| Peer.InMemorySwarm.Request | crates/gitmesh-network/src/lib.rs:1762-1773 | the receiving peer alone changes, and unknown peers are refused |
| Peer.InMemorySwarm.RemoveShard | crates/gitmesh-network/src/lib.rs:1732-1741 | the one shard is removed, or the error |
| Peer.InMemorySwarm.CorruptShard | crates/gitmesh-network/src/lib.rs:1743-1758 | the one shard has its first byte flipped, or the error |
| TransportRepair.AuditShardsViaTransport | crates/gitmesh-storage/src/lib.rs:878-960 | the audit loop computes the specified report and changes no peer |
| TransportRepair.FetchShardsViaTransport | crates/gitmesh-storage/src/lib.rs:732-767 | the fetch loop computes the specified list and changes no peer |
| TransportRepair.ReconstructAllShards | crates/gitmesh-storage/src/lib.rs:455-508 | the slot and rebuild loops compute the specified shards or error |
| TransportRepair.BestIsLeast | crates/gitmesh-storage/src/lib.rs:1029-1067 | no replacement candidate would have been preferred to the chosen one; a used operator is chosen only when all are used |
| TransportRepair.StoreRepairedShard | crates/gitmesh-storage/src/lib.rs:1069-1103 | the swarm and the new record, or the error, after storing one shard |
| TransportRepair.PublishProvidersViaTransport | crates/gitmesh-storage/src/lib.rs:769-794 | the swarm after the idempotent publications, up to the first refusal |
| TransportRepair.StoreShardSomewhere | crates/gitmesh-storage/src/lib.rs:1179-1228 | the fallback branches: preferred place, own provider, replacement |
| TransportRepair.RepairShardsViaTransport | crates/gitmesh-storage/src/lib.rs:1105-1272 | the swarm and the outcome after a transport repair |
| TransportOutcomes.StatusExact | crates/gitmesh-storage/src/lib.rs:878-960 | what the audit of one provider finds, over the swarm: a good shard, a bad one, none, or an error |
| TransportOutcomes.TransportAuditExact | crates/gitmesh-storage/src/lib.rs:878-960 | for any list of providers, with any number for an index: an index is verified if one copy is, else corrupt if one is, else missing; and when the audit fails |
| TransportOutcomes.StorePlacesExact | crates/gitmesh-storage/src/lib.rs:1069-1228 | a rebuilt shard goes to the first of its two places that takes it, replacement first if it was missing and own provider first if it was corrupt, else to none |
| TransportOutcomes.RebuildExact | crates/gitmesh-storage/src/lib.rs:455-508 | all shards are rebuilt as encoded exactly when the usable ones among any others fill `k` places, else the count that was too small |
| TransportOutcomes.PublishIdsExact | crates/gitmesh-storage/src/lib.rs:859-868 | two publications share a transaction id exactly when segment, shard, peer, lease epoch and expiry are equal |
| TransportOutcomes.RepairReports | crates/gitmesh-storage/src/lib.rs:1105-1272 | what a successful repair reports in any swarm: the audit it began with, and the audit of the providers it returns in the swarm it leaves, or nothing changed |
| TransportListing.ChoiceExact | crates/gitmesh-storage/src/lib.rs:1029-1067 | the replacement is a storage node that is no provider yet, the least by peer id, of an unused operator if there is one; without any the old place is kept |
| TransportListing.RequestBacked | crates/gitmesh-network/src/lib.rs:1563-1672 | under any requests a peer's receipts for publications stand for entries its directory covers |
| TransportListing.RepairPublished | crates/gitmesh-storage/src/lib.rs:1229-1272 | after a repair that had work to do every record it returns has the new lease and is covered at the directory peer, repeats and earlier publications included |
| TransportSafety.TallyExact | crates/gitmesh-storage/src/lib.rs:878-960 | with one provider per index the audit splits the indices in three, verified being exactly what is served |
| TransportSafety.RepairSafe | crates/gitmesh-storage/src/lib.rs:1105-1272 | a successful repair keeps every genuine shard that any peer served, repairs exactly the missing and corrupt indices, ends with every listed index verified, and keeps pairwise distinct peers distinct across the fallbacks |
| TransportSafety.RepairComplete | crates/gitmesh-storage/src/lib.rs:1105-1272 | with a provider for every index it ends with all of them verified, durable, and nothing left to repair |
| TransportLiveness.RepairSucceedsExact | crates/gitmesh-storage/src/lib.rs:1105-1272 | with every listed peer a reachable storage peer, repair succeeds exactly when at least `k` genuine shards are still served |
| ObjectStore.RepositoryObjectStore.PutGitObject | crates/gitmesh-repository/src/lib.rs:110-138 | the store and record after a put; a second put of an id changes nothing |
| ObjectStore.RepositoryObjectStore.GetGitObject | crates/gitmesh-repository/src/lib.rs:140-148 | the object rebuilt from the available shards, or the error |
| ObjectStore.RepositoryObjectStore.RepairObject | crates/gitmesh-repository/src/lib.rs:301-323 | the store after a repair, and no change on failure |
| ObjectStore.RepositoryObjectStore.SimulateObjectShardLoss | crates/gitmesh-repository/src/lib.rs:332-349 | the named shards are gone and the record counts the rest |
| ObjectStore.RepositoryObjectStore.SetPolicy | crates/gitmesh-repository/src/lib.rs:95-104 | the policy changes only while nothing is stored and only to a valid one |
| ObjectStore.ReadExact | crates/gitmesh-repository/src/lib.rs:140-148 | a stored object reads back exactly when at least `k` of its shards are left, and its record says so |
| ObjectStore.RepairStoredExact | crates/gitmesh-repository/src/lib.rs:301-323 | repair succeeds exactly when reading does, and then all shards are back |
| ObjectStoreSafety.PutWhole | crates/gitmesh-repository/src/lib.rs:110-138 | a put keeps every stored object as it was and adds one that reads back as what was put |
| ObjectStoreSafety.PutSucceedsExact | crates/gitmesh-repository/src/lib.rs:110-138 | a put succeeds exactly when the length fits its header and the object is stored or can be sealed and encoded; a stored one changes nothing |
| ObjectStoreSafety.ReadSound | crates/gitmesh-repository/src/lib.rs:140-148 | with any library, what is read is what opening gave and as long as the record says; unknown ids are errors |
| ObjectStoreSafety.SetPolicyExact | crates/gitmesh-repository/src/lib.rs:95-104 | the policy is replaced exactly while nothing is stored, by one that can be met |
| ObjectStoreSafety.LossExact | crates/gitmesh-repository/src/lib.rs:301-349 | after any loss of shards, while `k` are left the object reads the same and one repair restores the exact store; with fewer it neither reads nor repairs |
| ObjectStoreSafety.ExportReadsBack | crates/gitmesh-repository/src/lib.rs:361-371 | an export succeeds exactly when everything reachable is stored and countable, and its pack parses back to exactly the objects of the least closed set |
| ObjectAvailability.PublishLocalProviders | crates/gitmeshd/src/lib.rs:1627-1643 | the availability directory after the local records of an object are published, up to the first refusal |
| ObjectAvailability.ObjectAvailabilityReport | crates/gitmesh-repository/src/lib.rs:159-189 | the report over the given evidence, refused on a foreign segment, shard or index |
| Daemon.GitMeshDaemon.RequireAvailableRefTarget | crates/gitmeshd/src/lib.rs:736-759 | whether the target's active providers satisfy the storage policy's requirement |
| Daemon.GitMeshDaemon.ApplyVerifiedRefUpdate | crates/gitmeshd/src/lib.rs:715-734 | receipt lookup, then authorization, validation, availability and application, in that order |
| Daemon.GitMeshDaemon.RefUpdateUnsigned | crates/gitmeshd/src/lib.rs:635-661 | the refs after an unsigned update, which names the policy epoch of the moment |
| Daemon.GitMeshDaemon.RefUpdateSigned | crates/gitmeshd/src/lib.rs:663-713 | the refs after an update whose certificate and signature were verified |
| Daemon.GitMeshDaemon.ObjectPut | crates/gitmeshd/src/lib.rs:882-910 | objects and directory after a put; a failed publication leaves the object |
| Daemon.GitMeshDaemon.PackPut | crates/gitmeshd/src/lib.rs:912-937 | an import stops at the first failure and keeps what went before |
| Daemon.GitMeshDaemon.ObjectRepair | crates/gitmeshd/src/lib.rs:1015-1028 | all repairs, then all publications, each up to the first failure |
| Daemon.GitMeshDaemon.ProviderPublishSigned | crates/gitmeshd/src/lib.rs:1543-1589 | the directory after a signed publication from a command line |
| Daemon.GitMeshDaemon.HandleCommand | crates/gitmeshd/src/lib.rs:330-621 | the whole state after any of the commands that change refs, policy, objects or providers |
| DaemonSafety.BranchSafety | crates/gitmeshd/src/lib.rs:715-759 | in every reachable state each live ref names an object that is stored, durable and reads back under its id, each live branch tip is sound, and every unforced branch move in the log went forward |
| DaemonSafety.DaemonRefs | crates/gitmeshd/src/lib.rs:715-734 | the daemon's refs are always a run of well-named updates, so they always pass loading |
| PublicationGate.AvailableExact | crates/gitmeshd/src/lib.rs:736-759 | for any providers: a ref target is available exactly when the policy can be met, the object is stored, every unexpired provider of its segment fits it, and the storage nodes among them have enough distinct indices, operators and regions |
| PublicationGate.VerifiedUpdateExact | crates/gitmeshd/src/lib.rs:715-734 | a known transaction is answered from its receipt; a new one reaches the ref store exactly when authorization, graph validation and availability all pass, else the first failing check is the answer and nothing changes |
| PublicationGate.RefCommandExact | crates/gitmeshd/src/lib.rs:635-713 | every command does what the update it asks for does, under the actor its credentials prove, or leaves the refs alone |
| PublicationGate.CommandCommits | crates/gitmeshd/src/lib.rs:715-734 | a command appends to the log exactly its own move, when it is new, expected and passes the three checks |
| PublicationGate.EveryCommitGated | crates/gitmeshd/src/lib.rs:330-734 | every mutation in the log of any run was committed by one command of the run, whose update, actor and state passed authorization, graph validation and the availability check |
| DaemonCommands.PolicyOfRun | crates/gitmeshd/src/lib.rs:834-860 | the policy after any run is the default one changed by exactly the policy commands in order of the run |
| DaemonCommands.AlwaysFiled | crates/gitmeshd/src/lib.rs:1543-1643 | in every reachable state the directory has one entry for each segment, shard, peer and index |
| DaemonCommands.PublishProviderExact | crates/gitmeshd/src/lib.rs:1543-1589 | when a signed publication is taken, over its fields, and what the directory holds then |
| DaemonCommands.HousekeepingExact | crates/gitmeshd/src/lib.rs:861-881 | pruning and setting the storage policy, field by field |
| DaemonCommands.StorageAlwaysValid | crates/gitmeshd/src/lib.rs:861-881 | the storage policy of every reachable state can be met |
| DaemonCommands.PutSucceedsExact | crates/gitmeshd/src/lib.rs:882-910 | a put succeeds exactly when the object store takes it: local publications are never refused |
| DaemonCommands.PutCovered | crates/gitmeshd/src/lib.rs:882-910 | after a put every shard of the object is covered in the directory for a day |
| DaemonCommands.ImportExact | crates/gitmeshd/src/lib.rs:912-937 | an import adds only objects of the pack, all of them if it succeeds, each reading back; it succeeds whenever all can be stored, and a pack that does not parse changes nothing |
| DaemonCommands.RepairCommandExact | crates/gitmeshd/src/lib.rs:1015-1028 | a repair changes nothing but the directory, where every shard of every repaired object is then covered; an unknown id changes nothing at all |
| LocalAvailability.LocallyAvailable | crates/gitmeshd/src/lib.rs:736-759 | once the local providers of a whole object are published, and until they expire, the availability check passes exactly when the policy asks for at most two regions |
| LocalAvailability.PutThenPublishable | crates/gitmeshd/src/lib.rs:882-910 | an object put through the daemon can be published under a ref for a day exactly when the policy asks for at most two regions |

## Left out

- Sockets, threads, locks, files, environment variables and subprocesses: plumbing around the state machine; a snapshot is its text.
- The insides of BLAKE3, SHA-1, Ed25519, XChaCha20-Poly1305, zlib and Reed-Solomon: the hypotheses above stand for them.
- The web application, `gitmeshd/src/main.rs`, `git-remote-gitmesh` and all response formatting: wrappers and user interface.
- `gitmesh-accounts`, `gitmesh-collaboration`, the identity stores, the binary daemon frames and the key-grant commands: map indices and fixed layouts.
- The node registry and its signed announcements, distribution of fresh shards by a plan, challenge audits and signed republication over a transport, and the fixed-parameter demonstration runs.
- Signed checkpoints and the text snapshots of the policy and of the object store: the same techniques on simpler state; runs of the daemon start from the default state and not from files.
- The transport is the in-memory swarm, not an arbitrary one, and the swarm keeps its peers as values: a peer on its own is an object that changes in place.
- Error texts: an error is its variant, and a library's error is one variant; in graph walks a stored object that cannot be read is one error whatever the cause.
- The content identifier's hash algorithm field has one possible value and is not carried.
- Allocation failure on huge declared sizes, and counters above 2^64: lengths and indices are unbounded unless the code computes on them.
- Erasure.ReconstructExact: requires a non-empty ciphertext, which authenticated encryption always gives.
- RefStores.ReachableLoadable: requires fewer than 2^64 - 1 updates, the range of the sequence number.
- TransportLiveness.RepairSucceedsExact: requires that no directory peer is published to, whose receipts could refuse the publication.
- PackRoundTrips.DeltaPackRoundTrip: requires a pack and payloads of less than 2^64 bytes, the range of an offset and a size.
- DaemonCommands.PutSucceedsExact: requires at most 2^64 shards for an object, the range of a shard index, as do the other lemmas about publishing local providers.
- TransportOutcomes.StorePlacesExact: requires peers, providers and replacements that their constructors accept, and a new expiry that is not zero.
- LocalAvailability.LocallyAvailable: requires that the directory had no providers for the segment, since earlier records could outrank or invalidate the local ones.
