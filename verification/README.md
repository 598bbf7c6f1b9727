# Arcane Commons Mesh: a verified model

Arcane Commons Mesh stores encrypted files across member-run nodes and coordinates the members
who run them. This project models its logic in Dafny and proves what that logic keeps.

**The vault** (`vault_model`, `local_vault`, `recovery`, `vault_trails`, `vault_runs`, `nodes`, `sealed`). A chain
of signed catalogs, each naming the one before, over six content-addressed nodes. `LocalVault` is
the command line's vault with its files as fields; a ghost `trace` records a moment after every
single write, so that statements about crashes are statements about the trace. `VaultRuns.Run`
is the refinement to a plain map from file to bytes and deletion time. No operation cleans up
after an error, so a run that is cut short is a run whose remaining steps fail. A ghost `failures`
counts the steps that fail, so that each operation also says exactly when it succeeds.

**The object store** (`store`). Blob files and an index, changed one step at a time. Every disk a
crash could leave is recorded, any step may fail unless the store is `steady`, and reopening
reconciles. Each call's contract says what it does under failure and exactly when it succeeds
without.

**The chunker** (`chunker`). Nested loops fill a buffer from reads of any size.

**The coordinator** (`coordinator`, `worker`). Handlers that read a row, read the audit head and
commit a batch are three steps each; a schedule is any interleaving of any number of them.
`Worker` executes the statements in place and is proved to take exactly those steps.

**The control plane** (`control`), **the replay table** (`replay`) and **the mesh** (`mesh`) are
classes whose methods are proved against a decision function, a log, and the nodes' disks. What is
checked and what is recorded is stated again without those functions (`AllowedIff`, `OnRecord`,
`ScreenIff`), numbers and texts written out.

**Hashes and encodings** (`merkle`, `audit`, `text`, `canonical`, `canonical_vectors`, `credentials`,
`federation`, `order`) and **exact arithmetic** (`capability`, `settlement`, `credit`, `sums`, `machine`).

## Idealisations

- A CID wraps the bytes it names; a sealed envelope opens only under its own key and associated
  data; a signature verifies only for its key and message. Where hashes of texts matter (audit,
  Merkle, control, coordinator, replay) the hash is any function to 32 bytes, and a result that
  needs no collision says so in its premises, for the inputs it hashes.
- JSON round-trips, so a stored record is carried as the record itself.
- Random keys, nonces, identifiers and challenges, clocks, storage proofs and the success of each
  I/O step are parameters or arbitrary choices.
- 64-bit and 32-bit arithmetic is written out where it saturates, wraps or is checked. Sums that
  panic in a debug build wrap here, as in a release build.

## Where the obvious stronger claim is false

Each has a witness and the exact condition: audit text with bars (`Audit.BarsCollide`,
`Audit.LastHashBindsChain`), a repeated last Merkle leaf (`Merkle.LastLeafRepeats`,
`Merkle.RootsEqualIffTreesEqual`), a commit made again (`Recovery.RetriedCommitDecidedByOrder`,
`VaultTrails.RetriedCommit`, `Recovery.LastRivalWins`), recovery after a collection cut short
(`Recovery.InterruptedGcStopsRecovery`, `Recovery.CopyableIff`, `VaultRuns.Rebuild`), an
unreadable valid blob and an unreopened store (`Store.DiscardIsSafeIff`,
`Store.UnreopenedOverrun`, `Store.PublishFitsIff`), duplicate placement records
(`Mesh.ReplicateTwiceOvercounts`, `Mesh.CountsNodesIff`), overflow at another moment
(`Credit.RecordCanOverflowAnotherMoment`, `Credit.RecordKeepsBalanceIff`), stale compare-and-set
batches (`Coordinator.StalePointerLeavesEvent`, `Coordinator.FailedTaskEarns`,
`Coordinator.PointerChangesIff`, `Coordinator.TaskChangesIff`), a wrapped split total
(`Capability.WrappedTotalPasses`, `Capability.ConservesEveryPriceIff`), settlements that pay
otherwise (`Settlement.OtherPaymentsVerify`, `Settlement.AnyDivisionOfThePriceVerifies`), a
wrapped request span, a reused key and a clock set back (`Replay.LifetimeBoundIff`,
`Replay.ReusedKeyIsForgotten`, `Replay.AnswersLikeFullLogIff`, `Replay.ClockSetBackReplays`,
`Replay.ClaimedAgainIff`), a signed text that splits twice (`Replay.BarredObjectSplitsTwice`,
`Replay.BarFreeSignatureAcceptedOnce`), a vault pointer continued by another member
(`ControlPlane.AnyMemberContinuesIff`), and 32-bit length prefixes (`Canonical.LengthWraps`).

The command line's collector deletes expired manifests before it saves the catalog that no longer
lists them. Cut short in between, it leaves a vault in which every file restores, while the same
collector and every recovery fail from then on (`LocalVaults.LocalVault.Gc`,
`VaultRuns.DroppedStops`), until the desktop's collector, which does not read expired manifests,
drops the entry (`LocalVaults.LocalVault.GcDesktop`, `VaultModel.LiveReadsSucceed`).

The governance documentation calls votes replaceable; the code refuses a second vote
(crates/mesh-control/src/lib.rs:470-473), and so does `ControlPlane.VotesAreFinal`.

## Model

| member | source | states |
|---|---|---|
| VaultRuns.Run | crates/mesh-cli/src/local_vault.rs:258-515 | Over every run of adds, deletes, collections of either kind and node losses, every single step free to fail, the vault refines a plain map from file to bytes and deletion time: successes have had their effect, failures have or have not, and restoring any file at any later time gives what the map holds, with up to two of the six nodes lost or altered; from its start or from any collection that completed, one catalog for each version is left until an operation seals a catalog and does not save it |
| VaultRuns.Rebuild | crates/mesh-cli/src/local_vault.rs:84-153 | A vault with one catalog for each version is rebuilt from its reopened nodes and any kit it ever issued, two nodes lost or damaged: with no step failing this goes through exactly when the passphrase is right and no expired file the catalog still lists has lost an object, and every file restores as before |
| VaultRuns.Salvage | crates/mesh-cli/src/local_vault.rs:84-153 | After any run at all, catalogs left unsaved and nodes back with old contents included, a rebuild from any kit is a sound vault no older than the kit, and stands for the file map known for the catalog it ends at |
| VaultTrails.TrailWalk | crates/mesh-cli/src/local_vault.rs:195-256 | Over every run, whatever failed, discovery from any kit ends at a catalog that stands for a file map the vault had at some moment, or that some operation would have made of it, and for nothing else |
| VaultTrails.TrailAccounted | crates/mesh-cli/src/local_vault.rs:258-515 | Every catalog that was ever on the nodes stands for such a file map |
| VaultTrails.CreatedAccounted | crates/mesh-cli/src/local_vault.rs:54-76 | A vault just created is accounted for by its one catalog, so such runs can start there |
| VaultTrails.RetriedCommit | crates/mesh-cli/src/local_vault.rs:329-335 | A commit cut short before its state was saved and then made again leaves two next catalogs: recovery from the kit before both ends at whichever was scanned last, and the unsaved one stands for what the first attempt would have made, so a file whose add succeeded can be missing |
| VaultTrails.CutShortContinues | crates/mesh-cli/src/local_vault.rs:329-335 | However far an add, delete or collection came on a vault with one catalog for each version, the nodes it left continue from any kit with the saved head or with the one catalog it sealed: recovery finds that head, stands for the file map before the operation or after it, and can only be stopped by an expired file that lost an object |
| VaultTrails.SingleUncontested | crates/mesh-cli/src/local_vault.rs:195-256 | Nodes with no catalog off the head's chain do not contest the head, whichever kit is used |
| VaultTrails.CreatedSingle | crates/mesh-cli/src/local_vault.rs:54-76 | A vault created over nodes without catalogs starts with one catalog for each version |
| VaultTrails.AttemptedSingleIff | crates/mesh-cli/src/local_vault.rs:329-335 | An operation keeps one catalog for each version exactly when it does not leave a catalog sealed and the state unmoved |
| VaultTrails.CollectedSingle | crates/mesh-cli/src/local_vault.rs:505-511 | A completed collection leaves one catalog for each version, whatever was on the nodes before it |
| VaultTrails.TrailSingle | crates/mesh-cli/src/local_vault.rs:258-515 | One catalog for each version lasts from the start of a run or any completed collection for as long as no operation leaves a catalog unsaved |
| VaultRuns.DroppedStops | crates/mesh-cli/src/local_vault.rs:455-485 | When expired objects are gone and the catalog is not yet saved, an expired entry sharing no object with a live one stops the command line collector and recovery alike |
| VaultRuns.AddWith | crates/mesh-cli/src/local_vault.rs:258-342 | With no step failing an add to a valid vault succeeds exactly with the right passphrase |
| VaultRuns.DeleteWith | crates/mesh-cli/src/local_vault.rs:420-447 | With no step failing a delete succeeds exactly with the right passphrase and for a file that is active |
| VaultRuns.CollectWith | crates/mesh-cli/src/local_vault.rs:449-515 | With no step failing and no clock set back, the desktop collector succeeds exactly with the right passphrase, and the command line one exactly when every listed manifest can also be read |
| VaultModel.RestoreRefinesFileMap | crates/mesh-cli/src/local_vault.rs:364-418 | In any sound state a restore, falling back over the nodes, returns exactly the added bytes of a file that is not deleted or still retained, and nothing for any other |
| LocalVaults.LocalVault.Resume | crates/mesh-cli/src/local_vault.rs:649-658 | Opening a vault after a crash at any recorded moment finds it sound, standing for that moment's file map |
| LocalVaults.LocalVault.Create | crates/mesh-cli/src/local_vault.rs:39-82 | Creating makes version 1 of a vault with no files, its catalog written out and on five nodes, or leaves a place that already has one alone; with no step failing it succeeds exactly in a new place; every intermediate disk is sound |
| LocalVaults.LocalVault.Add | crates/mesh-cli/src/local_vault.rs:258-342 | An add that succeeds maps the file to its bytes; one that fails, at any step, has done that or nothing; whenever the state has moved the new head and the new manifest are on five nodes and each chunk on three; every intermediate disk stands for the old map or the new; at most one catalog is written, and it commits the new map; with no step failing it succeeds exactly when the passphrase opens the kit and the head can be read |
| LocalVaults.LocalVault.StorePieces | crates/mesh-cli/src/local_vault.rs:275-290 | Every piece is sealed under its index and length and kept on three nodes, enough to survive two more losses |
| LocalVaults.LocalVault.Delete | crates/mesh-cli/src/local_vault.rs:420-447 | A delete succeeds only for a file that is active and then tombstones it; for any other it touches nothing; a failed one has done that or nothing, and at most one catalog is written, on five nodes if the state moved; with no step failing it succeeds exactly when the vault opens and the file is active |
| VaultModel.DeleteMatches | crates/mesh-cli/src/local_vault.rs:428-435 | Tombstoning the last active entry of a file, and no other, makes the catalog match the map with that deletion |
| LocalVaults.LocalVault.Restore | crates/mesh-cli/src/local_vault.rs:364-418 | A restore gives exactly what the file map holds at that time, and fails exactly when the map holds nothing or the passphrase is wrong |
| LocalVaults.LocalVault.ReadFile | crates/mesh-cli/src/local_vault.rs:388-413 | Chunks are read, checked for CID, key, place and length, joined, and refused if their hash is not the one recorded |
| LocalVaults.LocalVault.Gc | crates/mesh-cli/src/local_vault.rs:449-515 | The command line collector keeps exactly the catalog chain and the manifests and chunks of entries not yet expired, shared objects included; the file map is unchanged at every intermediate delete and save; with no step failing it succeeds exactly when the head, the chain and every manifest, even of expired entries, can be read, and has then passed a moment at which the expired manifests were gone and the old catalog still the saved one |
| LocalVaults.LocalVault.GcDesktop | apps/desktop/src-tauri/src/lib.rs:1126-1171 | The desktop collector, which saves the shortened catalog before it deletes anything, keeps exactly the same objects and the file map; with no step failing it succeeds exactly when the head, the chain and the manifests of live entries can be read |
| VaultModel.GcMatches | crates/mesh-cli/src/local_vault.rs:486-491 | Dropping entries past their retention leaves what every later restore returns |
| VaultModel.GcNeeded | crates/mesh-cli/src/local_vault.rs:486-504 | The shortened catalog needs what the old one needed and itself, so the final sweep deletes nothing needed |
| VaultModel.InterruptedGc | crates/mesh-cli/src/local_vault.rs:476-485 | A crash while the command line collector deletes can leave a sound vault that lists an expired entry with no manifest left |
| VaultModel.LiveReadsSucceed | apps/desktop/src-tauri/src/lib.rs:1126-1171 | In a sound vault every read the desktop collector makes succeeds: the head, its chain and the manifests of live entries |
| LocalVaults.LocalVault.ChainCids | crates/mesh-cli/src/local_vault.rs:599-625 | The walk back over the catalogs returns exactly the chain, and succeeds exactly when every catalog of it can be read |
| LocalVaults.LocalVault.Replicate | crates/mesh-cli/src/local_vault.rs:559-571 | A successful replication leaves valid copies on at least the target number of nodes and takes none away; it fails only when too few of the six nodes are left that did not fail |
| LocalVaults.LocalVault.RestoreObject | crates/mesh-cli/src/local_vault.rs:573-580 | A read succeeds exactly when some node holds a valid copy, and returns those bytes |
| VaultModel.DamageSound | crates/mesh-cli/src/local_vault.rs:559-580 | Losing or altering a node, up to two in all, keeps the vault sound |
| LocalVaults.LocalVault.Commit | crates/mesh-cli/src/local_vault.rs:329-336 | A commit stores the next catalog, written out in full and linked to the current one, on five nodes before the state names it; every cut leaves the old or the new file map, and no catalog on the nodes but the old ones and this one; it fails only if a step does |
| LocalVaults.LocalVault.StoreFile | crates/mesh-cli/src/local_vault.rs:275-328 | A stored file leaves each chunk on three nodes and its manifest on five, and the entry for it assembles to the bytes |
| LocalVaults.LocalVault.Verify | crates/mesh-cli/src/local_vault.rs:517-542 | Verification succeeds exactly when the vault opens, head and manifests have five valid copies and every chunk listed three |
| VaultModel.SoundReplicatedIff | crates/mesh-cli/src/local_vault.rs:517-542 | In a sound vault with no node lost, every copy that is due is there exactly when the expired entries still listed have theirs too |
| VaultModel.AssemblesIff | crates/mesh-cli/src/local_vault.rs:364-418 | An entry stands for some bytes exactly when its manifest opens, every chunk it lists is in its place under the file key and as long as it says, they join to those bytes, and the manifest has their hash |
| Sealed.CatalogRoundTrip | crates/mesh-core/src/catalog.rs:112-162 | What is sealed as a catalog opens as that catalog at its own version and at no other |
| Sealed.OpensAsCatalogIff | crates/mesh-core/src/catalog.rs:134-162 | Bytes open as the catalog of a vault at a version exactly when they are an envelope under its catalog key, bound to both, holding a catalog that says so itself and that the owner signed |
| Sealed.OpensAsManifestIff | crates/mesh-core/src/catalog.rs:69-110 | Bytes open as a manifest exactly when they are an envelope under the manifest key, bound to vault, file and version, holding a manifest that says so itself and lists a length and a padding for each chunk; exactly those are sealed, and each opens as itself |
| VaultModel.AddedDecodes | crates/mesh-core/src/catalog.rs:69-110 | A manifest that names the sealed pieces of some bytes opens as itself and assembles to exactly those bytes |
| Recovery.WalkLinked | crates/mesh-cli/src/local_vault.rs:239-255 | With no premise on what the roots hold, discovery ends at a catalog linked to the kit version by version and never older |
| Recovery.WalkFindsHead | crates/mesh-cli/src/local_vault.rs:208-255 | Exactly when discovery ends at the head: it is within 10,000 versions, each candidate kept on the way is the chain's own, and none kept beyond links on |
| Recovery.UncontestedFindsHead | crates/mesh-cli/src/local_vault.rs:195-256 | From a kit of any earlier version discovery finds the head, when the roots hold its chain and no later catalog off that chain, neither beside it nor above it, and the head is in the window |
| Recovery.RetriedCommitDecidedByOrder | crates/mesh-cli/src/local_vault.rs:233 | A concrete commit made twice: with both catalogs on the roots, discovery ends at the saved one or at the other by the order of the scan alone |
| Recovery.LastRivalWins | crates/mesh-cli/src/local_vault.rs:195-256 | Of two catalogs that both come next after the kit's, with no later one, discovery ends at the one scanned last, saved or not |
| Recovery.CollectedUncontested | crates/mesh-cli/src/local_vault.rs:505-511 | A vault whose nodes hold only needed objects, as every completed collection leaves it, has one catalog for each version |
| Recovery.CollectedRecovers | crates/mesh-cli/src/local_vault.rs:84-256 | From the nodes of a vault whose last collection completed, up to two damaged, discovery finds the head from any of its kits and everything it names can be read, so that recovery succeeds unless a step fails |
| Recovery.OrphanContinues | crates/mesh-cli/src/local_vault.rs:329-331 | Roots that hold the catalog of a commit cut short before the state was saved, above the saved head, continue with that catalog, and with the file map of the commit, not with the saved head |
| Recovery.CopyableIff | crates/mesh-cli/src/local_vault.rs:122-145 | From nodes that hold what a head needs, everything it lists can be copied exactly when no expired entry still listed has lost an object |
| Recovery.InterruptedGcStopsRecovery | crates/mesh-cli/src/local_vault.rs:476-504 | A collection stopped after it deleted an expired manifest and before it saved the catalog leaves a sound vault whose head is found from any kit and which cannot be recovered |
| Recovery.ScannedIsFound | crates/mesh-cli/src/local_vault.rs:206-236 | Over opened roots, what discovery tries is exactly what some root can give |
| Recovery.Discover | crates/mesh-cli/src/local_vault.rs:195-256 | Discovery succeeds exactly when the kit's own catalog can be read and opens, and ends where the walk over the scanned objects ends |
| LocalVaults.LocalVault.Recover | crates/mesh-cli/src/local_vault.rs:84-153 | With no step failing, recovery succeeds exactly in a new place, with the right passphrase, when the kit's catalog can be read and opens and, for the head discovery ends at, every catalog of the chain and every object of every entry can be read and every manifest opens; it then holds all of that with enough copies, and stands for whatever file map that head stands for; at every cut the place is sound |
| LocalVaults.LocalVault.CopyChain | crates/mesh-cli/src/local_vault.rs:155-184 | Copying the chain succeeds, unless a step fails, exactly when the whole chain back to the first catalog can be read, and then every catalog of it is on five nodes |
| LocalVaults.LocalVault.CopyFile | crates/mesh-cli/src/local_vault.rs:122-145 | Copying a file succeeds, unless a step fails, exactly when its manifest and chunks can be read and the manifest opens, and then the manifest is on five nodes and each chunk on three |
| Recovery.RebuiltSound | apps/desktop/src-tauri/src/lib.rs:763-807 | A place that holds everything a head lists stands for the file map the head stands for |
| Chunker.Fill | crates/mesh-core/src/vault.rs:56-64 | Whatever the short reads, the buffer comes back full or with everything that was left |
| Chunker.EncryptStream | crates/mesh-core/src/vault.rs:47-87 | What is handed on is always the front of the one list the data determines; the call succeeds exactly when no read fails, the consumer refuses nothing and the index fits, and then the list is complete |
| Chunker.PiecesShape | crates/mesh-core/src/vault.rs:54-84 | There are ceil(n / 4 MiB) pieces, all full but the last, none empty |
| Chunker.PieceAt | crates/mesh-core/src/vault.rs:55-84 | The i-th piece is the i-th 4 MiB of the data, and there is a next one exactly when data is left |
| Chunker.DecryptStream | crates/mesh-core/src/vault.rs:89-118 | Each chunk that opens in its place is written out, up to the first that does not, whose error is the result |
| Chunker.StreamRoundTrip | crates/mesh-core/src/vault.rs:47-118 | The sealed pieces of any data open, and to nothing but that data |
| Chunker.OnlyPrefixesOpen | crates/mesh-core/src/vault.rs:96-115 | With only one encryption's envelopes under the key, a list of chunks, its plain fields forged at will, opens exactly when it is the front of that encryption's list |
| Chunker.ReorderingRejected | crates/mesh-core/src/vault.rs:96-98 | No other order of a whole encryption's chunks opens |
| Store.Run | crates/mesh-core/src/store.rs:106-283 | Over every run from an empty store, cut short anywhere any number of times and reopened, reads that fail included, the index lists exactly the valid blobs, they fit the quota, and they are those of the operations that took effect, every reported success among them; a blob is lost otherwise only by putting it again when the read of its valid copy fails; and an operation that meets no failing step and no crash succeeds and takes effect exactly when its CID is one and, for a put, the bytes have it and are there already or fit the quota, and otherwise changes nothing |
| Store.ObjectStore.Put | crates/mesh-core/src/store.rs:172-232 | A put that succeeds adds exactly that blob; with no step failing it does so exactly when the CID is one, the bytes have it, and they fit the quota beside what else is listed; every disk a crash could leave reopens to the old or the new contents when a valid copy already there is read back as such, and otherwise to one of these or the old contents without that copy; refusals leave the store in step |
| Store.ObjectStore.Delete | crates/mesh-core/src/store.rs:234-263 | A delete that succeeds removes exactly that blob and its row, and with no step failing it succeeds exactly for a CID; every disk a crash could leave reopens to the old or the new contents |
| Store.ObjectStore.Reconcile | crates/mesh-core/src/store.rs:106-154 | Reopening drops partial files and lists every valid blob and nothing else, and a crash inside it changes no contents |
| Store.ObjectStore.Get | crates/mesh-core/src/store.rs:265-283 | A read succeeds exactly for a valid blob whose row gives its length, and returns it |
| Store.CidIff | crates/mesh-core/src/store.rs:70-80 | A CID is 64 lower-case hexadecimal digits |
| Store.ObjectStore.UsedBytes | crates/mesh-core/src/store.rs:156-163 | The index sum is the total of its rows |
| Store.ReopenedSpec | crates/mesh-core/src/store.rs:106-154 | Reopening leaves the valid blobs alone and makes the index list exactly them |
| Store.CrashRecovers | crates/mesh-core/src/store.rs:106-154 | A disk a crash may have left reopens in step, with contents among those allowed, when those fit the quota |
| Store.DiscardIsSafeIff | crates/mesh-core/src/store.rs:178-184 | A crash after put removed an unreadable file leaves old or new contents exactly when that file was not a valid blob |
| Store.PublishFitsIff | crates/mesh-core/src/store.rs:172-232 | A published file keeps the disk recoverable within the quota exactly when all valid blobs, listed or not, fit with it |
| Store.UnreopenedOverrun | crates/mesh-core/src/store.rs:191-203 | From the disk that publishing a blob into an empty store leaves before its row is committed, not reopened, a later put passes the quota check and publishing its blob overruns the quota |
| Merkle.ComputeRoot | crates/mesh-core/src/audit.rs:225-248 | The root of a list, the empty one included, by hashing leaves and reducing levels |
| Merkle.Reduce | crates/mesh-core/src/federation.rs:83-111 | From the digests of any row of trees, the level-by-level loop that repeats an odd last digest terminates with the digest of the one tree they join into |
| Merkle.TreeIsSubtree | crates/mesh-core/src/audit.rs:229-246 | Pairing from the bottom builds the top-down tree of the least height that covers the list |
| Merkle.RootsEqualIffTreesEqual | apps/api/src/maintenance.ts:163-182 | For a hash with no collision among what was hashed, roots are equal exactly when the trees, repeats included, are |
| Merkle.RootBindsList | crates/mesh-core/src/audit.rs:225-248 | For lists with no repeated leaf, equal roots mean equal lists whatever their lengths |
| Merkle.LastLeafRepeats | crates/mesh-core/src/audit.rs:234-236 | Repeating the last leaf of any odd list of three or more keeps the root |
| Merkle.LengthSeparates | crates/mesh-core/src/audit.rs:229-243 | Leaf inputs that are not 64 bytes long are never pairs of digests |
| Audit.VerifyChain | crates/mesh-core/src/audit.rs:208-223 | The check accepts exactly the lists whose events are numbered from 0, linked and correctly hashed |
| Audit.LinkedIff | crates/mesh-core/src/audit.rs:194-223 | An event holds its place exactly when it has its number, names the hash before it or 64 zeros, and is hashed over tag and fields joined by bars |
| Audit.ShortRoots | crates/mesh-core/src/audit.rs:225-248 | The roots of no event, of one and of two, written out |
| Audit.AppendKeepsChain | crates/mesh-core/src/audit.rs:171-192 | Appending to a list that verifies gives a list that verifies |
| Audit.LastHashBindsChain | crates/mesh-core/src/audit.rs:194-223 | Two lists that verify and end in one hash have equal length, texts, times and hashes, and are identical exactly when kinds and actors hold as many bars in one as in the other |
| Audit.BarFreeChainsEqual | crates/mesh-core/src/audit.rs:194-223 | With no bar in any kind or actor the last hash fixes the whole list |
| Audit.BarsCollide | crates/mesh-core/src/audit.rs:195-204 | With a bar in a field two different lists verify and end in the same hash |
| Audit.ChainHashesDistinct | crates/mesh-core/src/audit.rs:208-223 | Events of one verified list never share a hash |
| Audit.RootBindsChain | crates/mesh-core/src/audit.rs:225-248 | Two verified lists with one Merkle root have equal length and are identical exactly when their events split alike |
| Text.SplitUnique | crates/mesh-core/src/audit.rs:195-204 | A bar-joined text splits one way once the bars in the first field are counted |
| Text.DecimalInjective | crates/mesh-core/src/audit.rs:195-204 | Decimal printing of signed numbers is injective |
| Canonical.CanonicalUnique | crates/mesh-core/src/identity.rs:102-120 | Membership, certificate, spell and research bytes are equal exactly for the same record up to the order of roles, for texts shorter than 2^32 |
| Canonical.EncodeUnique | crates/mesh-core/src/identity.rs:257-260 | Lists of length-prefixed and fixed-width parts of one shape decode uniquely |
| Canonical.KindsSeparate | crates/mesh-core/src/spell.rs:157-179 | Records of different kinds never have equal bytes, whatever their fields |
| Canonical.LengthWraps | crates/mesh-core/src/identity.rs:257-260 | At 2^32 bytes the length prefix wraps and two different fields encode alike |
| Canonical.MembershipCanonicalBytes | crates/mesh-core/src/identity.rs:102-120 | The buffer the core fills for a membership is its canonical encoding |
| Canonical.CertificateCanonicalBytes | crates/mesh-core/src/identity.rs:191-209 | The buffer the core fills for a certificate is its canonical encoding |
| Canonical.SpellCanonicalBytes | crates/mesh-core/src/spell.rs:157-191 | The buffer filled for a spell contract, lists included, is its canonical encoding |
| Canonical.ResearchCanonicalBytes | crates/mesh-core/src/research.rs:107-137 | The buffer filled for a research record is its canonical encoding |
| Canonical.ConcatInto | apps/api/src/canonical.ts:7-15 | Copying parts into one array at a running offset gives their concatenation |
| Canonical.WorkerAgrees | apps/api/src/canonical.ts:7-31 | Laying parts out and joining them gives what appending them one by one gives |
| Canonical.WorkerMembershipBytes | apps/api/src/canonical.ts:37-61 | The arrays the Worker lists for a membership, joined into one buffer, are the core's bytes of those claims at version 1 |
| Canonical.WorkerMembershipAgreesIff | apps/api/src/canonical.ts:37-61 | They are the core's bytes of given claims exactly when these have version 1 |
| Canonical.WorkerCertificateBytes | apps/api/src/canonical.ts:63-85 | The arrays the Worker lists for a certificate, joined into one buffer, are the core's bytes for version 1 and the one role node |
| Canonical.WorkerCertificateAgreesIff | apps/api/src/canonical.ts:63-85 | They are the core's bytes of a given certificate exactly when it has that version and that one role |
| CanonicalVectors.Printing | crates/mesh-core/src/audit.rs:194-206 | Digests print as two lower-case digits a byte, numbers in signed decimal, and fields are joined by a bar |
| CanonicalVectors.MembershipFixture | packages/protocol-fixtures/canonical-v1.json:2 | The membership of the shared fixture encodes to the fixture's bytes |
| CanonicalVectors.CertificateFixture | packages/protocol-fixtures/canonical-v1.json:3 | The certificate of the shared fixture encodes to the fixture's bytes |
| CanonicalVectors.SpellLayout | crates/mesh-core/src/spell.rs:157-191 | The bytes of a spell contract and its identifier, field by field |
| CanonicalVectors.ResearchLayout | crates/mesh-core/src/research.rs:107-137 | The bytes of a research record and its identifier, field by field |
| Credentials.CredentialBindsClaims | crates/mesh-core/src/identity.rs:132-175 | Whoever signs what, a credential is trusted exactly when the issuer's own key made the signature, over the claims shown or the same up to the order of roles, and those name that issuer, the member whose key they hold, version 1, the community and a time about now |
| Credentials.TrustedIff | crates/mesh-core/src/identity.rs:132-175 | Any credential at all is trusted exactly when it is the issuer's own signature over claims that pass |
| Credentials.CertificateBindsClaims | crates/mesh-core/src/identity.rs:221-255 | Whoever signs what, a node certificate holds exactly when its owner's key made the signature, over the claims shown or the same up to the order of roles, and those name that owner, the endpoint, the node role, some storage, the community and a time about now |
| Order.SortAscendsIff | crates/mesh-core/src/federation.rs:46-68 | A sorted list is strictly ascending exactly when no two items share a key |
| Order.SortBytesEqualIff | crates/mesh-core/src/identity.rs:103-104 | Two lists sort to the same list exactly when one is a permutation of the other |
| Federation.ExportSucceedsIff | crates/mesh-core/src/federation.rs:46-68 | When an export succeeds; it then holds a sorted permutation of what was given and verifies |
| Federation.ReceiptVerifies | crates/mesh-core/src/federation.rs:157-194 | A receipt is issued exactly for a verified bundle addressed to its target, and verifies against it |
| Federation.VerifiesIff | crates/mesh-core/src/federation.rs:70-134 | Whoever signs what, a bundle verifies exactly when its owner's key made the signature, over this body and its own identifier, and the body is of version 1 with sound items in order |
| Federation.ReceiptVerifiesIff | crates/mesh-core/src/federation.rs:182-206 | Whoever signs what, a receipt verifies exactly when its bundle does, it names that bundle and its root, and its operator's key made the signature over it |
| Federation.RootBindsItems | crates/mesh-core/src/federation.rs:83-111 | Two verified bundles with one Merkle root hold the same items |
| ControlPlane.EventsVerify | crates/mesh-control/src/lib.rs:563-566 | In every history the audit chain verifies, with one event for the founding and one for each successful mutation, naming it |
| ControlPlane.AllowedIff | crates/mesh-control/src/lib.rs:270-483 | A mutation is allowed exactly when it is warranted, the root key's credential or an active member's own act and signature on what is there, and nothing on record stands in its way |
| ControlPlane.RefusedAs | crates/mesh-control/src/lib.rs:270-483 | Which refusal is given to whom |
| ControlPlane.HistoryOnRecord | crates/mesh-control/src/lib.rs:270-483 | Over every legal history whatever was done is on record: each member, node, object, placement, proposal, pointer or a later one, credit entry and vote, the vote in map and list alike; and it is still warranted |
| ControlPlane.HistoryIsRecord | crates/mesh-control/src/lib.rs:410-483 | The votes on record are exactly those cast, in order, and each ledger holds exactly the entries made in it |
| ControlPlane.ListedIff | crates/mesh-control/src/lib.rs:270-451 | Members, nodes, objects, placements and proposals on record are exactly the founder and those the history brought in |
| ControlPlane.HistoryKeepsVotes | crates/mesh-control/src/lib.rs:453-483 | In every legal history the vote map and the vote list hold the same votes once each, and every vote is of an active member who signed it, inside its proposal's window |
| ControlPlane.VotesAreFinal | crates/mesh-control/src/lib.rs:470-473 | A vote once cast is never replaced |
| ControlPlane.TallyBounded | crates/mesh-control/src/lib.rs:485-511 | Yes, no and abstain together never exceed the active members |
| ControlPlane.HistoryKeepsPlacements | crates/mesh-control/src/lib.rs:341-368 | Each object has at most one healthy placement on a node |
| ControlPlane.HistoryKeepsPointers | crates/mesh-control/src/lib.rs:370-402 | A vault's pointers are versions 1, 2, 3, ..., each naming the catalog before, and the stored one is the last |
| ControlPlane.AnyMemberContinuesIff | crates/mesh-control/src/lib.rs:370-402 | A pointer names no owner: some pointer of a given vault is accepted from a member exactly when the member is active, whoever stored the ones before |
| ControlPlane.HistoryKeepsLedgers | crates/mesh-control/src/lib.rs:410-424 | Every member's ledger keeps unique keys |
| ControlPlane.OpensOnce | crates/mesh-control/src/lib.rs:236-268 | After a call with a nonce, failed or not, no call with that nonce succeeds; a consumed challenge opens nothing again unless issued again |
| ControlPlane.IssuedOpensIff | crates/mesh-control/src/lib.rs:236-268 | A challenge just issued opens for five minutes, to any unused nonce of sixteen bytes or more |
| ControlPlane.SnapshotHashBinds | crates/mesh-control/src/lib.rs:517-550 | Two snapshots that verify are the same exactly when they carry the same hash |
| ControlPlane.SnapshotVerifiesIff | crates/mesh-control/src/lib.rs:534-550 | A snapshot verifies exactly when it is of version 1 and its chain, its root and its own hash are right |
| ControlPlane.LocalControlPlane.Bootstrap | crates/mesh-control/src/lib.rs:194-234 | A plane begins exactly with a founder whose credential the root key itself signed, for that founder, this community and that time |
| ControlPlane.LocalControlPlane.AddMember | crates/mesh-control/src/lib.rs:270-294 | Decided, put on record and audited as one mutation, or nothing changes |
| ControlPlane.LocalControlPlane.RegisterNode | crates/mesh-control/src/lib.rs:296-312 | Decided, put on record and audited as one mutation, or nothing changes |
| ControlPlane.LocalControlPlane.RegisterObject | crates/mesh-control/src/lib.rs:314-339 | Decided, put on record and audited as one mutation, or nothing changes |
| ControlPlane.LocalControlPlane.AddPlacement | crates/mesh-control/src/lib.rs:341-368 | Decided, put on record and audited as one mutation, or nothing changes |
| ControlPlane.LocalControlPlane.UpdateCatalogPointer | crates/mesh-control/src/lib.rs:370-402 | Decided, put on record and audited as one mutation, or nothing changes |
| ControlPlane.LocalControlPlane.RecordCredit | crates/mesh-control/src/lib.rs:410-424 | Decided, entered in the ledger and audited as one mutation; a refusal at most opens an empty ledger |
| ControlPlane.LocalControlPlane.CreditBalance | crates/mesh-control/src/lib.rs:426-431 | An active member's balance is that of a ledger with unique keys, zero without one |
| ControlPlane.LocalControlPlane.CreateProposal | crates/mesh-control/src/lib.rs:433-451 | Decided, put on record and audited as one mutation, or nothing changes |
| ControlPlane.LocalControlPlane.CastVote | crates/mesh-control/src/lib.rs:453-483 | Decided, put on record in map and list and audited as one mutation, or nothing changes |
| ControlPlane.LocalControlPlane.Tally | crates/mesh-control/src/lib.rs:485-511 | The loops count each choice and the active members exactly, and the votes never exceed those members |
| ControlPlane.LocalControlPlane.ConsumeChallenge | crates/mesh-control/src/lib.rs:250-268 | The call succeeds exactly for a fresh long nonce and a live unconsumed challenge, and uses the nonce up either way |
| ControlPlane.LocalControlPlane.ExportSnapshot | crates/mesh-control/src/lib.rs:517-532 | An export never fails and its result verifies |
| Coordinator.EveryInterleavingSound | apps/api/src/app.ts:713-804 | Under every schedule of reads, head reads, commits and crashes of any number of handlers, the audit chains, pointers, tasks, credits, placements and votes are sound, and whatever is handled or was committed passed its checks |
| Coordinator.CommittedChainsVerify | apps/api/src/maintenance.ts:26-75 | Each community's committed events are numbered from 0 without a gap and pass the chain check |
| Coordinator.AppendContinues | apps/api/migrations/0003_community_audit_sequence.sql:11-12 | An event prepared after any head that was ever read either breaks a unique key or continues the chain at its current end |
| Coordinator.HeadIsLast | apps/api/src/maintenance.ts:36-44 | The row with the greatest sequence is the last of its chain |
| Coordinator.HeadIsGreatest | apps/api/src/maintenance.ts:36-44 | In any table the head is an event of its community, and none of that community has a greater sequence |
| Coordinator.NextKeepsPointer | apps/api/src/app.ts:731-801 | Every step keeps a vault's stored pointers one trail: versions 1, 2, 3, ... of one owner in one community, signed as stored, each naming the catalog before; no fork or rollback is stored |
| Coordinator.NextKeepsTask | apps/api/src/app.ts:985-1134 | Every step keeps: a task goes pending, accepted, then completed or failed; it has at most one credit, only as an audit that ended, for its node's owner, for 90 days, and worth six hours of its size at 1000 for a GiB and an hour, rounded up and at least 1; a completed audit has its credit and a completed repair its placement |
| Coordinator.NextKeepsVotes | apps/api/src/app.ts:1266-1311 | Every step keeps: the votes table holds the committed votes, one for each proposal and member |
| Coordinator.NextKeepsWarrants | apps/api/src/app.ts:713-1311 | Every step keeps: what is being handled or was committed was signed over its fields, a vote cast in its proposal's window, a task moved in time under a certificate in force by its node's owner, and completed with a proof |
| Coordinator.NextKeepsDates | apps/api/src/app.ts:1064-1088 | Every step keeps: each credit is dated by a committed completion of its task |
| Coordinator.ObserveIff | apps/api/src/app.ts:713-1311 | A first read goes through exactly when the request passes those checks and follows on what is there: the next version by the same owner, or the status the action starts from |
| Coordinator.EarnsSixHours | apps/api/src/app.ts:1069-1072 | What a completed audit earns is the one amount that is six hours' worth; for 4,194,304 bytes, 24 |
| Coordinator.InsertAuditIff | apps/api/migrations/0003_community_audit_sequence.sql:11-12 | An event goes into the table exactly when no other has its community and sequence, or its hash, which the first migration makes unique |
| Coordinator.ConflictRetries | apps/api/src/maintenance.ts:4-24 | After a conflict an append-only writer with attempts left starts over with one fewer; any other gives up |
| Coordinator.ChangesAreAudited | apps/api/src/app.ts:785-794 | Every committed batch but an accept has in the table an event that says who did what to which subject and when, so each pointer change, vote and ended task is audited in the batch that made it |
| Coordinator.PointerChangesIff | apps/api/src/app.ts:744-801 | A pointer batch that commits changes the row exactly when the row is as it was read, in the principal's community |
| Coordinator.TaskChangesIff | apps/api/src/app.ts:1056-1063 | A task batch that commits moves its task exactly when the status is still the one the action starts from |
| Coordinator.StalePointerLeavesEvent | apps/api/src/app.ts:794-800 | A schedule in which a stale update changes nothing yet leaves its event |
| Coordinator.FailedTaskEarns | apps/api/src/app.ts:1056-1133 | A schedule in which a task that failed keeps the credit of a stale completion |
| Worker.Database.Execute | apps/api/src/app.ts:744-783 | Each statement changes the tables in place as its `WHERE` and keys allow, and reports the rows changed |
| Worker.Database.Batch | apps/api/src/app.ts:793-801 | A batch takes effect as a whole; the first broken constraint undoes what went before |
| Worker.Database.Head | apps/api/src/maintenance.ts:36-44 | The scan returns a community's row of greatest sequence |
| Worker.Handlers.FinishWriter | apps/api/src/maintenance.ts:4-24 | Commits a prepared batch; an append-only writer that conflicts reads the head again, at most eight attempts in all |
| Worker.Handlers.Take | apps/api/src/app.ts:713-804 | Each database visit of a handler is the step the schedule says |
| Worker.Run | apps/api/src/app.ts:713-804 | Any schedule run on a fresh coordinator ends where the schedule says, and sound |
| Replay.Run | crates/mesh-protocol/src/transport.rs:269-323 | Over any run with a non-decreasing clock, with transactions that do not commit and processes that start again from the database file, a frame is accepted exactly when it passes every check and no accepted unexpired request holds its key; no request is accepted twice |
| Replay.ReplayTable.ClaimReplay | crates/mesh-protocol/src/transport.rs:349-374 | The transaction works on a copy of the rows that replaces them only when it commits; it answers whether the log of accepted requests holds the key unexpired, and the rows stay the unexpired part of that log |
| Replay.ReplayTable.ValidateFrame | crates/mesh-protocol/src/transport.rs:269-323 | The chain of checks: the first to fail is the answer, and only a frame that passes all is logged |
| Replay.ScreenIff | crates/mesh-protocol/src/transport.rs:269-308 | The checks pass exactly the frames of version 1 and bounded size, identifier, object and span whose certificate is its owner's own and whose credential the root key signed, for the same node, member and community, with a role that allows the operation, and whose member signed every field |
| Replay.SignatureFixesRequest | crates/mesh-protocol/src/lib.rs:69-83 | With no bar in community, node and object fields one signature stands for one request and one payload hash |
| Replay.KeysTellApart | crates/mesh-protocol/src/transport.rs:309-321 | Replay keys are equal exactly for the same community, member and request identifier, bars in the identifier included |
| Replay.AcceptedFrameNeverAgain | crates/mesh-protocol/src/transport.rs:309-321 | A request accepted before is held while it lives and out of time afterwards |
| Replay.SignatureAcceptedOnce | crates/mesh-protocol/src/transport.rs:300-321 | One signature is never accepted twice unless its bytes split into fields in a second way |
| Replay.BarFreeSignatureAcceptedOnce | crates/mesh-protocol/src/lib.rs:69-83 | With no bar in community, node and object fields each signature is accepted at most once, whatever bars the request identifiers hold |
| Replay.BarredObjectSplitsTwice | crates/mesh-protocol/src/lib.rs:69-83 | With bars in a greeting's unchecked object field one signed text reads as two requests with different identifiers |
| Replay.AnswersLikeFullLogIff | crates/mesh-protocol/src/transport.rs:360-370 | The pruned table answers as a log that never forgets exactly when the key is new or some request under it still lives |
| Replay.ReusedKeyIsForgotten | crates/mesh-protocol/src/transport.rs:360-370 | A key used again after its request expired is taken |
| Replay.RowsExpireSoon | crates/mesh-protocol/src/lib.rs:100-105 | Every row is gone within 600 seconds of the last accept when no accepted request has a negative issue time |
| Replay.LifetimeBoundIff | crates/mesh-protocol/src/lib.rs:100-105 | Requests with a given issue time are always gone within 600 seconds exactly when it is not negative: otherwise the 64-bit span can wrap |
| Replay.ClaimedAgainIff | crates/mesh-protocol/src/transport.rs:349-374 | Whatever the clock does, a claimed key can be claimed again exactly when some later call came after its expiry |
| Replay.ClockSetBackReplays | crates/mesh-protocol/src/transport.rs:360-362 | A clock set back lets a request still in time be claimed twice |
| Mesh.StorageNode.Put | crates/mesh-node/src/lib.rs:66-73 | An inactive node refuses, an oversized object is refused, and success adds exactly that blob; with no step failing it succeeds exactly on an active node, for at most 4,325,376 bytes that have the CID and fit the quota |
| Mesh.StorageNode.Get | crates/mesh-node/src/lib.rs:79-82 | A read succeeds exactly when the node is active and its store holds and lists the object |
| Mesh.StorageNode.Audit | crates/mesh-node/src/lib.rs:84-90 | An audit of an active node says whether a read would succeed |
| Mesh.StorageNode.Delete | crates/mesh-node/src/lib.rs:92-95 | An inactive node refuses; success removes exactly that blob, and with no step failing it comes exactly on an active node for a CID |
| Mesh.InMemoryMesh.Replicate | crates/mesh-testkit/src/lib.rs:47-67 | Success leaves copies in at least the target number of failure domains and one record for each, whose node answers a read; when every active node takes the object it comes exactly for a target from 1 to the number of active domains |
| Mesh.InMemoryMesh.Restore | crates/mesh-testkit/src/lib.rs:69-89 | A restore succeeds exactly when some healthy record's node answers, and marks only records whose node does not |
| Mesh.InMemoryMesh.AuditAll | crates/mesh-testkit/src/lib.rs:91-106 | Afterwards a record is healthy exactly when its node answers, and the count is of those |
| Mesh.InMemoryMesh.Repair | crates/mesh-testkit/src/lib.rs:108-136 | From truthful records, one for each node, success leaves at least the target number of different nodes holding the object; when all records answer and every active node takes the object it comes exactly if the healthy records and the other active names reach the target |
| Mesh.AuditThenRepair | crates/mesh-testkit/src/lib.rs:91-136 | From a table with one record for each node, an audit and then a successful repair leave that many different nodes holding the object; with a copy to read and nodes that take it, the repair succeeds exactly when there are as many active nodes |
| Mesh.CountsNodesIff | crates/mesh-testkit/src/lib.rs:110-115 | A count of healthy records counts nodes exactly when no two are of one node |
| Mesh.RepairDuplicatesIff | crates/mesh-testkit/src/lib.rs:116-131 | A record repair adds is its node's second exactly when the node has an unhealthy one |
| Mesh.ReplicateTwiceOvercounts | crates/mesh-testkit/src/lib.rs:47-136 | Two replications of the same bytes on a one-node mesh record the node twice, and a repair to two copies reports two and places nothing with one holder |
| Capability.IssueSucceedsIff | crates/mesh-core/src/capability.rs:53-90 | When a manifest is issued; its splits are those given, sorted, and it verifies |
| Capability.VerifiesIff | crates/mesh-core/src/capability.rs:92-151 | Whoever signs what, a manifest verifies exactly when its creator's key made the signature, over this body and its own identifier, and the body and its splits, in order and 10,000 together, pass |
| Capability.Allocate | crates/mesh-core/src/capability.rs:105-121 | The loop gives each split but the last its saturated floor and the last what is left, in 64-bit arithmetic |
| Capability.AllocationsConserve | crates/mesh-core/src/capability.rs:105-121 | For every verified manifest of at most 10,000 splits nothing underflows and the amounts total the price exactly, saturating or not |
| Capability.AllocationsTotalIff | crates/mesh-core/src/capability.rs:110-118 | The amounts total the price exactly when the other shares leave the last one something; otherwise they total more than 64 bits hold |
| Capability.ConservesEveryPriceIff | crates/mesh-core/src/capability.rs:137-148 | Splits that pass the check conserve every price exactly when there are at most 10,000 of them |
| Capability.TotalExactIff | crates/mesh-core/src/capability.rs:144-148 | The 32-bit total of splits that pass is exact exactly when there are at most 10,000 of them, and else there are more than 65,537 |
| Capability.WrappedTotalPasses | crates/mesh-core/src/capability.rs:144-148 | 65,538 splits whose 32-bit total wraps to 10,000 pass the check and do not conserve some price |
| Capability.ShareIsFloorIff | crates/mesh-core/src/capability.rs:113-116 | A share is the exact floor exactly when that floor is at most the saturated one |
| Capability.LastShareBounds | crates/mesh-core/src/capability.rs:111-112 | Below saturation the last share is at least its exact share and exceeds it by less than one unit for each split |
| Settlement.IssueSucceedsIff | crates/mesh-core/src/settlement.rs:70-126 | A settlement is issued exactly when the manifest verifies and conserves its price, recipients differ, amounts are positive, and the identifier, key and times are in order; it then pays what the manifest allocates and verifies exactly throughout its window |
| Settlement.VerifiesIff | crates/mesh-core/src/settlement.rs:111-158 | Whoever signs what, an instruction verifies exactly when its payer's key made the signature, over this body and its own identifier, within its time, and the body pays out the whole price of a manifest that verifies |
| Settlement.IssueConserves | crates/mesh-core/src/settlement.rs:70-109 | For at most 10,000 splits the price is always conserved, so the other conditions decide alone |
| Settlement.AnyDivisionOfThePriceVerifies | crates/mesh-core/src/settlement.rs:128-158 | A signed instruction verifies exactly when its payments are positive, to different recipients in order, and total the price, whatever the manifest allocates |
| Settlement.OtherPaymentsVerify | crates/mesh-core/src/settlement.rs:139-148 | For every instruction that verifies there is one that pays otherwise and verifies |
| Credit.CreditLedger.Record | crates/mesh-core/src/credit.rs:39-57 | An entry is refused for an empty or known key or for overflow at its own time, and else appended |
| Credit.RefusalIff | crates/mesh-core/src/credit.rs:39-57 | An entry is refused for an empty key, else for a known one, else exactly when the balance at its own time or the entry on top of it does not fit 64 bits |
| Credit.CreditLedger.BalanceAt | crates/mesh-core/src/credit.rs:59-67 | The checked loop gives the balance or stops at the first sum that does not fit |
| Credit.BalanceIffRunningSumsFit | crates/mesh-core/src/credit.rs:59-67 | A balance is given exactly when every running sum fits, and is then the exact sum of unexpired amounts |
| Credit.BalanceExact | crates/mesh-core/src/credit.rs:59-67 | While total magnitude fits in 64 bits every balance is exact |
| Credit.OrderAndRedeliveryDoNotMatter | crates/mesh-core/src/credit.rs:39-67 | Deliveries of the same keyed entries in any order, with any redeliveries, leave the same entries once each and the same exact balance at every time |
| Credit.DeliveredIsFirstSeen | crates/mesh-core/src/credit.rs:39-57 | Exactly the first delivery under each key is recorded when the distinct entries' magnitude fits |
| Credit.RecordKeepsBalanceIff | crates/mesh-core/src/credit.rs:52-54 | After an accepted entry the balance at any moment is given exactly when it was before and the entry, if live then, fits |
| Credit.RecordCanOverflowAnotherMoment | crates/mesh-core/src/credit.rs:52-54 | An accepted entry after which the balance at an earlier moment overflows |
| Credit.CostIsExactCeiling | crates/mesh-core/src/credit.rs:73-88 | The cost is that of thousandths of 1,073,741,824 bytes for an hour, rounded up exactly, and is given exactly when some copy is asked for and the ceiling fits in 64 bits |
| Credit.CostMonotone | crates/mesh-core/src/credit.rs:73-88 | More bytes, copies or seconds never cost less, and what a larger use can be charged a smaller can |
| Credit.CostOfParts | crates/mesh-core/src/credit.rs:73-88 | Charging apart what divides a use costs at least the whole and at most one unit more |
| Credit.PartsDivideUse | crates/mesh-core/src/credit.rs:81-84 | Dividing the bytes, the copies or the time divides the use |

## Left out

- User interfaces, the Tauri commands, command-line parsing, the Astro site and key storage: plumbing.
- QUIC and iroh connections, timeouts and the desktop's network branch: foreign calls; only frame validation and the replay claim are modelled.
- The real hash, signature, cipher, key derivation and JSON code: idealised as described above.
- Symbolic links, file modes, fsync and path canonicalisation: operating-system behaviour; step order and crash points are kept.
- Compute evidence, memory, legacy, grimoire, settlement receipts and spell authorisation: each is settled by reading one or two checks.
- LocalVaults.LocalVault.RestoreObject: node reads are modelled as reads of the valid copies on a disk, so a node whose store cannot be opened at all is not; damage to the copies themselves is.
- LocalVaults.LocalVault.Restore: returns the bytes; the partial output file a failed restore leaves behind is not modelled.
- LocalVaults.LocalVault.StorePieces: works on the pieces of the whole plaintext; that the streamed reads give those pieces is `Chunker.EncryptStream`.
- Store.ObjectStore.Reconcile: a blob is found under its name, so two files of one name in different prefix directories are not modelled.
- Credentials.CredentialBindsClaims: public keys that are not points of the curve are not told apart from keys that verify nothing.
- Coordinator.EveryInterleavingSound: a request carries one time where a handler reads the clock several times; foreign keys, placement identifiers and tables no modelled handler writes are left out.
- Worker.Database.Batch: the database runs one batch at a time, as its engine promises.
- ControlPlane.LocalControlPlane.ExportSnapshot: members, nodes and pointers are kept as maps where the snapshot lists their values in key order.
- ControlPlane.LocalControlPlane.RecordCredit: ledgers are values in a map; the ledger in place is `Credit.CreditLedger`.
- Mesh.InMemoryMesh.Repair: the nodes do not change between its own reads and writes, though the source shares them with other owners.
- Canonical.WorkerMembershipBytes: the Worker sorts roles by UTF-16 code unit; for the four ASCII roles its schema admits (apps/api/src/schemas.ts:27 and 55) that is byte order, which the model uses.
- VaultRuns.Run: that one catalog for each version is left is stated for lost nodes that come back without catalogs; nodes that bring back old ones are `VaultTrails.TrailWalk`.
- VaultTrails.TrailWalk: a catalog the owner never sealed is on no node, which is what the owner's signature is for.
- LocalVaults.LocalVault.Replicate: a put that fails on a node keeps a valid copy found there; that a failing read of it can lose it is `Store.Run`, whose loss would here be one more damaged node.
- LocalVaults.LocalVault.Gc: which moment a crash stops at is an arbitrary choice: the contract says that a moment without the expired manifests is passed, and a crash is opening the vault again there with `LocalVaults.LocalVault.Resume`.
