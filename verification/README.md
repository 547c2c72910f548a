# A verified model of the supervisor's durable state

The supervisor keeps a vaultwarden deployment alive on a volume that may be lost at any
time: it mirrors identity files and attachments into an S3 bucket, keeps a chain of
database backups there, restores both at boot, and owns the processes and the periodic
work in between. This project models the parts of it that must not go wrong and proves
what they promise.

## What is modelled

**State sync** (`Sync*.dfy`, `SyncedSet.dfy`). A push uploads content-addressed objects
and then rewrites a manifest; a pull restores missing files from the manifest, falls back
to the older path keys, recovers objects the manifest does not name and notes damage in a
repair list. The bucket is a map from keys to bytes with the manifest as text beside it;
the volume is a map from relative paths to files with the repair list, the shadow manifest
and the hash cache. Every PUT is stored, lost, or stored without being acknowledged, and a
run may stop after any request. `SyncPush` and `SyncPull` hold the operations twice: as
functions that give every state passed through, and as methods that perform them on the
mutable client, disk, manifest and cache and are proved equal to those functions.
`SyncPushAny`, `SyncPushExact` and `SyncPullExact` say exactly what a push and a pull do,
apart from those functions, for every input and every answer of the server;
`SyncSafety`, `SyncCompleteness`, `SyncRestore` and `SyncHealing` prove what follows;
`SyncBridge` joins them to the walk over the volume, the download and the retries, and
`SyncWitnesses` holds the deployments in which the guarantees end.

**Database backups** (`Backup*.dfy`, `Unchanged.dfy`). One cycle stages a dump, uploads it,
publishes the manifest that names it, records the generation in the lineage sidecar, keeps
the dump for comparison and prunes. `BackupTick` gives the cycle and the exact sequence of
its durable effects, `BackupGuards` when it acts and where it ends, `BackupRestore` the
boot restore, how it ends in every case, and the adoption of a lineage.
`BackupLineage` and `BackupHistory` put any number of volumes beside one bucket and let
cycles and restores stop after any effect, volumes adopt, the vault write its database and
volumes be lost, in any order; `BackupIntegrity`, `BackupSkips`, `BackupListing` and
`BackupRoundTrip` add what the bucket holds at every such point. Each database carries a
history variable, the set of dump names its content descends from, in terms of which the
linearity of the chain is stated. `BackupWitnesses` holds the histories in which the
guarantees end.

**Process reaping** (`Reaper*.dfy`). The kernel's process table with recyclable pids, the
registry under its lock, spawning and signalling threads and the one reaping thread, as a
transition relation with an inductive invariant over all interleavings; when each step may
happen, what it changes, and that no run is ever stuck; and the reaper's pass as the code
runs it, with the others acting between its steps, proved to take only steps of that
relation.

**Transfers** (`Download.dfy`, `Transfers.dfy`). The resumable download (Range requests,
sections 14.2 and 15.3.7 of RFC 9110), retries of a PUT, uploads in parts and paginated
listings.

**Maintenance** (`Maintenance.dfy`, `Cadence.dfy`). The scheduler of the periodic tasks, the final flush
and the bounded wait for both, over an integer clock in milliseconds.

`Text.dfy` holds the text handling both manifest formats share, `SyncManifest` and
`BackupManifest` the two formats, `Formats.dfy` exactly which texts each reader accepts,
`Requests.dfy` the three ways a PUT ends.

## Hypotheses about the environment

- One writer per bucket at a time: pushes, and cycles and restores of different volumes,
  follow one another; each may stop anywhere.
- A local file does not change between the reading of its metadata, its hash and its PUT.
- Hashing, emptiness and integrity of a database are parameters. Where equal hashes must
  mean equal bytes this is stated for the contents that occur (`NoCollision`).
- The hash cache is sound: an entry that matches a file's size and known timestamps holds
  its hash (`SyncCompleteness.CacheSound`; a push keeps it so). A listing shows each key
  once (`SyncPullExact.KeysOnce`).
- Synced paths handed to a push have no newline and no trailing whitespace (`GoodPaths`);
  the configured state file is neither the manifest nor under `objects/` or `db/`
  (`GoodStateFile`). A backup name is new when a cycle picks it: to the bucket, to every
  database's past and to every sidecar (`UnusedName`).
- The backup histories start from a bucket whose dump names hold no whitespace or slash
  (`Orderly`); `BackupListing` is about the others.
- In the histories of the backup chain a volume is lost with its database, sidecar and
  retained copy together and nobody removes the manifest by hand; a usable dump and the
  dump of a database with data hold data, and the vault does not empty a database that has
  some. Volumes adopt at any time, by right or not: every run keeps what the theorems start
  from (`BackupLineage.Coherent`), and each says which steps of its own volume count.
- A store answers a request, when it answers, with what it holds. A download is compared
  with the stored object under one more condition (`HonestServer`): the object's own size
  is expected, or every body declares its length; `Download.UndeclaredShortBodyPasses`
  shows what passes otherwise.

## What does not hold, and exactly when

- A backup manifest can name a missing object: its PUT is taken to have failed but was
  applied, and the error branch deletes the dump; or the staged dump could not be measured
  and is recorded with size 0. `BackupIntegrity.TickKeepsBacked` is an equivalence, and
  `BackupWitnesses.MisledCycleBreaksIntegrity` gives both cycles.
- A retained copy can differ from the newest object in two ways: a cycle that published
  its manifest and recorded its generation is killed before it renames the dump, or the
  rename fails, beside another copy (`BackupSkips.FaithfulAtStop`); or the volume adopts
  beside another copy, as after a cycle that was killed before it recorded its generation
  (`BackupSkips.AdoptionKeepsFaithful`; an ordinary restart of a volume at the current
  generation is harmless, `BackupSkips.RestartIsCareful`). Both are equivalences, and over
  whole runs a volume's copy is faithful exactly while its own steps are careful
  (`BackupSkips.FaithfulWhileCareful`). An unfaithful copy is what makes a cycle skip its
  upload wrongly (`BackupSkips.UnfaithfulSkipsWrongly`, an equivalence);
  `BackupWitnesses.KilledCycleMisleadsTheNextSkip` and
  `BackupWitnesses.AdoptionMisleadsTheNextSkip` are whole runs that end so.
- A cycle over the listing of a bucket without a manifest can store an unreadable manifest,
  after which every cycle refuses (`BackupListing.UnreadableRefuses`). It stores a readable
  one exactly when the listed names it retains hold no whitespace
  (`BackupListing.ListingCycleStoresReadable`); `BackupWitnesses.SpacedNameEndsTheBackups`
  is a bucket with one dump whose name holds a space.
- Both manifest formats read back exactly the well-formed manifests and no others
  (`SyncManifest.RoundTrip`, `BackupManifest.RoundTrip`).
- A redeploy can lose a file that was pushed with success, in exactly two ways
  (`SyncRestore.RedeployRoundTrip`, an equivalence per file): the file is over the pull's
  cap of 1 GiB, which a push does not have
  (`SyncWitnesses.OversizedFileNeverComesBack`); or it lies in a directory that used to be
  a file, whose entry the manifest keeps and whose object the bucket still holds
  (`SyncWitnesses.FormerFileShadowsTheDirectory`).
- A push can return true and leave an entry without its object: exactly when the manifest
  it read names the file, the file is not on the repair list and would be skipped, and its
  object is missing or of another size (`SyncHealing.HealsUnlessStale`).
  `SyncHealing.SelfHealing` derives when a boot reconciliation rules this out, and
  `SyncWitnesses.PutBackIsOverlooked` is a file put back after the boot with its old bytes.
- The hash cache can change the answer of a push, though nothing else
  (`SyncCompleteness.CacheOnlySkipsWork`): exactly when a file that cannot be read is
  remembered in one cache and not in the other (`SyncCompleteness.CacheDecidesTheAnswer`).
  `SyncWitnesses.CacheHidesUnreadable` is a push that returns true with its cache and false
  without it.
- A hurry-up can lengthen the final wait. `Maintenance.HurryLengthensExactly` says exactly
  when, for every thread, and `Maintenance.LateHurryLengthens` by how much with the
  configured budgets. The test that ends the final flushes can go back to "continue" only
  if the forced budget is the longer one (`Maintenance.AbortFinality`, an equivalence).
- A signal sent through a handle can reach a later child registered under the same pid;
  `Reaper.SignalsReachRegisteredChildren` says it reaches the handle's own child exactly
  while that child's status has not been collected, and
  `ReaperRecycling.SignalReachesALaterChild` is a run, for every pid, where it is another.
- The refusal of a volume restored from an older backup lasts until a lineage is adopted.
  The boot sequence adopts right after a restore (`supervisor/src/boot.rs:87-107`), so
  there the next cycle is admitted although `supervisor/src/runtime/backup/lineage.rs:1-10`
  describes the guard as protecting the newest backup. `BackupHistory.OlderImportRefuses`,
  `BackupHistory.AdoptionLiftsTheGuard` and, for restore and adoption in a row,
  `BackupHistory.BootLiftsTheGuard` are equivalences;
  `BackupWitnesses.AdoptionShadowsTheNewest` is a boot after which the next cycle extends a
  history its database does not descend from.

## Model

| member | source | states |
|---|---|---|
| `SyncSafety.CommitSafety` | supervisor/src/runtime/sync/state.rs:557-722 | Over any history of pushes, publishing or degraded, each interrupted anywhere and each PUT lost, stored or stored unacknowledged, every entry of the manifest stored at that moment is present at its content-addressed key with the hash it names. |
| `SyncSafety.PushKeepsIntact` | supervisor/src/runtime/sync/state.rs:557-722 | The same for every bucket state inside one push; a run that read the manifest also keeps entries held only at their older path key. |
| `SyncPush.SyncStateAt` | supervisor/src/runtime/sync/state.rs:557-730 | The push loop on the mutable client, manifest, cache and disk ends in the bucket, trace, volume and answer of the push that `SyncPushAny.AnyPushIsExact` describes. |
| `SyncPush.PushFile` | supervisor/src/runtime/sync/state.rs:620-700 | One visit: skipped only when manifest and cache or hash agree and no repair is due, otherwise one PUT, at the content-addressed key or in the older layout at the path key, whose acknowledgement alone updates manifest, cache and repair list; the dirty flag covers every cache change. |
| `SyncPush.Conclude` | supervisor/src/runtime/sync/state.rs:702-730 | The end of a push: the manifest is published under its size cap or noted in the shadow, repair list and cache are rewritten, and failure is reported. |
| `SyncPush.RemoteOnlyFiles` | supervisor/src/runtime/sync/state.rs:227-253 | Finds exactly the synced paths the bucket holds in either layout and the volume does not. |
| `SyncPushAny.AnyPushIsExact` | supervisor/src/runtime/sync/state.rs:557-730 | Every push, in either layout, whatever is lost, refused or unreadable and wherever it is stopped: the bucket gains exactly the due files whose upload took effect, at the keys of the layout, by that many requests; a push that is not stopped publishes, or notes in the shadow, what was known and the acknowledged ones; the repair list loses exactly these and what is no longer enumerated; the cache knows exactly what it knew and what was read; and the answer is yes if and only if every visit went well and the manifest was acknowledged where one was due. A file that fails does not keep the others from being sent. |
| `SyncPushExact.PushIsExact` | supervisor/src/runtime/sync/state.rs:602-730 | After a push that returns true, in either layout, every enumerated file is there, and exactly those whose content was not known to be in the bucket or that were due for repair have been stored, one request each, before the manifest was published or the shadow noted. |
| `SyncPushExact.IdlePush` | supervisor/src/runtime/sync/state.rs:557-565 | Without a client a push does nothing and answers no; with nothing to sync it does nothing and answers yes. |
| `SyncPushExact.TouchedIsRead` | supervisor/src/runtime/sync/cache.rs:79-87 | A file whose size or either timestamp differs from its cache entry, or whose clocks are unknown, is read again. |
| `SyncPushExact.RecordsOnlyWhatIsStored` | supervisor/src/runtime/sync/state.rs:670-727 | Whatever fails on the way and in either layout, an entry that a push adds to the manifest or the shadow, or a file it takes off the repair list, had an acknowledged upload, and the bucket holds its current bytes. |
| `SyncWorld.LoadIsExact` | supervisor/src/runtime/sync/state.rs:69-78 | A manifest is loaded if and only if it is fetched, has at most 4 MiB and reads; it is absent if and only if the fetch succeeds and none is stored. |
| `SyncWorld.RecordedIsExact` | supervisor/src/runtime/sync/state.rs:172-202 | The repair list reads back exactly the written names, without those that hold a newline and less one carriage return at the end of a name. |
| `SyncCompleteness.SuccessNamesEveryFile` | supervisor/src/runtime/sync/state.rs:602-730 | A publishing push that returns true leaves a readable manifest naming every enumerated file with the hash and size of its current bytes, and no path beyond those and the entries it started from. |
| `SyncCompleteness.FairPushSucceeds` | supervisor/src/runtime/sync/state.rs:580-730 | A push that may publish, whose requests are all answered and whose manifest fits the cap, returns true. |
| `SyncCompleteness.PublishedManifest` | supervisor/src/runtime/sync/state.rs:80-94 | The manifest stored after such a push reads back as the one its visits built. |
| `SyncCompleteness.CacheOnlySkipsWork` | supervisor/src/runtime/sync/state.rs:637-666 | From any two sound caches, the empty one included, a push makes the same requests and ends with the same bucket, repair list and shadow, and leaves a sound cache; its answer is the same too when every file can be read. |
| `SyncCompleteness.CacheDecidesTheAnswer` | supervisor/src/runtime/sync/state.rs:637-666 | Where a push returns true, the same push from another sound cache does if and only if each file it could not read is remembered in that cache, or from earlier in the same push. |
| `SyncCompleteness.WithoutTheCache` | supervisor/src/runtime/sync/state.rs:637-666 | Without the cache a push returns true if and only if it does with it and every file can be read or has been earlier in the push. |
| `SyncWitnesses.CacheHidesUnreadable` | supervisor/src/runtime/sync/state.rs:637-666 | One push whose only file cannot be read: it returns true with a cache that remembers the file and false without it. |
| `SyncCache.Cache.Record` | supervisor/src/runtime/sync/cache.rs:94-105 | The entry for the path is the given one, and the dirty flag is raised exactly when that changed something. |
| `SyncCompleteness.RebuildCoversTheBucket` | supervisor/src/runtime/sync/state.rs:580-614 | When no manifest could be loaded and the push publishes and returns true, it names exactly the local synced files with their current bytes, and every synced path the listing held exists locally. |
| `SyncCompleteness.DegradedPushPublishesNothing` | supervisor/src/runtime/sync/state.rs:580-614 | When a synced path of the bucket is missing locally or the bucket cannot be listed, no manifest and no content-addressed object changes in any state of the push. |
| `SyncRestore.RedeployRoundTrip` | supervisor/src/runtime/sync/state.rs:393-543 | After a publishing push that returned true, wiping the volume and pulling with every transfer succeeding gives back a pushed file byte for byte if and only if it is at most 1 GiB, the pull's cap, and no named path whose object the bucket holds is a directory prefix of it. |
| `SyncRestore.WipedPullIsExact` | supervisor/src/runtime/sync/state.rs:393-543 | A pull onto an empty volume with every transfer succeeding restores, of all named paths, exactly those the bucket holds acceptably and that no restored path shadows, with the bytes it holds. |
| `SyncWitnesses.FormerFileShadowsTheDirectory` | supervisor/src/runtime/sync/state.rs:459-531 | A file that was pushed gives way to a directory with a file in it that is pushed too: both pushes return true, and no pull onto an empty volume gives the nested file back. |
| `SyncWitnesses.OversizedFileNeverComesBack` | supervisor/src/runtime/sync/state.rs:486-494 | The first push of a file over the cap returns true, and no pull onto an empty volume ever gives the file back. |
| `SyncRestore.PullFrame` | supervisor/src/runtime/sync/state.rs:393-543 | Against any server and wherever it stops, a pull removes only stale partials, changes no other file, creates only synced files whose bytes match what the bucket's records name, and of the bookkeeping touches only the repair list. |
| `SyncPull.RestoreStateAt` | supervisor/src/runtime/sync/state.rs:393-543 | The pull on the mutable disk ends in the volume and answer of the pull that `SyncPullExact.PullIsExact` describes. |
| `SyncPullExact.PullIsExact` | supervisor/src/runtime/sync/state.rs:393-543 | Every pull, from any volume and any server: leftovers are cleared; of its targets, in order and up to a stop, exactly those are created whose accepted bytes arrived and that neither the volume nor an earlier one keeps from their place, and nothing else changes; a pull that is not stopped reconciles; and it answers yes if and only if every target syncs and has something at its path. |
| `SyncPullExact.ListedTargetsAreExact` | supervisor/src/runtime/sync/state.rs:427-456 | Without a manifest the targets are the listed keys outside `objects/` other than the manifest, nested ones included, all of them and in order, at their listed sizes. |
| `SyncPullExact.NamedTargetsAreExact` | supervisor/src/runtime/sync/state.rs:418-426 | With one they are its entries in path order, with their sizes and hashes. |
| `SyncPullExact.ListedPathComesBack` | supervisor/src/runtime/sync/state.rs:433-531 | Without a readable manifest, from any volume, a pull whose transfers are answered from the bucket brings back a listed synced path of at most 1 GiB with the bucket's bytes, unless something stands at it, in its way, or conflicts with it in the listing. |
| `SyncPullExact.NamedPathComesBack` | supervisor/src/runtime/sync/state.rs:459-531 | With a manifest, from any volume, it brings back a named synced path whose recorded content the bucket holds, on the same condition. |
| `SyncPullExact.ClearedIsExact` | supervisor/src/runtime/sync/synced.rs:101-141 | A boot clears exactly the files ending in `.part` at the top level and in the three trees. |
| `SyncPull.PullTarget` | supervisor/src/runtime/sync/state.rs:459-531 | One target: skipped when something exists there, fetched from the content-addressed key and then the path key, and published only when size, hash and cap hold. |
| `SyncPull.ReconcileObjects` | supervisor/src/runtime/sync/state.rs:267-369 | Recovery of unreferenced objects and the rewriting of the repair list, from one listing: the reconciliation that `SyncPullExact.ReconcileIsExact` describes. |
| `SyncPullExact.ReconcileIsExact` | supervisor/src/runtime/sync/state.rs:267-369 | Every reconciliation: up to a stop it creates exactly the chosen versions whose accepted bytes arrived and that have a place, and of a loaded manifest's entries, up to a stop, exactly the damaged ones that exist locally join the repair list and the shown ones leave it; without a manifest the list stays. |
| `SyncPullExact.ChosenIsTheChoice` | supervisor/src/runtime/sync/state.rs:274-303 | With a manifest or without, chosen for recovery is, for every synced path that no loaded manifest names, its one listed version or the one whose timestamp is unambiguously the latest, and nothing for any other path. |
| `SyncPull.CheckReferenced` | supervisor/src/runtime/sync/state.rs:334-369 | The repair list after the presence-and-size test of every manifest entry, up to a stop. |
| `SyncHealing.PullNotesDamage` | supervisor/src/runtime/sync/state.rs:334-369 | After a complete reconciliation every manifest entry is shown by the bucket, has nothing at its local path, or is on the repair list. |
| `SyncHealing.HealsUnlessStale` | supervisor/src/runtime/sync/state.rs:615-727 | After a push that may publish and returns true every enumerated file is named, and passes the presence-and-size test if and only if it was not skipped, off the repair list, over a missing or wrong-sized object. |
| `SyncHealing.StaleMeansCurrent` | supervisor/src/runtime/sync/state.rs:637-666 | With a sound cache such a skip happens exactly to files whose current content the manifest names, that are not due for repair and whose object is not shown. |
| `SyncHealing.SelfHealing` | supervisor/src/runtime/sync/state.rs:615-727 | A complete boot reconciliation followed by a publishing push that returns true leaves every enumerated file named and passing the presence-and-size test, whatever was missing or wrong-sized, provided the file was there at boot or not named then; a push that rebuilds the manifest heals every file. |
| `SyncWitnesses.PutBackIsOverlooked` | supervisor/src/runtime/sync/state.rs:615-727 | A file missing at boot together with its object, put back with the bytes the manifest names: the next push returns true and leaves the entry without an object. |
| `SyncRestore.RecoveryIsComplete` | supervisor/src/runtime/sync/state.rs:304-332 | When every transfer succeeds a reconciliation leaves something at the path of every chosen object, or a file in its way; a file it created there is the chosen version. |
| `SyncPullExact.LatestComesBack` | supervisor/src/runtime/sync/state.rs:274-332 | The same from the listing: every synced path that no loaded manifest names and that has one listed version, or an unambiguously latest one, is filled when the transfers succeed, with that version if the reconciliation created it. |
| `SyncVersions.ChooseNewest` | supervisor/src/runtime/sync/state.rs:134-164 | The grouping and choosing loops compute the choice per path. |
| `SyncVersions.PickIsUniqueLatest` | supervisor/src/runtime/sync/state.rs:134-164 | The choice is the unique latest version, or nothing exactly when timestamps do not order the versions. |
| `SyncVersions.ChoiceIgnoresOrder` | supervisor/src/runtime/sync/state.rs:134-164 | The choices are the same for every permutation of the listing. |
| `SyncedSet.EnumerationIsExact` | supervisor/src/runtime/sync/synced.rs:26-76 | The enumeration holds exactly the regular files the durable-set test accepts, in ascending order. |
| `SyncedSet.SyncedPaths` | supervisor/src/runtime/sync/synced.rs:26-41 | The durable set, character by character: no `..`, no leading slash, no `.part` at the end, and the default or configured state file, a top-level name that starts with `rsa_key`, or anything below `certs/`, `attachments/` or `sends/`. |
| `SyncedSet.LocalSyncedFiles` | supervisor/src/runtime/sync/synced.rs:44-76 | The collecting loops compute that enumeration. |
| `SyncedSet.WalkDir` | supervisor/src/runtime/sync/synced.rs:80-94 | The recursive walk appends the kept files below a directory in visiting order. |
| `SyncBridge.WalkEnumeratesExactly` | supervisor/src/runtime/sync/synced.rs:44-76 | What the walk collects from the directory tree is the exact enumeration the push theorems start from. |
| `SyncBridge.PushVolume` | supervisor/src/runtime/sync/state.rs:557-730 | Enumeration and push together: a true answer from a push that may publish means the manifest names every regular file the durable-set test accepts, with its current content. |
| `SyncBridge.Transfer` | supervisor/src/s3/client.rs:514-659 | What the resumable download returns is what a pull accepts; from an honest server it is the stored object, and without trouble a server that delivers in time is enough. |
| `SyncBridge.PutRetried` | supervisor/src/s3/client.rs:83-94 | The retries of an object PUT end in the bucket of one PUT, stored, lost or stored unacknowledged. |
| `SyncBridge.PutTextRetried` | supervisor/src/s3/client.rs:83-94 | The retries of the manifest PUT end in the bucket of one PUT, stored, lost or stored unacknowledged. |
| `SyncKeys.SplitInvertsObjectKey` | supervisor/src/runtime/sync/state.rs:106-120 | Splitting a content-addressed key gives back its path and hash. |
| `SyncKeys.SplitIsExact` | supervisor/src/runtime/sync/state.rs:113-120 | Only keys of that shape split. |
| `SyncKeys.PathKeysAreApart` | supervisor/src/runtime/sync/state.rs:670-674 | A synced path's own key is never the manifest, a content-addressed key or a database backup. |
| `SyncKeys.KeyNamesAreInjective` | supervisor/src/runtime/sync/state.rs:106-108 | Different keys of the model have different names in the bucket. |
| `SyncManifest.RoundTrip` | supervisor/src/runtime/sync/manifest.rs:31-74 | A rendered manifest reads back as itself exactly when it is well-formed. |
| `SyncManifest.ParseYieldsWellFormed` | supervisor/src/runtime/sync/manifest.rs:31-63 | Whatever the parser accepts is well-formed. |
| `Formats.SyncTextIsExact` | supervisor/src/runtime/sync/manifest.rs:31-63 | A text reads as these entries if and only if its first line is the header, every other one is blank or an item, and each path has what the last line for it says. |
| `Formats.SyncLineIsExact` | supervisor/src/runtime/sync/manifest.rs:40-60 | A line is an item if and only if it is 64 hex digits in either case, a number and a path, with one space between and white space behind that does not count. |
| `Formats.U64IsExact` | supervisor/src/runtime/sync/manifest.rs:49-51 | A field reads as a 64-bit number if and only if it is an optional plus sign, zeros and its decimal digits. |
| `Formats.LinesAreExact` | supervisor/src/runtime/sync/manifest.rs:32-36 | A text has one line for each segment closed by a newline, less the carriage return before it, and one for a last segment that is not closed. |
| `Formats.SyncRenderIsExact` | supervisor/src/runtime/sync/manifest.rs:66-74 | A well-formed manifest is written as the header and one line for each path, in ascending order. |
| `SyncManifest.ParseText` | supervisor/src/runtime/sync/manifest.rs:31-63 | The parsing loop computes the parse. |
| `SyncManifest.Manifest.RenderText` | supervisor/src/runtime/sync/manifest.rs:66-74 | The rendering loop computes the rendering of the entries in path order. |
| `BackupHistory.LinearHistory` | supervisor/src/runtime/backup/dump.rs:85-168 | Once a cycle of one volume has published a generation, wherever it stopped, no other volume uploads anything in any later state of any run, whatever the others do and adopt, before a restore of its own has brought it the newest backup or it has itself recorded a claim it adopted. |
| `BackupHistory.OutdatedUntilReadmitted` | supervisor/src/runtime/backup/lineage.rs:93-101 | A volume that is behind and does not descend from the newest backup stays so up to any later point of any run if and only if neither of those two steps of its own comes before it. |
| `BackupHistory.PublicationExtendsTheChain` | supervisor/src/runtime/backup/dump.rs:154-168 | A cycle that changed the stored manifest appended exactly the next generation under its own name; if the history it read was not empty the volume proved its current generation, and descends from the newest dump if its claim is honest; and every other volume is behind afterwards and does not descend from the new dump. |
| `BackupHistory.OnlyTheOwnerExtends` | supervisor/src/runtime/backup/lineage.rs:93-101 | In every state any run can reach a volume that would upload over a non-empty history proves exactly its current generation, legacy names included, and descends from its newest dump if its claim is honest. |
| `BackupHistory.BehindRefuses` | supervisor/src/runtime/backup/dump.rs:85-94 | A volume that cannot prove the stored current generation uploads nothing, whatever its cycle meets. |
| `BackupHistory.BehindPersists` | supervisor/src/runtime/backup/lineage.rs:93-101 | A volume that is behind stays behind through every step of anyone, unless its own restore brings it the newest backup; of its own adoptions exactly those that record a claim end it. |
| `BackupHistory.OutdatedPersists` | supervisor/src/runtime/backup/lineage.rs:93-101 | The same step by step: an outdated volume stays outdated if and only if the step is not a restore of its own that brings the newest backup nor an adoption of its own that records a claim. |
| `BackupHistory.AdmittedUnlessBehind` | supervisor/src/runtime/backup/dump.rs:85-112 | Over a non-empty history a cycle whose other guards pass is admitted if and only if its volume is not behind. |
| `BackupLineage.StepKeepsLineal` | supervisor/src/runtime/backup/dump.rs:33-187 | Every cycle or restore stopped anywhere, adoption, database write and volume loss keeps every sidecar honest, at most the current generation and the current one only with a database descending from the newest dump, if and only if it is not an adoption by a database that does not descend from what it claims. |
| `BackupLineage.StepKeepsHonest` | supervisor/src/runtime/backup/dump.rs:33-187 | The same for one volume: only its own adoptions count. |
| `BackupLineage.StepKeepsCoherent` | supervisor/src/runtime/backup/lineage.rs:37-60 | Every step, any adoption included, keeps every recorded generation at most the current one and the bucket's names plain. |
| `BackupHistory.LinealWhileRightful` | supervisor/src/runtime/backup/restore.rs:200-235 | In every run all claims are honest up to some point if and only if every adoption before it was by a database that descends from what it claimed. |
| `BackupLineage.ImportIsHonest` | supervisor/src/runtime/backup/restore.rs:278-288 | What a restore records about the backup it imported is honest, from manifest or listing. |
| `BackupIntegrity.TickKeepsBacked` | supervisor/src/runtime/backup/dump.rs:129-187 | In every state a cycle passes through each entry of the stored manifest names an existing object of the recorded size, if and only if its manifest does not take effect unmeasured or undone. |
| `BackupWitnesses.MisledCycleBreaksIntegrity` | supervisor/src/runtime/backup/dump.rs:145-186 | From a fresh deployment, a cycle whose manifest is applied unacknowledged and whose dump is then deleted, or whose dump is not measured, passes through a state whose manifest names a missing or wrong-sized object. |
| `BackupHistory.RunStaysBacked` | supervisor/src/runtime/backup/dump.rs:129-187 | Over every run of cycles, restores and adoptions of several volumes stopped anywhere, in which no cycle is misled, each manifest ever stored names only objects that exist at that moment at their recorded sizes. |
| `BackupIntegrity.FlawlessTickIsExact` | supervisor/src/runtime/backup/prune.rs:12-31 | A cycle without failures ends with the dumps of the bucket being exactly the names in its manifest. |
| `BackupIntegrity.FailedCycleIsUndone` | supervisor/src/runtime/backup/dump.rs:170-186 | A cycle whose manifest does not take effect takes its dump back: the bucket and the volume's records end as they were. |
| `BackupHistory.FlawlessRunIsExact` | supervisor/src/runtime/backup/prune.rs:12-31 | The same in every state of every run whose cycles end without failures, whatever restores, adoptions, writes and losses come between them. |
| `BackupTick.TickAt` | supervisor/src/runtime/backup/dump.rs:33-187 | The cycle on the mutable client and disk passes through exactly the states its specification lists, in order. |
| `BackupGuards.CycleActs` | supervisor/src/runtime/backup/dump.rs:33-144 | A cycle has any effect if and only if it is not stopped, has a client, a database that decidedly holds data, a staged dump it may upload and a history it learns, from a readable manifest of at most 256 KiB or without one from a listing of at most 10,000 keys; and, unless that is empty, can number on, proves a generation at least the newest, and does not prove the newest with an equal dump retained. |
| `BackupGuards.PlanIsExact` | supervisor/src/runtime/backup/dump.rs:76-144 | It is planned to extend exactly that history, with exactly the dump it took. |
| `BackupGuards.CycleEndIsExact` | supervisor/src/runtime/backup/dump.rs:145-187 | Where a cycle that acts and is not killed leaves bucket and volume, from the answers it gets: which dumps are stored, deleted again or pruned, which manifest is stored, and what sidecar, retained copy and database have become. |
| `BackupTick.PublishOrUndo` | supervisor/src/runtime/backup/dump.rs:154-186 | Push and retain on the manifest, its publication under the size cap, and the deletion of the dump when that fails. |
| `BackupTick.Prune` | supervisor/src/runtime/backup/prune.rs:12-31 | The evicted dumps are deleted one by one, each deletion on its own. |
| `BackupSkips.SkippedUploadsAreRedundant` | supervisor/src/runtime/backup/dump.rs:136-144 | Over every run, whatever the other volumes do: as long as a volume records no generation beside a copy of something else, neither by a cycle that stops before it retains its dump nor by an adoption, a cycle of it that skips its upload finds the newest object equal to the dump it took. |
| `BackupSkips.FaithfulWhileCareful` | supervisor/src/runtime/backup/dump.rs:136-168 | In every run a volume's retained copy is the newest object whenever it proves the current generation, up to some point, if and only if its own steps before that point recorded no generation beside another copy. |
| `BackupSkips.UnfaithfulSkipsWrongly` | supervisor/src/runtime/backup/dump.rs:136-144 | Over a history that can be extended, some cycle of a volume with data would skip wrongly if and only if its retained copy is unfaithful. |
| `BackupSkips.FaithfulAtStop` | supervisor/src/runtime/backup/dump.rs:154-168 | After k effects of a cycle the volume's retained copy is faithful if and only if it is not the case that the manifest was published, the generation recorded, the rename not reached or failed, and another copy retained before. |
| `BackupWitnesses.KilledCycleMisleadsTheNextSkip` | supervisor/src/runtime/backup/dump.rs:136-168 | From a fresh deployment a run of allowed steps, one cycle of it killed before it retains its dump, after which a cycle skips although the newest object holds other bytes. |
| `BackupWitnesses.AdoptionMisleadsTheNextSkip` | supervisor/src/runtime/backup/restore.rs:192-214 | The same without a careless cycle: killed before it records its generation, the volume adopts, descending from what it claims, and a later cycle skips although the newest object holds other bytes. |
| `BackupSkips.StepKeepsFaithful` | supervisor/src/runtime/backup/unchanged.rs:76-96 | A volume's retained copy stays faithful through a step of anyone if and only if the step is not a careless one of its own. |
| `BackupSkips.AdoptionKeepsFaithful` | supervisor/src/runtime/backup/restore.rs:200-235 | A faithful volume stays faithful through an adoption if and only if it does not record the current generation beside a retained copy that is not the newest object. |
| `BackupSkips.RestartIsCareful` | supervisor/src/boot.rs:101-107 | The adoption of an ordinary restart, by a faithful volume that proves the current generation, is never careless. |
| `BackupRoundTrip.SuccessIsCurrent` | supervisor/src/runtime/backup/dump.rs:145-168 | A cycle that has something to upload and meets no failure ends with its dump as the bucket's current backup, recorded in the sidecar and retained. |
| `BackupRoundTrip.QuietCycleDoesNothing` | supervisor/src/runtime/backup/dump.rs:130-144 | While a volume's dump is the current backup, every further cycle that takes the same dump and can compare it has no effect. |
| `BackupRoundTrip.BackupRoundTrip` | supervisor/src/runtime/backup/restore.rs:253-292 | A volume lost while its dump is the current backup gets back exactly that dump from a restore whose transfer succeeds, and may go on extending the history. |
| `BackupRoundTrip.FirstBackup` | supervisor/src/runtime/backup/dump.rs:33-187 | In a fresh deployment, an empty bucket and volumes that never pushed, a cycle on any volume with data that meets no failure is a step of the history that stores a manifest and ends with its dump current; the hypotheses of the history theorems hold there. |
| `Unchanged.SameBytes` | supervisor/src/runtime/backup/unchanged.rs:38-56 | The chunked comparison answers byte equality for every pattern of short and interrupted reads; there is no answer if and only if a read failed. |
| `Unchanged.ReadFull` | supervisor/src/runtime/backup/unchanged.rs:59-70 | The buffer is filled with the next bytes of the file, short only at its end; there is no result if and only if a read failed. |
| `Unchanged.IsRepeat` | supervisor/src/runtime/backup/unchanged.rs:32-34 | A dump is taken for a repeat only if a retained copy exists and is byte-identical, and is taken for one then unless a read fails. |
| `BackupRestore.RestoreFallsBackOnlyFromCorruption` | supervisor/src/runtime/backup/restore.rs:53-138 | Importing a candidate implies every newer one was delivered in full and failed its integrity check; any other end imports nothing; a live database that is not provably empty is never touched. |
| `BackupRestore.RestoreOutcomeIsExact` | supervisor/src/runtime/backup/restore.rs:53-138 | How a restore ends, in every case: ready if it is off, the database decidedly holds data or the client is unusable; refused for a database that cannot be judged; refused, or aborted after a stop, when neither manifest nor listing can be read; ready when there is no backup; and otherwise as the first candidate decides that is not delivered in full and unusable: ready, with that one imported, exactly if it is delivered, usable and published. |
| `BackupRestore.SomeoneDecides` | supervisor/src/runtime/backup/restore.rs:96-138 | Some candidate, or the end of the list, always decides. |
| `BackupRestore.OnlyOneDecides` | supervisor/src/runtime/backup/restore.rs:96-138 | And only one does. |
| `BackupRestore.AttemptStates` | supervisor/src/runtime/backup/sqlite/restore.rs:56-123 | The states of one attempt: nothing, a cleared live path, or the whole import with the sidecar written last. |
| `BackupRestore.RestoreIfEmpty` | supervisor/src/runtime/backup/restore.rs:53-138 | The restore loop on the mutable disk passes through the states its specification lists and ends as `BackupRestore.RestoreOutcomeIsExact` says. |
| `BackupRestore.RestoreObject` | supervisor/src/runtime/backup/restore.rs:253-292 | One candidate on the mutable disk: download, check, clear, link, record. |
| `BackupRestore.RecordIsExact` | supervisor/src/runtime/backup/restore.rs:278-288 | What an import records: the candidate's generation, or for a listed backup what follows the last slash of its name. |
| `BackupRestore.AdoptLineage` | supervisor/src/runtime/backup/restore.rs:200-235 | Adoption on the mutable disk rewrites the sidecar of a non-empty database with the manifest's current generation, or with the last listed name when the manifest is absent or empty, and is a no-op otherwise. |
| `BackupRestore.AdoptionIsExact` | supervisor/src/runtime/backup/restore.rs:200-235 | A database that holds data records the manifest's current generation, or the greatest listed dump name of a bucket whose manifest is absent or empty, and nothing else changes; any other adoption changes nothing. |
| `BackupHistory.OlderImportRefuses` | supervisor/src/runtime/backup/restore.rs:278-288 | After importing a manifest candidate and recording it the volume is behind, so that its next cycle refuses, exactly when the candidate was not the newest. |
| `BackupHistory.AdoptionLiftsTheGuard` | supervisor/src/runtime/backup/restore.rs:200-214 | With a non-empty history, after an adoption that does not write the volume is behind exactly as before; after one that writes, exactly when the record was truncated. |
| `BackupHistory.BootLiftsTheGuard` | supervisor/src/boot.rs:87-107 | A restore that imported and recorded a manifest candidate, followed by an adoption, leaves the volume behind exactly when the adoption wrote nothing and the candidate was older, or its record was truncated. |
| `BackupWitnesses.AdoptionShadowsTheNewest` | supervisor/src/boot.rs:87-107 | A boot whose restore falls back to the older of two backups and then adopts: without the adoption the next cycle refuses, with it the cycle extends a history its database does not descend from. |
| `BackupWorld.GenerationReadsBack` | supervisor/src/runtime/backup/lineage.rs:37-54 | A recorded generation reads back as itself. |
| `BackupWorld.NameReadsBack` | supervisor/src/runtime/backup/lineage.rs:37-60 | A recorded dump name, whitespace inside included, reads back as that name and never as a number. |
| `BackupWorld.NameResolves` | supervisor/src/runtime/backup/dump.rs:196-202 | A legacy name resolves at most to the current generation, and to it only when it is the newest name. |
| `BackupWorld.ListingIsWellFormed` | supervisor/src/runtime/backup/manifest.rs:139-150 | The listing's view is well-formed exactly when every listed dump name is free of whitespace. |
| `BackupWorld.ListingAscends` | supervisor/src/runtime/backup/tools.rs:60-86 | The listing ascends by name, so that its last name is the greatest. |
| `BackupListing.ListingCycleStoresReadable` | supervisor/src/runtime/backup/dump.rs:154-168 | A cycle over a bucket without a manifest stores one that reads back if and only if the listed names it retains are free of whitespace, and then as exactly those entries. |
| `BackupWitnesses.SpacedNameEndsTheBackups` | supervisor/src/runtime/backup/dump.rs:154-168 | Over a bucket that holds one dump with a space in its name the first cycle of a volume that adopted it publishes a manifest that does not read back, after which no cycle of anyone has any effect. |
| `BackupListing.ReadsBackWhenClean` | supervisor/src/runtime/backup/manifest.rs:41-92 | A gapless manifest of distinct dump names ending in a clean one reads back if and only if every name is free of whitespace. |
| `BackupManifest.RoundTrip` | supervisor/src/runtime/backup/manifest.rs:41-92 | A rendered manifest reads back as itself exactly when it is well-formed: ascending positive generations, distinct names without whitespace. |
| `BackupManifest.ParseYieldsWellFormed` | supervisor/src/runtime/backup/manifest.rs:41-80 | Whatever the parser accepts is well-formed. |
| `Formats.BackupTextIsExact` | supervisor/src/runtime/backup/manifest.rs:41-80 | A text reads as these entries if and only if its first line is the header and the others that are not blank say the entries one by one, generations ascending and no name twice. |
| `Formats.BackupLineIsExact` | supervisor/src/runtime/backup/manifest.rs:46-66 | A line is an entry if and only if it is a positive number, a name and a number with white space between, and perhaps around. |
| `Formats.BackupRenderIsExact` | supervisor/src/runtime/backup/manifest.rs:83-92 | A well-formed manifest is written as the header and one line for each entry, in order. |
| `BackupManifest.PushAndRetain` | supervisor/src/runtime/backup/manifest.rs:107-134 | A push under the next generation and a fresh name, and retaining the newest entries, preserve well-formedness and make the pushed entry the current one. |
| `BackupManifest.RetainedSplits` | supervisor/src/runtime/backup/manifest.rs:129-134 | Evicted and kept entries together are the manifest, the kept ones are the newest, and they share no name. |
| `BackupManifest.ManifestFitsTheCap` | supervisor/src/runtime/backup/tools.rs:45-52 | With at most 1000 entries and names of at most 40 ASCII characters the rendered manifest has at most 83,003 bytes, under the cap of the reading side. |
| `BackupManifest.Manifest.Retain` | supervisor/src/runtime/backup/manifest.rs:129-134 | The entries are cut to the newest ones and the others returned. |
| `BackupManifest.ParseText` | supervisor/src/runtime/backup/manifest.rs:41-80 | The parsing loop computes the parse. |
| `BackupManifest.Manifest.RenderText` | supervisor/src/runtime/backup/manifest.rs:83-92 | The rendering loop computes the rendering. |
| `Reaper.RunKeepsInv` | supervisor/src/runtime/process/reaper.rs:141-204 | In every interleaving a registered pid is the unreaped child it was registered for, except between its reaping and the removal of its entry under the same hold of the lock. |
| `Reaper.SignalsReachRegisteredChildren` | supervisor/src/runtime/process/child.rs:99-107 | A signal sent through a handle reaches exactly the child registered under its pid, unreaped and this process's own; it is the handle's own child exactly while that child's status has not been collected. |
| `ReaperRecycling.SignalReachesALaterChild` | supervisor/src/runtime/process/child.rs:99-107 | For every pid a run in which a signal sent through the handle of a collected child reaches a later child registered under its pid. |
| `Reaper.RefusedChildIsKilled` | supervisor/src/runtime/process/child.rs:64-73 | The kill after a failed pidfd reaches the child just forked. |
| `Reaper.OneFate` | supervisor/src/runtime/process/reaper.rs:160-204 | Every child ever registered is registered, in flight or settled, exactly one of these; a status in its slot is its own, and only a slot nobody holds is settled without one. |
| `Reaper.DeliveredForGood` | supervisor/src/runtime/process/reaper.rs:89-102 | A delivered status is never changed by any later step. |
| `Reaper.CleanPassSettlesEveryExit` | supervisor/src/runtime/process/reaper.rs:172-192 | A pass whose sweep ends because nothing is left to collect leaves no zombie, and the status of every registered child that had exited is in its slot if its handle is still held. |
| `Reaper.ZombiesBalance` | supervisor/src/runtime/process/reaper.rs:172-192 | Over any stretch of any run, zombies left and collected equal zombies before and appeared: the sweep's termination measure. |
| `ReaperSteps.StepsAreExact` | supervisor/src/runtime/process/reaper.rs:141-204 | When each event may happen, and to one state: the kernel starts, adopts and ends processes and handles are dropped at any time; whoever spawns, signals or reaps waits for the registry's lock. |
| `ReaperSteps.ChangesAreExact` | supervisor/src/runtime/process/reaper.rs:74-102 | What each step changes and what it leaves alone: process table, registry, slots and lock; a status changes only when it is delivered to a slot that is still held. |
| `ReaperSteps.NeverStuck` | supervisor/src/runtime/process/reaper.rs:141-204 | No run is ever stuck: from each of its states it can go on, with the lock's holder coming to an end and nobody but the reaper starting anything, to one without zombies where every registered child that has exited has its status delivered. |
| `ReaperPass.Machine.Pass` | supervisor/src/runtime/process/reaper.rs:141-192 | The pass in the code's order, with the kernel and the other threads acting around every lock, takes only steps of the protocol, ends, and unless waitpid errs leaves everything settled. |
| `ReaperPass.Machine.ReapOne` | supervisor/src/runtime/process/reaper.rs:149-170 | One polled pid: the wait and the entry's removal under one hold of the lock, the delivery after it. |
| `Download.Get` | supervisor/src/s3/client.rs:514-659 | At most three requests, each for the bytes from where the last one stopped, and none after one that settles the matter. Without local trouble the download succeeds if and only if the last body is taken to its end and the staged bytes meet every expectation; success publishes exactly these and, from an honest server and no leftover, the stored object; failure leaves the target unchanged and no partial; the partial is always a prefix; a server that delivers on the last attempt is enough. |
| `Download.Fetch` | supervisor/src/s3/client.rs:540-636 | The bounded attempts: where each one resumes, what it does to the partial file, whether another one follows, and what is staged when they end. |
| `Download.Stream` | supervisor/src/s3/client.rs:576-622 | The partial file holds the resumed bytes followed by a prefix of the received body, on success by all of it, never beyond the caps. |
| `Download.UndeclaredShortBodyPasses` | supervisor/src/s3/client.rs:576-622 | A beginning of the object that meets the caller's demands itself, served as a short body without a declared length, passes every test on the way to publication. |
| `Transfers.Retrying` | supervisor/src/s3/client.rs:83-94 | Retrying a PUT amounts to one PUT that is stored, lost or stored unacknowledged: at most three attempts, all but the last failed with a retryable error. |
| `Transfers.PutParts` | supervisor/src/s3/client.rs:382-434 | An upload in parts succeeds exactly when the file is long enough, the parts few enough and every one accepted; the parts then assemble to the file. |
| `Transfers.List` | supervisor/src/s3/client.rs:665-735 | A listing succeeds exactly when its pages lead to a last one within the bounds without repeating a token, and then holds every item of every page once, in key order. |
| `Transfers.CompleteIsAWalk` | supervisor/src/s3/client.rs:665-735 | Such pages are a walk: each but the last hands out the next token, never its own; at most 1,024 pages and 10,000 items; and the items are those of the pages of the walk. |
| `Maintenance.DrainWith` | supervisor/src/runtime/maintenance.rs:171-206 | The wait loop is over before budget + forced + 2 SYNC_TIMEOUT + 2 POLL for any hurry timing, ends as soon as the thread has finished, and otherwise never before the deadline. |
| `Maintenance.WaitEnds` | supervisor/src/runtime/maintenance.rs:182-203 | Whatever the thread does and whenever hurry comes, the wait ends with the first poll that finds the thread finished, and at the latest with the first one past the full budget, or past the forced budget of a hurry seen by then. |
| `Maintenance.HurryLengthensExactly` | supervisor/src/runtime/maintenance.rs:182-203 | For every thread, a hurry-up makes the wait longer if and only if it is seen by the poll the full budget allows, its own deadline falls on a later poll, and the thread has not finished by the former. |
| `Maintenance.EarlyHurryNeverLengthens` | supervisor/src/runtime/maintenance.rs:193-196 | Whatever the thread does, a hurry first seen no later than budget - forced after the start never makes the wait longer. |
| `Maintenance.LateHurryLengthens` | supervisor/src/runtime/maintenance.rs:193-196 | With the configured budgets a hurry at the last poll lengthens the wait from 180 to 255 seconds. |
| `Maintenance.AbortFinality` | supervisor/src/runtime/maintenance.rs:265-277 | The flush's abort test is final exactly unless a hurry-up falls after the full deadline and before a longer forced one. |
| `Maintenance.FlushTasks` | supervisor/src/runtime/maintenance.rs:265-291 | The first turn comes when the flush begins and each further one when the invocation before it has ended; a finisher is invoked, at its turn, if and only if the abort test does not hold at that instant; with a budget to begin with the first one always is; and when aborting is final the invocations are a prefix of those there are. |
| `Maintenance.RunDue` | supervisor/src/runtime/maintenance.rs:221-232 | One pass fires exactly the due tasks, in order and once each, each when the turn before it is over; each is re-armed from the instant it fired and runs if and only if no stop has been requested by then. |
| `Maintenance.Schedule` | supervisor/src/runtime/maintenance.rs:211-246 | The loop is a chain of such passes from the first due times on, with sleeps that end exactly at the next due time or at once when that has passed, up to the first wait that is no timeout; re-armings of a task are at least its cadence apart, runs never overlap, at most one run starts after a stop request, and the flush begins right after the last pass, all runs started, and invokes the finishers as above. |
| `Maintenance.RunsPerWindow` | supervisor/src/runtime/maintenance.rs:211-233 | In any window of length T a task comes due at most T / cadence + 1 times. |
| `Cadence.FiresAgain` | supervisor/src/runtime/maintenance.rs:221-233 | In every history of passes a periodic task that has fired next fires in exactly the first pass that starts one cadence or more after it was re-armed, unless that is beyond what the clock can represent. |
| `Cadence.FiresFirst` | supervisor/src/runtime/maintenance.rs:211-226 | It first fires in exactly the first pass from its first delay on, and a task without a cadence never does. |
| `Cadence.RunsUnlessStopped` | supervisor/src/runtime/maintenance.rs:221-233 | A firing runs its task if and only if no stop has been requested at the instant it is tested. |

## Left out

- HTTP, request signing, XML and TLS: requests succeed, fail, or fail after taking effect.
- SQLite itself: the dump's bytes, emptiness and integrity are parameters.
- Staging directories, file modes, the WAL siblings removed after an import, and logging.
- Empty directories a failed transfer leaves behind, and partial files that cannot be removed.
- The text format of the hash cache, and cache, shadow or sidecar files torn in the middle of a write; a sidecar write succeeds, fails, or leaves an empty file.
- Symbolic links and file names that are not UTF-8.
- Process groups beyond their leader, and the waiting side of a handle (`wait`, `quiesce`): polling loops over slots already covered.
- The abort of a multipart upload: a best-effort request after the failure is decided.
- Region and endpoint handling, configuration merging, boot phases, health checks: short branch tables.
- BackupHistory.LinearHistory: excludes the removal of the manifest by hand, because the guard is lifted there by design; what an adoption of the volume itself does is stated by `BackupHistory.BootLiftsTheGuard` and `BackupWitnesses.AdoptionShadowsTheNewest`.
- Maintenance.DrainWith: counts each sleep as exactly one POLL and the other steps as instantaneous, because the bound is on the loop's own deadlines.
- Reaper.ZombiesBalance: bounds the sweep by the zombies that exist or appear; that children stop exiting is not something the code can promise.
