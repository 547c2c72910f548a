/** Where the parts of the state sync meet: the push works on what the walk enumerates,
    a pull's bytes come from the resumable download, and one PUT is its retries. */
module SyncBridge {
  import opened Requests
  import opened Text
  import opened SyncedSet
  import opened SyncKeys
  import opened SyncWorld
  import opened SyncPush
  import opened SyncSafety
  import opened SyncCompleteness
  import opened SyncPull
  import Download
  import Transfers

  /** The file map and the directory tree show the same regular files. */
  ghost predicate SameFiles(root: Dir, files: map<string, File>) {
    GoodDir(root) && forall rel :: rel in files <==> FileAt(root, rel)
  }

  ghost predicate Configured(cfg: Config, state: Option<string>) {
    forall rel :: cfg.synced(rel) <==> IsSynced(rel, state)
  }

  /** What the walk collects is what the push theorems ask of an enumeration. */
  lemma WalkEnumeratesExactly(cfg: Config, root: Dir, state: Option<string>, files: map<string, File>)
    requires SameFiles(root, files) && Configured(cfg, state)
    ensures EnumeratesExactly(cfg, Enumerated(root, state), files)
  {
    hide FileAt, IsSynced, Enumerated;
    EnumerationIsExact(root, state);
  }

  /** One tick of the state sync: enumerate the volume, then push what was found. A true
      answer from a push that may publish means that the bucket's manifest names every
      regular file the durable-set test accepts, with its current content. */
  method PushVolume(cfg: Config, root: Dir, state: Option<string>, client: Client, disk: Disk, w: Weather)
    returns (ok: bool, ghost rels: seq<string>)
    requires SameFiles(root, disk.volume.files) && Configured(cfg, state)
    modifies client, disk
    ensures rels == Enumerated(root, state)
    ensures Outcome(client.bucket, client.trace, disk.volume, ok)
            == Push(cfg, old(client.bucket), old(disk.volume), rels, w)
    ensures ok && w.connected && rels != [] && Publishes(cfg, old(client.bucket), old(disk.volume), w)
            && GoodPaths(rels) && CacheSound(cfg, old(disk.volume.cache), old(disk.volume.files)) ==>
              forall rel :: FileAt(root, rel) && IsSynced(rel, state) ==>
                Current(cfg, old(disk.volume.files), NamedBy(client.bucket), rel)
  {
    hide FileAt, IsSynced, Enumerated, Push, Publishes, CacheSound, Current, NamedBy;
    var found := LocalSyncedFiles(root, state);
    rels := found;
    ghost var b, vol := client.bucket, disk.volume;
    ok := SyncStateAt(cfg, client, disk, found, w);
    WalkEnumeratesExactly(cfg, root, state, vol.files);
    EnumerationIsExact(root, state);
    if ok && w.connected && rels != [] && Publishes(cfg, b, vol, w) && GoodPaths(rels)
      && CacheSound(cfg, vol.cache, vol.files) {
      SuccessNamesEveryFile(cfg, b, vol, rels, w);
    }
  }

  /** One transfer of a pull, by the resumable download into a path that is free. What it
      returns is what the pull accepts; from an honest server it is the stored object;
      and without trouble a server that delivers in time is always enough. */
  method Transfer(cfg: Config, size: nat, sha: Option<string>, serve: (nat, nat) -> Download.Reply,
                  trouble: bool, ghost stored: seq<byte>, ghost honest: bool)
    returns (got: Option<Bytes>)
    requires honest ==> Download.HonestServer(serve, stored, Want(size, sha))
    ensures Accepted(cfg, size, sha, got) == got
    ensures honest && got.Some? ==> got.value == stored
    ensures honest && !trouble && Download.DeliversInTime(serve, stored)
            && Download.Wanted(cfg.sha256, Want(size, sha), stored) ==>
              got.Some?
  {
    var ok, part, target, requests, log :=
      Download.Get(cfg.sha256, Want(size, sha), serve, None, None, trouble, stored, honest);
    return if ok then target else None;
  }

  /** The retries of one object PUT are one PUT of the model. */
  method PutRetried(b: Bucket, key: Key, bytes: Bytes, attempts: nat -> Transfers.Attempt)
    returns (b': Bucket, answer: Answer)
    ensures b' == PutObject(b, key, bytes, answer)
    ensures exists used :: 1 <= used <= 3 && answer == Transfers.Combined(attempts, used)
  {
    var apply := (x: Bucket) => x.(objects := x.objects[key := bytes]);
    assert forall x: Bucket :: x.objects[key := bytes][key := bytes] == x.objects[key := bytes];
    var used;
    b', answer, used := Transfers.Retrying(b, apply, attempts);
  }

  /** And so are those of the manifest's. */
  method PutTextRetried(b: Bucket, text: string, attempts: nat -> Transfers.Attempt)
    returns (b': Bucket, answer: Answer)
    ensures b' == PutManifest(b, text, answer)
    ensures exists used :: 1 <= used <= 3 && answer == Transfers.Combined(attempts, used)
  {
    var apply := (x: Bucket) => x.(manifest := Some(text));
    var used;
    b', answer, used := Transfers.Retrying(b, apply, attempts);
  }
}
