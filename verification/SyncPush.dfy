/** The push: upload what changed, then rewrite the manifest. */
module SyncPush {
  import opened Requests
  import opened Text
  import opened SyncManifest
  import opened SyncCache
  import opened SyncKeys
  import opened SyncWorld

  /** What the environment decides while one file is visited. */
  datatype Visit = Visit(stop: bool, sizable: bool, readable: bool, put: Answer)

  /** What the environment decides over one push. */
  datatype Weather = Weather(connected: bool, fetched: bool, listed: bool, visits: nat -> Visit, publish: Answer,
                             noted: bool)

  /** The loop state of a push. */
  datatype Run = Run(bucket: Bucket, trace: seq<Bucket>, manifest: Entries, repair: set<string>, cache: CacheMap,
                     pushed: nat, failed: bool, stopped: bool)

  datatype Outcome = Outcome(bucket: Bucket, trace: seq<Bucket>, volume: Volume, ok: bool)

  predicate Matches(manifest: Entries, rel: string, sha: string, size: nat) {
    rel in manifest && manifest[rel].sha256 == sha && manifest[rel].size == size
  }

  function KeyFor(publish: bool, rel: string, sha: Digest): Key {
    if publish then ObjectKey(rel, sha) else PathKey(rel)
  }

  /** The file's cached hash is the one the manifest already names. */
  predicate CacheHit(r: Run, rel: string, f: File) {
    var cached := HashOf(r.cache, rel, |f.bytes|, f.mtime, f.ctime);
    cached.Some? && Matches(r.manifest, rel, cached.value, |f.bytes|)
  }

  function Remember(r: Run, rel: string, f: File, sha: Digest): Run {
    r.(cache := r.cache[rel := Cached(|f.bytes|, f.mtime, f.ctime, sha)])
  }

  function Upload(r: Run, key: Key, rel: string, f: File, sha: Digest, answer: Answer): Run {
    var b := PutObject(r.bucket, key, f.bytes, answer);
    var r' := r.(bucket := b, trace := r.trace + [b]);
    if answer.Stored? then
      Remember(r', rel, f, sha).(manifest := r.manifest[rel := Entry(|f.bytes|, sha)], repair := r.repair - {rel},
                                 pushed := r.pushed + 1)
    else r'.(failed := true)
  }

  /** One iteration over the enumerated files. */
  function VisitFile(cfg: Config, files: map<string, File>, publish: bool, r: Run, rel: string, v: Visit): Run {
    if r.stopped then r
    else if v.stop then r.(stopped := true)
    else if !v.sizable || rel !in files then r.(failed := true)
    else
      var f := files[rel];
      if rel !in r.repair && CacheHit(r, rel, f) then r
      else if !v.readable then r.(failed := true)
      else
        var sha := cfg.sha256(f.bytes);
        if rel !in r.repair && Matches(r.manifest, rel, sha, |f.bytes|) then Remember(r, rel, f, sha)
        else Upload(r, KeyFor(publish, rel, sha), rel, f, sha, v.put)
  }

  function After(cfg: Config, files: map<string, File>, publish: bool, start: Run, rels: seq<string>,
                 visits: nat -> Visit, n: nat): Run
    requires n <= |rels|
  {
    if n == 0 then start
    else VisitFile(cfg, files, publish, After(cfg, files, publish, start, rels, visits, n - 1), rels[n - 1],
                   visits(n - 1))
  }

  /** Synced paths the bucket holds in either layout and the volume does not. */
  function RemoteOnly(cfg: Config, b: Bucket, files: map<string, File>): set<string> {
    set key |
      && key in b.objects
      && (var rel := KeyPath(key); rel != "manifest" && cfg.synced(rel) && !Exists(files, rel))
      :: KeyPath(key)
  }

  function KeyPath(key: Key): string {
    match key case ObjectKey(rel, _) => rel case PathKey(path) => path
  }

  /** Whether this push may publish a manifest: it extends the stored one, or it
      provably covers the whole bucket. */
  predicate Publishes(cfg: Config, b: Bucket, vol: Volume, w: Weather) {
    LoadManifest(b, w.fetched).Loaded? || (w.listed && RemoteOnly(cfg, b, vol.files) == {})
  }

  function BaseManifest(cfg: Config, b: Bucket, vol: Volume, w: Weather): Entries {
    var load := LoadManifest(b, w.fetched);
    if Publishes(cfg, b, vol, w) then (if load.Loaded? then load.entries else map[])
    else if vol.shadow.Some? && Parse(vol.shadow.value).Some? then Parse(vol.shadow.value).value
    else map[]
  }

  function Start(cfg: Config, b: Bucket, vol: Volume, w: Weather): Run {
    Run(b, [], BaseManifest(cfg, b, vol, w), vol.repair, vol.cache, 0, false, false)
  }

  function Visited(cfg: Config, b: Bucket, vol: Volume, rels: seq<string>, w: Weather): Run {
    After(cfg, vol.files, Publishes(cfg, b, vol, w), Start(cfg, b, vol, w), rels, w.visits, |rels|)
  }

  /** Publication of the manifest after the visits. */
  function Publish(r: Run, answer: Answer): Run {
    if r.pushed == 0 then r
    else if Utf8Len(Render(r.manifest)) > MAX_MANIFEST_BYTES then r.(failed := true)
    else
      var b := PutManifest(r.bucket, Render(r.manifest), answer);
      r.(bucket := b, trace := r.trace + [b], failed := r.failed || !answer.Stored?)
  }

  function Finish(publish: bool, r: Run, vol: Volume, rels: seq<string>, w: Weather): Outcome {
    var done := if publish then Publish(r, w.publish) else r;
    var shadow :=
      if !w.noted || r.pushed == 0 then vol.shadow
      else if !publish then Some(Render(r.manifest))
      else if Utf8Len(Render(r.manifest)) <= MAX_MANIFEST_BYTES && w.publish.Stored? then None
      else vol.shadow;
    var repair := set rel | rel in r.repair && rel in rels;
    var vol' := if w.noted then vol.(shadow := shadow, repair := Recorded(repair), cache := r.cache) else vol;
    Outcome(done.bucket, done.trace, vol', !done.failed)
  }

  function Push(cfg: Config, b: Bucket, vol: Volume, rels: seq<string>, w: Weather): Outcome {
    if !w.connected then Outcome(b, [], vol, false)
    else if rels == [] then Outcome(b, [], vol, true)
    else
      var r := Visited(cfg, b, vol, rels, w);
      if r.stopped then Outcome(r.bucket, r.trace, vol, false)
      else Finish(Publishes(cfg, b, vol, w), r, vol, rels, w)
  }

  lemma {:induction false} StoppedStays(cfg: Config, files: map<string, File>, publish: bool, start: Run,
                                        rels: seq<string>, visits: nat -> Visit, i: nat, n: nat)
    requires i <= n <= |rels| && After(cfg, files, publish, start, rels, visits, i).stopped
    ensures After(cfg, files, publish, start, rels, visits, n) == After(cfg, files, publish, start, rels, visits, i)
  {
    if i < n {
      StoppedStays(cfg, files, publish, start, rels, visits, i, n - 1);
    }
  }

  lemma StopEnds(cfg: Config, files: map<string, File>, publish: bool, start: Run, rels: seq<string>,
                 visits: nat -> Visit, i: nat)
    requires i < |rels| && visits(i).stop && !After(cfg, files, publish, start, rels, visits, i).stopped
    ensures After(cfg, files, publish, start, rels, visits, |rels|)
            == After(cfg, files, publish, start, rels, visits, i).(stopped := true)
  {
    StoppedStays(cfg, files, publish, start, rels, visits, i + 1, |rels|);
  }

  // ------------------------------------------------------------ the method

  method RemoteOnlyFiles(cfg: Config, client: Client, disk: Disk) returns (missing: set<string>)
    ensures missing == RemoteOnly(cfg, client.bucket, disk.volume.files)
  {
    missing := {};
    var todo := client.bucket.objects.Keys;
    while todo != {}
      invariant todo <= client.bucket.objects.Keys
      invariant missing == RemoteOnly(cfg, client.bucket.(objects := client.bucket.objects - todo), disk.volume.files)
      decreases todo
    {
      var key :| key in todo;
      var rel := KeyPath(key);
      ghost var before := client.bucket.objects - todo;
      if rel != "manifest" && cfg.synced(rel) && !Exists(disk.volume.files, rel) {
        missing := missing + {rel};
      }
      todo := todo - {key};
      assert (client.bucket.objects - todo).Keys == before.Keys + {key};
    }
    assert client.bucket.objects - todo == client.bucket.objects;
  }

  /** One file: skip it when the manifest already names its content, else upload it. */
  method PushFile(cfg: Config, client: Client, files: map<string, File>, publish: bool, manifest: Manifest,
                  cache: Cache,
                  repair: set<string>, rel: string, v: Visit, ghost r: Run)
    returns (repair': set<string>, pushed: bool, failed: bool)
    requires !v.stop && !r.stopped
    requires r == Run(client.bucket, client.trace, manifest.entries, repair, cache.entries, r.pushed, r.failed, false)
    modifies client, manifest, cache
    ensures VisitFile(cfg, files, publish, r, rel, v)
            == Run(client.bucket, client.trace, manifest.entries, repair', cache.entries,
                   r.pushed + (if pushed then 1 else 0), r.failed || failed, false)
    ensures !cache.dirty ==> !old(cache.dirty) && cache.entries == old(cache.entries)
  {
    repair', pushed, failed := repair, false, false;
    if !v.sizable || rel !in files {
      failed := true;
      return;
    }
    var f := files[rel];
    var mustRepair := rel in repair;
    var cached := HashOf(cache.entries, rel, |f.bytes|, f.mtime, f.ctime);
    if !mustRepair && cached.Some? && Matches(manifest.entries, rel, cached.value, |f.bytes|) {
      return;
    }
    if !v.readable {
      failed := true;
      return;
    }
    var sha := cfg.sha256(f.bytes);
    if !mustRepair && Matches(manifest.entries, rel, sha, |f.bytes|) {
      cache.Record(rel, |f.bytes|, f.mtime, f.ctime, sha);
      return;
    }
    var stored := client.Put(KeyFor(publish, rel, sha), f.bytes, v.put);
    if stored {
      manifest.Insert(rel, Entry(|f.bytes|, sha));
      cache.Record(rel, |f.bytes|, f.mtime, f.ctime, sha);
      repair' := repair - {rel};
      pushed := true;
    } else {
      failed := true;
    }
  }

  /** The end of a push: publish the manifest, or note it locally while the older
      layout is kept; then rewrite the repair list and the cache. */
  method Conclude(client: Client, disk: Disk, publish: bool, manifest: Manifest, cache: Cache, repair: set<string>,
                  pushed: nat, failedSoFar: bool, rels: seq<string>, w: Weather, ghost r: Run)
    returns (ok: bool)
    requires r == Run(client.bucket, client.trace, manifest.entries, repair, cache.entries, pushed, failedSoFar, false)
    requires !cache.dirty ==> cache.entries == disk.volume.cache
    modifies client, disk
    ensures Outcome(client.bucket, client.trace, disk.volume, ok) == Finish(publish, r, old(disk.volume), rels, w)
  {
    var failed := failedSoFar;
    var shadow := disk.volume.shadow;
    if pushed > 0 {
      var text := manifest.RenderText();
      if publish {
        var stored := false;
        if Utf8Len(text) <= MAX_MANIFEST_BYTES {
          stored := client.PutText(text, w.publish);
        }
        if stored {
          shadow := None;
        } else {
          failed := true;
        }
      } else {
        shadow := Some(text);
      }
    }
    if w.noted {
      disk.volume := disk.volume.(shadow := shadow, repair := Recorded(set rel | rel in repair && rel in rels));
      if cache.dirty {
        disk.volume := disk.volume.(cache := cache.entries);
      }
    }
    return !failed;
  }

  method SyncStateAt(cfg: Config, client: Client, disk: Disk, rels: seq<string>, w: Weather) returns (ok: bool)
    modifies client, disk
    ensures Outcome(client.bucket, client.trace, disk.volume, ok)
            == Push(cfg, old(client.bucket), old(disk.volume), rels, w)
  {
    hide Parse, Render, Utf8Len, VisitFile, Finish;
    client.Begin();
    if !w.connected {
      return false;
    }
    if rels == [] {
      return true;
    }
    var vol := disk.volume;
    var publish := true;
    if !LoadManifest(client.bucket, w.fetched).Loaded? {
      if w.listed {
        var missing := RemoteOnlyFiles(cfg, client, disk);
        publish := missing == {};
      } else {
        publish := false;
      }
    }
    ghost var start := Start(cfg, client.bucket, vol, w);
    var manifest := new Manifest(BaseManifest(cfg, client.bucket, vol, w));
    var repair := vol.repair;
    var cache := new Cache(vol.cache);
    var pushed, failed := 0, false;
    var i := 0;
    while i < |rels|
      invariant 0 <= i <= |rels|
      invariant Run(client.bucket, client.trace, manifest.entries, repair, cache.entries, pushed, failed, false)
                == After(cfg, vol.files, publish, start, rels, w.visits, i)
      invariant !cache.dirty ==> cache.entries == vol.cache
      invariant disk.volume == vol
    {
      if w.visits(i).stop {
        StopEnds(cfg, vol.files, publish, start, rels, w.visits, i);
        return false;
      }
      ghost var r := After(cfg, vol.files, publish, start, rels, w.visits, i);
      var uploaded, missed;
      repair, uploaded, missed :=
        PushFile(cfg, client, vol.files, publish, manifest, cache, repair, rels[i], w.visits(i), r);
      pushed := if uploaded then pushed + 1 else pushed;
      failed := failed || missed;
      i := i + 1;
    }
    ok := Conclude(client, disk, publish, manifest, cache, repair, pushed, failed, rels, w,
                   After(cfg, vol.files, publish, start, rels, w.visits, |rels|));
  }
}
