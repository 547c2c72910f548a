/** What a push that returns true has done, in either layout, down to the last request. */
module SyncPushExact {
  import opened Requests
  import opened Text
  import opened SyncManifest
  import opened SyncCache
  import opened SyncKeys
  import opened SyncWorld
  import opened SyncPush
  import opened SyncCompleteness

  /** A synced path the bucket holds, in either layout, has nothing at its local path. */
  ghost predicate SomethingIsMissing(cfg: Config, b: Bucket, files: map<string, File>) {
    || (exists rel: string, sha: Hex :: ObjectKey(rel, sha) in b.objects && Lacks(cfg, files, rel))
    || (exists rel: string :: PathKey(rel) in b.objects && Lacks(cfg, files, rel))
  }

  predicate Lacks(cfg: Config, files: map<string, File>, rel: string) {
    && rel != "manifest" && cfg.synced(rel)
    && rel !in files && forall f :: f in files ==> !(rel + "/" <= f)
  }

  lemma MissingIsRemoteOnly(cfg: Config, b: Bucket, files: map<string, File>)
    ensures RemoteOnly(cfg, b, files) == {} <==> !SomethingIsMissing(cfg, b, files)
  {
    if SomethingIsMissing(cfg, b, files) {
      if rel: string, sha: Hex :| ObjectKey(rel, sha) in b.objects && Lacks(cfg, files, rel) {
        assert KeyPath(ObjectKey(rel, sha)) in RemoteOnly(cfg, b, files);
      } else {
        var rel: string :| PathKey(rel) in b.objects && Lacks(cfg, files, rel);
        assert KeyPath(PathKey(rel)) in RemoteOnly(cfg, b, files);
      }
    }
    if rel :| rel in RemoteOnly(cfg, b, files) {
      var key :| key in b.objects && KeyPath(key) == rel && cfg.synced(rel) && rel != "manifest" && !Exists(files, rel);
      assert Lacks(cfg, files, rel);
      match key
      case ObjectKey(x, sha) => assert ObjectKey(rel, sha) in b.objects;
      case PathKey(x) => assert PathKey(rel) in b.objects;
    }
  }

  /** The content-addressed layout is used when the manifest was read, or the bucket was
      listed and holds nothing that is missing here. */
  ghost predicate Addressed(cfg: Config, b: Bucket, vol: Volume, w: Weather) {
    LoadManifest(b, w.fetched).Loaded? || (w.listed && !SomethingIsMissing(cfg, b, vol.files))
  }

  /** What the push takes to be in the bucket already: the stored manifest, nothing when
      it is rebuilt, and in the older layout what this volume noted in its shadow. */
  ghost function Base(cfg: Config, b: Bucket, vol: Volume, w: Weather): Entries {
    if LoadManifest(b, w.fetched).Loaded? then NamedBy(b)
    else if Addressed(cfg, b, vol, w) || vol.shadow.None? || Parse(vol.shadow.value).None? then map[]
    else Parse(vol.shadow.value).value
  }

  lemma BaseIsKnown(cfg: Config, b: Bucket, vol: Volume, w: Weather)
    ensures Publishes(cfg, b, vol, w) <==> Addressed(cfg, b, vol, w)
    ensures BaseManifest(cfg, b, vol, w) == Base(cfg, b, vol, w)
  {
    hide Parse, RemoteOnly;
    MissingIsRemoteOnly(cfg, b, vol.files);
  }

  /** The file has to be uploaded: it is due for repair, or its content is not what is
      taken to be in the bucket. */
  predicate Due(cfg: Config, vol: Volume, base: Entries, rel: string) {
    && rel in vol.files
    && var f := vol.files[rel];
       rel in vol.repair || rel !in base || base[rel] != Entry(|f.bytes|, cfg.sha256(f.bytes))
  }

  function AllDue(cfg: Config, vol: Volume, base: Entries, rels: seq<string>): set<string> {
    set rel | rel in rels && Due(cfg, vol, base, rel)
  }

  /** The objects that puts in the bucket. */
  function Objects(cfg: Config, files: map<string, File>, addressed: bool, due: set<string>): map<Key, Bytes>
    requires due <= files.Keys
  {
    if addressed
    then map rel | rel in due :: ObjectKey(rel, cfg.sha256(files[rel].bytes)) := files[rel].bytes
    else map rel | rel in due :: PathKey(rel) := files[rel].bytes
  }

  /** The entries that record them. */
  function Entered(cfg: Config, files: map<string, File>, due: set<string>): Entries
    requires due <= files.Keys
  {
    map rel | rel in due :: Entry(|files[rel].bytes|, cfg.sha256(files[rel].bytes))
  }

  /** The run after its first visits, when all went well. */
  ghost predicate At(cfg: Config, b: Bucket, vol: Volume, addressed: bool, base: Entries, due: set<string>, r: Run) {
    && due <= vol.files.Keys
    && r.bucket == b.(objects := b.objects + Objects(cfg, vol.files, addressed, due))
    && r.manifest == base + Entered(cfg, vol.files, due) && r.repair == vol.repair - due
    && r.pushed == |due| && |r.trace| == |due|
  }

  lemma UploadIsDue(cfg: Config, b: Bucket, vol: Volume, addressed: bool, base: Entries, due: set<string>, r: Run,
                    rel: string)
    requires At(cfg, b, vol, addressed, base, due, r) && rel !in due && rel in vol.files
    ensures var f, sha := vol.files[rel], cfg.sha256(vol.files[rel].bytes);
            var key := if addressed then ObjectKey(rel, sha) else PathKey(rel);
            At(cfg, b, vol, addressed, base, due + {rel}, Upload(r, key, rel, f, sha, Stored))
  {
    ObjectsGrow(cfg, vol.files, addressed, due, rel);
    EnteredGrows(cfg, vol.files, base, due, rel);
    hide Objects, Entered;
    var f, sha := vol.files[rel], cfg.sha256(vol.files[rel].bytes);
    var key := if addressed then ObjectKey(rel, sha) else PathKey(rel);
    MapAdd(b.objects, Objects(cfg, vol.files, addressed, due), key, f.bytes);
    assert vol.repair - (due + {rel}) == (vol.repair - due) - {rel};
  }

  lemma MapAdd(a: map<Key, Bytes>, c: map<Key, Bytes>, key: Key, bytes: Bytes)
    ensures (a + c)[key := bytes] == a + c[key := bytes]
  {
  }

  lemma EnteredGrows(cfg: Config, files: map<string, File>, base: Entries, due: set<string>, rel: string)
    requires due <= files.Keys && rel in files
    ensures var bytes := files[rel].bytes;
            base + Entered(cfg, files, due + {rel})
            == (base + Entered(cfg, files, due))[rel := Entry(|bytes|, cfg.sha256(bytes))]
  {
  }

  lemma ObjectsGrow(cfg: Config, files: map<string, File>, addressed: bool, due: set<string>, rel: string)
    requires due <= files.Keys && rel in files
    ensures var bytes := files[rel].bytes;
            Objects(cfg, files, addressed, due + {rel})
            == Objects(cfg, files, addressed, due)
               [(if addressed then ObjectKey(rel, cfg.sha256(bytes)) else PathKey(rel)) := bytes]
  {
  }

  /** One visit that goes well skips the file, or uploads it with success. */
  lemma VisitCases(cfg: Config, files: map<string, File>, addressed: bool, r: Run, rel: string, v: Visit)
    requires CacheSound(cfg, r.cache, files) && !r.failed && !r.stopped
    ensures var r' := VisitFile(cfg, files, addressed, r, rel, v);
            !r'.failed && !r'.stopped ==>
              && rel in files
              && var f, sha := files[rel], cfg.sha256(files[rel].bytes);
                 if rel !in r.repair && Matches(r.manifest, rel, sha, |f.bytes|) then r' == r.(cache := r'.cache)
                 else r' == Upload(r, if addressed then ObjectKey(rel, sha) else PathKey(rel), rel, f, sha, Stored)
  {
    if rel in files && CacheHit(r, rel, files[rel]) {
      HitMeansMatch(cfg, files, r, rel);
    }
    hide CacheSound, CacheHit;
  }

  lemma CacheDoesNotCount(cfg: Config, b: Bucket, vol: Volume, addressed: bool, base: Entries, due: set<string>, r: Run,
                          r': Run)
    requires At(cfg, b, vol, addressed, base, due, r) && r' == r.(cache := r'.cache)
    ensures At(cfg, b, vol, addressed, base, due, r')
  {
    hide Objects, Entered;
  }

  /** One visit that goes well uploads the file exactly if it is due and has not been
      uploaded before. */
  lemma VisitIsDue(cfg: Config, b: Bucket, vol: Volume, addressed: bool, base: Entries, due: set<string>, r: Run,
                   rel: string, v: Visit)
    requires At(cfg, b, vol, addressed, base, due, r) && CacheSound(cfg, r.cache, vol.files)
    requires !r.failed && !r.stopped
    ensures var r' := VisitFile(cfg, vol.files, addressed, r, rel, v);
            !r'.failed && !r'.stopped ==>
              && rel in vol.files
              && At(cfg, b, vol, addressed, base, if Due(cfg, vol, base, rel) then due + {rel} else due, r')
  {
    VisitCases(cfg, vol.files, addressed, r, rel, v);
    var r' := VisitFile(cfg, vol.files, addressed, r, rel, v);
    if !r'.failed && !r'.stopped {
      SkippedUnlessDue(cfg, vol, base, due, r.manifest, r.repair, rel);
      hide VisitFile, Objects, Entered, CacheSound, Upload, Due, Matches;
      var sha := cfg.sha256(vol.files[rel].bytes);
      if rel !in r.repair && Matches(r.manifest, rel, sha, |vol.files[rel].bytes|) {
        CacheDoesNotCount(cfg, b, vol, addressed, base, due, r, r');
        assert Due(cfg, vol, base, rel) ==> due + {rel} == due;
      } else {
        UploadIsDue(cfg, b, vol, addressed, base, due, r, rel);
      }
    }
  }

  lemma SkippedUnlessDue(cfg: Config, vol: Volume, base: Entries, due: set<string>, m: Entries, repair: set<string>,
                         rel: string)
    requires due <= vol.files.Keys && rel in vol.files
    requires m == base + Entered(cfg, vol.files, due) && repair == vol.repair - due
    ensures var bytes := vol.files[rel].bytes;
            rel !in repair && Matches(m, rel, cfg.sha256(bytes), |bytes|) <==> rel in due || !Due(cfg, vol, base, rel)
  {
  }

  lemma {:induction false} VisitsAreDue(cfg: Config, b: Bucket, vol: Volume, addressed: bool, base: Entries,
                                        start: Run, rels: seq<string>, visits: nat -> Visit, n: nat)
    requires n <= |rels| && At(cfg, b, vol, addressed, base, {}, start) && CacheSound(cfg, start.cache, vol.files)
    ensures var r := After(cfg, vol.files, addressed, start, rels, visits, n);
            !r.failed && !r.stopped ==>
              && (forall i :: 0 <= i < n ==> rels[i] in vol.files)
              && At(cfg, b, vol, addressed, base, AllDue(cfg, vol, base, rels[..n]), r)
  {
    hide VisitFile, CacheSound, At, Due, AllDue;
    if n == 0 {
      NothingDue(cfg, vol, base, rels[..0]);
    } else {
      VisitsAreDue(cfg, b, vol, addressed, base, start, rels, visits, n - 1);
      VisitsSettle(cfg, vol.files, addressed, start, rels, visits, n - 1);
      var r := After(cfg, vol.files, addressed, start, rels, visits, n - 1);
      GoodSoFar(cfg, vol.files, addressed, r, rels[n - 1], visits(n - 1));
      if !r.failed && !r.stopped {
        VisitIsDue(cfg, b, vol, addressed, base, AllDue(cfg, vol, base, rels[..n - 1]), r, rels[n - 1], visits(n - 1));
      }
      assert rels[..n] == rels[..n - 1] + [rels[n - 1]];
      DueGrows(cfg, vol, base, rels[..n - 1], rels[n - 1]);
    }
  }

  lemma NothingDue(cfg: Config, vol: Volume, base: Entries, rels: seq<string>)
    requires rels == []
    ensures AllDue(cfg, vol, base, rels) == {}
  {
  }

  lemma DueGrows(cfg: Config, vol: Volume, base: Entries, rels: seq<string>, rel: string)
    ensures AllDue(cfg, vol, base, rels + [rel])
            == if Due(cfg, vol, base, rel) then AllDue(cfg, vol, base, rels) + {rel} else AllDue(cfg, vol, base, rels)
  {
    hide Due;
  }

  lemma GoodSoFar(cfg: Config, files: map<string, File>, publish: bool, r: Run, rel: string, v: Visit)
    ensures var r' := VisitFile(cfg, files, publish, r, rel, v);
            !r'.failed && !r'.stopped ==> !r.failed && !r.stopped
  {
  }

  /** The cache holds the current hash of every enumerated file whose clocks are known. */
  ghost predicate Remembered(cfg: Config, files: map<string, File>, rels: seq<string>, cache: CacheMap) {
    forall rel :: rel in rels && rel in files && files[rel].mtime > 0 && files[rel].ctime > 0 ==>
      && rel in cache
      && cache[rel] == Cached(|files[rel].bytes|, files[rel].mtime, files[rel].ctime, cfg.sha256(files[rel].bytes))
  }

  lemma VisitedIsRemembered(cfg: Config, files: map<string, File>, publish: bool, start: Run, rels: seq<string>,
                            visits: nat -> Visit)
    requires CacheSound(cfg, start.cache, files)
    ensures var r := After(cfg, files, publish, start, rels, visits, |rels|);
            !r.failed && !r.stopped ==> Remembered(cfg, files, rels, r.cache)
  {
    var r := After(cfg, files, publish, start, rels, visits, |rels|);
    VisitsSettle(cfg, files, publish, start, rels, visits, |rels|);
    if !r.failed && !r.stopped {
      assert rels[..|rels|] == rels;
      forall rel | rel in rels && rel in files && files[rel].mtime > 0 && files[rel].ctime > 0
        ensures rel in r.cache
        ensures r.cache[rel]
                == Cached(|files[rel].bytes|, files[rel].mtime, files[rel].ctime, cfg.sha256(files[rel].bytes))
      {
        VisitsSpare(cfg, files, publish, start, rels, visits, |rels|, rel);
        SparedIsCached(cfg, files, r, rel);
      }
    }
  }

  lemma SparedIsCached(cfg: Config, files: map<string, File>, r: Run, rel: string)
    requires Spared(files, r, rel) && CacheSound(cfg, r.cache, files)
    ensures rel in r.cache
    ensures r.cache[rel]
            == Cached(|files[rel].bytes|, files[rel].mtime, files[rel].ctime, cfg.sha256(files[rel].bytes))
  {
  }

  /** Without a client a push does nothing and answers no; with no files to sync it does
      nothing and answers yes. */
  lemma IdlePush(cfg: Config, b: Bucket, vol: Volume, rels: seq<string>, w: Weather)
    requires !w.connected || rels == []
    ensures Push(cfg, b, vol, rels, w) == Outcome(b, [], vol, w.connected)
  {
  }

  /** A file that has changed in size or in either timestamp since its hash was cached, or
      whose clocks are not known, is read again: a visit that cannot read it fails. */
  lemma TouchedIsRead(cfg: Config, files: map<string, File>, publish: bool, r: Run, rel: string, v: Visit)
    requires !r.stopped && !v.stop && rel in files && !v.readable
    requires rel in r.cache ==>
               var f, cached := files[rel], r.cache[rel];
               cached.size != |f.bytes| || cached.mtime != f.mtime || cached.ctime != f.ctime || f.mtime == 0
               || f.ctime == 0
    ensures VisitFile(cfg, files, publish, r, rel, v).failed
  {
  }

  /** A push that returns true, exactly: every enumerated file is there; the ones due, and
      no others, have been stored, each by one request, at their content-addressed keys
      or in the older layout at their path keys; then the manifest has been published or
      the shadow noted, naming them beside what was known, unless nothing was due; and
      nothing is left to repair. */
  lemma PushIsExact(cfg: Config, b: Bucket, vol: Volume, rels: seq<string>, w: Weather)
    requires rels != [] && CacheSound(cfg, vol.cache, vol.files) && Push(cfg, b, vol, rels, w).ok
    ensures forall rel :: rel in rels ==> rel in vol.files
    ensures var out, addressed, base := Push(cfg, b, vol, rels, w), Addressed(cfg, b, vol, w), Base(cfg, b, vol, w);
            var due := AllDue(cfg, vol, base, rels);
            var text := Render(base + Entered(cfg, vol.files, due));
            && out.bucket.objects == b.objects + Objects(cfg, vol.files, addressed, due)
            && out.bucket.manifest == (if addressed && due != {} then Some(text) else b.manifest)
            && |out.trace| == |due| + (if addressed && due != {} then 1 else 0)
            && out.volume.files == vol.files
            && out.volume.repair == (if w.noted then {} else vol.repair)
            && (if w.noted then Remembered(cfg, vol.files, rels, out.volume.cache) else out.volume.cache == vol.cache)
            && out.volume.shadow == if due == {} || !w.noted then vol.shadow else if addressed then None else Some(text)
  {
    var addressed, base := Addressed(cfg, b, vol, w), Base(cfg, b, vol, w);
    PushFinishes(cfg, b, vol, rels, w);
    hide Push, Visited, Finish, Remembered, Objects, Entered, Render, Addressed, Base, AllDue, At, CacheSound;
    FinishIsExact(cfg, b, vol, addressed, base, rels, AllDue(cfg, vol, base, rels), Visited(cfg, b, vol, rels, w), w);
  }

  /** A push that returns true has visited every file with success, and then finishes. */
  lemma PushFinishes(cfg: Config, b: Bucket, vol: Volume, rels: seq<string>, w: Weather)
    requires rels != [] && CacheSound(cfg, vol.cache, vol.files) && Push(cfg, b, vol, rels, w).ok
    ensures forall rel :: rel in rels ==> rel in vol.files
    ensures var addressed, base := Addressed(cfg, b, vol, w), Base(cfg, b, vol, w);
            var r := Visited(cfg, b, vol, rels, w);
            && Push(cfg, b, vol, rels, w) == Finish(addressed, r, vol, rels, w)
            && At(cfg, b, vol, addressed, base, AllDue(cfg, vol, base, rels), r)
            && Remembered(cfg, vol.files, rels, r.cache) && !r.failed
  {
    BaseIsKnown(cfg, b, vol, w);
    hide Parse, Render, VisitFile, Base, Addressed, Publishes, BaseManifest, LoadManifest, CacheSound, Due,
      Utf8Len, Remembered;
    var addressed, base := Addressed(cfg, b, vol, w), Base(cfg, b, vol, w);
    var start := Start(cfg, b, vol, w);
    NothingYet(cfg, b, vol, addressed, base, start);
    hide At, AllDue;
    VisitsAreDue(cfg, b, vol, addressed, base, start, rels, w.visits, |rels|);
    VisitedIsRemembered(cfg, vol.files, addressed, start, rels, w.visits);
    assert rels[..|rels|] == rels;
    forall rel | rel in rels ensures rel in vol.files {
      var i :| 0 <= i < |rels| && rels[i] == rel;
    }
  }

  /** The end of a push that returns true. */
  lemma FinishEnds(addressed: bool, r: Run, vol: Volume, rels: seq<string>, w: Weather)
    requires Finish(addressed, r, vol, rels, w).ok && (set rel | rel in r.repair && rel in rels) == {}
    ensures var out, text := Finish(addressed, r, vol, rels, w), Some(Render(r.manifest));
            && out.bucket == (if addressed && r.pushed > 0 then r.bucket.(manifest := text) else r.bucket)
            && |out.trace| == |r.trace| + (if addressed && r.pushed > 0 then 1 else 0)
            && out.volume.files == vol.files
            && out.volume.repair == (if w.noted then {} else vol.repair)
            && out.volume.cache == (if w.noted then r.cache else vol.cache)
            && out.volume.shadow == if r.pushed == 0 || !w.noted then vol.shadow else if addressed then None else text
  {
    hide Render, Utf8Len;
  }

  lemma FinishIsExact(cfg: Config, b: Bucket, vol: Volume, addressed: bool, base: Entries, rels: seq<string>,
                      due: set<string>, r: Run, w: Weather)
    requires At(cfg, b, vol, addressed, base, due, r) && Finish(addressed, r, vol, rels, w).ok
    requires due == AllDue(cfg, vol, base, rels) && forall rel :: rel in rels ==> rel in vol.files
    ensures var out, text := Finish(addressed, r, vol, rels, w), Render(base + Entered(cfg, vol.files, due));
            && out.bucket.objects == b.objects + Objects(cfg, vol.files, addressed, due)
            && out.bucket.manifest == (if addressed && due != {} then Some(text) else b.manifest)
            && |out.trace| == |due| + (if addressed && due != {} then 1 else 0)
            && out.volume.files == vol.files
            && out.volume.repair == (if w.noted then {} else vol.repair)
            && out.volume.cache == (if w.noted then r.cache else vol.cache)
            && out.volume.shadow == if due == {} || !w.noted then vol.shadow else if addressed then None else Some(text)
  {
    NothingToRepair(cfg, vol, base, rels);
    assert r.pushed == 0 <==> due == {};
    hide Render, Objects, Entered, AllDue, Finish;
    FinishEnds(addressed, r, vol, rels, w);
  }

  lemma NothingYet(cfg: Config, b: Bucket, vol: Volume, addressed: bool, base: Entries, start: Run)
    requires start.bucket == b && start.manifest == base && start.repair == vol.repair
    requires start.trace == [] && start.pushed == 0
    ensures At(cfg, b, vol, addressed, base, {}, start)
  {
    assert b.objects + Objects(cfg, vol.files, addressed, {}) == b.objects;
    assert base + Entered(cfg, vol.files, {}) == base;
  }

  lemma NothingToRepair(cfg: Config, vol: Volume, base: Entries, rels: seq<string>)
    requires forall rel :: rel in rels ==> rel in vol.files
    ensures (set rel | rel in vol.repair - AllDue(cfg, vol, base, rels) && rel in rels) == {}
  {
  }

  // ------------------------------------------------ pushes that do not end well

  /** The file's current bytes are stored where this layout keeps them, and recorded. */
  ghost predicate StoredAs(cfg: Config, files: map<string, File>, addressed: bool, b: Bucket, e: Entry, rel: string) {
    && rel in files
    && var bytes := files[rel].bytes;
    && var key := if addressed then ObjectKey(rel, cfg.sha256(bytes)) else PathKey(rel);
       key in b.objects && b.objects[key] == bytes && e == Entry(|bytes|, cfg.sha256(bytes))
  }

  /** Some visit to the file ended with an acknowledged upload. */
  ghost predicate Acknowledged(rels: seq<string>, visits: nat -> Visit, rel: string) {
    exists i: nat :: i < |rels| && rels[i] == rel && visits(i).put.Stored?
  }

  /** Every entry that is new has been stored and acknowledged by now, and so has every
      file that is off the repair list. */
  ghost predicate NewIsStored(cfg: Config, files: map<string, File>, addressed: bool, start: Run, rels: seq<string>,
                              visits: nat -> Visit, r: Run) {
    && (forall rel :: rel in r.manifest ==>
          || (rel in start.manifest && r.manifest[rel] == start.manifest[rel])
          || (Acknowledged(rels, visits, rel) && StoredAs(cfg, files, addressed, r.bucket, r.manifest[rel], rel)))
    && r.repair <= start.repair
    && forall rel :: rel in start.repair && rel !in r.repair ==> Acknowledged(rels, visits, rel)
  }

  lemma VisitStores(cfg: Config, files: map<string, File>, addressed: bool, start: Run, rels: seq<string>,
                    visits: nat -> Visit, r: Run, rel: string)
    requires NewIsStored(cfg, files, addressed, start, rels, visits, r)
    ensures NewIsStored(cfg, files, addressed, start, rels + [rel], visits,
                        VisitFile(cfg, files, addressed, r, rel, visits(|rels|)))
  {
    StaysAcknowledged(rels, visits, rel);
    if rel in files {
      PutStores(cfg, files, addressed, start, rels, visits, r, rel);
    }
    hide StoredAs, Upload, KeyFor, CacheHit, Matches, Acknowledged;
  }

  lemma StaysAcknowledged(rels: seq<string>, visits: nat -> Visit, rel: string)
    ensures forall x :: Acknowledged(rels, visits, x) ==> Acknowledged(rels + [rel], visits, x)
    ensures visits(|rels|).put.Stored? ==> Acknowledged(rels + [rel], visits, rel)
  {
    forall x | Acknowledged(rels, visits, x) ensures Acknowledged(rels + [rel], visits, x) {
      var i: nat :| i < |rels| && rels[i] == x && visits(i).put.Stored?;
      assert (rels + [rel])[i] == x;
    }
    assert (rels + [rel])[|rels|] == rel;
  }

  lemma PutStores(cfg: Config, files: map<string, File>, addressed: bool, start: Run, rels: seq<string>,
                  visits: nat -> Visit, r: Run, rel: string)
    requires NewIsStored(cfg, files, addressed, start, rels, visits, r) && rel in files
    ensures var f, sha := files[rel], cfg.sha256(files[rel].bytes);
            var r' := Upload(r, KeyFor(addressed, rel, sha), rel, f, sha, visits(|rels|).put);
            NewIsStored(cfg, files, addressed, start, rels + [rel], visits, r')
  {
    StaysAcknowledged(rels, visits, rel);
    hide Acknowledged;
    var f, sha := files[rel], cfg.sha256(files[rel].bytes);
    var r' := Upload(r, KeyFor(addressed, rel, sha), rel, f, sha, visits(|rels|).put);
    forall x | x in r'.manifest
      ensures || (x in start.manifest && r'.manifest[x] == start.manifest[x])
              || (Acknowledged(rels + [rel], visits, x)
                  && StoredAs(cfg, files, addressed, r'.bucket, r'.manifest[x], x))
    {
    }
  }

  lemma {:induction false} VisitsStore(cfg: Config, files: map<string, File>, addressed: bool, start: Run,
                                       rels: seq<string>, visits: nat -> Visit, n: nat)
    requires n <= |rels|
    ensures NewIsStored(cfg, files, addressed, start, rels[..n], visits,
                        After(cfg, files, addressed, start, rels, visits, n))
  {
    hide VisitFile, NewIsStored;
    if n == 0 {
      NothingIsNew(cfg, files, addressed, start, rels[..0], visits);
    } else {
      VisitsStore(cfg, files, addressed, start, rels, visits, n - 1);
      VisitStores(cfg, files, addressed, start, rels[..n - 1], visits,
                  After(cfg, files, addressed, start, rels, visits, n - 1), rels[n - 1]);
      assert rels[..n] == rels[..n - 1] + [rels[n - 1]];
    }
  }

  lemma NothingIsNew(cfg: Config, files: map<string, File>, addressed: bool, start: Run, rels: seq<string>,
                     visits: nat -> Visit)
    ensures NewIsStored(cfg, files, addressed, start, rels, visits, start)
  {
  }

  lemma EndsAre(publish: bool, r: Run, vol: Volume, rels: seq<string>, w: Weather)
    ensures var out := Finish(publish, r, vol, rels, w);
            && out.bucket.objects == r.bucket.objects
            && out.bucket.manifest in {r.bucket.manifest, Some(Render(r.manifest))}
            && out.volume.shadow in {vol.shadow, None, Some(Render(r.manifest))}
            && out.volume.repair in {vol.repair, SyncWorld.Recorded(set rel | rel in r.repair && rel in rels)}
  {
    hide Render, Utf8Len, SyncWorld.Recorded;
  }

  /** Whatever fails on the way, and in either layout: what a push adds to the manifest or
      the shadow, and what it takes off the repair list, are files whose upload was
      acknowledged, and the bucket holds their current bytes. */
  lemma RecordsOnlyWhatIsStored(cfg: Config, b: Bucket, vol: Volume, rels: seq<string>, w: Weather)
    requires w.connected && rels != []
    ensures var start, r := Start(cfg, b, vol, w), Visited(cfg, b, vol, rels, w);
            && start.manifest == Base(cfg, b, vol, w) && start.repair == vol.repair
            && NewIsStored(cfg, vol.files, Addressed(cfg, b, vol, w), start, rels, w.visits, r)
    ensures var out, r := Push(cfg, b, vol, rels, w), Visited(cfg, b, vol, rels, w);
            && out.bucket.objects == r.bucket.objects
            && out.bucket.manifest in {b.manifest, Some(Render(r.manifest))}
            && out.volume.shadow in {vol.shadow, None, Some(Render(r.manifest))}
            && out.volume.repair in {vol.repair, SyncWorld.Recorded(set rel | rel in r.repair && rel in rels)}
  {
    BaseIsKnown(cfg, b, vol, w);
    hide VisitFile, Base, Addressed, Publishes, BaseManifest, NewIsStored, Finish, After;
    var start, r, addressed := Start(cfg, b, vol, w), Visited(cfg, b, vol, rels, w), Addressed(cfg, b, vol, w);
    VisitsStore(cfg, vol.files, addressed, start, rels, w.visits, |rels|);
    ManifestTextUnchanged(cfg, vol.files, addressed, start, rels, w.visits, |rels|);
    EndsAre(addressed, r, vol, rels, w);
    assert rels[..|rels|] == rels;
  }
}
