/** What a push that reports success has achieved: completeness, independence of
    the hash cache, and safe rebuilding of a missing manifest. */
module SyncCompleteness {
  import opened Text
  import opened SyncManifest
  import opened SyncCache
  import opened SyncKeys
  import opened SyncWorld
  import opened SyncPush
  import opened SyncSafety

  /** Each cached (size, mtime, ctime) match carries the hash of the current bytes. */
  ghost predicate CacheSound(cfg: Config, cache: CacheMap, files: map<string, File>) {
    forall rel :: rel in files ==>
      var f := files[rel];
      var cached := HashOf(cache, rel, |f.bytes|, f.mtime, f.ctime);
      cached.Some? ==> cached.value == cfg.sha256(f.bytes)
  }

  /** The manifest names the file's current content. */
  ghost predicate Current(cfg: Config, files: map<string, File>, m: Entries, rel: string) {
    rel in files && Matches(m, rel, cfg.sha256(files[rel].bytes), |files[rel].bytes|)
  }

  lemma RememberKeepsSound(cfg: Config, files: map<string, File>, r: Run, rel: string)
    requires CacheSound(cfg, r.cache, files) && rel in files
    ensures CacheSound(cfg, Remember(r, rel, files[rel], cfg.sha256(files[rel].bytes)).cache, files)
  {
  }

  lemma VisitKeepsSound(cfg: Config, files: map<string, File>, publish: bool, r: Run, rel: string, v: Visit)
    requires CacheSound(cfg, r.cache, files)
    ensures CacheSound(cfg, VisitFile(cfg, files, publish, r, rel, v).cache, files)
  {
    if rel in files {
      RememberKeepsSound(cfg, files, r, rel);
    }
  }

  // ------------------------------------------------------------ completeness

  lemma VisitSettles(cfg: Config, files: map<string, File>, publish: bool, r: Run, rel: string, v: Visit)
    requires CacheSound(cfg, r.cache, files)
    ensures var r' := VisitFile(cfg, files, publish, r, rel, v);
            && (!r'.failed && !r'.stopped ==> !r.failed && !r.stopped && Current(cfg, files, r'.manifest, rel))
            && (forall x :: Current(cfg, files, r.manifest, x) ==> Current(cfg, files, r'.manifest, x))
  {
  }

  lemma {:induction false} VisitsSettle(cfg: Config, files: map<string, File>, publish: bool, start: Run,
                                        rels: seq<string>, visits: nat -> Visit, n: nat)
    requires n <= |rels| && CacheSound(cfg, start.cache, files)
    ensures var r := After(cfg, files, publish, start, rels, visits, n);
            && CacheSound(cfg, r.cache, files)
            && (!r.failed && !r.stopped ==> forall i :: 0 <= i < n ==> Current(cfg, files, r.manifest, rels[i]))
  {
    hide VisitFile, CacheSound, Current;
    if n > 0 {
      VisitsSettle(cfg, files, publish, start, rels, visits, n - 1);
      var r := After(cfg, files, publish, start, rels, visits, n - 1);
      VisitKeepsSound(cfg, files, publish, r, rels[n - 1], visits(n - 1));
      VisitSettles(cfg, files, publish, r, rels[n - 1], visits(n - 1));
    }
  }

  lemma VisitGrows(cfg: Config, files: map<string, File>, publish: bool, r: Run, rel: string, v: Visit)
    ensures var r' := VisitFile(cfg, files, publish, r, rel, v);
            && r.pushed <= r'.pushed && (r'.pushed == r.pushed ==> r'.manifest == r.manifest)
            && r.manifest.Keys <= r'.manifest.Keys && r'.manifest.Keys <= r.manifest.Keys + {rel}
  {
  }

  /** The manifest under construction only changes along with an upload, gains only
      visited paths, and never loses one. */
  lemma {:induction false} ManifestGrows(cfg: Config, files: map<string, File>, publish: bool, start: Run,
                                         rels: seq<string>, visits: nat -> Visit, n: nat)
    requires n <= |rels|
    ensures var r := After(cfg, files, publish, start, rels, visits, n);
            && start.pushed <= r.pushed
            && (r.pushed == start.pushed ==> r.manifest == start.manifest)
            && start.manifest.Keys <= r.manifest.Keys
            && forall rel :: rel in r.manifest ==> rel in start.manifest || rel in rels
  {
    if n > 0 {
      ManifestGrows(cfg, files, publish, start, rels, visits, n - 1);
      VisitGrows(cfg, files, publish, After(cfg, files, publish, start, rels, visits, n - 1), rels[n - 1],
                 visits(n - 1));
      hide VisitFile;
    }
  }

  ghost predicate Succeeds(cfg: Config, b: Bucket, vol: Volume, rels: seq<string>, w: Weather) {
    w.connected && rels != [] && Publishes(cfg, b, vol, w) && Push(cfg, b, vol, rels, w).ok
  }

  /** The manifest a successful push leaves is the one its visits built. */
  lemma PublishedManifest(cfg: Config, b: Bucket, vol: Volume, rels: seq<string>, w: Weather)
    requires Succeeds(cfg, b, vol, rels, w) && GoodPaths(rels)
    requires LoadManifest(b, w.fetched).Loaded? || Visited(cfg, b, vol, rels, w).pushed > 0
    ensures var out, r := Push(cfg, b, vol, rels, w), Visited(cfg, b, vol, rels, w);
            NamedBy(out.bucket) == r.manifest && LoadManifest(out.bucket, true) == Loaded(r.manifest) && !r.failed
            && !r.stopped
  {
    hide Parse, Render, VisitFile;
    var start, r := Start(cfg, b, vol, w), Visited(cfg, b, vol, rels, w);
    WellFormedVisits(cfg, b, vol, rels, w);
    if r.pushed > 0 {
      RoundTrip(r.manifest);
    } else {
      ManifestGrows(cfg, vol.files, true, start, rels, w.visits, |rels|);
      ManifestTextUnchanged(cfg, vol.files, true, start, rels, w.visits, |rels|);
    }
  }

  /** A publishing push that returns true leaves a readable manifest that names every
      enumerated file with the hash and size of its current bytes, and keeps the
      entries of files no longer present. */
  lemma SuccessNamesEveryFile(cfg: Config, b: Bucket, vol: Volume, rels: seq<string>, w: Weather)
    requires Succeeds(cfg, b, vol, rels, w) && GoodPaths(rels) && CacheSound(cfg, vol.cache, vol.files)
    ensures var out := Push(cfg, b, vol, rels, w);
            && LoadManifest(out.bucket, true) == Loaded(NamedBy(out.bucket))
            && (forall rel :: rel in rels ==> Current(cfg, vol.files, NamedBy(out.bucket), rel))
            && BaseManifest(cfg, b, vol, w).Keys <= NamedBy(out.bucket).Keys
            && (forall rel :: rel in NamedBy(out.bucket) ==> rel in BaseManifest(cfg, b, vol, w) || rel in rels)
  {
    hide Parse, Render, VisitFile;
    var start, r := Start(cfg, b, vol, w), Visited(cfg, b, vol, rels, w);
    VisitsSettle(cfg, vol.files, true, start, rels, w.visits, |rels|);
    ManifestGrows(cfg, vol.files, true, start, rels, w.visits, |rels|);
    assert !r.failed && !r.stopped;
    assert Current(cfg, vol.files, r.manifest, rels[0]);
    PublishedManifest(cfg, b, vol, rels, w);
  }

  lemma {:induction false} ManifestTextUnchanged(cfg: Config, files: map<string, File>, publish: bool, start: Run,
                                                 rels: seq<string>, visits: nat -> Visit, n: nat)
    requires n <= |rels|
    ensures After(cfg, files, publish, start, rels, visits, n).bucket.manifest == start.bucket.manifest
  {
    if n > 0 {
      ManifestTextUnchanged(cfg, files, publish, start, rels, visits, n - 1);
    }
  }

  lemma WellFormedVisits(cfg: Config, b: Bucket, vol: Volume, rels: seq<string>, w: Weather)
    requires Publishes(cfg, b, vol, w) && GoodPaths(rels)
    ensures WellFormed(Visited(cfg, b, vol, rels, w).manifest)
  {
    hide Parse;
    var start := Start(cfg, b, vol, w);
    ParsedManifestIsWellFormed(b);
    ManifestGrows(cfg, vol.files, true, start, rels, w.visits, |rels|);
  }

  // -------------------------------------------------- when a push succeeds

  /** Every enumerated file is there and every request about it is answered. */
  ghost predicate FairVisits(files: map<string, File>, rels: seq<string>, visits: nat -> Visit) {
    forall i: nat {:trigger visits(i)} :: i < |rels| ==>
      rels[i] in files && !visits(i).stop && visits(i).sizable && visits(i).readable && visits(i).put.Stored?
  }

  lemma {:induction false} FairVisitsGoWell(cfg: Config, files: map<string, File>, publish: bool, start: Run,
                                            rels: seq<string>, visits: nat -> Visit, n: nat)
    requires n <= |rels| && FairVisits(files, rels, visits) && !start.failed && !start.stopped
    ensures var r := After(cfg, files, publish, start, rels, visits, n); !r.failed && !r.stopped
  {
    if n > 0 {
      FairVisitsGoWell(cfg, files, publish, start, rels, visits, n - 1);
      assert !visits(n - 1).stop;
    }
  }

  /** A push that may publish, whose requests are all answered and whose manifest fits
      the cap, returns true. */
  lemma FairPushSucceeds(cfg: Config, b: Bucket, vol: Volume, rels: seq<string>, w: Weather)
    requires w.connected && rels != [] && Publishes(cfg, b, vol, w) && FairVisits(vol.files, rels, w.visits)
    requires w.publish.Stored?
    requires Utf8Len(Render(Visited(cfg, b, vol, rels, w).manifest)) <= MAX_MANIFEST_BYTES
    ensures Succeeds(cfg, b, vol, rels, w)
  {
    hide Parse, Render, Utf8Len, VisitFile, FairVisits;
    FairVisitsGoWell(cfg, vol.files, true, Start(cfg, b, vol, w), rels, w.visits, |rels|);
  }

  // ------------------------------------------- the cache only skips hashing

  /** Equal up to the cache and to the failures noted. */
  ghost predicate SameWork(r: Run, s: Run) {
    r.(cache := s.cache, failed := s.failed) == s
  }

  lemma HitMeansMatch(cfg: Config, files: map<string, File>, r: Run, rel: string)
    requires rel in files && CacheSound(cfg, r.cache, files) && CacheHit(r, rel, files[rel])
    ensures Matches(r.manifest, rel, cfg.sha256(files[rel].bytes), |files[rel].bytes|)
  {
  }

  lemma VisitIgnoresCache(cfg: Config, files: map<string, File>, publish: bool, r: Run, s: Run, rel: string, v: Visit)
    requires SameWork(r, s) && CacheSound(cfg, r.cache, files) && CacheSound(cfg, s.cache, files)
    ensures var r', s' := VisitFile(cfg, files, publish, r, rel, v), VisitFile(cfg, files, publish, s, rel, v);
            SameWork(r', s') && (v.readable && r.failed == s.failed ==> r'.failed == s'.failed)
  {
    if rel in files && CacheHit(r, rel, files[rel]) {
      HitMeansMatch(cfg, files, r, rel);
    }
    if rel in files && CacheHit(s, rel, files[rel]) {
      HitMeansMatch(cfg, files, s, rel);
    }
    hide CacheSound, CacheHit, Matches;
  }

  lemma {:induction false} VisitsIgnoreCache(cfg: Config, files: map<string, File>, publish: bool, r: Run, s: Run,
                                             rels: seq<string>, visits: nat -> Visit, n: nat)
    requires n <= |rels| && SameWork(r, s) && CacheSound(cfg, r.cache, files) && CacheSound(cfg, s.cache, files)
    ensures var r', s' :=
            After(cfg, files, publish, r, rels, visits, n), After(cfg, files, publish, s, rels, visits, n);
            && SameWork(r', s')
            && (r.failed == s.failed && (forall i: nat :: i < n ==> visits(i).readable) ==> r'.failed == s'.failed)
  {
    hide VisitFile, CacheSound, SameWork;
    if n > 0 {
      VisitsIgnoreCache(cfg, files, publish, r, s, rels, visits, n - 1);
      VisitsSettle(cfg, files, publish, r, rels, visits, n - 1);
      VisitsSettle(cfg, files, publish, s, rels, visits, n - 1);
      VisitIgnoresCache(cfg, files, publish, After(cfg, files, publish, r, rels, visits, n - 1),
                        After(cfg, files, publish, s, rels, visits, n - 1), rels[n - 1], visits(n - 1));
    }
  }

  /** The hash cache only skips work: from any two sound caches, the empty one
      included, a push makes the same requests, ends with the same bucket, repair list
      and shadow, and leaves a sound cache again. Its answer is the same too, unless
      some file could not be read: one cache may have spared the reading. */
  lemma CacheOnlySkipsWork(cfg: Config, b: Bucket, vol: Volume, other: CacheMap, rels: seq<string>, w: Weather)
    requires CacheSound(cfg, vol.cache, vol.files) && CacheSound(cfg, other, vol.files)
    ensures var out, out' := Push(cfg, b, vol, rels, w), Push(cfg, b, vol.(cache := other), rels, w);
            && out.bucket == out'.bucket && out.trace == out'.trace
            && out'.volume == out.volume.(cache := out'.volume.cache)
            && CacheSound(cfg, out.volume.cache, vol.files)
            && ((forall i: nat :: i < |rels| ==> w.visits(i).readable) ==> out.ok == out'.ok)
  {
    hide Parse, Render, VisitFile;
    var vol' := vol.(cache := other);
    var publish := Publishes(cfg, b, vol, w);
    VisitsIgnoreCache(cfg, vol.files, publish, Start(cfg, b, vol, w), Start(cfg, b, vol', w), rels, w.visits, |rels|);
    VisitsSettle(cfg, vol.files, publish, Start(cfg, b, vol, w), rels, w.visits, |rels|);
  }

  /** The cache spares the reading of the file. */
  predicate Spared(files: map<string, File>, r: Run, rel: string) {
    rel in files && rel !in r.repair && CacheHit(r, rel, files[rel])
  }

  /** Both timestamps are there, so that a remembered hash can be found again. */
  predicate Clocked(files: map<string, File>, rel: string) {
    rel in files && files[rel].mtime != 0 && files[rel].ctime != 0
  }

  lemma VisitSpares(cfg: Config, files: map<string, File>, publish: bool, r: Run, rel: string, v: Visit, x: string)
    ensures var r' := VisitFile(cfg, files, publish, r, rel, v);
            !r'.failed && !r'.stopped ==>
              && !r.failed && !r.stopped
              && (Spared(files, r', x) <==> if x == rel then Clocked(files, x) else Spared(files, r, x))
  {
  }

  /** In the course of a push the cache comes to spare what the push has read itself. */
  lemma {:induction false} VisitsSpare(cfg: Config, files: map<string, File>, publish: bool, start: Run,
                                       rels: seq<string>, visits: nat -> Visit, n: nat, x: string)
    requires n <= |rels|
    ensures var r := After(cfg, files, publish, start, rels, visits, n);
            !r.failed && !r.stopped ==>
              (Spared(files, r, x) <==> if x in rels[..n] then Clocked(files, x) else Spared(files, start, x))
  {
    hide VisitFile, Spared, Clocked;
    if n > 0 {
      assert rels[..n] == rels[..n - 1] + [rels[n - 1]];
      VisitsSpare(cfg, files, publish, start, rels, visits, n - 1, x);
      VisitSpares(cfg, files, publish, After(cfg, files, publish, start, rels, visits, n - 1), rels[n - 1],
                  visits(n - 1), x);
    }
  }

  lemma SparedIsClocked(files: map<string, File>, r: Run, rel: string)
    requires Spared(files, r, rel)
    ensures Clocked(files, rel)
  {
  }

  /** Where one cache gets a visit through, another does exactly if the file can be read
      or it spares the reading itself. */
  lemma VisitNeedsReading(cfg: Config, files: map<string, File>, publish: bool, r: Run, s: Run, rel: string, v: Visit)
    requires SameWork(r, s) && CacheSound(cfg, r.cache, files) && CacheSound(cfg, s.cache, files)
    ensures var r', s' := VisitFile(cfg, files, publish, r, rel, v), VisitFile(cfg, files, publish, s, rel, v);
            !r'.failed && !r'.stopped ==>
              && !r.failed && !r.stopped
              && (!s'.failed <==> !s.failed && (v.readable || Spared(files, s, rel)))
  {
    VisitIgnoresCache(cfg, files, publish, r, s, rel, v);
    hide CacheSound, CacheHit, Matches, Remember;
  }

  /** The push has come across the file before, and remembers its hash. */
  predicate Repeated(files: map<string, File>, rels: seq<string>, i: nat)
    requires i < |rels|
  {
    rels[i] in rels[..i] && Clocked(files, rels[i])
  }

  /** Every file among the first `n` can be read, or is remembered from this push or
      before it. */
  ghost predicate NothingUnread(files: map<string, File>, start: Run, rels: seq<string>, visits: nat -> Visit, n: nat)
    requires n <= |rels|
  {
    forall i: nat :: i < n ==> visits(i).readable || Spared(files, start, rels[i]) || Repeated(files, rels, i)
  }

  lemma {:induction false} VisitsNeedReading(cfg: Config, files: map<string, File>, publish: bool, r: Run, s: Run,
                                             rels: seq<string>, visits: nat -> Visit, n: nat)
    requires n <= |rels| && SameWork(r, s) && CacheSound(cfg, r.cache, files) && CacheSound(cfg, s.cache, files)
    requires !r.failed && !s.failed
    ensures var r', s' :=
            After(cfg, files, publish, r, rels, visits, n), After(cfg, files, publish, s, rels, visits, n);
            !r'.failed && !r'.stopped ==> (!s'.failed <==> NothingUnread(files, s, rels, visits, n))
  {
    hide VisitFile, CacheSound, SameWork, Spared, Clocked;
    if n > 0 {
      VisitsNeedReading(cfg, files, publish, r, s, rels, visits, n - 1);
      VisitsIgnoreCache(cfg, files, publish, r, s, rels, visits, n - 1);
      VisitsSettle(cfg, files, publish, r, rels, visits, n - 1);
      VisitsSettle(cfg, files, publish, s, rels, visits, n - 1);
      VisitsSpare(cfg, files, publish, s, rels, visits, n - 1, rels[n - 1]);
      if Spared(files, s, rels[n - 1]) {
        SparedIsClocked(files, s, rels[n - 1]);
      }
      var r1, s1 :=
        After(cfg, files, publish, r, rels, visits, n - 1), After(cfg, files, publish, s, rels, visits, n - 1);
      SameEnd(r1, s1);
      VisitNeedsReading(cfg, files, publish, r1, s1, rels[n - 1], visits(n - 1));
    }
  }

  lemma SameEnd(r: Run, s: Run)
    requires SameWork(r, s)
    ensures r.stopped == s.stopped
  {
  }

  /** When the cache decides the answer, exactly: where a push returns true, the same push
      from another sound cache does if and only if each file it could not read is
      remembered, in the other cache or from earlier in the push. */
  lemma CacheDecidesTheAnswer(cfg: Config, b: Bucket, vol: Volume, other: CacheMap, rels: seq<string>, w: Weather)
    requires CacheSound(cfg, vol.cache, vol.files) && CacheSound(cfg, other, vol.files)
    requires Push(cfg, b, vol, rels, w).ok
    ensures var vol' := vol.(cache := other);
            Push(cfg, b, vol', rels, w).ok <==> NothingUnread(vol.files, Start(cfg, b, vol', w), rels, w.visits, |rels|)
  {
    hide Parse, Render, VisitFile, Spared, Clocked;
    if rels != [] {
      var vol' := vol.(cache := other);
      var publish := Publishes(cfg, b, vol, w);
      var start, start' := Start(cfg, b, vol, w), Start(cfg, b, vol', w);
      VisitsIgnoreCache(cfg, vol.files, publish, start, start', rels, w.visits, |rels|);
      VisitsNeedReading(cfg, vol.files, publish, start, start', rels, w.visits, |rels|);
    }
  }

  /** Without the cache a push returns true exactly when it does with it and every file
      can be read, or has been earlier in the push. */
  lemma WithoutTheCache(cfg: Config, b: Bucket, vol: Volume, rels: seq<string>, w: Weather)
    requires CacheSound(cfg, vol.cache, vol.files)
    ensures Push(cfg, b, vol.(cache := map[]), rels, w).ok
            <==> && Push(cfg, b, vol, rels, w).ok
                 && forall i: nat :: i < |rels| ==> w.visits(i).readable || Repeated(vol.files, rels, i)
  {
    var bare := vol.(cache := map[]);
    assert bare.(cache := vol.cache) == vol && bare.(cache := map[]) == bare;
    NoHits(cfg, b, bare, rels, w);
    hide Push, Spared, Repeated;
    if Push(cfg, b, vol, rels, w).ok {
      CacheDecidesTheAnswer(cfg, b, vol, map[], rels, w);
    }
    if Push(cfg, b, bare, rels, w).ok {
      CacheDecidesTheAnswer(cfg, b, bare, map[], rels, w);
      CacheDecidesTheAnswer(cfg, b, bare, vol.cache, rels, w);
    }
  }

  lemma NoHits(cfg: Config, b: Bucket, vol: Volume, rels: seq<string>, w: Weather)
    requires vol.cache == map[]
    ensures CacheSound(cfg, vol.cache, vol.files)
    ensures NothingUnread(vol.files, Start(cfg, b, vol, w), rels, w.visits, |rels|)
            <==> forall i: nat :: i < |rels| ==> w.visits(i).readable || Repeated(vol.files, rels, i)
  {
    hide Repeated;
  }

  // ---------------------------------------------- rebuilding without a manifest

  ghost predicate EnumeratesExactly(cfg: Config, rels: seq<string>, files: map<string, File>) {
    forall rel :: rel in rels <==> rel in files && cfg.synced(rel)
  }

  lemma PresentOrRemoteOnly(cfg: Config, b: Bucket, files: map<string, File>, key: Key)
    requires key in b.objects && cfg.synced(KeyPath(key)) && KeyPath(key) != "manifest"
    ensures Exists(files, KeyPath(key)) || KeyPath(key) in RemoteOnly(cfg, b, files)
  {
  }

  /** Rebuilding never orphans: when no manifest could be loaded and the push
      publishes and returns true, the manifest names exactly the local synced files
      with their current content, so a path the bucket listed in either layout is
      left out only where the volume has a directory instead of a file. */
  lemma RebuildCoversTheBucket(cfg: Config, b: Bucket, vol: Volume, rels: seq<string>, w: Weather)
    requires Succeeds(cfg, b, vol, rels, w) && GoodPaths(rels) && CacheSound(cfg, vol.cache, vol.files)
    requires EnumeratesExactly(cfg, rels, vol.files) && !LoadManifest(b, w.fetched).Loaded?
    ensures var named := NamedBy(Push(cfg, b, vol, rels, w).bucket);
            && (forall rel :: rel in named <==> rel in rels)
            && (forall rel :: rel in rels ==> Current(cfg, vol.files, named, rel))
            && (forall key :: key in b.objects && cfg.synced(KeyPath(key)) && KeyPath(key) != "manifest" ==>
                  (KeyPath(key) in named <==> KeyPath(key) in vol.files) && Exists(vol.files, KeyPath(key)))
  {
    hide Parse, Render, VisitFile;
    SuccessNamesEveryFile(cfg, b, vol, rels, w);
    forall key | key in b.objects && cfg.synced(KeyPath(key)) && KeyPath(key) != "manifest"
      ensures Exists(vol.files, KeyPath(key))
    {
      PresentOrRemoteOnly(cfg, b, vol.files, key);
    }
  }

  /** Same manifest and same content-addressed objects. */
  ghost predicate OnlyPathKeysDiffer(b: Bucket, t: Bucket) {
    && t.manifest == b.manifest
    && forall rel, sha: Hex :: var key := ObjectKey(rel, sha);
         (key in t.objects <==> key in b.objects) && (key in b.objects ==> t.objects[key] == b.objects[key])
  }

  lemma DegradedVisit(cfg: Config, files: map<string, File>, r: Run, rel: string, v: Visit)
    ensures var r' := VisitFile(cfg, files, false, r, rel, v);
            OnlyPathKeysDiffer(r.bucket, r'.bucket) && (r'.trace == r.trace || r'.trace == r.trace + [r'.bucket])
  {
  }

  lemma DifferTransitively(a: Bucket, b: Bucket, c: Bucket)
    requires OnlyPathKeysDiffer(a, b) && OnlyPathKeysDiffer(b, c)
    ensures OnlyPathKeysDiffer(a, c)
  {
  }

  lemma {:induction false} DegradedVisits(cfg: Config, files: map<string, File>, start: Run, rels: seq<string>,
                                          visits: nat -> Visit, n: nat)
    requires n <= |rels| && start.trace == []
    ensures var r := After(cfg, files, false, start, rels, visits, n);
            && OnlyPathKeysDiffer(start.bucket, r.bucket)
            && forall t :: t in r.trace ==> OnlyPathKeysDiffer(start.bucket, t)
  {
    if n > 0 {
      DegradedVisits(cfg, files, start, rels, visits, n - 1);
      var r := After(cfg, files, false, start, rels, visits, n - 1);
      DegradedVisit(cfg, files, r, rels[n - 1], visits(n - 1));
      hide VisitFile;
      DifferTransitively(start.bucket, r.bucket, VisitFile(cfg, files, false, r, rels[n - 1], visits(n - 1)).bucket);
      hide OnlyPathKeysDiffer;
    }
  }

  /** A synced path the bucket holds, in either layout, and the volume does not. */
  ghost predicate MissingHere(cfg: Config, b: Bucket, files: map<string, File>, key: Key) {
    key in b.objects && cfg.synced(KeyPath(key)) && KeyPath(key) != "manifest" && !Exists(files, KeyPath(key))
  }

  /** A push that cannot prove completeness, because a synced path in the bucket is
      missing locally or the bucket cannot be listed, writes no manifest and no
      content-addressed object at any point. */
  lemma DegradedPushPublishesNothing(cfg: Config, b: Bucket, vol: Volume, rels: seq<string>, w: Weather)
    requires !LoadManifest(b, w.fetched).Loaded?
    requires !w.listed || exists key :: MissingHere(cfg, b, vol.files, key)
    ensures var out := Push(cfg, b, vol, rels, w);
            OnlyPathKeysDiffer(b, out.bucket) && forall t :: t in out.trace ==> OnlyPathKeysDiffer(b, t)
  {
    hide Parse, Render, VisitFile;
    if key :| MissingHere(cfg, b, vol.files, key) {
      PresentOrRemoteOnly(cfg, b, vol.files, key);
    }
    DegradedVisits(cfg, vol.files, Start(cfg, b, vol, w), rels, w.visits, |rels|);
  }
}
