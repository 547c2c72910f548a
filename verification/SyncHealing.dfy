/** Self-healing: what a boot reconciliation finds damaged, the next push repairs. */
module SyncHealing {
  import opened Requests
  import opened Text
  import opened SyncManifest
  import opened SyncKeys
  import opened SyncWorld
  import opened SyncPush
  import opened SyncSafety
  import opened SyncCompleteness
  import opened SyncPull

  /** A faithful listing: each key once, at its size. */
  ghost predicate IsListing(b: Bucket, listing: seq<Listed>) {
    && (forall i, j :: 0 <= i < j < |listing| ==> listing[i].key != listing[j].key)
    && (forall i :: 0 <= i < |listing| ==>
          listing[i].key in b.objects && listing[i].size == |b.objects[listing[i].key]|)
    && (forall key :: key in b.objects ==> exists i :: 0 <= i < |listing| && listing[i].key == key)
  }

  function Sizes(b: Bucket): map<Key, nat> {
    map key | key in b.objects :: |b.objects[key]|
  }

  lemma {:induction false} PresentIsSizes(listing: seq<Listed>)
    requires forall i, j :: 0 <= i < j < |listing| ==> listing[i].key != listing[j].key
    ensures forall key :: key in Present(listing) <==> exists i :: 0 <= i < |listing| && listing[i].key == key
    ensures forall i :: 0 <= i < |listing| ==>
              listing[i].key in Present(listing) && Present(listing)[listing[i].key] == listing[i].size
  {
    if listing != [] {
      PresentIsSizes(listing[..|listing| - 1]);
    }
  }

  lemma ListingShowsTheBucket(b: Bucket, listing: seq<Listed>)
    requires IsListing(b, listing)
    ensures Present(listing) == Sizes(b)
  {
    PresentIsSizes(listing);
    hide Present;
    forall key | key in Present(listing) ensures key in Sizes(b) && Present(listing)[key] == Sizes(b)[key] {
      var i :| 0 <= i < |listing| && listing[i].key == key;
    }
    forall key | key in Sizes(b) ensures key in Present(listing) {
      var i :| 0 <= i < |listing| && listing[i].key == key;
    }
  }

  // ------------------------------------------------------- the repair list

  /** Entry `rel` was checked: what is not shown and exists locally is on the list. */
  ghost predicate Noted(files: map<string, File>, present: map<Key, nat>, m: Entries, rel: string,
                        repair: set<string>) {
    rel in m && !Shown(present, rel, m[rel]) && Exists(files, rel) ==> rel in repair
  }

  lemma {:induction false} ChecksNoteAll(files: map<string, File>, present: map<Key, nat>, repair: set<string>,
                                         rels: seq<string>, m: Entries, stops: nat -> bool, i: nat)
    requires i <= |rels| && (forall rel :: rel in rels ==> rel in m) && forall k: nat :: k < |rels| ==> !stops(k)
    requires forall k :: 0 <= k < i ==> Noted(files, present, m, rels[k], repair)
    ensures var done := CheckFrom(files, present, repair, rels, m, stops, i);
            forall k :: 0 <= k < |rels| ==> Noted(files, present, m, rels[k], done)
    decreases |rels| - i
  {
    if i < |rels| {
      ChecksNoteAll(files, present, CheckOne(files, present, repair, rels[i], m[rels[i]]), rels, m, stops, i + 1);
    }
  }

  lemma GoodPathsAreRecorded(repair: set<string>, rel: string)
    requires rel in repair && GoodPath(rel)
    ensures rel in Recorded(repair)
  {
    assert IsWhite('\r');
    assert StripCr(rel) == rel;
  }

  /** A boot pull that reconciles to the end: a faithful listing, no stop, and a
      repair list that could be written. */
  ghost predicate ReconcilesFully(b: Bucket, w: PullWeather) {
    && w.connected && w.fetched && w.noted
    && (forall i: nat :: !w.hauls(i).stop && !w.checks(i))
    && w.relisting.Some? && IsListing(b, w.relisting.value)
  }

  /** After it, every entry with a local copy is shown by the bucket or on the list. */
  lemma PullNotesDamage(cfg: Config, b: Bucket, vol: Volume, w: PullWeather, rel: string)
    requires ReconcilesFully(b, w) && LoadManifest(b, true).Loaded? && GoodPath(rel)
    requires rel in NamedBy(b)
    ensures var booted := Pull(cfg, b, vol, w).0;
            Shown(Sizes(b), rel, NamedBy(b)[rel]) || !Exists(booted.files, rel) || rel in booted.repair
  {
    hide Sorted, Parse, RecoverFrom, CheckFrom, Shown, Exists;
    var m, listing := NamedBy(b), w.relisting.value;
    var clean := vol.(files := Cleared(vol.files));
    var targets := Targets(Some(m), []);
    var r := PullTo(cfg, PullRun(clean.files, true, false), targets, w.hauls, |targets|);
    NeverStopped(cfg, PullRun(clean.files, true, false), targets, w.hauls, |targets|);
    var pulled := clean.(files := r.files);
    var booted := Reconcile(cfg, pulled, Some(m), w);
    ListingShowsTheBucket(b, listing);
    var order := Sorted(m.Keys);
    ChecksNoteAll(booted.files, Present(listing), vol.repair, order, m, w.checks, 0);
    var repair := CheckFrom(booted.files, Present(listing), vol.repair, order, m, w.checks, 0);
    assert rel in m.Keys && rel in order;
    var i :| 0 <= i < |order| && order[i] == rel;
    assert Noted(booted.files, Present(listing), m, rel, repair);
    if rel in repair {
      GoodPathsAreRecorded(repair, rel);
    }
  }

  lemma {:induction false} NeverStopped(cfg: Config, start: PullRun, targets: seq<Target>, hauls: nat -> Haul, n: nat)
    requires n <= |targets| && !start.stopped && forall i: nat :: !hauls(i).stop
    ensures !PullTo(cfg, start, targets, hauls, n).stopped
  {
    if n > 0 {
      NeverStopped(cfg, start, targets, hauls, n - 1);
    }
  }

  // --------------------------------------------------------- the next push

  /** The bucket does not show the named object. */
  predicate Damaged(r: Run, rel: string) {
    rel in r.manifest && !Shown(Sizes(r.bucket), rel, r.manifest[rel])
  }

  /** A visit would not upload the file: it is not due for repair, and its cached hash or
      its current one is the one named. */
  predicate Skipped(cfg: Config, files: map<string, File>, r: Run, rel: string) {
    && rel in files && rel !in r.repair
    && (CacheHit(r, rel, files[rel]) || Matches(r.manifest, rel, cfg.sha256(files[rel].bytes), |files[rel].bytes|))
  }

  predicate Overlooked(cfg: Config, files: map<string, File>, r: Run, rel: string) {
    Damaged(r, rel) && Skipped(cfg, files, r, rel)
  }

  lemma UploadHeals(r: Run, rel: string, f: File, sha: Digest)
    ensures var r' := Upload(r, ObjectKey(rel, sha), rel, f, sha, Stored);
            rel in r'.manifest && !Damaged(r', rel) && rel !in r'.repair
  {
    var r' := Upload(r, ObjectKey(rel, sha), rel, f, sha, Stored);
    assert r'.bucket.objects == r.bucket.objects[ObjectKey(rel, sha) := f.bytes];
  }

  lemma UploadSpares(cfg: Config, files: map<string, File>, r: Run, rel: string, f: File, sha: Digest, x: string)
    requires x != rel
    ensures var r' := Upload(r, ObjectKey(rel, sha), rel, f, sha, Stored);
            && (x in r'.manifest <==> x in r.manifest)
            && (Damaged(r', x) <==> Damaged(r, x)) && (Skipped(cfg, files, r', x) <==> Skipped(cfg, files, r, x))
  {
    var r' := Upload(r, ObjectKey(rel, sha), rel, f, sha, Stored);
    assert r'.bucket.objects == r.bucket.objects[ObjectKey(rel, sha) := f.bytes];
  }

  lemma RememberSpares(cfg: Config, files: map<string, File>, r: Run, rel: string, x: string)
    requires rel in files && Matches(r.manifest, rel, cfg.sha256(files[rel].bytes), |files[rel].bytes|)
    requires rel !in r.repair
    ensures var r' := Remember(r, rel, files[rel], cfg.sha256(files[rel].bytes));
            (Damaged(r', x) <==> Damaged(r, x)) && (Skipped(cfg, files, r', x) <==> Skipped(cfg, files, r, x))
  {
    hide Shown, Sizes;
  }

  /** Named, and shown by the bucket unless overlooked. */
  predicate Settled(cfg: Config, files: map<string, File>, r: Run, rel: string) {
    rel in r.manifest && (Damaged(r, rel) ==> Overlooked(cfg, files, r, rel))
  }

  /** A visit that goes well overlooks what was overlooked before and nothing else, and
      settles its own path. */
  lemma VisitOverlooks(cfg: Config, files: map<string, File>, r: Run, x: string, rel: string, v: Visit)
    ensures var r' := VisitFile(cfg, files, true, r, rel, v);
            !r'.failed && !r'.stopped ==>
              && !r.failed && !r.stopped
              && (Overlooked(cfg, files, r', x) <==> Overlooked(cfg, files, r, x))
              && (x == rel || Settled(cfg, files, r, x) ==> Settled(cfg, files, r', x))
  {
    if rel in files {
      var f := files[rel];
      var sha := cfg.sha256(f.bytes);
      UploadHeals(r, rel, f, sha);
      if x != rel {
        UploadSpares(cfg, files, r, rel, f, sha, x);
      }
      if rel !in r.repair && Matches(r.manifest, rel, sha, |f.bytes|) {
        RememberSpares(cfg, files, r, rel, x);
      }
      if CacheHit(r, rel, f) {
        HitIsNamed(r, rel, f);
      }
      hide Damaged, CacheHit;
    }
  }

  lemma HitIsNamed(r: Run, rel: string, f: File)
    requires CacheHit(r, rel, f)
    ensures rel in r.manifest
  {
  }

  lemma {:induction false} VisitsOverlook(cfg: Config, files: map<string, File>, start: Run, x: string,
                                          rels: seq<string>, visits: nat -> Visit, n: nat)
    requires n <= |rels|
    ensures var r := After(cfg, files, true, start, rels, visits, n);
            !r.failed && !r.stopped ==>
              && (Overlooked(cfg, files, r, x) <==> Overlooked(cfg, files, start, x))
              && (x in rels[..n] ==> Settled(cfg, files, r, x))
  {
    hide VisitFile, Overlooked, Settled;
    if n > 0 {
      VisitsOverlook(cfg, files, start, x, rels, visits, n - 1);
      VisitOverlooks(cfg, files, After(cfg, files, true, start, rels, visits, n - 1), x, rels[n - 1], visits(n - 1));
      assert rels[..n] == rels[..n - 1] + [rels[n - 1]];
    }
  }

  lemma VisitedOverlooks(cfg: Config, b: Bucket, now: Volume, rels: seq<string>, w: Weather, rel: string)
    requires Succeeds(cfg, b, now, rels, w) && rel in rels
    ensures var r := Visited(cfg, b, now, rels, w);
            && !r.failed && !r.stopped && rel in r.manifest
            && (Damaged(r, rel) <==> Overlooked(cfg, now.files, Start(cfg, b, now, w), rel))
  {
    hide Parse, Render, VisitFile, Damaged, Skipped;
    VisitsOverlook(cfg, now.files, Start(cfg, b, now, w), rel, rels, w.visits, |rels|);
    assert rels[..|rels|] == rels;
  }

  /** When a successful push starts from no entries, its first visit uploads. */
  lemma RebuildingUploads(cfg: Config, b: Bucket, now: Volume, rels: seq<string>, w: Weather)
    requires Succeeds(cfg, b, now, rels, w) && !LoadManifest(b, w.fetched).Loaded?
    ensures Visited(cfg, b, now, rels, w).pushed > 0
  {
    hide Parse, Render, VisitFile, Damaged, Overlooked;
    var start, r := Start(cfg, b, now, w), Visited(cfg, b, now, rels, w);
    assert start.manifest == map[];
    VisitedOverlooks(cfg, b, now, rels, w, rels[0]);
    ManifestGrows(cfg, now.files, true, start, rels, w.visits, |rels|);
    assert rels[0] in r.manifest;
  }

  /** Before the push: the stored manifest names the file, the file is not due for repair
      and would be skipped, and its object is missing or of another size. */
  predicate StaleSkip(cfg: Config, b: Bucket, now: Volume, w: Weather, rel: string) {
    LoadManifest(b, w.fetched).Loaded? && Overlooked(cfg, now.files, Start(cfg, b, now, w), rel)
  }

  /** What a push heals, exactly: after one that may publish and returns true every
      enumerated file is named, and passes the reconciliation's presence-and-size test
      exactly unless it was a stale skip. */
  lemma HealsUnlessStale(cfg: Config, b: Bucket, now: Volume, rels: seq<string>, w: Weather, rel: string)
    requires Succeeds(cfg, b, now, rels, w) && GoodPaths(rels) && rel in rels
    ensures var pushed := Push(cfg, b, now, rels, w).bucket;
            && rel in NamedBy(pushed)
            && (Shown(Sizes(pushed), rel, NamedBy(pushed)[rel]) <==> !StaleSkip(cfg, b, now, w, rel))
  {
    hide Parse, Render, VisitFile, Shown, Sizes, Push, Skipped, SyncPush.Publish;
    if !LoadManifest(b, w.fetched).Loaded? {
      RebuildingUploads(cfg, b, now, rels, w);
    }
    PublishedManifest(cfg, b, now, rels, w);
    SizesAfterPush(cfg, b, now, rels, w);
    VisitedOverlooks(cfg, b, now, rels, w, rel);
  }

  /** With a sound cache the stale skips are the files whose current content is named,
      not due for repair and not shown. */
  lemma StaleMeansCurrent(cfg: Config, b: Bucket, now: Volume, w: Weather, rel: string)
    requires CacheSound(cfg, now.cache, now.files)
    ensures StaleSkip(cfg, b, now, w, rel)
            <==> && LoadManifest(b, w.fetched).Loaded? && Current(cfg, now.files, NamedBy(b), rel)
                 && rel !in now.repair && !Shown(Sizes(b), rel, NamedBy(b)[rel])
  {
    hide Parse, Shown, Sizes;
    if rel in now.files && CacheHit(Start(cfg, b, now, w), rel, now.files[rel]) {
      HitMeansMatch(cfg, now.files, Start(cfg, b, now, w), rel);
    }
    hide CacheSound, CacheHit;
  }

  /** Self-healing: after a boot pull that reconciles fully against a readable
      manifest, a publishing push that returns true leaves every enumerated file named
      and passing the reconciliation's own presence-and-size test, whichever objects
      were missing or of the wrong size before, provided the file was there at boot or
      the manifest did not name it then. A push that cannot read the manifest any more
      heals every file. */
  lemma SelfHealing(cfg: Config, b: Bucket, vol: Volume, boot: PullWeather, now: Volume, rels: seq<string>, w: Weather)
    requires LoadManifest(b, true).Loaded? && ReconcilesFully(b, boot)
    requires now.repair == Pull(cfg, b, vol, boot).0.repair
    requires Succeeds(cfg, b, now, rels, w) && GoodPaths(rels)
    ensures var booted, pushed := Pull(cfg, b, vol, boot).0, Push(cfg, b, now, rels, w).bucket;
            forall rel :: rel in rels && (w.fetched && rel in NamedBy(b) ==> Exists(booted.files, rel)) ==>
              rel in NamedBy(pushed) && Shown(Sizes(pushed), rel, NamedBy(pushed)[rel])
  {
    hide Parse, Render, Shown, Pull, Exists, Sizes, Push;
    var booted := Pull(cfg, b, vol, boot).0;
    forall rel | rel in rels && (w.fetched && rel in NamedBy(b) ==> Exists(booted.files, rel))
      ensures !StaleSkip(cfg, b, now, w, rel)
    {
      if w.fetched && rel in NamedBy(b) {
        PullNotesDamage(cfg, b, vol, boot, rel);
      }
    }
    hide StaleSkip;
    forall rel | rel in rels && (w.fetched && rel in NamedBy(b) ==> Exists(booted.files, rel))
      ensures var pushed := Push(cfg, b, now, rels, w).bucket;
              rel in NamedBy(pushed) && Shown(Sizes(pushed), rel, NamedBy(pushed)[rel])
    {
      HealsUnlessStale(cfg, b, now, rels, w, rel);
    }
  }

  lemma SizesAfterPush(cfg: Config, b: Bucket, now: Volume, rels: seq<string>, w: Weather)
    requires Succeeds(cfg, b, now, rels, w)
    ensures Sizes(Push(cfg, b, now, rels, w).bucket) == Sizes(Visited(cfg, b, now, rels, w).bucket)
  {
    hide Parse, Render, VisitFile, Sizes;
    SizesIgnoreTheManifest(Visited(cfg, b, now, rels, w), w.publish);
  }

  lemma SizesIgnoreTheManifest(r: Run, answer: Answer)
    ensures Sizes(SyncPush.Publish(r, answer).bucket) == Sizes(r.bucket)
  {
    hide Render;
  }
}
