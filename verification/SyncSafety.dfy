/** Safety of the push at every point it may stop, over any number of runs. */
module SyncSafety {
  import opened Requests
  import opened Text
  import opened SyncManifest
  import opened SyncWorld
  import opened SyncPush

  ghost predicate GoodPaths(rels: seq<string>) {
    forall rel :: rel in rels ==> GoodPath(rel)
  }

  /** What the visits keep: the stored manifest stays backed in every bucket state
      reached, and the manifest under construction is backed already. */
  ghost predicate Backed(cfg: Config, addressed: bool, publish: bool, manifest: Option<string>, r: Run) {
    && r.bucket.manifest == manifest
    && Intact(cfg, r.bucket, addressed)
    && (forall t :: t in r.trace ==> Intact(cfg, t, addressed))
    && (publish ==> WellFormed(r.manifest) && HoldsAll(cfg, r.bucket, addressed, r.manifest))
  }

  /** A content-addressed PUT keeps whatever was held, whether or not it takes effect;
      a path-key PUT keeps whatever content-addressed keys hold. */
  lemma PutKeepsHeld(cfg: Config, b: Bucket, addressed: bool, publish: bool, m: Entries, rel: string, bytes: Bytes,
                     answer: Answer)
    requires HoldsAll(cfg, b, addressed, m) && (publish || addressed)
    ensures HoldsAll(cfg, PutObject(b, KeyFor(publish, rel, cfg.sha256(bytes)), bytes, answer), addressed, m)
  {
  }

  lemma PutKeepsIntact(cfg: Config, b: Bucket, addressed: bool, publish: bool, rel: string, bytes: Bytes,
                       answer: Answer)
    requires Intact(cfg, b, addressed) && (publish || addressed)
    ensures Intact(cfg, PutObject(b, KeyFor(publish, rel, cfg.sha256(bytes)), bytes, answer), addressed)
  {
    PutKeepsHeld(cfg, b, addressed, publish, NamedBy(b), rel, bytes, answer);
  }

  lemma UploadKeepsBacked(cfg: Config, addressed: bool, publish: bool, manifest: Option<string>, r: Run, rel: string,
                          f: File, answer: Answer)
    requires Backed(cfg, addressed, publish, manifest, r)
    requires (publish || addressed) && GoodPath(rel)
    ensures var sha := cfg.sha256(f.bytes);
            Backed(cfg, addressed, publish, manifest, Upload(r, KeyFor(publish, rel, sha), rel, f, sha, answer))
  {
    var sha := cfg.sha256(f.bytes);
    var key := KeyFor(publish, rel, sha);
    var r' := Upload(r, key, rel, f, sha, answer);
    PutKeepsIntact(cfg, r.bucket, addressed, publish, rel, f.bytes, answer);
    if publish {
      PutKeepsHeld(cfg, r.bucket, addressed, publish, r.manifest, rel, f.bytes, answer);
      if answer.Stored? {
        assert Content(cfg, r'.bucket, key, sha);
      }
    }
  }

  lemma VisitKeepsBacked(cfg: Config, files: map<string, File>, addressed: bool, publish: bool,
                         manifest: Option<string>, r: Run, rel: string, v: Visit)
    requires Backed(cfg, addressed, publish, manifest, r)
    requires (publish || addressed) && GoodPath(rel)
    ensures Backed(cfg, addressed, publish, manifest, VisitFile(cfg, files, publish, r, rel, v))
  {
    var r' := VisitFile(cfg, files, publish, r, rel, v);
    if r'.bucket == r.bucket && r'.trace == r.trace && r'.manifest == r.manifest {
    } else {
      UploadKeepsBacked(cfg, addressed, publish, manifest, r, rel, files[rel], v.put);
    }
  }

  lemma {:induction false} VisitsKeepBacked(cfg: Config, files: map<string, File>, addressed: bool, publish: bool,
                                            manifest: Option<string>,
                                            start: Run, rels: seq<string>, visits: nat -> Visit, n: nat)
    requires n <= |rels| && GoodPaths(rels) && (publish || addressed)
    requires Backed(cfg, addressed, publish, manifest, start)
    ensures Backed(cfg, addressed, publish, manifest, After(cfg, files, publish, start, rels, visits, n))
  {
    if n > 0 {
      VisitsKeepBacked(cfg, files, addressed, publish, manifest, start, rels, visits, n - 1);
      var r := After(cfg, files, publish, start, rels, visits, n - 1);
      VisitKeepsBacked(cfg, files, addressed, publish, manifest, r, rels[n - 1], visits(n - 1));
    }
  }

  lemma StoringKeepsIntact(cfg: Config, addressed: bool, b: Bucket, text: string, m: Entries, answer: Answer)
    requires Intact(cfg, b, addressed) && HoldsAll(cfg, b, addressed, m) && Parse(text) == Some(m)
    ensures Intact(cfg, PutManifest(b, text, answer), addressed)
  {
    if !answer.Lost? {
      StoredTextIsNamed(b, text, m, answer);
    }
  }

  lemma PublishKeepsIntact(cfg: Config, addressed: bool, manifest: Option<string>, r: Run, answer: Answer)
    requires Backed(cfg, addressed, true, manifest, r)
    ensures var done := Publish(r, answer);
            Intact(cfg, done.bucket, addressed) && forall t :: t in done.trace ==> Intact(cfg, t, addressed)
  {
    hide Parse, Render;
    RoundTrip(r.manifest);
    StoringKeepsIntact(cfg, addressed, r.bucket, Render(r.manifest), r.manifest, answer);
  }

  /** Commit safety of one push: every bucket state it passes through backs every
      entry of the manifest stored at that moment, whatever fails, whatever is
      applied unacknowledged and wherever it stops. With `addressed` the backing is
      the content-addressed key; without it entries still held only at their path
      key are kept too, provided the run read the manifest. */
  lemma PushKeepsIntact(cfg: Config, addressed: bool, b: Bucket, vol: Volume, rels: seq<string>, w: Weather)
    requires Intact(cfg, b, addressed) && GoodPaths(rels)
    requires addressed || LoadManifest(b, w.fetched).Loaded?
    ensures var out := Push(cfg, b, vol, rels, w);
            Intact(cfg, out.bucket, addressed) && forall t :: t in out.trace ==> Intact(cfg, t, addressed)
  {
    if w.connected && rels != [] {
      var publish, start := Publishes(cfg, b, vol, w), Start(cfg, b, vol, w);
      ParsedManifestIsWellFormed(b);
      assert Backed(cfg, addressed, publish, b.manifest, start);
      VisitsKeepBacked(cfg, vol.files, addressed, publish, b.manifest, start, rels, w.visits, |rels|);
      var r := Visited(cfg, b, vol, rels, w);
      if publish {
        PublishKeepsIntact(cfg, addressed, b.manifest, r, w.publish);
      }
    }
  }

  /** One push attempt: its volume, enumerated files and environment are arbitrary. */
  datatype Attempt = Attempt(vol: Volume, rels: seq<string>, weather: Weather)

  /** Consecutive buckets of a history: each push starts from the last one and stops
      after some request, or runs to its end. */
  ghost predicate History(cfg: Config, buckets: seq<Bucket>, attempts: seq<Attempt>) {
    && |buckets| == |attempts| + 1
    && forall i {:trigger attempts[i]} :: 0 <= i < |attempts| ==>
         var a, out := attempts[i], Push(cfg, buckets[i], attempts[i].vol, attempts[i].rels, attempts[i].weather);
         GoodPaths(a.rels) && (buckets[i + 1] == buckets[i] || buckets[i + 1] in out.trace)
  }

  /** Over any history of pushes, publishing or not, each interrupted anywhere, the
      stored manifest is always backed by the content-addressed objects it names. */
  lemma {:induction false} CommitSafety(cfg: Config, buckets: seq<Bucket>, attempts: seq<Attempt>)
    requires History(cfg, buckets, attempts) && Intact(cfg, buckets[0], true)
    ensures forall i :: 0 <= i < |buckets| ==> Intact(cfg, buckets[i], true)
    decreases |attempts|
  {
    if attempts != [] {
      var n := |attempts| - 1;
      forall i | 0 <= i < n
        ensures var a, out :=
                attempts[..n][i], Push(cfg, buckets[i], attempts[i].vol, attempts[i].rels, attempts[i].weather);
                GoodPaths(a.rels) && (buckets[i + 1] == buckets[i] || buckets[i + 1] in out.trace)
      {
        assert attempts[..n][i] == attempts[i];
      }
      CommitSafety(cfg, buckets[..n + 1], attempts[..n]);
      assert forall i :: 0 <= i <= n ==> buckets[..n + 1][i] == buckets[i];
      var a := attempts[n];
      PushKeepsIntact(cfg, true, buckets[n], a.vol, a.rels, a.weather);
    }
  }
}
