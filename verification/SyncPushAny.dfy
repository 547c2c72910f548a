/** What any push does, whatever fails on the way and wherever it is stopped. */
module SyncPushAny {
  import opened Requests
  import opened Text
  import opened SyncManifest
  import opened SyncCache
  import opened SyncKeys
  import opened SyncWorld
  import opened SyncPush
  import opened SyncCompleteness
  import opened SyncPushExact

  /** The first stop request comes at the k-th of n files, or not at all. */
  ghost predicate StopsAt(visits: nat -> Visit, n: nat, k: nat) {
    k <= n && (forall j: nat {:trigger visits(j)} :: j < k ==> !visits(j).stop) && (k < n ==> visits(k).stop)
  }

  predicate Clocked(files: map<string, File>, rel: string) {
    rel in files && files[rel].mtime > 0 && files[rel].ctime > 0
  }

  /** The cache knows the file as it is: same size, same known timestamps. */
  predicate Known(cache: CacheMap, files: map<string, File>, rel: string) {
    && Clocked(files, rel) && rel in cache
    && var f := files[rel];
       cache[rel].size == |f.bytes| && cache[rel].mtime == f.mtime && cache[rel].ctime == f.ctime
  }

  /** A visit that gets through: the file is measured and read and, if it is due, its
      upload meets this fate. */
  predicate Through(cfg: Config, vol: Volume, base: Entries, rel: string, v: Visit, fate: Fate) {
    rel in vol.files && v.sizable && v.readable && (Due(cfg, vol, base, rel) ==> Meets(fate, v.put))
  }

  /** What becomes of a request: it takes effect, is acknowledged. */
  datatype Fate = Arrived | Acknowledged

  predicate Meets(fate: Fate, answer: Answer) {
    if fate.Arrived? then !answer.Lost? else answer.Stored?
  }

  /** The due files among the first n whose upload takes effect, or is acknowledged. */
  function Uploads(cfg: Config, vol: Volume, base: Entries, rels: seq<string>, visits: nat -> Visit, fate: Fate, n: nat)
    : (r: set<string>)
    requires n <= |rels|
    ensures r <= vol.files.Keys
  {
    set i | 0 <= i < n && Due(cfg, vol, base, rels[i]) && Through(cfg, vol, base, rels[i], visits(i), fate) :: rels[i]
  }

  /** The i-th visit has to upload its file: it is due and no earlier upload of it has
      been acknowledged. */
  predicate Pending(cfg: Config, vol: Volume, base: Entries, rels: seq<string>, visits: nat -> Visit, i: nat)
    requires i < |rels|
  {
    Due(cfg, vol, base, rels[i]) && rels[i] !in Uploads(cfg, vol, base, rels, visits, Acknowledged, i)
  }

  /** The visits that make a request. */
  function Puts(cfg: Config, vol: Volume, base: Entries, rels: seq<string>, visits: nat -> Visit, n: nat)
    : (r: set<int>)
    requires n <= |rels|
    ensures forall i :: i in r ==> 0 <= i < n
  {
    set i | 0 <= i < n && Pending(cfg, vol, base, rels, visits, i) && visits(i).sizable && visits(i).readable
  }

  /** The file is remembered when its i-th visit comes: from before, or because an earlier
      visit to it got through. */
  ghost predicate KnownAt(cfg: Config, vol: Volume, base: Entries, rels: seq<string>, visits: nat -> Visit, i: nat,
                          rel: string)
    requires i <= |rels|
  {
    || Known(vol.cache, vol.files, rel)
    || (&& Clocked(vol.files, rel)
        && exists j :: 0 <= j < i && rels[j] == rel && Through(cfg, vol, base, rel, visits(j), Acknowledged))
  }

  /** The i-th visit goes well: what has to be uploaded is read, sent and acknowledged, and
      anything else is there, and remembered or read. */
  ghost predicate Well(cfg: Config, vol: Volume, base: Entries, rels: seq<string>, visits: nat -> Visit, i: nat)
    requires i < |rels|
  {
    && rels[i] in vol.files && visits(i).sizable
    && if Pending(cfg, vol, base, rels, visits, i) then visits(i).readable && visits(i).put.Stored?
       else visits(i).readable || KnownAt(cfg, vol, base, rels, visits, i, rels[i])
  }

  lemma UploadsGrow(cfg: Config, vol: Volume, base: Entries, rels: seq<string>, visits: nat -> Visit, fate: Fate,
                    n: nat)
    requires n < |rels|
    ensures Uploads(cfg, vol, base, rels, visits, fate, n + 1)
            == if Due(cfg, vol, base, rels[n]) && Through(cfg, vol, base, rels[n], visits(n), fate)
               then Uploads(cfg, vol, base, rels, visits, fate, n) + {rels[n]}
               else Uploads(cfg, vol, base, rels, visits, fate, n)
  {
    hide Due, Through;
  }

  lemma PutsGrow(cfg: Config, vol: Volume, base: Entries, rels: seq<string>, visits: nat -> Visit, n: nat)
    requires n < |rels|
    ensures |Puts(cfg, vol, base, rels, visits, n + 1)|
            == |Puts(cfg, vol, base, rels, visits, n)|
               + if Pending(cfg, vol, base, rels, visits, n) && visits(n).sizable && visits(n).readable then 1 else 0
  {
    hide Pending;
    var before, after := Puts(cfg, vol, base, rels, visits, n), Puts(cfg, vol, base, rels, visits, n + 1);
    assert after == if n in after then before + {n} else before;
  }

  // ---------------------------------------------------------------- one visit

  /** A run after so many requests. */
  ghost predicate Made(cfg: Config, b: Bucket, vol: Volume, addressed: bool, base: Entries, requests: nat,
                       arrived: set<string>, stored: set<string>, r: Run) {
    && arrived <= vol.files.Keys && stored <= vol.files.Keys
    && r.bucket == b.(objects := b.objects + Objects(cfg, vol.files, addressed, arrived))
    && r.manifest == base + Entered(cfg, vol.files, stored) && r.repair == vol.repair - stored
    && r.pushed == |stored| && |r.trace| == requests
  }

  function Grown(s: set<string>, rel: string, grows: bool): set<string> {
    if grows then s + {rel} else s
  }

  function UploadOf(cfg: Config, vol: Volume, addressed: bool, r: Run, rel: string, answer: Answer): Run
    requires rel in vol.files
  {
    var f, sha := vol.files[rel], cfg.sha256(vol.files[rel].bytes);
    Upload(r, if addressed then ObjectKey(rel, sha) else PathKey(rel), rel, f, sha, answer)
  }

  lemma LostUpload(cfg: Config, b: Bucket, vol: Volume, addressed: bool, base: Entries, requests: nat,
                   arrived: set<string>, stored: set<string>, r: Run, rel: string)
    requires Made(cfg, b, vol, addressed, base, requests, arrived, stored, r) && rel in vol.files
    ensures var r' := UploadOf(cfg, vol, addressed, r, rel, Lost);
            Made(cfg, b, vol, addressed, base, requests + 1, arrived, stored, r')
            && r' == r.(trace := r'.trace, failed := true)
  {
    hide Objects, Entered;
  }

  lemma ArrivedBucket(cfg: Config, b: Bucket, vol: Volume, addressed: bool, arrived: set<string>, rel: string,
                      answer: Answer)
    requires arrived <= vol.files.Keys && rel in vol.files && !answer.Lost?
    ensures var bytes := vol.files[rel].bytes;
            var key := if addressed then ObjectKey(rel, cfg.sha256(bytes)) else PathKey(rel);
            PutObject(b.(objects := b.objects + Objects(cfg, vol.files, addressed, arrived)), key, bytes, answer)
            == b.(objects := b.objects + Objects(cfg, vol.files, addressed, arrived + {rel}))
  {
    ObjectsGrow(cfg, vol.files, addressed, arrived, rel);
    hide Objects;
    var bytes := vol.files[rel].bytes;
    MapAdd(b.objects, Objects(cfg, vol.files, addressed, arrived),
           if addressed then ObjectKey(rel, cfg.sha256(bytes)) else PathKey(rel), bytes);
  }

  lemma UnacknowledgedUpload(cfg: Config, b: Bucket, vol: Volume, addressed: bool, base: Entries, requests: nat,
                             arrived: set<string>, stored: set<string>, r: Run, rel: string)
    requires Made(cfg, b, vol, addressed, base, requests, arrived, stored, r) && rel in vol.files
    ensures var r' := UploadOf(cfg, vol, addressed, r, rel, StoredUnacknowledged);
            Made(cfg, b, vol, addressed, base, requests + 1, arrived + {rel}, stored, r')
            && r' == r.(bucket := r'.bucket, trace := r'.trace, failed := true)
  {
    ArrivedBucket(cfg, b, vol, addressed, arrived, rel, StoredUnacknowledged);
    hide Objects, Entered, PutObject;
  }

  lemma StoredUpload(cfg: Config, b: Bucket, vol: Volume, addressed: bool, base: Entries, requests: nat,
                     arrived: set<string>, stored: set<string>, r: Run, rel: string)
    requires Made(cfg, b, vol, addressed, base, requests, arrived, stored, r) && rel in vol.files && rel !in stored
    ensures var r' := UploadOf(cfg, vol, addressed, r, rel, Stored);
            Made(cfg, b, vol, addressed, base, requests + 1, arrived + {rel}, stored + {rel}, r')
            && r'.stopped == r.stopped && r'.failed == r.failed
            && r'.cache == Remember(r, rel, vol.files[rel], cfg.sha256(vol.files[rel].bytes)).cache
  {
    ArrivedBucket(cfg, b, vol, addressed, arrived, rel, Stored);
    EnteredGrows(cfg, vol.files, base, stored, rel);
    SetGrows(stored, rel);
    StoredRun(cfg, vol, addressed, r, rel);
    hide Objects, Entered, PutObject, UploadOf, Remember;
    assert vol.repair - (stored + {rel}) == (vol.repair - stored) - {rel};
  }

  lemma StoredRun(cfg: Config, vol: Volume, addressed: bool, r: Run, rel: string)
    requires rel in vol.files
    ensures var bytes := vol.files[rel].bytes;
            var key := if addressed then ObjectKey(rel, cfg.sha256(bytes)) else PathKey(rel);
            var bucket := PutObject(r.bucket, key, bytes, Stored);
            UploadOf(cfg, vol, addressed, r, rel, Stored)
            == Run(bucket, r.trace + [bucket], r.manifest[rel := Entry(|bytes|, cfg.sha256(bytes))], r.repair - {rel},
                   Remember(r, rel, vol.files[rel], cfg.sha256(bytes)).cache, r.pushed + 1, r.failed, r.stopped)
  {
  }

  lemma SetGrows(s: set<string>, rel: string)
    requires rel !in s
    ensures |s + {rel}| == |s| + 1
  {
  }

  lemma UploadAny(cfg: Config, b: Bucket, vol: Volume, addressed: bool, base: Entries, requests: nat,
                  arrived: set<string>, stored: set<string>, r: Run, rel: string, answer: Answer)
    requires Made(cfg, b, vol, addressed, base, requests, arrived, stored, r) && rel in vol.files && rel !in stored
    ensures var r' := UploadOf(cfg, vol, addressed, r, rel, answer);
            && Made(cfg, b, vol, addressed, base, requests + 1, Grown(arrived, rel, !answer.Lost?),
                    Grown(stored, rel, answer.Stored?), r')
            && r'.stopped == r.stopped && (r'.failed <==> r.failed || !answer.Stored?)
            && r'.cache == (if answer.Stored? then Remember(r, rel, vol.files[rel], cfg.sha256(vol.files[rel].bytes))
                            else r).cache
  {
    hide Made, UploadOf, Remember;
    match answer
    case Lost => LostUpload(cfg, b, vol, addressed, base, requests, arrived, stored, r, rel);
    case StoredUnacknowledged => UnacknowledgedUpload(cfg, b, vol, addressed, base, requests, arrived, stored, r, rel);
    case Stored => StoredUpload(cfg, b, vol, addressed, base, requests, arrived, stored, r, rel);
  }

  /** What one visit does to the run it finds. */
  lemma AnyVisitCases(cfg: Config, files: map<string, File>, addressed: bool, r: Run, rel: string, v: Visit)
    requires CacheSound(cfg, r.cache, files) && !r.stopped && !v.stop
    ensures var r' := VisitFile(cfg, files, addressed, r, rel, v);
            if rel !in files || !v.sizable then r' == r.(failed := true)
            else
              var f, sha := files[rel], cfg.sha256(files[rel].bytes);
              if rel !in r.repair && Matches(r.manifest, rel, sha, |f.bytes|) then
                if Known(r.cache, files, rel) then r' == r
                else if v.readable then r' == Remember(r, rel, f, sha)
                else r' == r.(failed := true)
              else if !v.readable then r' == r.(failed := true)
              else r' == Upload(r, if addressed then ObjectKey(rel, sha) else PathKey(rel), rel, f, sha, v.put)
  {
    if rel in files && CacheHit(r, rel, files[rel]) {
      HitMeansMatch(cfg, files, r, rel);
    }
    if Known(r.cache, files, rel) {
      assert HashOf(r.cache, rel, |files[rel].bytes|, files[rel].mtime, files[rel].ctime).Some?;
    }
    hide Upload;
  }

  /** A visit that sends the file. */
  lemma SentVisit(cfg: Config, vol: Volume, addressed: bool, base: Entries, stored: set<string>, r: Run, rel: string,
                  v: Visit)
    requires stored <= vol.files.Keys && r.manifest == base + Entered(cfg, vol.files, stored)
    requires r.repair == vol.repair - stored && CacheSound(cfg, r.cache, vol.files) && !r.stopped && !v.stop
    requires Due(cfg, vol, base, rel) && rel !in stored && v.sizable && v.readable
    ensures VisitFile(cfg, vol.files, addressed, r, rel, v) == UploadOf(cfg, vol, addressed, r, rel, v.put)
  {
    AnyVisitCases(cfg, vol.files, addressed, r, rel, v);
    SkippedUnlessDue(cfg, vol, base, stored, r.manifest, r.repair, rel);
    hide VisitFile, CacheSound, Entered, Upload, Matches;
  }

  /** A visit that does not. */
  lemma UnsentVisit(cfg: Config, vol: Volume, addressed: bool, base: Entries, stored: set<string>, r: Run, rel: string,
                    v: Visit)
    requires stored <= vol.files.Keys && r.manifest == base + Entered(cfg, vol.files, stored)
    requires r.repair == vol.repair - stored && CacheSound(cfg, r.cache, vol.files) && !r.stopped && !v.stop
    requires !(Due(cfg, vol, base, rel) && rel !in stored && v.sizable && v.readable)
    ensures var r' := VisitFile(cfg, vol.files, addressed, r, rel, v);
            if rel in vol.files && v.sizable && !(Due(cfg, vol, base, rel) && rel !in stored)
               && (v.readable || Known(r.cache, vol.files, rel))
            then r' == if Known(r.cache, vol.files, rel) then r
                       else Remember(r, rel, vol.files[rel], cfg.sha256(vol.files[rel].bytes))
            else r' == r.(failed := true)
  {
    AnyVisitCases(cfg, vol.files, addressed, r, rel, v);
    if rel in vol.files {
      SkippedUnlessDue(cfg, vol, base, stored, r.manifest, r.repair, rel);
    }
    hide VisitFile, CacheSound, Entered, Upload, Matches;
  }

  /** What the cache knows after a visit. */
  ghost predicate KnowsMore(cfg: Config, vol: Volume, cache: CacheMap, cache': CacheMap, rel: string, more: bool) {
    forall x :: Known(cache', vol.files, x)
                <==> Known(cache, vol.files, x) || (x == rel && more && Clocked(vol.files, rel))
  }

  lemma RememberKnows(cfg: Config, vol: Volume, r: Run, rel: string)
    requires rel in vol.files
    ensures KnowsMore(cfg, vol, r.cache, Remember(r, rel, vol.files[rel], cfg.sha256(vol.files[rel].bytes)).cache, rel,
                      true)
  {
  }

  lemma OnlyFlags(cfg: Config, b: Bucket, vol: Volume, addressed: bool, base: Entries, requests: nat,
                  arrived: set<string>, stored: set<string>, r: Run, r': Run)
    requires Made(cfg, b, vol, addressed, base, requests, arrived, stored, r)
    requires r' == r.(cache := r'.cache, failed := r'.failed)
    ensures Made(cfg, b, vol, addressed, base, requests, arrived, stored, r')
  {
    hide Objects, Entered;
  }

  lemma AnyVisit(cfg: Config, b: Bucket, vol: Volume, addressed: bool, base: Entries, requests: nat,
                 arrived: set<string>, stored: set<string>, r: Run, rel: string, v: Visit)
    requires Made(cfg, b, vol, addressed, base, requests, arrived, stored, r)
    requires CacheSound(cfg, r.cache, vol.files) && !r.stopped && !v.stop
    ensures var r' := VisitFile(cfg, vol.files, addressed, r, rel, v);
            var pending := Due(cfg, vol, base, rel) && rel !in stored;
            var sent := pending && v.sizable && v.readable;
            && Made(cfg, b, vol, addressed, base, requests + (if sent then 1 else 0),
                    Grown(arrived, rel, sent && !v.put.Lost?), Grown(stored, rel, sent && v.put.Stored?), r')
            && !r'.stopped
            && (r'.failed <==> || r.failed || rel !in vol.files || !v.sizable
                               || (if pending then !(v.readable && v.put.Stored?)
                                   else !(v.readable || Known(r.cache, vol.files, rel))))
            && KnowsMore(cfg, vol, r.cache, r'.cache, rel,
                         rel in vol.files && v.sizable && v.readable && (pending ==> v.put.Stored?))
  {
    hide VisitFile, CacheSound, UploadOf, Objects, Entered, Due;
    if rel in vol.files {
      RememberKnows(cfg, vol, r, rel);
    }
    var r' := VisitFile(cfg, vol.files, addressed, r, rel, v);
    if Due(cfg, vol, base, rel) && rel !in stored && v.sizable && v.readable {
      DueIsThere(cfg, vol, base, rel);
      SentVisit(cfg, vol, addressed, base, stored, r, rel, v);
      UploadAny(cfg, b, vol, addressed, base, requests, arrived, stored, r, rel, v.put);
      hide Made, Known, Clocked;
    } else {
      UnsentVisit(cfg, vol, addressed, base, stored, r, rel, v);
      OnlyFlags(cfg, b, vol, addressed, base, requests, arrived, stored, r, r');
      hide Made;
    }
  }

  lemma DueIsThere(cfg: Config, vol: Volume, base: Entries, rel: string)
    requires Due(cfg, vol, base, rel)
    ensures rel in vol.files
  {
  }

  // -------------------------------------------------------------- all visits

  ghost predicate MadeTo(cfg: Config, b: Bucket, vol: Volume, addressed: bool, base: Entries, rels: seq<string>,
                         visits: nat -> Visit, n: nat, r: Run)
    requires n <= |rels|
  {
    var arrived := Uploads(cfg, vol, base, rels, visits, Arrived, n);
    var stored := Uploads(cfg, vol, base, rels, visits, Acknowledged, n);
    Made(cfg, b, vol, addressed, base, |Puts(cfg, vol, base, rels, visits, n)|, arrived, stored, r)
  }

  /** Some visit among the first n does not go well. */
  ghost predicate Failing(cfg: Config, vol: Volume, base: Entries, rels: seq<string>, visits: nat -> Visit, n: nat)
    requires n <= |rels|
  {
    exists i :: 0 <= i < n && !Well(cfg, vol, base, rels, visits, i)
  }

  ghost predicate KnowsTo(cfg: Config, vol: Volume, base: Entries, rels: seq<string>, visits: nat -> Visit, n: nat,
                          cache: CacheMap)
    requires n <= |rels|
  {
    forall x :: Known(cache, vol.files, x) <==> KnownAt(cfg, vol, base, rels, visits, n, x)
  }

  /** The run after the first n visits. */
  ghost predicate Visits(cfg: Config, b: Bucket, vol: Volume, addressed: bool, base: Entries, rels: seq<string>,
                         visits: nat -> Visit, n: nat, r: Run)
    requires n <= |rels|
  {
    && MadeTo(cfg, b, vol, addressed, base, rels, visits, n, r)
    && !r.stopped && (r.failed <==> Failing(cfg, vol, base, rels, visits, n))
    && CacheSound(cfg, r.cache, vol.files) && KnowsTo(cfg, vol, base, rels, visits, n, r.cache)
  }

  lemma FailingGrows(cfg: Config, vol: Volume, base: Entries, rels: seq<string>, visits: nat -> Visit, n: nat)
    requires n < |rels|
    ensures Failing(cfg, vol, base, rels, visits, n + 1)
            <==> Failing(cfg, vol, base, rels, visits, n) || !Well(cfg, vol, base, rels, visits, n)
  {
    hide Well;
  }

  /** What is acknowledged has arrived, and is remembered when its clocks are known. */
  lemma AcknowledgedIsKnown(cfg: Config, vol: Volume, base: Entries, rels: seq<string>, visits: nat -> Visit, n: nat,
                            rel: string)
    requires n <= |rels| && rel in Uploads(cfg, vol, base, rels, visits, Acknowledged, n)
    ensures rel in Uploads(cfg, vol, base, rels, visits, Arrived, n)
    ensures Clocked(vol.files, rel) ==> KnownAt(cfg, vol, base, rels, visits, n, rel)
  {
    hide Due, Known, Clocked;
    var i :| 0 <= i < n && rels[i] == rel && Due(cfg, vol, base, rels[i])
             && Through(cfg, vol, base, rels[i], visits(i), Acknowledged);
    assert Through(cfg, vol, base, rels[i], visits(i), Arrived);
  }

  lemma KnownGrows(cfg: Config, vol: Volume, base: Entries, rels: seq<string>, visits: nat -> Visit, n: nat, x: string)
    requires n < |rels|
    ensures KnownAt(cfg, vol, base, rels, visits, n + 1, x)
            <==> || KnownAt(cfg, vol, base, rels, visits, n, x)
                 || (x == rels[n] && Clocked(vol.files, x) && Through(cfg, vol, base, x, visits(n), Acknowledged))
  {
    hide Through, Known, Clocked;
  }

  lemma KnowsGrows(cfg: Config, vol: Volume, base: Entries, rels: seq<string>, visits: nat -> Visit, n: nat,
                   cache: CacheMap, cache': CacheMap)
    requires n < |rels| && KnowsTo(cfg, vol, base, rels, visits, n, cache)
    requires var rel, v := rels[n], visits(n);
             var pending := Due(cfg, vol, base, rel) && rel !in Uploads(cfg, vol, base, rels, visits, Acknowledged, n);
             KnowsMore(cfg, vol, cache, cache', rel,
                       rel in vol.files && v.sizable && v.readable && (pending ==> v.put.Stored?))
    ensures KnowsTo(cfg, vol, base, rels, visits, n + 1, cache')
  {
    var rel := rels[n];
    if rel in Uploads(cfg, vol, base, rels, visits, Acknowledged, n) {
      AcknowledgedIsKnown(cfg, vol, base, rels, visits, n, rel);
    }
    hide Known, Clocked, Due, Uploads, KnownAt;
    forall x ensures Known(cache', vol.files, x) <==> KnownAt(cfg, vol, base, rels, visits, n + 1, x) {
      KnownGrows(cfg, vol, base, rels, visits, n, x);
      assert Known(cache, vol.files, x) <==> KnownAt(cfg, vol, base, rels, visits, n, x);
    }
  }

  lemma UploadsFollow(cfg: Config, vol: Volume, base: Entries, rels: seq<string>, visits: nat -> Visit, n: nat)
    requires n < |rels|
    ensures var rel, v := rels[n], visits(n);
            var arrived := Uploads(cfg, vol, base, rels, visits, Arrived, n);
            var stored := Uploads(cfg, vol, base, rels, visits, Acknowledged, n);
            var sent := Due(cfg, vol, base, rel) && rel !in stored && v.sizable && v.readable;
            && Uploads(cfg, vol, base, rels, visits, Arrived, n + 1) == Grown(arrived, rel, sent && !v.put.Lost?)
            && Uploads(cfg, vol, base, rels, visits, Acknowledged, n + 1) == Grown(stored, rel, sent && v.put.Stored?)
            && |Puts(cfg, vol, base, rels, visits, n + 1)|
               == |Puts(cfg, vol, base, rels, visits, n)| + (if sent then 1 else 0)
  {
    var rel := rels[n];
    UploadsGrow(cfg, vol, base, rels, visits, Arrived, n);
    UploadsGrow(cfg, vol, base, rels, visits, Acknowledged, n);
    PutsGrow(cfg, vol, base, rels, visits, n);
    if rel in Uploads(cfg, vol, base, rels, visits, Acknowledged, n) {
      AcknowledgedIsKnown(cfg, vol, base, rels, visits, n, rel);
    }
    if Due(cfg, vol, base, rel) {
      DueIsThere(cfg, vol, base, rel);
    }
    hide Uploads, Puts, Due;
  }

  lemma OneMoreVisit(cfg: Config, b: Bucket, vol: Volume, addressed: bool, base: Entries, rels: seq<string>,
                     visits: nat -> Visit, n: nat, r: Run)
    requires n < |rels| && !visits(n).stop
    requires Visits(cfg, b, vol, addressed, base, rels, visits, n, r)
    ensures Visits(cfg, b, vol, addressed, base, rels, visits, n + 1,
                   VisitFile(cfg, vol.files, addressed, r, rels[n], visits(n)))
  {
    var rel, v := rels[n], visits(n);
    var arrived := Uploads(cfg, vol, base, rels, visits, Arrived, n);
    var stored := Uploads(cfg, vol, base, rels, visits, Acknowledged, n);
    hide VisitFile, CacheSound, Made, Uploads, Puts, Failing, Due, KnownAt, Known;
    VisitKeepsSound(cfg, vol.files, addressed, r, rel, v);
    AnyVisit(cfg, b, vol, addressed, base, |Puts(cfg, vol, base, rels, visits, n)|, arrived, stored, r, rel, v);
    UploadsFollow(cfg, vol, base, rels, visits, n);
    FailingGrows(cfg, vol, base, rels, visits, n);
    KnowsGrows(cfg, vol, base, rels, visits, n, r.cache, VisitFile(cfg, vol.files, addressed, r, rel, v).cache);
    assert Known(r.cache, vol.files, rel) <==> KnownAt(cfg, vol, base, rels, visits, n, rel);
    hide KnowsTo, KnowsMore, Grown;
  }

  lemma {:induction false} AnyVisits(cfg: Config, b: Bucket, vol: Volume, addressed: bool, base: Entries, start: Run,
                                     rels: seq<string>, visits: nat -> Visit, n: nat)
    requires n <= |rels| && forall j: nat {:trigger visits(j)} :: j < n ==> !visits(j).stop
    requires Visits(cfg, b, vol, addressed, base, rels, visits, 0, start)
    ensures Visits(cfg, b, vol, addressed, base, rels, visits, n,
                   After(cfg, vol.files, addressed, start, rels, visits, n))
  {
    hide VisitFile, Visits;
    if n > 0 {
      AnyVisits(cfg, b, vol, addressed, base, start, rels, visits, n - 1);
      OneMoreVisit(cfg, b, vol, addressed, base, rels, visits, n - 1,
                   After(cfg, vol.files, addressed, start, rels, visits, n - 1));
    }
  }

  lemma NoVisits(cfg: Config, b: Bucket, vol: Volume, rels: seq<string>, w: Weather)
    requires CacheSound(cfg, vol.cache, vol.files)
    ensures var start := Start(cfg, b, vol, w);
            Visits(cfg, b, vol, Addressed(cfg, b, vol, w), Base(cfg, b, vol, w), rels, w.visits, 0, start)
  {
    BaseIsKnown(cfg, b, vol, w);
    hide Base, Addressed, BaseManifest, CacheSound, Uploads, Puts;
    var base := Base(cfg, b, vol, w);
    NothingAdded(cfg, b, vol, Addressed(cfg, b, vol, w), base);
    hide Objects, Entered, Known;
    NoUploads(cfg, vol, base, rels, w.visits);
  }

  lemma NoUploads(cfg: Config, vol: Volume, base: Entries, rels: seq<string>, visits: nat -> Visit)
    ensures Puts(cfg, vol, base, rels, visits, 0) == {}
    ensures forall fate :: Uploads(cfg, vol, base, rels, visits, fate, 0) == {}
  {
  }

  lemma NothingAdded(cfg: Config, b: Bucket, vol: Volume, addressed: bool, base: Entries)
    ensures b.objects + Objects(cfg, vol.files, addressed, {}) == b.objects
    ensures base + Entered(cfg, vol.files, {}) == base
  {
  }

  // --------------------------------------------------------------- the end

  /** What a push leaves that was stopped at the k-th file, or not at all: the due files
      whose upload took effect are in the bucket; a push that was not stopped publishes
      the entries of the acknowledged ones, or notes them, takes them off the repair list
      and remembers what it read; and it answers yes when nothing went wrong. */
  ghost predicate Ends(cfg: Config, b: Bucket, vol: Volume, addressed: bool, base: Entries, rels: seq<string>,
                       w: Weather, k: nat, out: Outcome)
    requires k <= |rels|
  {
    var arrived := Uploads(cfg, vol, base, rels, w.visits, Arrived, k);
    var stored := Uploads(cfg, vol, base, rels, w.visits, Acknowledged, k);
    var text := Render(base + Entered(cfg, vol.files, stored));
    var named := k == |rels| && addressed && stored != {};
    var published := named && Utf8Len(text) <= 4_194_304;
    && out.bucket.objects == b.objects + Objects(cfg, vol.files, addressed, arrived)
    && out.bucket.manifest == (if published && !w.publish.Lost? then Some(text) else b.manifest)
    && |out.trace| == |Puts(cfg, vol, base, rels, w.visits, k)| + (if published then 1 else 0)
    && (out.ok <==>
          && k == |rels| && (forall i :: 0 <= i < k ==> Well(cfg, vol, base, rels, w.visits, i))
          && (named ==> published && w.publish.Stored?))
    && out.volume == (
         if k < |rels| || !w.noted then vol
         else vol.(shadow := if stored == {} then vol.shadow
                             else if !addressed then Some(text)
                             else if published && w.publish.Stored? then None else vol.shadow,
                   repair := SyncWorld.Recorded(set rel | rel in vol.repair && rel in rels && rel !in stored),
                   cache := out.volume.cache))
    && (k == |rels| && w.noted ==> KnowsTo(cfg, vol, base, rels, w.visits, k, out.volume.cache))
  }

  lemma StoppedEnds(cfg: Config, b: Bucket, vol: Volume, addressed: bool, base: Entries, rels: seq<string>, w: Weather,
                    k: nat, r: Run)
    requires k < |rels| && Visits(cfg, b, vol, addressed, base, rels, w.visits, k, r)
    ensures Ends(cfg, b, vol, addressed, base, rels, w, k, Outcome(r.bucket, r.trace, vol, false))
  {
    hide Uploads, Puts, Objects, Entered, Render, Utf8Len, Well, CacheSound, KnowsTo;
  }

  /** The end of any push that was not stopped. */
  lemma FinishAny(addressed: bool, r: Run, vol: Volume, rels: seq<string>, w: Weather)
    ensures var out, text := Finish(addressed, r, vol, rels, w), Render(r.manifest);
            var named := addressed && r.pushed > 0;
            var published := named && Utf8Len(text) <= 4_194_304;
            && out.bucket == (if published && !w.publish.Lost? then r.bucket.(manifest := Some(text)) else r.bucket)
            && |out.trace| == |r.trace| + (if published then 1 else 0)
            && (out.ok <==> !r.failed && (named ==> published && w.publish.Stored?))
            && out.volume == (
                 if !w.noted then vol
                 else vol.(shadow := if r.pushed == 0 then vol.shadow
                                     else if !addressed then Some(text)
                                     else if published && w.publish.Stored? then None else vol.shadow,
                           repair := SyncWorld.Recorded(set rel | rel in r.repair && rel in rels), cache := r.cache))
  {
    assert MAX_MANIFEST_BYTES == 4_194_304;
    hide Render, Utf8Len, SyncWorld.Recorded;
  }

  lemma LeftToRepair(repair: set<string>, rels: seq<string>, stored: set<string>)
    ensures (set rel | rel in repair && rel in rels && rel !in stored)
            == set rel | rel in repair - stored && rel in rels
  {
  }

  lemma FinishedEnds(cfg: Config, b: Bucket, vol: Volume, addressed: bool, base: Entries, rels: seq<string>, w: Weather,
                     r: Run)
    requires Visits(cfg, b, vol, addressed, base, rels, w.visits, |rels|, r)
    ensures Ends(cfg, b, vol, addressed, base, rels, w, |rels|, Finish(addressed, r, vol, rels, w))
  {
    hide Uploads, Puts, Objects, Entered, Render, Utf8Len, Well, CacheSound, KnowsTo, Finish, SyncWorld.Recorded;
    LeftToRepair(vol.repair, rels, Uploads(cfg, vol, base, rels, w.visits, Acknowledged, |rels|));
    FinishAny(addressed, r, vol, rels, w);
  }

  lemma VisitsRun(cfg: Config, b: Bucket, vol: Volume, addressed: bool, base: Entries, rels: seq<string>,
                  visits: nat -> Visit, n: nat, r: Run)
    requires n <= |rels| && Visits(cfg, b, vol, addressed, base, rels, visits, n, r)
    ensures !r.stopped
  {
  }

  /** A push, exactly, in every weather and in either layout: which requests it makes, what
      they leave in the bucket, what it records, and when it answers yes. A file that fails
      does not keep the others from being sent. */
  lemma AnyPushIsExact(cfg: Config, b: Bucket, vol: Volume, rels: seq<string>, w: Weather, k: nat)
    requires w.connected && rels != [] && CacheSound(cfg, vol.cache, vol.files) && StopsAt(w.visits, |rels|, k)
    ensures Ends(cfg, b, vol, Addressed(cfg, b, vol, w), Base(cfg, b, vol, w), rels, w, k, Push(cfg, b, vol, rels, w))
  {
    BaseIsKnown(cfg, b, vol, w);
    hide VisitFile, Visits, Ends, Base, Addressed, Publishes, BaseManifest, CacheSound, Finish, Start;
    var addressed, base, start := Addressed(cfg, b, vol, w), Base(cfg, b, vol, w), Start(cfg, b, vol, w);
    NoVisits(cfg, b, vol, rels, w);
    AnyVisits(cfg, b, vol, addressed, base, start, rels, w.visits, k);
    var r := After(cfg, vol.files, addressed, start, rels, w.visits, k);
    VisitsRun(cfg, b, vol, addressed, base, rels, w.visits, k, r);
    if k < |rels| {
      StopEnds(cfg, vol.files, addressed, start, rels, w.visits, k);
      StoppedEnds(cfg, b, vol, addressed, base, rels, w, k, r);
    } else {
      FinishedEnds(cfg, b, vol, addressed, base, rels, w, r);
    }
  }
}
