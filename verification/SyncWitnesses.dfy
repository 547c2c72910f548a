/** Concrete deployments in which what the state sync does not promise goes wrong. */
module SyncWitnesses {
  import opened Requests
  import opened Text
  import opened SyncManifest
  import opened SyncCache
  import opened SyncKeys
  import opened SyncWorld
  import opened SyncPush
  import opened SyncSafety
  import opened SyncCompleteness
  import opened SyncVersions
  import opened SyncPull
  import opened SyncHealing
  import opened SyncRestore

  const IDENTITY := "rsa_key.pem"

  // ------------------------------------------------------- manifests that fit

  predicate Short(rel: string) {
    GoodPath(rel) && |rel| <= 100 && forall c :: c in rel ==> c < '\U{0080}'
  }

  lemma LineIsShort(rel: string, e: Entry)
    requires Short(rel)
    ensures |Line(rel, e)| <= 186 && forall c :: c in Line(rel, e) ==> c < '\U{0080}'
  {
    assert PowerOfTen(20) > U64_LIMIT by { PowerOfTwenty(); }
    DecimalWidth(e.size, 20);
    DigitsAreAscii(e.size);
    assert forall c :: c in e.sha256 ==> IsHexDigit(c);
    hide Decimal, GoodPath;
  }

  lemma {:induction false} LinesAreShort(rels: seq<string>, m: Entries)
    requires forall rel :: rel in rels ==> rel in m && Short(rel)
    ensures Utf8Len(RenderLines(rels, m)) <= 187 * |rels|
  {
    hide Utf8Len, Short, Line;
    if rels == [] {
      AsciiLen("");
    } else {
      LineIsShort(rels[0], m[rels[0]]);
      AsciiLen(Line(rels[0], m[rels[0]]) + "\n");
      LinesAreShort(rels[1..], m);
      Utf8LenConcat(Line(rels[0], m[rels[0]]) + "\n", RenderLines(rels[1..], m));
    }
  }

  /** A manifest of a few short names fits its cap and reads back. */
  lemma SmallManifest(m: Entries)
    requires |m| <= 1000 && forall rel :: rel in m ==> Short(rel)
    ensures Parse(Render(m)) == Some(m) && Utf8Len(Render(m)) <= MAX_MANIFEST_BYTES
  {
    RoundTrip(m);
    assert |m.Keys| == |m|;
    hide Utf8Len, RenderLines, Parse, Short, WellFormed;
    LinesAreShort(Sorted(m.Keys), m);
    assert forall c :: c in "v1\n" ==> c < '\U{0080}';
    AsciiLen("v1\n");
    Utf8LenConcat("v1\n", RenderLines(Sorted(m.Keys), m));
  }

  lemma IdentityIsShort()
    ensures Short(IDENTITY)
  {
    assert !IsWhite('m');
  }

  // ------------------------------------------------------------- the weather

  function Fair(readable: bool): Weather {
    Weather(true, true, true, i => Visit(false, true, readable, Stored), Stored, true)
  }

  /** The manifest of a volume whose only file is the identity, and the bucket that
      stores it beside these objects. */
  function Naming(cfg: Config, bytes: Bytes): Entries {
    map[IDENTITY := Entry(|bytes|, cfg.sha256(bytes))]
  }

  function Holding(cfg: Config, bytes: Bytes, objects: map<Key, Bytes>): Bucket {
    Bucket(Some(Render(Naming(cfg, bytes))), objects)
  }

  lemma HoldingLoads(cfg: Config, bytes: Bytes, objects: map<Key, Bytes>)
    ensures LoadManifest(Holding(cfg, bytes, objects), true) == Loaded(Naming(cfg, bytes))
    ensures NamedBy(Holding(cfg, bytes, objects)) == Naming(cfg, bytes)
  {
    IdentityIsShort();
    hide Parse, Render, Utf8Len, Short;
    SmallManifest(Naming(cfg, bytes));
  }

  lemma OneVisit(cfg: Config, b: Bucket, vol: Volume, rel: string, w: Weather)
    ensures Visited(cfg, b, vol, [rel], w)
            == VisitFile(cfg, vol.files, Publishes(cfg, b, vol, w), Start(cfg, b, vol, w), rel, w.visits(0))
  {
    var publish, start := Publishes(cfg, b, vol, w), Start(cfg, b, vol, w);
    hide VisitFile, Publishes, Start;
    assert After(cfg, vol.files, publish, start, [rel], w.visits, 0) == start;
  }

  // --------------------------------------------------------------- the cache

  /** The identity file cannot be read. Where the cache remembers its hash the push never
      tries and returns true; without the cache the same push returns false. */
  lemma CacheHidesUnreadable(cfg: Config, bytes: Bytes, objects: map<Key, Bytes>)
    ensures var b, sha := Holding(cfg, bytes, objects), cfg.sha256(bytes);
            var cache := map[IDENTITY := Cached(|bytes|, 1, 1, sha)];
            var vol := Volume(map[IDENTITY := File(bytes, 1, 1)], {}, None, cache);
            && CacheSound(cfg, vol.cache, vol.files)
            && Push(cfg, b, vol, [IDENTITY], Fair(false)).ok
            && !Push(cfg, b, vol.(cache := map[]), [IDENTITY], Fair(false)).ok
  {
    HoldingLoads(cfg, bytes, objects);
    hide Parse, Render, Utf8Len, LoadManifest;
    var b, sha := Holding(cfg, bytes, objects), cfg.sha256(bytes);
    var vol := Volume(map[IDENTITY := File(bytes, 1, 1)], {}, None, map[IDENTITY := Cached(|bytes|, 1, 1, sha)]);
    var start := Start(cfg, b, vol, Fair(false));
    assert VisitFile(cfg, vol.files, true, start, IDENTITY, Fair(false).visits(0)) == start;
    OneVisit(cfg, b, vol, IDENTITY, Fair(false));
    WithoutTheCache(cfg, b, vol, [IDENTITY], Fair(false));
    assert !Fair(false).visits(0).readable;
    assert !Repeated(vol.files, [IDENTITY], 0);
  }

  // ------------------------------------------------------------- a stale skip

  /** A boot whose bucket lists nothing and whose transfers all fail. */
  function Barren(): PullWeather {
    var h := Haul(false, true, None, None, 0, 0);
    PullWeather(true, true, None, i => h, Some([]), i => h, i => false, true)
  }

  lemma SortedOne(s: set<string>, x: string)
    requires s == {x}
    ensures Sorted(s) == [x]
  {
    assert |Sorted(s)| == 1;
    assert Sorted(s)[0] in s;
    hide Sorted;
  }

  lemma BarrenReconcile(cfg: Config, e: Entry)
    ensures Reconcile(cfg, Wiped(), Some(map[IDENTITY := e]), Barren()) == Wiped()
  {
    hide Sorted;
    var m := map[IDENTITY := e];
    SortedOne(m.Keys, IDENTITY);
    assert Unreferenced(cfg, [], Some(m)) == [];
    var chosen := Chosen(Unreferenced(cfg, [], Some(m)));
    assert |Sorted(chosen.Keys)| == 0 by {
      assert chosen == map[];
    }
    assert RecoverFrom(cfg, map[], Sorted(chosen.Keys), chosen, Barren().recoveries, 0) == map[];
    assert CheckOne(map[], map[], {}, IDENTITY, e) == {};
    assert CheckFrom(map[], Present([]), {}, [IDENTITY], m, Barren().checks, 0) == {};
  }

  lemma BarrenPull(cfg: Config, t: Target)
    ensures var r := PullTo(cfg, PullRun(map[], true, false), [t], Barren().hauls, 1);
            r.files == map[] && !r.stopped
  {
    assert PullTo(cfg, PullRun(map[], true, false), [t], Barren().hauls, 0) == PullRun(map[], true, false);
  }

  lemma BarrenTargets(e: Entry)
    ensures Targets(Some(map[IDENTITY := e]), []) == [Target(IDENTITY, e.size, Some(e.sha256))]
  {
    hide Sorted;
    var m := map[IDENTITY := e];
    SortedOne(m.Keys, IDENTITY);
    NamedTargetsAt([IDENTITY], m);
  }

  lemma BarrenReconcilesFully(b: Bucket)
    requires b.objects == map[]
    ensures ReconcilesFully(b, Barren())
  {
  }

  lemma PullOfLoaded(cfg: Config, b: Bucket, m: Entries, w: PullWeather)
    requires w.connected && w.fetched && LoadManifest(b, true) == Loaded(m)
    ensures Pull(cfg, b, Wiped(), w) == PullBody(cfg, Wiped(), Some(m), Targets(Some(m), []), w)
  {
    assert Cleared(map[]) == map[];
    assert Wiped().(files := map[]) == Wiped();
    hide LoadManifest, PullBody, Targets, Cleared;
  }

  lemma BarrenBody(cfg: Config, e: Entry)
    ensures var m := map[IDENTITY := e];
            PullBody(cfg, Wiped(), Some(m), Targets(Some(m), []), Barren()).0 == Wiped()
  {
    var m := map[IDENTITY := e];
    BarrenTargets(e);
    BarrenPull(cfg, Target(IDENTITY, e.size, Some(e.sha256)));
    BarrenReconcile(cfg, e);
    assert Wiped().(files := map[]) == Wiped();
    hide Reconcile, Targets, PullTo;
  }

  lemma BarrenBoot(cfg: Config, bytes: Bytes)
    ensures var b := Holding(cfg, bytes, map[]);
            ReconcilesFully(b, Barren()) && Pull(cfg, b, Wiped(), Barren()).0 == Wiped()
  {
    var b, m := Holding(cfg, bytes, map[]), Naming(cfg, bytes);
    HoldingLoads(cfg, bytes, map[]);
    BarrenReconcilesFully(b);
    BarrenBody(cfg, m[IDENTITY]);
    hide LoadManifest, Pull, PullBody, Targets, ReconcilesFully;
    PullOfLoaded(cfg, b, m, Barren());
  }

  /** The identity file is missing at boot and so is its object; the file is then put back
      with the bytes the manifest names, and the next push returns true and leaves the
      entry without an object. */
  lemma PutBackIsOverlooked(cfg: Config, bytes: Bytes, mtime: nat, ctime: nat)
    ensures var b := Holding(cfg, bytes, map[]);
            var booted := Pull(cfg, b, Wiped(), Barren()).0;
            var now := booted.(files := map[IDENTITY := File(bytes, mtime, ctime)]);
            var pushed := Push(cfg, b, now, [IDENTITY], Fair(true)).bucket;
            && ReconcilesFully(b, Barren()) && LoadManifest(b, true).Loaded?
            && Succeeds(cfg, b, now, [IDENTITY], Fair(true))
            && IDENTITY in NamedBy(pushed) && !Shown(Sizes(pushed), IDENTITY, NamedBy(pushed)[IDENTITY])
  {
    HoldingLoads(cfg, bytes, map[]);
    BarrenBoot(cfg, bytes);
    hide Parse, Render, Utf8Len, LoadManifest, Pull, ReconcilesFully;
    var b := Holding(cfg, bytes, map[]);
    var now := Wiped().(files := map[IDENTITY := File(bytes, mtime, ctime)]);
    var start := Start(cfg, b, now, Fair(true));
    OneVisit(cfg, b, now, IDENTITY, Fair(true));
    assert start.manifest == Naming(cfg, bytes) && !Visited(cfg, b, now, [IDENTITY], Fair(true)).failed;
    IdentityIsShort();
    assert Succeeds(cfg, b, now, [IDENTITY], Fair(true));
    assert StaleSkip(cfg, b, now, Fair(true), IDENTITY);
    hide Push, Start, StaleSkip;
    HealsUnlessStale(cfg, b, now, [IDENTITY], Fair(true), IDENTITY);
  }

  // ------------------------------------------------- more than a pull accepts

  /** The first push of a fresh deployment whose identity file is over the pull's cap: it
      returns true, and no pull onto an empty volume ever gives the file back. */
  lemma OversizedFileNeverComesBack(cfg: Config, bytes: Bytes)
    requires |bytes| > MAX_SYNC_OBJECT_BYTES
    ensures var b, vol := Bucket(None, map[]), Alone(IDENTITY, File(bytes, 1, 1));
            && Succeeds(cfg, b, vol, [IDENTITY], Fair(true))
            && forall down :: var pushed := Push(cfg, b, vol, [IDENTITY], Fair(true)).bucket;
                              !Back(vol.files, Pull(cfg, pushed, Wiped(), down).0.files, IDENTITY)
  {
    var b, vol := Bucket(None, map[]), Alone(IDENTITY, File(bytes, 1, 1));
    IdentityIsShort();
    FirstPush(cfg, IDENTITY, File(bytes, 1, 1));
    hide Push, Pull, Succeeds, Back;
    forall down
      ensures var pushed := Push(cfg, b, vol, [IDENTITY], Fair(true)).bucket;
              !Back(vol.files, Pull(cfg, pushed, Wiped(), down).0.files, IDENTITY)
    {
      var pushed := Push(cfg, b, vol, [IDENTITY], Fair(true)).bucket;
      if Back(vol.files, Pull(cfg, pushed, Wiped(), down).0.files, IDENTITY) {
        OnlyPullableComesBack(cfg, pushed, vol.files, down, IDENTITY);
      }
    }
  }

  function Alone(rel: string, f: File): Volume {
    Wiped().(files := map[rel := f])
  }

  /** The visit of one file that the manifest does not name yet. */
  lemma OneUpload(cfg: Config, b: Bucket, base: Entries, rel: string, f: File)
    requires rel !in base && Publishes(cfg, b, Alone(rel, f), Fair(true))
    requires BaseManifest(cfg, b, Alone(rel, f), Fair(true)) == base
    ensures var r, sha := Visited(cfg, b, Alone(rel, f), [rel], Fair(true)), cfg.sha256(f.bytes);
            && r.bucket == b.(objects := b.objects[ObjectKey(rel, sha) := f.bytes])
            && r.manifest == base[rel := Entry(|f.bytes|, sha)] && !r.failed && !r.stopped && r.pushed == 1
  {
    hide Publishes, BaseManifest;
    OneVisit(cfg, b, Alone(rel, f), rel, Fair(true));
  }

  lemma OneMore(base: Entries, rel: string, e: Entry)
    ensures |base[rel := e]| <= |base| + 1
  {
    assert base[rel := e].Keys == base.Keys + {rel};
    assert |base[rel := e].Keys| == |base[rel := e]| && |base.Keys| == |base|;
  }

  lemma EndsWell(publish: bool, r: Run, vol: Volume, rels: seq<string>)
    requires publish && !r.failed && r.pushed > 0 && Utf8Len(Render(r.manifest)) <= MAX_MANIFEST_BYTES
    ensures var out := Finish(publish, r, vol, rels, Fair(true));
            out.ok && out.bucket == r.bucket.(manifest := Some(Render(r.manifest)))
  {
    hide Render, Utf8Len, Recorded;
  }

  /** One push of one file that the manifest does not name yet. */
  lemma OnePush(cfg: Config, b: Bucket, base: Entries, rel: string, f: File)
    requires Short(rel) && |base| < 1000 && rel !in base && forall x :: x in base ==> Short(x)
    requires Publishes(cfg, b, Alone(rel, f), Fair(true)) && BaseManifest(cfg, b, Alone(rel, f), Fair(true)) == base
    ensures Succeeds(cfg, b, Alone(rel, f), [rel], Fair(true))
    ensures Push(cfg, b, Alone(rel, f), [rel], Fair(true)).bucket
            == Bucket(Some(Render(base[rel := Entry(|f.bytes|, cfg.sha256(f.bytes))])),
                      b.objects[ObjectKey(rel, cfg.sha256(f.bytes)) := f.bytes])
  {
    hide Parse, Render, Utf8Len, Short, Publishes, BaseManifest, Visited, Finish;
    var m := base[rel := Entry(|f.bytes|, cfg.sha256(f.bytes))];
    OneMore(base, rel, m[rel]);
    SmallManifest(m);
    OneUpload(cfg, b, base, rel, f);
    EndsWell(true, Visited(cfg, b, Alone(rel, f), [rel], Fair(true)), Alone(rel, f), [rel]);
  }

  lemma FirstPush(cfg: Config, rel: string, f: File)
    requires Short(rel)
    ensures Succeeds(cfg, Bucket(None, map[]), Alone(rel, f), [rel], Fair(true))
    ensures Push(cfg, Bucket(None, map[]), Alone(rel, f), [rel], Fair(true)).bucket
            == Bucket(Some(Render(map[rel := Entry(|f.bytes|, cfg.sha256(f.bytes))])),
                      map[ObjectKey(rel, cfg.sha256(f.bytes)) := f.bytes])
  {
    hide Short, Render, Push, Succeeds;
    assert RemoteOnly(cfg, Bucket(None, map[]), Alone(rel, f).files) == {};
    OnePush(cfg, Bucket(None, map[]), map[], rel, f);
  }

  // ---------------------------------------- a file that became a directory

  const PLAIN := "attachments/a"
  const NESTED := "attachments/a/b"

  lemma PathsAreShort()
    ensures Short(PLAIN) && Short(NESTED) && PLAIN + "/" <= NESTED
  {
    assert !IsWhite('a') && !IsWhite('b');
    assert NESTED[..|PLAIN| + 1] == PLAIN + "/";
  }

  /** What the bucket stores after both pushes. */
  function Both(cfg: Config, f: File, g: File): Entries {
    map[PLAIN := Entry(|f.bytes|, cfg.sha256(f.bytes)), NESTED := Entry(|g.bytes|, cfg.sha256(g.bytes))]
  }

  lemma PushedTwice(cfg: Config, f: File, g: File)
    ensures var b := Push(cfg, Bucket(None, map[]), Alone(PLAIN, f), [PLAIN], Fair(true)).bucket;
            && Succeeds(cfg, Bucket(None, map[]), Alone(PLAIN, f), [PLAIN], Fair(true))
            && Succeeds(cfg, b, Alone(NESTED, g), [NESTED], Fair(true))
            && Push(cfg, b, Alone(NESTED, g), [NESTED], Fair(true)).bucket
               == Bucket(Some(Render(Both(cfg, f, g))),
                         map[ObjectKey(PLAIN, cfg.sha256(f.bytes)) := f.bytes,
                             ObjectKey(NESTED, cfg.sha256(g.bytes)) := g.bytes])
  {
    PathsAreShort();
    hide Short, Render, Parse, Utf8Len, Push, Succeeds;
    FirstPush(cfg, PLAIN, f);
    var m := map[PLAIN := Entry(|f.bytes|, cfg.sha256(f.bytes))];
    SmallManifest(m);
    var b := Bucket(Some(Render(m)), map[ObjectKey(PLAIN, cfg.sha256(f.bytes)) := f.bytes]);
    assert LoadManifest(b, true) == Loaded(m);
    hide LoadManifest;
    OnePush(cfg, b, m, NESTED, g);
    assert m[NESTED := Entry(|g.bytes|, cfg.sha256(g.bytes))] == Both(cfg, f, g);
  }

  lemma NestedIsShadowed(cfg: Config, f: File, g: File, b: Bucket)
    requires cfg.synced(PLAIN) && |f.bytes| <= MAX_SYNC_OBJECT_BYTES
    requires Lookup(b, ObjectKey(PLAIN, cfg.sha256(f.bytes))) == Some(f.bytes)
    ensures Shadowed(cfg, b, Both(cfg, f, g), NESTED)
  {
    PathsAreShort();
    hide Short;
    assert Fetchable(cfg, b, Both(cfg, f, g), PLAIN) == Some(f.bytes);
    ShadowsIt(cfg, b, Both(cfg, f, g), NESTED, PLAIN);
  }

  lemma BothLoads(cfg: Config, f: File, g: File, objects: map<Key, Bytes>)
    ensures LoadManifest(Bucket(Some(Render(Both(cfg, f, g))), objects), true) == Loaded(Both(cfg, f, g))
    ensures NamedBy(Bucket(Some(Render(Both(cfg, f, g))), objects)) == Both(cfg, f, g)
  {
    PathsAreShort();
    var m := Both(cfg, f, g);
    assert m.Keys == {PLAIN, NESTED} && |m.Keys| == |m|;
    hide Short, Parse, Render, Utf8Len;
    SmallManifest(m);
  }

  /** An attachment is pushed, its file gives way to a directory, and a file inside is
      pushed: both pushes return true, the manifest keeps the entry of the former file,
      and no pull onto an empty volume, whose transfers all succeed, gives the nested
      file back. */
  lemma FormerFileShadowsTheDirectory(cfg: Config, f: File, g: File)
    requires cfg.synced(PLAIN) && cfg.synced(NESTED) && |f.bytes| <= MAX_SYNC_OBJECT_BYTES
    ensures var b := Push(cfg, Bucket(None, map[]), Alone(PLAIN, f), [PLAIN], Fair(true)).bucket;
            var pushed := Push(cfg, b, Alone(NESTED, g), [NESTED], Fair(true)).bucket;
            && Succeeds(cfg, Bucket(None, map[]), Alone(PLAIN, f), [PLAIN], Fair(true))
            && Succeeds(cfg, b, Alone(NESTED, g), [NESTED], Fair(true))
            && forall down :: AllTransfersSucceed(pushed, NamedBy(pushed), down) ==>
                 NESTED !in Pull(cfg, pushed, Wiped(), down).0.files
  {
    hide Short, Render, Parse, Utf8Len, Push, Succeeds, Pull, AllTransfersSucceed, LoadManifest, NamedBy, Fetchable,
      Shadowed;
    PushedTwice(cfg, f, g);
    var m := Both(cfg, f, g);
    var b := Push(cfg, Bucket(None, map[]), Alone(PLAIN, f), [PLAIN], Fair(true)).bucket;
    var pushed := Push(cfg, b, Alone(NESTED, g), [NESTED], Fair(true)).bucket;
    BothLoads(cfg, f, g, pushed.objects);
    NestedIsShadowed(cfg, f, g, pushed);
    forall down | AllTransfersSucceed(pushed, m, down) ensures NESTED !in Pull(cfg, pushed, Wiped(), down).0.files {
      WipedPullIsExact(cfg, pushed, m, down, NESTED);
    }
  }
}
