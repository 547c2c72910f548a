/** What a pull may change, and what a redeploy gets back. */
module SyncRestore {
  import opened Text
  import opened SyncManifest
  import opened SyncKeys
  import opened SyncWorld
  import opened SyncPush
  import opened SyncSafety
  import opened SyncCompleteness
  import opened SyncVersions
  import opened SyncPull

  // ------------------------------------------------------------- pull frame

  /** Every file of `before` is still there, untouched. */
  ghost predicate Keeps(before: map<string, File>, after: map<string, File>) {
    forall rel :: rel in before ==> rel in after && after[rel] == before[rel]
  }

  ghost predicate Lists(listing: Option<seq<Listed>>, key: Key, size: nat) {
    listing.Some? && exists item :: item in listing.value && item.key == key && item.size == size
  }

  /** Why a pull may have created a file, which is never beyond the cap: the manifest
      names these bytes; without a manifest the listing has a path key of this size;
      or a listed object the manifest does not name carries their hash. */
  ghost predicate Justified(cfg: Config, manifest: Option<Entries>, w: PullWeather, rel: string, bytes: Bytes) {
    && cfg.synced(rel) && |bytes| <= MAX_SYNC_OBJECT_BYTES
    && (|| (manifest.Some? && rel in manifest.value && manifest.value[rel] == Entry(|bytes|, cfg.sha256(bytes)))
        || (manifest.None? && Lists(w.listing, PathKey(rel), |bytes|))
        || ((manifest.Some? ==> rel !in manifest.value)
            && Lists(w.relisting, ObjectKey(rel, cfg.sha256(bytes)), |bytes|)))
  }

  ghost predicate OnlyJustified(cfg: Config, manifest: Option<Entries>, w: PullWeather, before: map<string, File>,
                                after: map<string, File>) {
    Keeps(before, after) && forall rel :: rel in after && rel !in before ==>
      Justified(cfg, manifest, w, rel, after[rel].bytes)
  }

  ghost predicate JustTarget(manifest: Option<Entries>, w: PullWeather, t: Target) {
    if manifest.Some? then
      t.rel in manifest.value && manifest.value[t.rel].size == t.size && Some(manifest.value[t.rel].sha256) == t.sha256
    else
      t.sha256.None? && Lists(w.listing, PathKey(t.rel), t.size)
  }

  lemma {:induction false} NamedTargetsAt(rels: seq<string>, m: Entries)
    requires forall rel :: rel in rels ==> rel in m
    ensures |NamedTargets(rels, m)| == |rels|
    ensures forall i :: 0 <= i < |rels| ==>
              NamedTargets(rels, m)[i] == Target(rels[i], m[rels[i]].size, Some(m[rels[i]].sha256))
  {
    if rels != [] {
      NamedTargetsAt(rels[1..], m);
    }
  }

  lemma {:induction false} ListedTargetsAreListed(listing: seq<Listed>, t: Target)
    requires t in ListedTargets(listing)
    ensures t.sha256.None? && Lists(Some(listing), PathKey(t.rel), t.size)
  {
    if t in ListedTargets(listing[1..]) {
      ListedTargetsAreListed(listing[1..], t);
    } else {
      assert listing[0].key == PathKey(t.rel);
    }
  }

  lemma TargetsAreJust(manifest: Option<Entries>, w: PullWeather, t: Target)
    requires manifest.Some? || w.listing.Some?
    requires t in Targets(manifest, if manifest.None? then w.listing.value else [])
    ensures JustTarget(manifest, w, t)
  {
    if manifest.Some? {
      NamedTargetsAt(Sorted(manifest.value.Keys), manifest.value);
    } else {
      ListedTargetsAreListed(w.listing.value, t);
    }
  }

  lemma PullOneIsJustified(cfg: Config, manifest: Option<Entries>, w: PullWeather, before: map<string, File>,
                           r: PullRun, t: Target, h: Haul)
    requires OnlyJustified(cfg, manifest, w, before, r.files) && JustTarget(manifest, w, t)
    ensures OnlyJustified(cfg, manifest, w, before, PullOne(cfg, r, t, h).files)
  {
  }

  lemma {:induction false} PullIsJustified(cfg: Config, manifest: Option<Entries>, w: PullWeather,
                                           before: map<string, File>, targets: seq<Target>, n: nat)
    requires n <= |targets| && forall t :: t in targets ==> JustTarget(manifest, w, t)
    ensures OnlyJustified(cfg, manifest, w, before,
                          PullTo(cfg, PullRun(before, true, false), targets, w.hauls, n).files)
  {
    if n > 0 {
      PullIsJustified(cfg, manifest, w, before, targets, n - 1);
      PullOneIsJustified(cfg, manifest, w, before, PullTo(cfg, PullRun(before, true, false), targets, w.hauls, n - 1),
                         targets[n - 1], w.hauls(n - 1));
    }
  }

  lemma {:induction false} UnreferencedAreListed(cfg: Config, listing: seq<Listed>, manifest: Option<Entries>,
                                                 rel: string, v: Version)
    requires (rel, v) in Unreferenced(cfg, listing, manifest)
    ensures cfg.synced(rel) && (manifest.Some? ==> rel !in manifest.value)
    ensures Lists(Some(listing), ObjectKey(rel, v.sha256), v.size)
  {
    var n := |listing| - 1;
    if (rel, v) in Unreferenced(cfg, listing[..n], manifest) {
      UnreferencedAreListed(cfg, listing[..n], manifest, rel, v);
    } else {
      assert listing[n].key == ObjectKey(rel, v.sha256);
    }
  }

  lemma {:induction false} GroupMembers(cands: Candidates, rel: string, v: Version)
    requires v in Group(cands, rel)
    ensures (rel, v) in cands
  {
    var n := |cands| - 1;
    if v in Group(cands[..n], rel) {
      GroupMembers(cands[..n], rel, v);
    }
  }

  lemma ChosenAreCandidates(cands: Candidates, rel: string)
    requires rel in Chosen(cands)
    ensures (rel, Chosen(cands)[rel]) in cands
  {
    PickIsUniqueLatest(Group(cands, rel), Chosen(cands)[rel]);
    GroupMembers(cands, rel, Chosen(cands)[rel]);
  }

  lemma RecoverOneIsJustified(cfg: Config, manifest: Option<Entries>, w: PullWeather, before: map<string, File>,
                              files: map<string, File>,
                              rel: string, v: Version, h: Haul)
    requires OnlyJustified(cfg, manifest, w, before, files) && w.relisting.Some?
    requires (rel, v) in Unreferenced(cfg, w.relisting.value, manifest)
    ensures OnlyJustified(cfg, manifest, w, before, RecoverOne(cfg, files, rel, v, h))
  {
    UnreferencedAreListed(cfg, w.relisting.value, manifest, rel, v);
  }

  lemma {:induction false} RecoverIsJustified(cfg: Config, manifest: Option<Entries>, w: PullWeather,
                                              before: map<string, File>, files: map<string, File>,
                                              rels: seq<string>, i: nat)
    requires OnlyJustified(cfg, manifest, w, before, files) && w.relisting.Some? && i <= |rels|
    requires forall rel :: rel in rels ==> rel in Chosen(Unreferenced(cfg, w.relisting.value, manifest))
    ensures OnlyJustified(cfg, manifest, w, before,
              RecoverFrom(cfg, files, rels, Chosen(Unreferenced(cfg, w.relisting.value, manifest)), w.recoveries, i))
    decreases |rels| - i
  {
    hide RecoverOne, Chosen, Unreferenced;
    if i < |rels| && !w.recoveries(i).stop {
      var cands := Unreferenced(cfg, w.relisting.value, manifest);
      ChosenAreCandidates(cands, rels[i]);
      var v := Chosen(cands)[rels[i]];
      RecoverOneIsJustified(cfg, manifest, w, before, files, rels[i], v, w.recoveries(i));
      RecoverIsJustified(cfg, manifest, w, before, RecoverOne(cfg, files, rels[i], v, w.recoveries(i)), rels, i + 1);
    }
  }

  lemma ReconcileIsJustified(cfg: Config, manifest: Option<Entries>, w: PullWeather, before: map<string, File>,
                             vol: Volume)
    requires OnlyJustified(cfg, manifest, w, before, vol.files)
    ensures var vol' := Reconcile(cfg, vol, manifest, w);
            OnlyJustified(cfg, manifest, w, before, vol'.files)
            && vol' == vol.(files := vol'.files, repair := vol'.repair)
  {
    hide RecoverFrom, CheckFrom;
    if w.relisting.Some? {
      var chosen := Chosen(Unreferenced(cfg, w.relisting.value, manifest));
      RecoverIsJustified(cfg, manifest, w, before, vol.files, Sorted(chosen.Keys), 0);
    }
  }

  /** The pull frame: against any server, wherever it stops, a pull removes only stale
      partial downloads, changes no other existing file, creates only synced files
      whose bytes match what the bucket's records name, and touches of the sync's own
      bookkeeping only the repair list. */
  lemma PullFrame(cfg: Config, b: Bucket, vol: Volume, w: PullWeather)
    ensures var vol' := Pull(cfg, b, vol, w).0;
            && (w.connected ==>
                  OnlyJustified(cfg, ManifestOf(LoadManifest(b, w.fetched)), w, Cleared(vol.files), vol'.files))
            && (!w.connected ==> vol' == vol)
            && vol' == vol.(files := vol'.files, repair := vol'.repair)
  {
    hide Sorted, Parse, Reconcile;
    var clean := Cleared(vol.files);
    var manifest := ManifestOf(LoadManifest(b, w.fetched));
    if w.connected && (manifest.Some? || w.listing.Some?) {
      var targets := Targets(manifest, if manifest.None? then w.listing.value else []);
      forall t | t in targets ensures JustTarget(manifest, w, t) {
        TargetsAreJust(manifest, w, t);
      }
      PullIsJustified(cfg, manifest, w, clean, targets, |targets|);
      var r := PullTo(cfg, PullRun(clean, true, false), targets, w.hauls, |targets|);
      ReconcileIsJustified(cfg, manifest, w, clean, vol.(files := r.files));
    }
  }

  // --------------------------------------------------------------- recovery

  /** Something is at the path, or a file stands where its directory would be. */
  predicate Filled(files: map<string, File>, rel: string) {
    Exists(files, rel) || BlockedByFile(files, rel)
  }

  /** A file that was not there before carries the version's size and hash. */
  ghost predicate FromVersion(cfg: Config, before: map<string, File>, after: map<string, File>, rel: string,
                              v: Version) {
    rel !in before && rel in after ==> |after[rel].bytes| == v.size && cfg.sha256(after[rel].bytes) == v.sha256
  }

  /** Nothing stops the recovery and every request delivers the chosen version. */
  ghost predicate RecoveriesSucceed(cfg: Config, rels: seq<string>, chosen: map<string, Version>, hauls: nat -> Haul)
    requires forall rel :: rel in rels ==> rel in chosen
  {
    forall k: nat {:trigger hauls(k)} :: k < |rels| ==>
      && !hauls(k).stop && hauls(k).mkdir
      && Accepted(cfg, chosen[rels[k]].size, Some(chosen[rels[k]].sha256), hauls(k).primary).Some?
  }

  lemma RecoverOneFills(cfg: Config, files: map<string, File>, rel: string, v: Version, h: Haul)
    requires h.mkdir && Accepted(cfg, v.size, Some(v.sha256), h.primary).Some?
    ensures var files' := RecoverOne(cfg, files, rel, v, h);
            && Filled(files', rel) && Keeps(files, files') && FromVersion(cfg, files, files', rel, v)
            && forall other :: other in files' && other != rel ==> other in files
  {
    var files' := RecoverOne(cfg, files, rel, v, h);
    assert files' != files ==> rel in files';
  }

  lemma FilledStays(before: map<string, File>, after: map<string, File>, rel: string)
    requires Filled(before, rel) && Keeps(before, after)
    ensures Filled(after, rel)
  {
  }

  /** The recovered paths so far; the others are as they were. */
  ghost predicate RecoveredTo(cfg: Config, before: map<string, File>, rels: seq<string>, chosen: map<string, Version>,
                              i: nat, files: map<string, File>)
    requires i <= |rels| && forall rel :: rel in rels ==> rel in chosen
  {
    && (forall k :: 0 <= k < i ==> Filled(files, rels[k]) && FromVersion(cfg, before, files, rels[k], chosen[rels[k]]))
    && (forall k :: i <= k < |rels| && rels[k] in files ==> rels[k] in before)
    && Keeps(before, files)
  }

  lemma RecoverNext(cfg: Config, before: map<string, File>, rels: seq<string>, chosen: map<string, Version>, i: nat,
                    files: map<string, File>, h: Haul)
    requires i < |rels| && (forall rel :: rel in rels ==> rel in chosen)
    requires forall j, k :: 0 <= j < k < |rels| ==> rels[j] != rels[k]
    requires RecoveredTo(cfg, before, rels, chosen, i, files)
    requires h.mkdir && Accepted(cfg, chosen[rels[i]].size, Some(chosen[rels[i]].sha256), h.primary).Some?
    ensures RecoveredTo(cfg, before, rels, chosen, i + 1, RecoverOne(cfg, files, rels[i], chosen[rels[i]], h))
  {
    RecoverOneFills(cfg, files, rels[i], chosen[rels[i]], h);
    hide RecoverOne, Filled, Accepted;
    var files' := RecoverOne(cfg, files, rels[i], chosen[rels[i]], h);
    forall k | 0 <= k < i ensures Filled(files', rels[k]) {
      FilledStays(files, files', rels[k]);
    }
  }

  lemma {:induction false} RecoverFills(cfg: Config, before: map<string, File>, rels: seq<string>,
                                        chosen: map<string, Version>, hauls: nat -> Haul,
                                        i: nat, files: map<string, File>)
    requires i <= |rels| && (forall rel :: rel in rels ==> rel in chosen)
    requires forall j, k :: 0 <= j < k < |rels| ==> rels[j] != rels[k]
    requires RecoveriesSucceed(cfg, rels, chosen, hauls) && RecoveredTo(cfg, before, rels, chosen, i, files)
    ensures RecoveredTo(cfg, before, rels, chosen, |rels|, RecoverFrom(cfg, files, rels, chosen, hauls, i))
    decreases |rels| - i
  {
    hide RecoveredTo, RecoverOne;
    if i < |rels| {
      assert !hauls(i).stop;
      RecoverNext(cfg, before, rels, chosen, i, files, hauls(i));
      RecoverFills(cfg, before, rels, chosen, hauls, i + 1, RecoverOne(cfg, files, rels[i], chosen[rels[i]], hauls(i)));
    }
  }

  /** Recovery is complete: when every transfer succeeds, a reconciliation leaves
      something at the path of every chosen unreferenced object, or a file in its way;
      a file it created there is the chosen, that is the newest, version. */
  lemma RecoveryIsComplete(cfg: Config, vol: Volume, manifest: Option<Entries>, w: PullWeather)
    requires w.relisting.Some?
    requires var chosen := Chosen(Unreferenced(cfg, w.relisting.value, manifest));
             RecoveriesSucceed(cfg, Sorted(chosen.Keys), chosen, w.recoveries)
    ensures var chosen, after :=
            Chosen(Unreferenced(cfg, w.relisting.value, manifest)), Reconcile(cfg, vol, manifest, w).files;
            forall rel :: rel in chosen ==> Filled(after, rel) && FromVersion(cfg, vol.files, after, rel, chosen[rel])
  {
    hide Chosen, Unreferenced, Sorted, RecoverFrom, CheckFrom, Filled, FromVersion, RecoveriesSucceed;
    ChosenAreRecovered(cfg, vol.files, Chosen(Unreferenced(cfg, w.relisting.value, manifest)), w.recoveries);
  }

  lemma ChosenAreRecovered(cfg: Config, files: map<string, File>, chosen: map<string, Version>, hauls: nat -> Haul)
    requires RecoveriesSucceed(cfg, Sorted(chosen.Keys), chosen, hauls)
    ensures var after := RecoverFrom(cfg, files, Sorted(chosen.Keys), chosen, hauls, 0);
            forall rel :: rel in chosen ==> Filled(after, rel) && FromVersion(cfg, files, after, rel, chosen[rel])
  {
    hide Sorted, RecoverFrom, RecoveriesSucceed, Filled, FromVersion;
    var rels := Sorted(chosen.Keys);
    assert RecoveredTo(cfg, files, rels, chosen, 0, files);
    RecoverFills(cfg, files, rels, chosen, hauls, 0, files);
    forall rel | rel in chosen
      ensures var after := RecoverFrom(cfg, files, rels, chosen, hauls, 0);
              Filled(after, rel) && FromVersion(cfg, files, after, rel, chosen[rel])
    {
      assert rel in chosen.Keys && rel in rels;
      var k :| 0 <= k < |rels| && rels[k] == rel;
    }
  }

  // ------------------------------------------------------- redeploy round trip

  /** Among the contents that occur, equal hashes mean equal bytes. */
  ghost predicate NoCollision(cfg: Config, b: Bucket, files: map<string, File>) {
    forall key, rel :: key in b.objects && rel in files && cfg.sha256(b.objects[key]) == cfg.sha256(files[rel].bytes)
      ==> b.objects[key] == files[rel].bytes
  }

  function Lookup(b: Bucket, key: Key): Option<Bytes> {
    if key in b.objects then Some(b.objects[key]) else None
  }

  /** Every request is answered with what the bucket holds, and nothing interrupts. */
  ghost predicate AllTransfersSucceed(b: Bucket, m: Entries, w: PullWeather) {
    && w.connected && w.fetched
    && var rels := Sorted(m.Keys);
       forall i: nat {:trigger w.hauls(i)} :: i < |rels| ==>
         && !w.hauls(i).stop && w.hauls(i).mkdir
         && w.hauls(i).primary == Lookup(b, ObjectKey(rels[i], m[rels[i]].sha256))
         && w.hauls(i).legacy == Lookup(b, PathKey(rels[i]))
  }

  /** The file is back with its bytes. */
  ghost predicate Back(files: map<string, File>, restored: map<string, File>, rel: string) {
    rel in files && rel in restored && restored[rel].bytes == files[rel].bytes
  }

  /** The file is small enough for a pull; a push has no such cap. */
  predicate Pullable(files: map<string, File>, rel: string) {
    rel in files && |files[rel].bytes| <= MAX_SYNC_OBJECT_BYTES
  }

  /** The bytes the bucket holds for a named path, as a pull accepts them. */
  function Fetchable(cfg: Config, b: Bucket, m: Entries, rel: string): Option<Bytes>
    requires rel in m
  {
    var t := Target(rel, m[rel].size, Some(m[rel].sha256));
    var h := Haul(false, true, Lookup(b, ObjectKey(rel, m[rel].sha256)), Lookup(b, PathKey(rel)), 0, 0);
    if cfg.synced(rel) then Obtained(cfg, t, h) else None
  }

  /** Another named path that a pull can fetch stands where this one needs a directory:
      the entry of a file that has become a directory since. */
  ghost predicate Shadowed(cfg: Config, b: Bucket, m: Entries, rel: string) {
    exists q :: q in m && q + "/" <= rel && Fetchable(cfg, b, m, q).Some?
  }

  /** Restored so far: of the first `n` named paths exactly those the bucket holds and
      that are not shadowed, with the bytes it holds. */
  ghost predicate RestoredTo(cfg: Config, b: Bucket, m: Entries, rels: seq<string>, n: nat,
                             restored: map<string, File>)
    requires n <= |rels| && forall rel :: rel in rels ==> rel in m
  {
    && (forall rel :: rel in restored ==> rel in rels[..n])
    && forall i :: 0 <= i < n ==> RestoredAt(cfg, b, m, rels[i], restored)
  }

  ghost predicate RestoredAt(cfg: Config, b: Bucket, m: Entries, rel: string, restored: map<string, File>)
    requires rel in m
  {
    if Fetchable(cfg, b, m, rel).Some? && !Shadowed(cfg, b, m, rel)
    then rel in restored && restored[rel].bytes == Fetchable(cfg, b, m, rel).value
    else rel !in restored
  }

  /** The shortest shadow is not shadowed itself. */
  lemma {:induction false} ShortestShadow(cfg: Config, b: Bucket, m: Entries, rel: string, q: string)
    returns (p: string)
    requires q in m && q + "/" <= rel && Fetchable(cfg, b, m, q).Some?
    ensures p in m && p + "/" <= rel && Fetchable(cfg, b, m, p).Some? && !Shadowed(cfg, b, m, p)
    decreases |q|
  {
    hide Fetchable;
    if Shadowed(cfg, b, m, q) {
      var s :| s in m && s + "/" <= q && Fetchable(cfg, b, m, s).Some?;
      assert s + "/" <= rel by {
        assert (q + "/")[..|s| + 1] == q[..|s| + 1];
      }
      p := ShortestShadow(cfg, b, m, rel, s);
    } else {
      p := q;
    }
  }

  /** What a path is a directory of comes later in the order of the names. */
  lemma BelowComesLater(rels: seq<string>, a: string, c: string, i: nat, j: nat)
    requires forall i, j :: 0 <= i < j < |rels| ==> rels[i] != rels[j] && Le(rels[i], rels[j])
    requires i < |rels| && j < |rels| && rels[i] == a && rels[j] == c && a + "/" <= c
    ensures i < j
  {
    assert a <= c && a != c;
    PrefixIsLe(a, c);
    if j < i {
      LeAntisymmetric(a, c);
    }
  }

  /** At the k-th path nothing stands yet, and its directory is blocked exactly when it
      is shadowed. */
  lemma WhatIsInTheWay(cfg: Config, b: Bucket, m: Entries, rels: seq<string>, k: nat, restored: map<string, File>)
    requires k < |rels| && (forall rel :: rel in rels <==> rel in m)
    requires forall i, j :: 0 <= i < j < |rels| ==> rels[i] != rels[j] && Le(rels[i], rels[j])
    requires RestoredTo(cfg, b, m, rels, k, restored)
    ensures !Exists(restored, rels[k])
    ensures BlockedByFile(restored, rels[k]) <==> Shadowed(cfg, b, m, rels[k])
  {
    hide Fetchable, Shadowed, Le;
    var rel := rels[k];
    forall f | f in restored ensures !(rel + "/" <= f) {
      var i :| 0 <= i < k && rels[i] == f;
      if rel + "/" <= f {
        BelowComesLater(rels, rel, f, k, i);
      }
    }
    if BlockedByFile(restored, rel) {
      var f :| f in restored && f + "/" <= rel;
      var i :| 0 <= i < k && rels[i] == f;
      assert RestoredAt(cfg, b, m, rels[i], restored);
      ShadowsIt(cfg, b, m, rel, f);
    }
    if Shadowed(cfg, b, m, rel) {
      var q := Shadow(cfg, b, m, rel);
      var p := ShortestShadow(cfg, b, m, rel, q);
      var i :| 0 <= i < |rels| && rels[i] == p;
      BelowComesLater(rels, p, rel, i, k);
      assert RestoredAt(cfg, b, m, rels[i], restored);
    }
  }

  lemma ShadowsIt(cfg: Config, b: Bucket, m: Entries, rel: string, q: string)
    requires q in m && q + "/" <= rel && Fetchable(cfg, b, m, q).Some?
    ensures Shadowed(cfg, b, m, rel)
  {
    hide Fetchable;
  }

  lemma Shadow(cfg: Config, b: Bucket, m: Entries, rel: string) returns (q: string)
    requires Shadowed(cfg, b, m, rel)
    ensures q in m && q + "/" <= rel && Fetchable(cfg, b, m, q).Some?
  {
    hide Fetchable;
    q :| q in m && q + "/" <= rel && Fetchable(cfg, b, m, q).Some?;
  }

  lemma {:induction false} RestoreOneByOne(cfg: Config, b: Bucket, m: Entries, w: PullWeather, n: nat)
    requires AllTransfersSucceed(b, m, w) && n <= |Sorted(m.Keys)|
    ensures |NamedTargets(Sorted(m.Keys), m)| == |Sorted(m.Keys)|
    ensures var r := PullTo(cfg, PullRun(map[], true, false), NamedTargets(Sorted(m.Keys), m), w.hauls, n);
            !r.stopped && RestoredTo(cfg, b, m, Sorted(m.Keys), n, r.files)
  {
    hide Sorted, PullOne, RestoredTo, AllTransfersSucceed, Lookup, Le;
    var rels := Sorted(m.Keys);
    NamedTargetsAt(rels, m);
    if n == 0 {
      NothingRestored(cfg, b, m, rels);
    } else {
      RestoreOneByOne(cfg, b, m, w, n - 1);
      var r := PullTo(cfg, PullRun(map[], true, false), NamedTargets(rels, m), w.hauls, n - 1);
      TransferSucceeds(b, m, w, n - 1);
      SortedAscends(m.Keys);
      RestoreNext(cfg, b, m, rels, n - 1, r, w.hauls(n - 1));
    }
  }

  lemma TransferSucceeds(b: Bucket, m: Entries, w: PullWeather, k: nat)
    requires AllTransfersSucceed(b, m, w) && k < |Sorted(m.Keys)|
    ensures var rel, h := Sorted(m.Keys)[k], w.hauls(k);
            rel in m && !h.stop && h.mkdir && h.primary == Lookup(b, ObjectKey(rel, m[rel].sha256))
            && h.legacy == Lookup(b, PathKey(rel))
  {
    hide Sorted;
  }

  lemma NothingRestored(cfg: Config, b: Bucket, m: Entries, rels: seq<string>)
    requires forall rel :: rel in rels ==> rel in m
    ensures RestoredTo(cfg, b, m, rels, 0, map[])
  {
  }

  /** One target whose requests are answered: what stands at its path afterwards. */
  lemma PullOneRestores(cfg: Config, b: Bucket, m: Entries, rels: seq<string>, k: nat, r: PullRun, h: Haul)
    requires k < |rels| && forall rel :: rel in rels <==> rel in m
    requires forall i, j :: 0 <= i < j < |rels| ==> rels[i] != rels[j] && Le(rels[i], rels[j])
    requires !h.stop && h.mkdir && h.primary == Lookup(b, ObjectKey(rels[k], m[rels[k]].sha256))
    requires h.legacy == Lookup(b, PathKey(rels[k]))
    requires !r.stopped && RestoredTo(cfg, b, m, rels, k, r.files)
    ensures var rel := rels[k];
            var r' := PullOne(cfg, r, Target(rel, m[rel].size, Some(m[rel].sha256)), h);
            && !r'.stopped && RestoredAt(cfg, b, m, rel, r'.files)
            && forall x :: x != rel ==>
                 (x in r'.files <==> x in r.files) && (x in r.files ==> r'.files[x] == r.files[x])
  {
    WhatIsInTheWay(cfg, b, m, rels, k, r.files);
    var rel := rels[k];
    assert rel !in r.files by {
      assert forall i :: 0 <= i < k ==> rels[i] != rel;
    }
    assert cfg.synced(rel) ==>
        Obtained(cfg, Target(rel, m[rel].size, Some(m[rel].sha256)), h) == Fetchable(cfg, b, m, rel);
    hide Obtained, Exists, BlockedByFile, Shadowed, Le, RestoredTo;
  }

  lemma RestoreNext(cfg: Config, b: Bucket, m: Entries, rels: seq<string>, k: nat, r: PullRun, h: Haul)
    requires k < |rels| && forall rel :: rel in rels <==> rel in m
    requires forall i, j :: 0 <= i < j < |rels| ==> rels[i] != rels[j] && Le(rels[i], rels[j])
    requires !h.stop && h.mkdir && h.primary == Lookup(b, ObjectKey(rels[k], m[rels[k]].sha256))
    requires h.legacy == Lookup(b, PathKey(rels[k]))
    requires !r.stopped && RestoredTo(cfg, b, m, rels, k, r.files)
    ensures var r' := PullOne(cfg, r, Target(rels[k], m[rels[k]].size, Some(m[rels[k]].sha256)), h);
            !r'.stopped && RestoredTo(cfg, b, m, rels, k + 1, r'.files)
  {
    PullOneRestores(cfg, b, m, rels, k, r, h);
    hide PullOne, Fetchable, Shadowed, Le, Lookup;
    var r' := PullOne(cfg, r, Target(rels[k], m[rels[k]].size, Some(m[rels[k]].sha256)), h);
    assert rels[..k + 1] == rels[..k] + [rels[k]];
    forall i | 0 <= i < k ensures RestoredAt(cfg, b, m, rels[i], r'.files) {
      assert RestoredAt(cfg, b, m, rels[i], r.files);
    }
  }

  function Wiped(): Volume {
    Volume(map[], {}, None, map[])
  }

  lemma {:induction false} RecoveryOnlyAdds(cfg: Config, files: map<string, File>, rels: seq<string>,
                                            chosen: map<string, Version>, hauls: nat -> Haul, i: nat, x: string)
    requires i <= |rels| && (forall rel :: rel in rels ==> rel in chosen) && x !in chosen
    ensures var after := RecoverFrom(cfg, files, rels, chosen, hauls, i);
            (x in after <==> x in files) && (x in files ==> after[x] == files[x])
    decreases |rels| - i
  {
    if i < |rels| && !hauls(i).stop {
      RecoveryOnlyAdds(cfg, RecoverOne(cfg, files, rels[i], chosen[rels[i]], hauls(i)), rels, chosen, hauls, i + 1, x);
    }
  }

  /** Named paths are left to the pull itself: a reconciliation never creates them. */
  lemma ReconcileLeavesNamed(cfg: Config, vol: Volume, m: Entries, w: PullWeather, x: string)
    requires x in m
    ensures var after := Reconcile(cfg, vol, Some(m), w).files;
            (x in after <==> x in vol.files) && (x in vol.files ==> after[x] == vol.files[x])
  {
    hide Sorted, CheckFrom, RecoverFrom, Chosen, Unreferenced;
    if w.relisting.Some? {
      var cands := Unreferenced(cfg, w.relisting.value, Some(m));
      if x in Chosen(cands) {
        ChosenAreCandidates(cands, x);
        UnreferencedAreListed(cfg, w.relisting.value, Some(m), x, Chosen(cands)[x]);
      }
      RecoveryOnlyAdds(cfg, vol.files, Sorted(Chosen(cands).Keys), Chosen(cands), w.recoveries, 0, x);
    }
  }

  /** A pull onto an empty volume when every transfer succeeds, exactly: of the named
      paths it restores those the bucket holds and that are not shadowed, with the bytes
      it holds. */
  lemma WipedPullIsExact(cfg: Config, b: Bucket, m: Entries, down: PullWeather, rel: string)
    requires LoadManifest(b, true) == Loaded(m) && AllTransfersSucceed(b, m, down) && rel in m
    ensures RestoredAt(cfg, b, m, rel, Pull(cfg, b, Wiped(), down).0.files)
  {
    hide Parse, Reconcile, Sorted, PullTo, NamedTargets, LoadManifest, Shadowed, Fetchable;
    var order := Sorted(m.Keys);
    RestoreOneByOne(cfg, b, m, down, |order|);
    var r := PullTo(cfg, PullRun(map[], true, false), NamedTargets(order, m), down.hauls, |order|);
    assert Cleared(map[]) == map[];
    assert Wiped().(files := Cleared(Wiped().files)) == Wiped();
    ReconcileLeavesNamed(cfg, Wiped().(files := r.files), m, down, rel);
    assert rel in m.Keys && rel in order;
    var i :| 0 <= i < |order| && order[i] == rel;
    assert RestoredAt(cfg, b, m, order[i], r.files);
  }

  /** A current path whose content the bucket keeps is held exactly when a pull's cap
      admits it. */
  lemma FetchableIsPullable(cfg: Config, b: Bucket, files: map<string, File>, addressed: bool, m: Entries, rel: string)
    requires NoCollision(cfg, b, files) && rel in m && Held(cfg, b, addressed, rel, m[rel].sha256)
    requires Current(cfg, files, m, rel) && cfg.synced(rel)
    ensures Fetchable(cfg, b, m, rel) == if Pullable(files, rel) then Some(files[rel].bytes) else None
  {
    var sha, bytes := m[rel].sha256, files[rel].bytes;
    assert forall key :: key in b.objects && cfg.sha256(b.objects[key]) == sha ==> b.objects[key] == bytes;
  }

  /** Redeploy round trip: after a publishing push that returned true, wiping the
      volume and pulling with every transfer succeeding gives back a pushed file byte
      for byte exactly when it is within the pull's cap and no named path the bucket
      still holds stands where the file needs a directory, whatever happened to the
      bucket before. */
  lemma RedeployRoundTrip(cfg: Config, addressed: bool, b: Bucket, vol: Volume, rels: seq<string>, up: Weather,
                          down: PullWeather)
    requires Intact(cfg, b, addressed) && (addressed || LoadManifest(b, up.fetched).Loaded?)
    requires Succeeds(cfg, b, vol, rels, up) && GoodPaths(rels) && CacheSound(cfg, vol.cache, vol.files)
    requires EnumeratesExactly(cfg, rels, vol.files)
    requires var pushed := Push(cfg, b, vol, rels, up).bucket;
             NoCollision(cfg, pushed, vol.files) && AllTransfersSucceed(pushed, NamedBy(pushed), down)
    ensures var pushed := Push(cfg, b, vol, rels, up).bucket;
            forall rel :: rel in rels ==>
              (Back(vol.files, Pull(cfg, pushed, Wiped(), down).0.files, rel)
               <==> Pullable(vol.files, rel) && !Shadowed(cfg, pushed, NamedBy(pushed), rel))
  {
    hide Parse, Render, Push, Succeeds, Publishes, Pull, Pullable, Shadowed, Fetchable, Held,
      NoCollision;
    var pushed := Push(cfg, b, vol, rels, up).bucket;
    var m := NamedBy(pushed);
    SuccessNamesEveryFile(cfg, b, vol, rels, up);
    PushKeepsIntact(cfg, addressed, b, vol, rels, up);
    forall rel | rel in rels
      ensures Back(vol.files, Pull(cfg, pushed, Wiped(), down).0.files, rel)
              <==> Pullable(vol.files, rel) && !Shadowed(cfg, pushed, m, rel)
    {
      FetchableIsPullable(cfg, pushed, vol.files, addressed, m, rel);
      WipedPullIsExact(cfg, pushed, m, down, rel);
    }
  }

  /** From a wiped volume nothing beyond the cap comes back, whatever the transfers do. */
  lemma OnlyPullableComesBack(cfg: Config, b: Bucket, files: map<string, File>, down: PullWeather, rel: string)
    requires Back(files, Pull(cfg, b, Wiped(), down).0.files, rel)
    ensures Pullable(files, rel)
  {
    hide Pull, LoadManifest;
    PullFrame(cfg, b, Wiped(), down);
    assert Cleared(Wiped().files) == map[];
  }
}
