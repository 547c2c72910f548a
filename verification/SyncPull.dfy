/** The boot pull: restore what the volume misses, recover unreferenced objects,
    and record what the bucket no longer holds. */
module SyncPull {
  import opened Text
  import opened SyncManifest
  import opened SyncedSet
  import opened SyncKeys
  import opened SyncWorld
  import opened SyncVersions
  import opened Download

  const MAX_SYNC_OBJECT_BYTES: U64 := 1024 * 1024 * 1024

  datatype Listed = Listed(key: Key, size: nat, lastModified: string)

  /** What the environment decides for one file: a stop request, the directory, the
      bytes each request delivers (none on failure) and the new file's timestamps. */
  datatype Haul = Haul(stop: bool, mkdir: bool, primary: Option<Bytes>, legacy: Option<Bytes>, mtime: nat, ctime: nat)

  datatype PullWeather = PullWeather(connected: bool, fetched: bool, listing: Option<seq<Listed>>, hauls: nat -> Haul,
                                     relisting: Option<seq<Listed>>, recoveries: nat -> Haul,
                                     checks: nat -> bool, noted: bool)

  // ---------------------------------------------------------------- partials

  /** Partial downloads that every boot removes: at the top level and in the trees. */
  predicate IsStalePartial(rel: string) {
    EndsWith(rel, ".part") && ('/' !in rel || InTree(rel))
  }

  function Cleared(files: map<string, File>): map<string, File> {
    map rel | rel in files && !IsStalePartial(rel) :: files[rel]
  }

  // ----------------------------------------------------------------- targets

  datatype Target = Target(rel: string, size: nat, sha256: Option<Digest>)

  function NamedTargets(rels: seq<string>, m: Entries): seq<Target>
    requires forall rel :: rel in rels ==> rel in m
  {
    if rels == [] then []
    else [Target(rels[0], m[rels[0]].size, Some(m[rels[0]].sha256))] + NamedTargets(rels[1..], m)
  }

  /** The older layout's view of a listing: path keys only. */
  function ListedTargets(listing: seq<Listed>): seq<Target> {
    if listing == [] then []
    else
      (match listing[0].key
       case PathKey(path) => if path == "manifest" || OBJECTS <= path then [] else [Target(path, listing[0].size, None)]
       case ObjectKey(_, _) => [])
      + ListedTargets(listing[1..])
  }

  // ---------------------------------------------------------------- the loop

  datatype PullRun = PullRun(files: map<string, File>, ok: bool, stopped: bool)

  /** Some ancestor of the path is a regular file, so its directory cannot be made. */
  predicate BlockedByFile(files: map<string, File>, rel: string) {
    exists f :: f in files && f + "/" <= rel
  }

  function Want(size: nat, sha: Option<string>): Expect {
    Expect(Some(size), sha, MAX_SYNC_OBJECT_BYTES)
  }

  function Accepted(cfg: Config, size: nat, sha: Option<string>, bytes: Option<Bytes>): Option<Bytes> {
    if bytes.Some? && Meets(cfg.sha256, Want(size, sha), bytes.value) then bytes else None
  }

  /** The bytes a pull of one target publishes: the content-addressed key first, the
      path key as the fallback of manifest entries. */
  function Obtained(cfg: Config, t: Target, h: Haul): Option<Bytes> {
    var first := Accepted(cfg, t.size, t.sha256, h.primary);
    if first.Some? || t.sha256.None? then first else Accepted(cfg, t.size, t.sha256, h.legacy)
  }

  function Publish(files: map<string, File>, rel: string, bytes: Bytes, h: Haul): map<string, File> {
    files[rel := File(bytes, h.mtime, h.ctime)]
  }

  function PullOne(cfg: Config, r: PullRun, t: Target, h: Haul): PullRun {
    if r.stopped then r
    else if h.stop then r.(stopped := true)
    else if !cfg.synced(t.rel) then r.(ok := false)
    else if Exists(r.files, t.rel) then r
    else if !h.mkdir || BlockedByFile(r.files, t.rel) then r.(ok := false)
    else
      var got := Obtained(cfg, t, h);
      if got.Some? then r.(files := Publish(r.files, t.rel, got.value, h)) else r.(ok := false)
  }

  function PullTo(cfg: Config, start: PullRun, targets: seq<Target>, hauls: nat -> Haul, n: nat): PullRun
    requires n <= |targets|
  {
    if n == 0 then start
    else PullOne(cfg, PullTo(cfg, start, targets, hauls, n - 1), targets[n - 1], hauls(n - 1))
  }

  // ------------------------------------------------------------ reconciliation

  /** Content-addressed objects of synced paths the manifest does not name. */
  function Unreferenced(cfg: Config, listing: seq<Listed>, manifest: Option<Entries>): Candidates {
    if listing == [] then []
    else
      var item := listing[|listing| - 1];
      Unreferenced(cfg, listing[..|listing| - 1], manifest)
      + match item.key
        case PathKey(_) => []
        case ObjectKey(rel, sha) =>
          if cfg.synced(rel) && !(manifest.Some? && rel in manifest.value)
          then [(rel, Version(sha, item.size, item.lastModified))] else []
  }

  function RecoverOne(cfg: Config, files: map<string, File>, rel: string, v: Version, h: Haul): map<string, File> {
    if Exists(files, rel) || !h.mkdir || BlockedByFile(files, rel) then files
    else
      var got := Accepted(cfg, v.size, Some(v.sha256), h.primary);
      if got.Some? then Publish(files, rel, got.value, h) else files
  }

  function RecoverFrom(cfg: Config, files: map<string, File>, rels: seq<string>, chosen: map<string, Version>,
                       hauls: nat -> Haul, i: nat): map<string, File>
    requires i <= |rels| && forall rel :: rel in rels ==> rel in chosen
    decreases |rels| - i
  {
    if i == |rels| || hauls(i).stop then files
    else RecoverFrom(cfg, RecoverOne(cfg, files, rels[i], chosen[rels[i]], hauls(i)), rels, chosen, hauls, i + 1)
  }

  function Present(listing: seq<Listed>): map<Key, nat> {
    if listing == [] then map[]
    else Present(listing[..|listing| - 1])[listing[|listing| - 1].key := listing[|listing| - 1].size]
  }

  /** The listing shows the entry's object, in either layout, at the recorded size. */
  predicate Shown(present: map<Key, nat>, rel: string, e: Entry) {
    || (ObjectKey(rel, e.sha256) in present && present[ObjectKey(rel, e.sha256)] == e.size)
    || (PathKey(rel) in present && present[PathKey(rel)] == e.size)
  }

  function CheckOne(files: map<string, File>, present: map<Key, nat>, repair: set<string>, rel: string,
                    e: Entry): set<string> {
    if Shown(present, rel, e) then repair - {rel}
    else if Exists(files, rel) then repair + {rel}
    else repair
  }

  function CheckFrom(files: map<string, File>, present: map<Key, nat>, repair: set<string>, rels: seq<string>,
                     m: Entries, stops: nat -> bool, i: nat): set<string>
    requires i <= |rels| && forall rel :: rel in rels ==> rel in m
    decreases |rels| - i
  {
    if i == |rels| || stops(i) then repair
    else CheckFrom(files, present, CheckOne(files, present, repair, rels[i], m[rels[i]]), rels, m, stops, i + 1)
  }

  function Reconcile(cfg: Config, vol: Volume, manifest: Option<Entries>, w: PullWeather): Volume {
    if w.relisting.None? then vol
    else
      var listing := w.relisting.value;
      var chosen := Chosen(Unreferenced(cfg, listing, manifest));
      var files := RecoverFrom(cfg, vol.files, Sorted(chosen.Keys), chosen, w.recoveries, 0);
      var repair := if manifest.None? then vol.repair
                    else CheckFrom(files, Present(listing), vol.repair, Sorted(manifest.value.Keys), manifest.value,
                                   w.checks, 0);
      vol.(files := files, repair := if w.noted then Recorded(repair) else vol.repair)
  }

  function ManifestOf(load: Load): Option<Entries> {
    if load.Loaded? then Some(load.entries) else None
  }

  function Targets(manifest: Option<Entries>, listing: seq<Listed>): seq<Target> {
    if manifest.Some? then NamedTargets(Sorted(manifest.value.Keys), manifest.value) else ListedTargets(listing)
  }

  function PullBody(cfg: Config, vol: Volume, manifest: Option<Entries>, targets: seq<Target>,
                    w: PullWeather): (Volume, bool) {
    var r := PullTo(cfg, PullRun(vol.files, true, false), targets, w.hauls, |targets|);
    var pulled := vol.(files := r.files);
    if r.stopped then (pulled, true) else (Reconcile(cfg, pulled, manifest, w), r.ok)
  }

  function Pull(cfg: Config, b: Bucket, vol: Volume, w: PullWeather): (Volume, bool) {
    if !w.connected then (vol, false)
    else
      var clean := vol.(files := Cleared(vol.files));
      var manifest := ManifestOf(LoadManifest(b, w.fetched));
      if manifest.None? && w.listing.None? then (clean, false)
      else PullBody(cfg, clean, manifest, Targets(manifest, if manifest.None? then w.listing.value else []), w)
  }

  lemma {:induction false} PullStops(cfg: Config, start: PullRun, targets: seq<Target>, hauls: nat -> Haul, i: nat,
                                     n: nat)
    requires i <= n <= |targets| && PullTo(cfg, start, targets, hauls, i).stopped
    ensures PullTo(cfg, start, targets, hauls, n) == PullTo(cfg, start, targets, hauls, i)
  {
    if i < n {
      PullStops(cfg, start, targets, hauls, i, n - 1);
    }
  }

  // -------------------------------------------------------------- the methods

  method CollectListed(cfg: Config, listing: seq<Listed>, manifest: Option<Entries>)
    returns (present: map<Key, nat>, cands: Candidates)
    ensures present == Present(listing) && cands == Unreferenced(cfg, listing, manifest)
  {
    present, cands := map[], [];
    var i := 0;
    while i < |listing|
      invariant 0 <= i <= |listing|
      invariant present == Present(listing[..i]) && cands == Unreferenced(cfg, listing[..i], manifest)
    {
      var item := listing[i];
      assert listing[..i + 1][..i] == listing[..i];
      present := present[item.key := item.size];
      if item.key.ObjectKey? && cfg.synced(item.key.rel) && !(manifest.Some? && item.key.rel in manifest.value) {
        cands := cands + [(item.key.rel, Version(item.key.sha256, item.size, item.lastModified))];
      }
      i := i + 1;
    }
    assert listing[..i] == listing;
  }

  method RecoverObjects(cfg: Config, disk: Disk, chosen: map<string, Version>, w: PullWeather)
    modifies disk
    ensures disk.volume
            == old(disk.volume).(files :=
              RecoverFrom(cfg, old(disk.volume.files), Sorted(chosen.Keys), chosen, w.recoveries, 0))
  {
    hide Sorted, RecoverOne;
    var rels := Sorted(chosen.Keys);
    var i := 0;
    while i < |rels|
      invariant 0 <= i <= |rels|
      invariant disk.volume.(files := old(disk.volume.files)) == old(disk.volume)
      invariant RecoverFrom(cfg, disk.volume.files, rels, chosen, w.recoveries, i)
                == RecoverFrom(cfg, old(disk.volume.files), rels, chosen, w.recoveries, 0)
    {
      var h := w.recoveries(i);
      if h.stop {
        break;
      }
      disk.volume := disk.volume.(files := RecoverOne(cfg, disk.volume.files, rels[i], chosen[rels[i]], h));
      i := i + 1;
    }
  }

  method CheckReferenced(disk: Disk, present: map<Key, nat>, m: Entries, w: PullWeather) returns (repair: set<string>)
    ensures repair == CheckFrom(disk.volume.files, present, disk.volume.repair, Sorted(m.Keys), m, w.checks, 0)
  {
    hide Sorted;
    repair := disk.volume.repair;
    var rels := Sorted(m.Keys);
    var i := 0;
    while i < |rels|
      invariant 0 <= i <= |rels|
      invariant CheckFrom(disk.volume.files, present, repair, rels, m, w.checks, i)
                == CheckFrom(disk.volume.files, present, disk.volume.repair, rels, m, w.checks, 0)
    {
      if w.checks(i) {
        break;
      }
      var rel := rels[i];
      if Shown(present, rel, m[rel]) {
        repair := repair - {rel};
      } else if Exists(disk.volume.files, rel) {
        repair := repair + {rel};
      }
      i := i + 1;
    }
  }

  method ReconcileObjects(cfg: Config, disk: Disk, manifest: Option<Entries>, w: PullWeather)
    modifies disk
    ensures disk.volume == Reconcile(cfg, old(disk.volume), manifest, w)
  {
    if w.relisting.None? {
      return;
    }
    var present, cands := CollectListed(cfg, w.relisting.value, manifest);
    var chosen := ChooseNewest(cands);
    RecoverObjects(cfg, disk, chosen, w);
    var repair := disk.volume.repair;
    if manifest.Some? {
      repair := CheckReferenced(disk, present, manifest.value, w);
    }
    if w.noted {
      disk.volume := disk.volume.(repair := Recorded(repair));
    }
  }

  method PullTarget(cfg: Config, disk: Disk, t: Target, h: Haul) returns (ok: bool)
    requires !h.stop
    modifies disk
    ensures forall done ::
              PullOne(cfg, PullRun(old(disk.volume.files), done, false), t, h) ==
              PullRun(disk.volume.files, done && ok, false)
    ensures disk.volume.(files := old(disk.volume.files)) == old(disk.volume)
  {
    if !cfg.synced(t.rel) {
      return false;
    }
    if Exists(disk.volume.files, t.rel) {
      return true;
    }
    if !h.mkdir || BlockedByFile(disk.volume.files, t.rel) {
      return false;
    }
    var got := Accepted(cfg, t.size, t.sha256, h.primary);
    if got.None? && t.sha256.Some? {
      got := Accepted(cfg, t.size, t.sha256, h.legacy);
    }
    if got.None? {
      return false;
    }
    disk.volume := disk.volume.(files := Publish(disk.volume.files, t.rel, got.value, h));
    return true;
  }

  method RestoreStateAt(cfg: Config, client: Client, disk: Disk, w: PullWeather) returns (ok: bool)
    modifies disk
    ensures (disk.volume, ok) == Pull(cfg, client.bucket, old(disk.volume), w)
  {
    hide Sorted, PullOne, Parse, Reconcile;
    if !w.connected {
      return false;
    }
    disk.volume := disk.volume.(files := Cleared(disk.volume.files));
    var manifest := ManifestOf(LoadManifest(client.bucket, w.fetched));
    if manifest.None? && w.listing.None? {
      return false;
    }
    var targets := Targets(manifest, if manifest.None? then w.listing.value else []);
    ghost var clean := disk.volume;
    ghost var start := PullRun(clean.files, true, false);
    ok := true;
    var i := 0;
    while i < |targets|
      invariant 0 <= i <= |targets|
      invariant disk.volume.(files := clean.files) == clean
      invariant PullRun(disk.volume.files, ok, false) == PullTo(cfg, start, targets, w.hauls, i)
    {
      if w.hauls(i).stop {
        PullStopEnds(cfg, start, targets, w.hauls, i);
        return true;
      }
      var pulled := PullTarget(cfg, disk, targets[i], w.hauls(i));
      ok := ok && pulled;
      i := i + 1;
    }
    ReconcileObjects(cfg, disk, manifest, w);
  }

  lemma PullStopEnds(cfg: Config, start: PullRun, targets: seq<Target>, hauls: nat -> Haul, i: nat)
    requires i < |targets| && hauls(i).stop && !PullTo(cfg, start, targets, hauls, i).stopped
    ensures PullTo(cfg, start, targets, hauls, |targets|) == PullTo(cfg, start, targets, hauls, i).(stopped := true)
  {
    PullStops(cfg, start, targets, hauls, i + 1, |targets|);
  }
}
