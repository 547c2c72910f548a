/** What a pull and a reconciliation do to any volume, down to the last file and the
    answer. Both place files at paths in a given order; a path is free when nothing
    stands at it, above it or below it, so who comes first decides. */
module SyncPullExact {
  import opened Text
  import opened SyncManifest
  import opened SyncedSet
  import opened SyncKeys
  import opened SyncWorld
  import opened SyncVersions
  import opened SyncPull
  import opened SyncRestore

  // -------------------------------------------------------- placing in order

  /** A path, and the bytes that would be placed there. */
  datatype Offer = Offer(rel: string, got: Option<Bytes>)

  /** Nothing stands at the path or below it. */
  predicate Vacant(files: map<string, File>, rel: string) {
    rel !in files && forall f :: f in files ==> !(rel + "/" <= f)
  }

  /** No file stands where the path needs a directory. */
  predicate Reachable(files: map<string, File>, rel: string) {
    forall f :: f in files ==> !(f + "/" <= rel)
  }

  /** One path is the other or lies below it. */
  predicate Under(below: string, rel: string) {
    below == rel || rel + "/" <= below
  }

  predicate Conflict(a: string, c: string) {
    Under(a, c) || Under(c, a)
  }

  /** The offer is placed: there are bytes, the path is free in the volume, and no offer
      placed before it is in its way. */
  ghost predicate Won(files: map<string, File>, offers: seq<Offer>, i: nat)
    requires i < |offers|
    decreases i
  {
    && offers[i].got.Some? && Vacant(files, offers[i].rel) && Reachable(files, offers[i].rel)
    && forall j: nat :: j < i ==> !(Won(files, offers, j) && Conflict(offers[j].rel, offers[i].rel))
  }

  /** Something stands at the path when its turn comes. */
  ghost predicate Taken(files: map<string, File>, offers: seq<Offer>, i: nat)
    requires i < |offers|
  {
    || !Vacant(files, offers[i].rel)
    || exists j: nat :: j < i && Won(files, offers, j) && Under(offers[j].rel, offers[i].rel)
  }

  /** Of the first n offers exactly the placed ones are new, with their bytes, and no other
      file has changed. */
  ghost predicate Placed(before: map<string, File>, offers: seq<Offer>, n: nat, after: map<string, File>)
    requires n <= |offers|
  {
    && (forall rel :: rel in before ==> rel in after && after[rel] == before[rel])
    && (forall i: nat :: i < n && Won(before, offers, i) ==>
          offers[i].rel in after && Some(after[offers[i].rel].bytes) == offers[i].got)
    && forall rel :: rel in after && rel !in before ==>
         exists i: nat :: i < n && Won(before, offers, i) && offers[i].rel == rel
  }

  lemma NothingPlaced(before: map<string, File>, offers: seq<Offer>)
    ensures Placed(before, offers, 0, before)
  {
  }

  /** What stands in the way at some turn, seen from the volume before. */
  lemma InTheWay(before: map<string, File>, offers: seq<Offer>, n: nat, files: map<string, File>)
    requires n < |offers| && Placed(before, offers, n, files)
    ensures Exists(files, offers[n].rel) <==> Taken(before, offers, n)
    ensures !Exists(files, offers[n].rel) && !BlockedByFile(files, offers[n].rel) && offers[n].got.Some?
            <==> Won(before, offers, n)
  {
    var rel := offers[n].rel;
    hide Won;
    if Exists(files, rel) && Vacant(before, rel) {
      var f :| f in files && (f == rel || rel + "/" <= f);
      assert f !in before;
      var i: nat :| i < n && Won(before, offers, i) && offers[i].rel == f;
    }
    if j: nat :| j < n && Won(before, offers, j) && Under(offers[j].rel, rel) {
      assert offers[j].rel in files;
    }
    WonUnfolds(before, offers, n);
    if BlockedByFile(files, rel) && Reachable(before, rel) {
      var f :| f in files && f + "/" <= rel;
      assert f !in before;
      var i: nat :| i < n && Won(before, offers, i) && offers[i].rel == f;
      assert Conflict(offers[i].rel, rel);
    }
    if j: nat :| j < n && Won(before, offers, j) && Conflict(offers[j].rel, rel) {
      assert offers[j].rel in files;
    }
  }

  lemma WonUnfolds(files: map<string, File>, offers: seq<Offer>, i: nat)
    requires i < |offers|
    ensures Won(files, offers, i)
            <==> && offers[i].got.Some? && Vacant(files, offers[i].rel) && Reachable(files, offers[i].rel)
                 && forall j: nat :: j < i ==> !(Won(files, offers, j) && Conflict(offers[j].rel, offers[i].rel))
  {
  }

  lemma PlacesOne(before: map<string, File>, offers: seq<Offer>, n: nat, files: map<string, File>, f: File)
    requires n < |offers| && Placed(before, offers, n, files)
    requires Won(before, offers, n) && Some(f.bytes) == offers[n].got
    ensures Placed(before, offers, n + 1, files[offers[n].rel := f])
  {
    hide Won;
    var rel := offers[n].rel;
    assert rel !in files by {
      InTheWay(before, offers, n, files);
    }
    forall i: nat | i < n && Won(before, offers, i) ensures offers[i].rel != rel {
      assert offers[i].rel in files;
    }
    forall x | x in files[rel := f] && x !in before
      ensures exists i: nat :: i < n + 1 && Won(before, offers, i) && offers[i].rel == x
    {
      if x != rel {
        var i: nat :| i < n && Won(before, offers, i) && offers[i].rel == x;
      }
    }
  }

  lemma PassesOne(before: map<string, File>, offers: seq<Offer>, n: nat, files: map<string, File>)
    requires n < |offers| && Placed(before, offers, n, files) && !Won(before, offers, n)
    ensures Placed(before, offers, n + 1, files)
  {
    hide Won;
    forall x | x in files && x !in before
      ensures exists i: nat :: i < n + 1 && Won(before, offers, i) && offers[i].rel == x
    {
      var i: nat :| i < n && Won(before, offers, i) && offers[i].rel == x;
    }
  }

  // ------------------------------------------------------------ the pull loop

  /** The bytes are what the target asks for, and no more than a pull takes. */
  predicate Fits(cfg: Config, size: nat, sha: Option<string>, bytes: Bytes) {
    |bytes| == size && |bytes| <= 1024 * 1024 * 1024 && (sha.Some? ==> cfg.sha256(bytes) == sha.value)
  }

  /** What the requests for a target bring: its first key's bytes, and those of the path
      key for a target that the manifest names. */
  function Brought(cfg: Config, t: Target, h: Haul): Option<Bytes> {
    if h.primary.Some? && Fits(cfg, t.size, t.sha256, h.primary.value) then h.primary
    else if t.sha256.Some? && h.legacy.Some? && Fits(cfg, t.size, t.sha256, h.legacy.value) then h.legacy
    else None
  }

  function Offers(cfg: Config, targets: seq<Target>, hauls: nat -> Haul): (offers: seq<Offer>)
    ensures |offers| == |targets|
    ensures forall i :: 0 <= i < |targets| ==>
              var t, h := targets[i], hauls(i);
              offers[i] == Offer(t.rel, if cfg.synced(t.rel) && h.mkdir then Brought(cfg, t, h) else None)
  {
    seq(|targets|, i requires 0 <= i < |targets| =>
      Offer(targets[i].rel,
            if cfg.synced(targets[i].rel) && hauls(i).mkdir then Brought(cfg, targets[i], hauls(i)) else None))
  }

  /** The first stop request comes at the k-th of n turns, or not at all. */
  ghost predicate StopsAt(hauls: nat -> Haul, n: nat, k: nat) {
    k <= n && (forall j: nat {:trigger hauls(j)} :: j < k ==> !hauls(j).stop) && (k < n ==> hauls(k).stop)
  }

  /** The target is served: its path syncs, and something stands there afterwards. */
  ghost predicate Served(cfg: Config, files: map<string, File>, targets: seq<Target>, hauls: nat -> Haul, i: nat)
    requires i < |targets|
  {
    && cfg.synced(targets[i].rel)
    && (Taken(files, Offers(cfg, targets, hauls), i) || Won(files, Offers(cfg, targets, hauls), i))
  }

  lemma ObtainedIsBrought(cfg: Config, t: Target, h: Haul)
    ensures Obtained(cfg, t, h) == Brought(cfg, t, h)
  {
  }

  lemma PullStep(cfg: Config, before: map<string, File>, targets: seq<Target>, hauls: nat -> Haul, i: nat, r: PullRun)
    requires i < |targets| && !r.stopped && !hauls(i).stop
    requires Placed(before, Offers(cfg, targets, hauls), i, r.files)
    ensures var r' := PullOne(cfg, r, targets[i], hauls(i));
            && !r'.stopped && Placed(before, Offers(cfg, targets, hauls), i + 1, r'.files)
            && (r'.ok <==> r.ok && Served(cfg, before, targets, hauls, i))
  {
    var offers, t, h := Offers(cfg, targets, hauls), targets[i], hauls(i);
    InTheWay(before, offers, i, r.files);
    ObtainedIsBrought(cfg, t, h);
    if Won(before, offers, i) {
      PlacesOne(before, offers, i, r.files, File(offers[i].got.value, h.mtime, h.ctime));
    } else {
      PassesOne(before, offers, i, r.files);
    }
    hide Placed, Won, Taken, Exists, BlockedByFile, Brought, Obtained;
  }

  lemma {:induction false} PullLoopIsExact(cfg: Config, before: map<string, File>, targets: seq<Target>,
                                           hauls: nat -> Haul, n: nat, k: nat)
    requires n <= |targets| && StopsAt(hauls, n, k)
    ensures var r := PullTo(cfg, PullRun(before, true, false), targets, hauls, n);
            && (r.stopped <==> k < n) && Placed(before, Offers(cfg, targets, hauls), k, r.files)
            && (r.ok <==> forall i: nat :: i < k ==> Served(cfg, before, targets, hauls, i))
  {
    hide Placed, Served, PullOne;
    var start := PullRun(before, true, false);
    if n == 0 {
      NothingPlaced(before, Offers(cfg, targets, hauls));
    } else {
      var k' := if k < n then k else n - 1;
      PullLoopIsExact(cfg, before, targets, hauls, n - 1, k');
      var r := PullTo(cfg, start, targets, hauls, n - 1);
      if k == n {
        assert !hauls(n - 1).stop;
        PullStep(cfg, before, targets, hauls, n - 1, r);
      } else {
        StopsHere(cfg, r, targets[n - 1], hauls(n - 1));
      }
    }
  }

  lemma StopsHere(cfg: Config, r: PullRun, t: Target, h: Haul)
    requires r.stopped || h.stop
    ensures PullOne(cfg, r, t, h) == r.(stopped := true)
  {
  }

  // ---------------------------------------------------------------- targets

  /** A listed key of the older layout: neither the manifest nor a name under objects/. */
  predicate IsPathItem(item: Listed) {
    item.key.PathKey? && item.key.path != "manifest" && !("objects/" <= item.key.path)
  }

  /** Positions of a listing, in order: all those that have the property and no others. */
  ghost predicate Selects(at: seq<nat>, listing: seq<Listed>, has: Listed -> bool) {
    && (forall i, j :: 0 <= i < j < |at| ==> at[i] < at[j])
    && (forall i :: 0 <= i < |at| ==> at[i] < |listing| && has(listing[at[i]]))
    && forall j: nat :: j < |listing| && has(listing[j]) ==> j in at
  }

  lemma SelectsMore(at: seq<nat>, listing: seq<Listed>, has: Listed -> bool, item: Listed)
    requires Selects(at, listing, has)
    ensures Selects(if has(item) then at + [|listing|] else at, listing + [item], has)
  {
    var at' := if has(item) then at + [|listing|] else at;
    var listing' := listing + [item];
    forall j: nat | j < |listing'| && has(listing'[j]) ensures j in at' {
      if j < |listing| {
        assert j in at;
      } else {
        assert at'[|at|] == j;
      }
    }
  }

  lemma {:induction false} ListedTargetsGrow(listing: seq<Listed>, item: Listed)
    ensures ListedTargets(listing + [item])
            == ListedTargets(listing)
               + if IsPathItem(item) then [Target(item.key.path, item.size, None)] else []
  {
    var more := listing + [item];
    if listing == [] {
      assert more[1..] == [];
    } else {
      assert more[1..] == listing[1..] + [item];
      ListedTargetsGrow(listing[1..], item);
    }
  }

  /** These are the targets of the selected items, in order. */
  ghost predicate TargetsAt(at: seq<nat>, listing: seq<Listed>, targets: seq<Target>) {
    && |at| == |targets| && Selects(at, listing, IsPathItem)
    && forall i :: 0 <= i < |at| ==> targets[i] == Target(listing[at[i]].key.path, listing[at[i]].size, None)
  }

  lemma TargetsMore(at: seq<nat>, listing: seq<Listed>, targets: seq<Target>, item: Listed)
    requires TargetsAt(at, listing, targets)
    ensures IsPathItem(item) ==>
              TargetsAt(at + [|listing|], listing + [item], targets + [Target(item.key.path, item.size, None)])
    ensures !IsPathItem(item) ==> TargetsAt(at, listing + [item], targets)
  {
    SelectsMore(at, listing, IsPathItem, item);
    SelectsInRange(at, listing, IsPathItem);
    hide Selects;
  }

  lemma SelectsInRange(at: seq<nat>, listing: seq<Listed>, has: Listed -> bool)
    requires Selects(at, listing, has)
    ensures forall i :: 0 <= i < |at| ==> at[i] < |listing| && has(listing[at[i]])
  {
  }

  /** Without a manifest the targets are the listed path keys, all of them and in order. */
  lemma {:induction false} ListedTargetsAreExact(listing: seq<Listed>) returns (at: seq<nat>)
    ensures TargetsAt(at, listing, ListedTargets(listing))
  {
    if listing == [] {
      at := [];
    } else {
      hide TargetsAt, ListedTargets;
      var n := |listing| - 1;
      assert listing == listing[..n] + [listing[n]];
      at := ListedTargetsAreExact(listing[..n]);
      ListedTargetsGrow(listing[..n], listing[n]);
      TargetsMore(at, listing[..n], ListedTargets(listing[..n]), listing[n]);
      if IsPathItem(listing[n]) {
        at := at + [n];
      } else {
        assert ListedTargets(listing) == ListedTargets(listing[..n]);
      }
    }
  }

  /** With a manifest they are its entries in path order. */
  lemma NamedTargetsAreExact(m: Entries)
    ensures var rels, targets := Sorted(m.Keys), Targets(Some(m), []);
            && |targets| == |rels|
            && forall i :: 0 <= i < |rels| ==> targets[i] == Target(rels[i], m[rels[i]].size, Some(m[rels[i]].sha256))
  {
    hide Sorted;
    NamedTargetsAt(Sorted(m.Keys), m);
  }

  // ------------------------------------------------------------ the recovery

  /** What a reconciliation may recover: a content-addressed key of a synced path that no
      loaded manifest names. */
  predicate Recoverable(cfg: Config, manifest: Option<Entries>, rel: string) {
    cfg.synced(rel) && (manifest.Some? ==> rel !in manifest.value)
  }

  /** The listed versions of one path, in listing order. */
  function Versions(listing: seq<Listed>, rel: string): seq<Version> {
    if listing == [] then []
    else
      var item := listing[|listing| - 1];
      Versions(listing[..|listing| - 1], rel)
      + match item.key
        case ObjectKey(r, sha) => if r == rel then [Version(sha, item.size, item.lastModified)] else []
        case PathKey(_) => []
  }

  predicate IsVersionOf(item: Listed, rel: string) {
    item.key.ObjectKey? && item.key.rel == rel
  }

  /** The item is the one listed version of its path, or unambiguously the latest: all
      have a timestamp, no two the same, and none a later one. */
  ghost predicate LatestListed(listing: seq<Listed>, rel: string, i: nat) {
    && i < |listing| && IsVersionOf(listing[i], rel)
    && (|| (forall j :: 0 <= j < |listing| && IsVersionOf(listing[j], rel) ==> j == i)
        || ((forall j :: 0 <= j < |listing| && IsVersionOf(listing[j], rel) ==>
               listing[j].lastModified != "" && Le(listing[j].lastModified, listing[i].lastModified))
            && (forall j, k :: 0 <= j < k < |listing| && IsVersionOf(listing[j], rel)
                               && IsVersionOf(listing[k], rel) ==>
                  listing[j].lastModified != listing[k].lastModified)))
  }

  function VersionAt(item: Listed): Version
    requires item.key.ObjectKey?
  {
    Version(item.key.sha256, item.size, item.lastModified)
  }

  ghost predicate VersionsAt(at: seq<nat>, listing: seq<Listed>, rel: string, g: seq<Version>) {
    && |at| == |g| && Selects(at, listing, (item: Listed) => IsVersionOf(item, rel))
    && forall i :: 0 <= i < |at| ==> g[i] == VersionAt(listing[at[i]])
  }

  lemma VersionsMore(at: seq<nat>, listing: seq<Listed>, rel: string, g: seq<Version>, item: Listed)
    requires VersionsAt(at, listing, rel, g)
    ensures IsVersionOf(item, rel) ==> VersionsAt(at + [|listing|], listing + [item], rel, g + [VersionAt(item)])
    ensures !IsVersionOf(item, rel) ==> VersionsAt(at, listing + [item], rel, g)
  {
    SelectsMore(at, listing, (item: Listed) => IsVersionOf(item, rel), item);
    SelectsInRange(at, listing, (item: Listed) => IsVersionOf(item, rel));
    hide Selects;
  }

  lemma {:induction false} VersionsAreExact(listing: seq<Listed>, rel: string) returns (at: seq<nat>)
    ensures VersionsAt(at, listing, rel, Versions(listing, rel))
  {
    if listing == [] {
      at := [];
    } else {
      hide VersionsAt;
      var n := |listing| - 1;
      at := VersionsAreExact(listing[..n], rel);
      VersionsMore(at, listing[..n], rel, Versions(listing[..n], rel), listing[n]);
      assert listing == listing[..n] + [listing[n]];
      if IsVersionOf(listing[n], rel) {
        at := at + [n];
      }
    }
  }

  lemma {:induction false} GroupConcat(a: Candidates, c: Candidates, rel: string)
    ensures Group(a + c, rel) == Group(a, rel) + Group(c, rel)
  {
    if c == [] {
      assert a + c == a;
    } else {
      var n := |c| - 1;
      assert (a + c)[..|a + c| - 1] == a + c[..n];
      GroupConcat(a, c[..n], rel);
    }
  }

  /** The candidates of a path are all its listed versions, if it may be recovered. */
  lemma {:induction false} GroupsAreVersions(cfg: Config, listing: seq<Listed>, manifest: Option<Entries>, rel: string)
    ensures Group(Unreferenced(cfg, listing, manifest), rel)
            == if Recoverable(cfg, manifest, rel) then Versions(listing, rel) else []
  {
    if listing != [] {
      var n := |listing| - 1;
      GroupsAreVersions(cfg, listing[..n], manifest, rel);
      var item := listing[n];
      var last: Candidates :=
        if item.key.ObjectKey? && cfg.synced(item.key.rel) && !(manifest.Some? && item.key.rel in manifest.value)
        then [(item.key.rel, Version(item.key.sha256, item.size, item.lastModified))] else [];
      assert Unreferenced(cfg, listing, manifest) == Unreferenced(cfg, listing[..n], manifest) + last;
      GroupConcat(Unreferenced(cfg, listing[..n], manifest), last, rel);
      GroupOfOne(last, rel);
    }
  }

  lemma GroupOfOne(c: Candidates, rel: string)
    requires |c| <= 1
    ensures Group(c, rel) == if c != [] && c[0].0 == rel then [c[0].1] else []
  {
    if c != [] {
      assert Group(c[..0], rel) == [];
    }
  }

  /** Chosen to be recovered: for every path that may be, its unambiguously latest listed
      version, and nothing for a path without one. */
  ghost predicate IsChoice(cfg: Config, listing: seq<Listed>, manifest: Option<Entries>,
                           chosen: map<string, Version>) {
    && (forall rel, i: nat :: Recoverable(cfg, manifest, rel) && LatestListed(listing, rel, i) ==>
          rel in chosen && chosen[rel] == VersionAt(listing[i]))
    && forall rel :: rel in chosen ==>
         Recoverable(cfg, manifest, rel) && exists i: nat :: LatestListed(listing, rel, i)
  }

  lemma VersionsStand(at: seq<nat>, listing: seq<Listed>, rel: string, g: seq<Version>)
    requires VersionsAt(at, listing, rel, g)
    ensures forall i :: 0 <= i < |at| ==>
              at[i] < |listing| && IsVersionOf(listing[at[i]], rel) && g[i] == VersionAt(listing[at[i]])
    ensures forall j: nat :: j < |listing| && IsVersionOf(listing[j], rel) ==>
              exists i :: 0 <= i < |at| && at[i] == j
    ensures forall i, j :: 0 <= i < j < |at| ==> at[i] < at[j]
  {
    SelectsInRange(at, listing, (item: Listed) => IsVersionOf(item, rel));
    assert forall j: nat :: j < |listing| && IsVersionOf(listing[j], rel) ==> j in at;
  }

  lemma LatestIsUniqueLatest(listing: seq<Listed>, rel: string, at: seq<nat>, g: seq<Version>, k: nat)
    requires VersionsAt(at, listing, rel, g) && k < |at|
    ensures LatestListed(listing, rel, at[k]) <==> UniqueLatest(g, g[k])
  {
    VersionsStand(at, listing, rel, g);
    hide VersionsAt, Le;
    var i := at[k];
    if LatestListed(listing, rel, i) && |g| > 1 {
      OtherPosition(at, k);
      forall m | 0 <= m < |g| ensures g[m].lastModified != "" && Le(g[m].lastModified, g[k].lastModified) {
        assert IsVersionOf(listing[at[m]], rel);
      }
      forall m, n | 0 <= m < n < |g| ensures g[m].lastModified != g[n].lastModified {
        assert IsVersionOf(listing[at[m]], rel) && IsVersionOf(listing[at[n]], rel);
      }
    }
    if UniqueLatest(g, g[k]) {
      forall j | 0 <= j < |listing| && IsVersionOf(listing[j], rel) && |g| > 1
        ensures listing[j].lastModified != "" && Le(listing[j].lastModified, listing[i].lastModified)
      {
        var m :| 0 <= m < |at| && at[m] == j;
        assert g[m] == VersionAt(listing[j]);
      }
      forall j, n | 0 <= j < n < |listing| && IsVersionOf(listing[j], rel) && IsVersionOf(listing[n], rel) && |g| > 1
        ensures listing[j].lastModified != listing[n].lastModified
      {
        DistinctStamps(listing, rel, at, g, j, n);
      }
      if |g| == 1 {
        forall j | 0 <= j < |listing| && IsVersionOf(listing[j], rel) ensures j == i {
          var m :| 0 <= m < |at| && at[m] == j;
        }
      }
    }
  }

  lemma OtherPosition(at: seq<nat>, k: nat)
    requires k < |at| && |at| > 1 && forall i, j :: 0 <= i < j < |at| ==> at[i] < at[j]
    ensures exists m :: 0 <= m < |at| && at[m] != at[k]
  {
    var m := if k == 0 then 1 else 0;
    assert at[m] != at[k];
  }

  lemma DistinctStamps(listing: seq<Listed>, rel: string, at: seq<nat>, g: seq<Version>, j: nat, n: nat)
    requires VersionsAt(at, listing, rel, g) && j < n < |listing|
    requires IsVersionOf(listing[j], rel) && IsVersionOf(listing[n], rel)
    requires forall i, j :: 0 <= i < j < |g| ==> g[i].lastModified != g[j].lastModified
    ensures listing[j].lastModified != listing[n].lastModified
  {
    VersionsStand(at, listing, rel, g);
    hide VersionsAt;
    var a :| 0 <= a < |at| && at[a] == j;
    var c :| 0 <= c < |at| && at[c] == n;
    assert a < c;
  }

  /** The choice made from the candidates is the one the listing determines. */
  lemma ChosenIsTheChoice(cfg: Config, listing: seq<Listed>, manifest: Option<Entries>)
    ensures IsChoice(cfg, listing, manifest, Chosen(Unreferenced(cfg, listing, manifest)))
  {
    var cands := Unreferenced(cfg, listing, manifest);
    hide Unreferenced, Chosen, Group, SyncVersions.Pick, Recoverable, Versions, VersionsAt, UniqueLatest, Le;
    forall rel, i: nat | Recoverable(cfg, manifest, rel) && LatestListed(listing, rel, i)
      ensures rel in Chosen(cands) && Chosen(cands)[rel] == VersionAt(listing[i])
    {
      LatestIsChosen(cfg, listing, manifest, rel, i);
    }
    forall rel | rel in Chosen(cands)
      ensures Recoverable(cfg, manifest, rel) && exists i: nat :: LatestListed(listing, rel, i)
    {
      ChosenIsLatest(cfg, listing, manifest, rel);
    }
  }

  lemma LatestIsChosen(cfg: Config, listing: seq<Listed>, manifest: Option<Entries>, rel: string, i: nat)
    requires Recoverable(cfg, manifest, rel) && LatestListed(listing, rel, i)
    ensures var chosen := Chosen(Unreferenced(cfg, listing, manifest));
            rel in chosen && chosen[rel] == VersionAt(listing[i])
  {
    var cands, g := Unreferenced(cfg, listing, manifest), Versions(listing, rel);
    GroupsAreVersions(cfg, listing, manifest, rel);
    var at := VersionsAreExact(listing, rel);
    VersionsStand(at, listing, rel, g);
    assert IsVersionOf(listing[i], rel);
    var k: nat :| k < |at| && at[k] == i;
    LatestIsUniqueLatest(listing, rel, at, g, k);
    PickIsUniqueLatest(g, g[k]);
    ChosenAt(cands, rel);
  }

  lemma ChosenIsLatest(cfg: Config, listing: seq<Listed>, manifest: Option<Entries>, rel: string)
    requires rel in Chosen(Unreferenced(cfg, listing, manifest))
    ensures Recoverable(cfg, manifest, rel) && exists i: nat :: LatestListed(listing, rel, i)
  {
    var cands, g := Unreferenced(cfg, listing, manifest), Versions(listing, rel);
    GroupsAreVersions(cfg, listing, manifest, rel);
    hide Unreferenced, Chosen, SyncVersions.Pick, Versions, LatestListed;
    ChosenAt(cands, rel);
    var v := SyncVersions.Pick(g).value;
    PickIsUniqueLatest(g, v);
    var at := VersionsAreExact(listing, rel);
    VersionsStand(at, listing, rel, g);
    hide VersionsAt;
    var k :| 0 <= k < |g| && g[k] == v;
    LatestIsUniqueLatest(listing, rel, at, g, k);
  }

  lemma OneChoice(cfg: Config, listing: seq<Listed>, manifest: Option<Entries>, a: map<string, Version>,
                  c: map<string, Version>)
    requires IsChoice(cfg, listing, manifest, a) && IsChoice(cfg, listing, manifest, c)
    ensures a == c
  {
    hide Recoverable, LatestListed;
    forall rel | rel in a ensures rel in c && a[rel] == c[rel] {
      var i: nat :| LatestListed(listing, rel, i);
    }
    forall rel | rel in c ensures rel in a {
      var i: nat :| LatestListed(listing, rel, i);
    }
  }

  /** What the request for a chosen version brings. */
  function VersionOffer(cfg: Config, rel: string, v: Version, h: Haul): Offer {
    Offer(rel, if h.mkdir && h.primary.Some? && Fits(cfg, v.size, Some(v.sha256), h.primary.value)
               then h.primary else None)
  }

  function RecoveryOffers(cfg: Config, chosen: map<string, Version>, hauls: nat -> Haul): (offers: seq<Offer>)
    ensures |offers| == |Sorted(chosen.Keys)|
    ensures forall i :: 0 <= i < |offers| ==>
              var rel := Sorted(chosen.Keys)[i]; offers[i] == VersionOffer(cfg, rel, chosen[rel], hauls(i))
  {
    hide Sorted;
    var rels := Sorted(chosen.Keys);
    seq(|rels|, i requires 0 <= i < |rels| => VersionOffer(cfg, rels[i], chosen[rels[i]], hauls(i)))
  }

  lemma RecoversOne(cfg: Config, files: map<string, File>, rel: string, v: Version, h: Haul)
    ensures var got := VersionOffer(cfg, rel, v, h).got;
            RecoverOne(cfg, files, rel, v, h)
            == if Exists(files, rel) || BlockedByFile(files, rel) || got.None? then files
               else files[rel := File(got.value, h.mtime, h.ctime)]
  {
    hide Exists, BlockedByFile;
  }

  lemma RecoveryStep(cfg: Config, before: map<string, File>, chosen: map<string, Version>, hauls: nat -> Haul, i: nat,
                     files: map<string, File>)
    requires i < |Sorted(chosen.Keys)| && Placed(before, RecoveryOffers(cfg, chosen, hauls), i, files)
    ensures var rel := Sorted(chosen.Keys)[i];
            Placed(before, RecoveryOffers(cfg, chosen, hauls), i + 1,
                   RecoverOne(cfg, files, rel, chosen[rel], hauls(i)))
  {
    hide Sorted;
    var offers, h := RecoveryOffers(cfg, chosen, hauls), hauls(i);
    RecoversOne(cfg, files, Sorted(chosen.Keys)[i], chosen[Sorted(chosen.Keys)[i]], h);
    InTheWay(before, offers, i, files);
    hide Placed, Won, Exists, BlockedByFile, RecoverOne, RecoveryOffers, VersionOffer;
    if Won(before, offers, i) {
      PlacesOne(before, offers, i, files, File(offers[i].got.value, h.mtime, h.ctime));
    } else {
      PassesOne(before, offers, i, files);
    }
  }

  lemma {:induction false} RecoveryIsExact(cfg: Config, before: map<string, File>, chosen: map<string, Version>,
                                           hauls: nat -> Haul, i: nat, files: map<string, File>, k: nat)
    requires i <= k && StopsAt(hauls, |Sorted(chosen.Keys)|, k)
    requires Placed(before, RecoveryOffers(cfg, chosen, hauls), i, files)
    ensures Placed(before, RecoveryOffers(cfg, chosen, hauls), k,
                   RecoverFrom(cfg, files, Sorted(chosen.Keys), chosen, hauls, i))
    decreases k - i
  {
    hide Sorted, Placed, RecoverOne, RecoveryOffers;
    if i < k {
      assert !hauls(i).stop;
      RecoveryStep(cfg, before, chosen, hauls, i, files);
      var rel := Sorted(chosen.Keys)[i];
      RecoveryIsExact(cfg, before, chosen, hauls, i + 1, RecoverOne(cfg, files, rel, chosen[rel], hauls(i)), k);
    }
  }

  // --------------------------------------------------------- the repair list

  /** Each key is listed once. */
  ghost predicate KeysOnce(listing: seq<Listed>) {
    forall i, j :: 0 <= i < j < |listing| ==> listing[i].key != listing[j].key
  }

  /** The listing shows the entry's object, under either key, at the recorded size. */
  ghost predicate ShownBy(listing: seq<Listed>, rel: string, e: Entry) {
    exists i :: 0 <= i < |listing| && listing[i].key in {ObjectKey(rel, e.sha256), PathKey(rel)}
                && listing[i].size == e.size
  }

  lemma {:induction false} PresentIsListed(listing: seq<Listed>, key: Key, size: nat)
    requires KeysOnce(listing)
    ensures key in Present(listing) && Present(listing)[key] == size
            <==> exists i :: 0 <= i < |listing| && listing[i].key == key && listing[i].size == size
  {
    if listing != [] {
      var n := |listing| - 1;
      PresentIsListed(listing[..n], key, size);
      if i :| 0 <= i < |listing| && listing[i].key == key && listing[i].size == size {
        assert i < n ==> listing[..n][i] == listing[i];
      }
      if i :| 0 <= i < n && listing[..n][i].key == key && listing[..n][i].size == size {
        assert listing[i] == listing[..n][i];
      }
    }
  }

  lemma ShownIsListed(listing: seq<Listed>, rel: string, e: Entry)
    requires KeysOnce(listing)
    ensures Shown(Present(listing), rel, e) <==> ShownBy(listing, rel, e)
  {
    PresentIsListed(listing, ObjectKey(rel, e.sha256), e.size);
    PresentIsListed(listing, PathKey(rel), e.size);
    hide Present;
  }

  lemma {:induction false} ChecksAreExact(files: map<string, File>, present: map<Key, nat>, repair: set<string>,
                                          rels: seq<string>, m: Entries, stops: nat -> bool, i: nat, k: nat, x: string)
    requires i <= k <= |rels| && (forall rel :: rel in rels ==> rel in m)
    requires (forall j: nat {:trigger stops(j)} :: i <= j < k ==> !stops(j)) && (k < |rels| ==> stops(k))
    ensures x in CheckFrom(files, present, repair, rels, m, stops, i)
            <==> if x in rels[i..k] then !Shown(present, x, m[x]) && (x in repair || Exists(files, x)) else x in repair
    decreases k - i
  {
    if i < k {
      assert !stops(i);
      hide Shown, Exists;
      var repair' := CheckOne(files, present, repair, rels[i], m[rels[i]]);
      ChecksAreExact(files, present, repair', rels, m, stops, i + 1, k, x);
      assert rels[i..k] == [rels[i]] + rels[i + 1..k];
    }
  }

  /** What the repair list holds after the check of the first entries in path order: of
      those the damaged ones that exist locally or were on it, and the others as before. */
  ghost predicate Checked(files: map<string, File>, listing: seq<Listed>, m: Entries, checked: seq<string>,
                          before: set<string>, after: set<string>) {
    && (forall rel :: rel in checked ==> rel in m)
    && forall x :: x in after <==>
         if x in checked then !ShownBy(listing, x, m[x]) && (x in before || Exists(files, x)) else x in before
  }

  // ------------------------------------------------------------ the theorems

  /** A reconciliation, exactly: it places the chosen versions the requests bring, up to a
      stop, in path order and where nothing is in the way; then it checks the entries of
      a loaded manifest, up to a stop. `noted` is the repair list it would note. */
  lemma ReconcileIsExact(cfg: Config, vol: Volume, manifest: Option<Entries>, w: PullWeather,
                         chosen: map<string, Version>, k: nat, c: nat)
    returns (noted: set<string>)
    requires w.relisting.Some? && KeysOnce(w.relisting.value)
    requires IsChoice(cfg, w.relisting.value, manifest, chosen) && StopsAt(w.recoveries, |Sorted(chosen.Keys)|, k)
    requires manifest.Some? ==>
               && c <= |Sorted(manifest.value.Keys)| && (forall j: nat {:trigger w.checks(j)} :: j < c ==> !w.checks(j))
               && (c < |Sorted(manifest.value.Keys)| ==> w.checks(c))
    ensures var after := Reconcile(cfg, vol, manifest, w);
            && Placed(vol.files, RecoveryOffers(cfg, chosen, w.recoveries), k, after.files)
            && after == vol.(files := after.files, repair := if w.noted then SyncWorld.Recorded(noted) else vol.repair)
            && if manifest.None? then noted == vol.repair
               else Checked(after.files, w.relisting.value, manifest.value, Sorted(manifest.value.Keys)[..c],
                            vol.repair, noted)
  {
    var listing := w.relisting.value;
    ChosenIsTheChoice(cfg, listing, manifest);
    OneChoice(cfg, listing, manifest, chosen, Chosen(Unreferenced(cfg, listing, manifest)));
    NothingPlaced(vol.files, RecoveryOffers(cfg, chosen, w.recoveries));
    RecoveryIsExact(cfg, vol.files, chosen, w.recoveries, 0, vol.files, k);
    hide Sorted, Placed, RecoverFrom, CheckFrom, Chosen, Unreferenced, IsChoice, Present, RecoveryOffers, KeysOnce,
      StopsAt, Checked;
    var files := RecoverFrom(cfg, vol.files, Sorted(chosen.Keys), chosen, w.recoveries, 0);
    noted := vol.repair;
    if manifest.Some? {
      var rels := Sorted(manifest.value.Keys);
      noted := CheckFrom(files, Present(listing), vol.repair, rels, manifest.value, w.checks, 0);
      CheckedExactly(files, listing, vol.repair, rels, manifest.value, w.checks, c);
    }
  }

  lemma CheckedExactly(files: map<string, File>, listing: seq<Listed>, repair: set<string>, rels: seq<string>,
                       m: Entries, stops: nat -> bool, c: nat)
    requires KeysOnce(listing) && c <= |rels| && (forall rel :: rel in rels ==> rel in m)
    requires (forall j: nat {:trigger stops(j)} :: j < c ==> !stops(j)) && (c < |rels| ==> stops(c))
    ensures Checked(files, listing, m, rels[..c], repair,
                    CheckFrom(files, Present(listing), repair, rels, m, stops, 0))
  {
    hide CheckFrom, Shown, ShownBy, Present, KeysOnce, Exists;
    assert rels[0..c] == rels[..c];
    var noted := CheckFrom(files, Present(listing), repair, rels, m, stops, 0);
    forall x
      ensures x in noted
              <==> if x in rels[..c] then !ShownBy(listing, x, m[x]) && (x in repair || Exists(files, x))
                   else x in repair
    {
      ChecksAreExact(files, Present(listing), repair, rels, m, stops, 0, c, x);
      if x in rels[..c] {
        ShownIsListed(listing, x, m[x]);
      }
    }
  }

  /** Leftovers of interrupted downloads: at the top level and in the three trees. */
  ghost predicate IsLeftover(rel: string) {
    && |rel| >= 5 && rel[|rel| - 5..] == ".part"
    && ('/' !in rel || "certs/" <= rel || "attachments/" <= rel || "sends/" <= rel)
  }

  lemma LeftoversAreStale(rel: string)
    ensures IsStalePartial(rel) <==> IsLeftover(rel)
  {
    TreesAreThree(rel);
  }

  lemma ClearedIsExact(files: map<string, File>)
    ensures forall rel :: rel in Cleared(files) <==> rel in files && !IsLeftover(rel)
    ensures forall rel :: rel in Cleared(files) ==> Cleared(files)[rel] == files[rel]
  {
    forall rel ensures IsStalePartial(rel) <==> IsLeftover(rel) {
      LeftoversAreStale(rel);
    }
    hide IsStalePartial, IsLeftover;
  }

  /** The targets a pull works through: the entries of a manifest it could load, or else
      the path keys of the listing. */
  function TargetsOf(b: Bucket, w: PullWeather): seq<Target> {
    var load := LoadManifest(b, w.fetched);
    if load.Loaded? then NamedTargets(Sorted(load.entries.Keys), load.entries)
    else if w.listing.Some? then ListedTargets(w.listing.value)
    else []
  }

  /** A pull, exactly. Without a client it does nothing and answers no; without a manifest
      and a listing it answers no after clearing the leftovers. Otherwise, up to a stop, it
      places what the requests for the targets bring, in order and where nothing is in the
      way; a stop ends it with the answer yes, and without one it goes on to reconcile and
      answers whether every target was served. */
  lemma PullIsExact(cfg: Config, b: Bucket, vol: Volume, w: PullWeather, k: nat) returns (pulled: map<string, File>)
    requires StopsAt(w.hauls, |TargetsOf(b, w)|, k)
    ensures var targets, clean, out := TargetsOf(b, w), Cleared(vol.files), Pull(cfg, b, vol, w);
            var load := LoadManifest(b, w.fetched);
            var manifest := if load.Loaded? then Some(load.entries) else None;
            if !w.connected then out == (vol, false)
            else if manifest.None? && w.listing.None? then out == (vol.(files := clean), false)
            else
              && Placed(clean, Offers(cfg, targets, w.hauls), k, pulled)
              && if k < |targets| then out == (vol.(files := pulled), true)
                 else
                   && out.0 == Reconcile(cfg, vol.(files := pulled), manifest, w)
                   && (out.1 <==> forall i: nat :: i < k ==> Served(cfg, clean, targets, w.hauls, i))
  {
    hide Sorted, Parse, Reconcile, PullTo, LoadManifest, NamedTargets, ListedTargets, Placed, Served, Offers, Cleared;
    var targets, clean := TargetsOf(b, w), Cleared(vol.files);
    PullLoopIsExact(cfg, clean, targets, w.hauls, |targets|, k);
    pulled := PullTo(cfg, PullRun(clean, true, false), targets, w.hauls, |targets|).files;
  }

  // --------------------------------------------- restored from what is stored

  /** Every request is answered with what the bucket holds, and nothing interrupts. */
  ghost predicate FromBucket(b: Bucket, targets: seq<Target>, hauls: nat -> Haul) {
    forall i: nat {:trigger hauls(i)} :: i < |targets| ==>
      var t := targets[i];
      && !hauls(i).stop && hauls(i).mkdir
      && hauls(i).primary
         == Lookup(b, if t.sha256.Some? then ObjectKey(t.rel, t.sha256.value) else PathKey(t.rel))
      && hauls(i).legacy == Lookup(b, PathKey(t.rel))
  }

  /** Nothing in the volume or among the other targets is in the way of this one. */
  ghost predicate Unrivalled(files: map<string, File>, targets: seq<Target>, i: nat)
    requires i < |targets|
  {
    && Vacant(files, targets[i].rel) && Reachable(files, targets[i].rel)
    && forall j :: 0 <= j < |targets| && j != i ==> !Conflict(targets[j].rel, targets[i].rel)
  }

  lemma UnrivalledWins(cfg: Config, files: map<string, File>, targets: seq<Target>, hauls: nat -> Haul, i: nat)
    requires i < |targets| && Unrivalled(files, targets, i)
    ensures Won(files, Offers(cfg, targets, hauls), i) <==> Offers(cfg, targets, hauls)[i].got.Some?
  {
    WonUnfolds(files, Offers(cfg, targets, hauls), i);
    hide Won, Vacant, Reachable, Conflict;
  }

  lemma ReconcileKeeps(cfg: Config, vol: Volume, manifest: Option<Entries>, w: PullWeather)
    ensures Keeps(vol.files, Reconcile(cfg, vol, manifest, w).files)
  {
    hide Reconcile;
    ReconcileIsJustified(cfg, manifest, w, vol.files, vol);
  }

  lemma TargetComesBack(cfg: Config, b: Bucket, vol: Volume, w: PullWeather, i: nat, bytes: Bytes)
    requires w.connected && (LoadManifest(b, w.fetched).Loaded? || w.listing.Some?)
    requires FromBucket(b, TargetsOf(b, w), w.hauls) && i < |TargetsOf(b, w)|
    requires Unrivalled(Cleared(vol.files), TargetsOf(b, w), i) && cfg.synced(TargetsOf(b, w)[i].rel)
    requires Brought(cfg, TargetsOf(b, w)[i], w.hauls(i)) == Some(bytes)
    ensures var rel, after := TargetsOf(b, w)[i].rel, Pull(cfg, b, vol, w).0.files;
            rel in after && after[rel].bytes == bytes
  {
    var targets, clean := TargetsOf(b, w), Cleared(vol.files);
    assert !w.hauls(i).stop && w.hauls(i).mkdir;
    assert StopsAt(w.hauls, |targets|, |targets|);
    UnrivalledWins(cfg, clean, targets, w.hauls, i);
    hide TargetsOf, Cleared, Unrivalled, Won, Brought, Reconcile, LoadManifest, Pull, FromBucket;
    var pulled := PullIsExact(cfg, b, vol, w, |targets|);
    var manifest := if LoadManifest(b, w.fetched).Loaded? then Some(LoadManifest(b, w.fetched).entries) else None;
    ReconcileKeeps(cfg, vol.(files := pulled), manifest, w);
  }

  /** Without a readable manifest a pull whose transfers succeed brings back every listed
      synced path that is within the cap, whatever the volume holds, unless something in
      the volume or another listed path stands in its way. */
  lemma ListedPathComesBack(cfg: Config, b: Bucket, vol: Volume, w: PullWeather, i: nat)
    requires w.connected && !LoadManifest(b, w.fetched).Loaded? && w.listing.Some? && KeysOnce(w.listing.value)
    requires FromBucket(b, ListedTargets(w.listing.value), w.hauls)
    requires i < |w.listing.value| && IsPathItem(w.listing.value[i])
    requires var item := w.listing.value[i];
             && cfg.synced(item.key.path) && Vacant(Cleared(vol.files), item.key.path)
             && Reachable(Cleared(vol.files), item.key.path)
             && item.key in b.objects && |b.objects[item.key]| == item.size <= 1024 * 1024 * 1024
    requires forall j :: 0 <= j < |w.listing.value| && j != i && IsPathItem(w.listing.value[j]) ==>
               !Conflict(w.listing.value[j].key.path, w.listing.value[i].key.path)
    ensures var item, after := w.listing.value[i], Pull(cfg, b, vol, w).0.files;
            item.key.path in after && after[item.key.path].bytes == b.objects[item.key]
  {
    var listing := w.listing.value;
    var at := ListedTargetsAreExact(listing);
    TargetsStand(at, listing, ListedTargets(listing));
    var k: nat :| k < |at| && at[k] == i;
    var targets := ListedTargets(listing);
    hide LoadManifest, ListedTargets, TargetsAt, Cleared, Conflict, Vacant, Reachable;
    assert TargetsOf(b, w) == targets && targets[k] == Target(listing[i].key.path, listing[i].size, None);
    assert w.hauls(k).primary == Lookup(b, PathKey(listing[i].key.path));
    forall j | 0 <= j < |targets| && j != k ensures !Conflict(targets[j].rel, targets[k].rel) {
      assert at[j] != at[k] by {
        assert if j < k then at[j] < at[k] else at[k] < at[j];
      }
    }
    TargetComesBack(cfg, b, vol, w, k, b.objects[listing[i].key]);
  }

  lemma TargetsStand(at: seq<nat>, listing: seq<Listed>, targets: seq<Target>)
    requires TargetsAt(at, listing, targets)
    ensures |at| == |targets| && forall i, j :: 0 <= i < j < |at| ==> at[i] < at[j]
    ensures forall i :: 0 <= i < |at| ==>
              && at[i] < |listing| && IsPathItem(listing[at[i]])
              && targets[i] == Target(listing[at[i]].key.path, listing[at[i]].size, None)
    ensures forall j: nat :: j < |listing| && IsPathItem(listing[j]) ==> exists i: nat :: i < |at| && at[i] == j
  {
    SelectsInRange(at, listing, IsPathItem);
    forall j: nat | j < |listing| && IsPathItem(listing[j]) ensures exists i: nat :: i < |at| && at[i] == j {
      assert j in at;
    }
  }

  /** With a manifest it brings back every named synced path whose recorded content the
      bucket holds at its content-addressed key, on the same condition. */
  lemma NamedPathComesBack(cfg: Config, b: Bucket, vol: Volume, w: PullWeather, m: Entries, rel: string)
    requires w.connected && LoadManifest(b, w.fetched) == Loaded(m) && rel in m && cfg.synced(rel)
    requires FromBucket(b, NamedTargets(Sorted(m.Keys), m), w.hauls)
    requires Vacant(Cleared(vol.files), rel) && Reachable(Cleared(vol.files), rel)
    requires forall q :: q in m && q != rel ==> !Conflict(q, rel)
    requires var key := ObjectKey(rel, m[rel].sha256);
             && key in b.objects && |b.objects[key]| == m[rel].size <= 1024 * 1024 * 1024
             && cfg.sha256(b.objects[key]) == m[rel].sha256
    ensures var after := Pull(cfg, b, vol, w).0.files;
            rel in after && after[rel].bytes == b.objects[ObjectKey(rel, m[rel].sha256)]
  {
    hide LoadManifest, Cleared, Conflict, Vacant, Reachable, Sorted, FromBucket;
    var targets := NamedTargets(Sorted(m.Keys), m);
    var k := NamedTargetAt(m, rel);
    hide NamedTargets;
    assert TargetsOf(b, w) == targets;
    NamedBrings(cfg, b, targets, w.hauls, k);
    TargetComesBack(cfg, b, vol, w, k, b.objects[ObjectKey(rel, m[rel].sha256)]);
  }

  lemma NamedTargetAt(m: Entries, rel: string) returns (k: nat)
    requires rel in m
    ensures var targets := NamedTargets(Sorted(m.Keys), m);
            && k < |targets| && targets[k] == Target(rel, m[rel].size, Some(m[rel].sha256))
            && forall j :: 0 <= j < |targets| && j != k ==> targets[j].rel in m && targets[j].rel != rel
  {
    hide Sorted;
    NamedTargetsAreExact(m);
    var rels := Sorted(m.Keys);
    assert rel in m.Keys && rel in rels;
    k :| 0 <= k < |rels| && rels[k] == rel;
  }

  lemma NamedBrings(cfg: Config, b: Bucket, targets: seq<Target>, hauls: nat -> Haul, k: nat)
    requires FromBucket(b, targets, hauls) && k < |targets| && targets[k].sha256.Some?
    requires var t := targets[k];
             var key := ObjectKey(t.rel, t.sha256.value);
             && key in b.objects && |b.objects[key]| == t.size <= 1024 * 1024 * 1024
             && cfg.sha256(b.objects[key]) == t.sha256.value
    ensures var t := targets[k];
            Brought(cfg, t, hauls(k)) == Some(b.objects[ObjectKey(t.rel, t.sha256.value)])
  {
    assert hauls(k).primary == Lookup(b, ObjectKey(targets[k].rel, targets[k].sha256.value));
  }

  /** A reconciliation whose requests bring the chosen versions fills the path of every
      recoverable one, unless something is there or in its way. */
  lemma LatestComesBack(cfg: Config, vol: Volume, manifest: Option<Entries>, w: PullWeather, rel: string, i: nat)
    requires w.relisting.Some? && Recoverable(cfg, manifest, rel) && LatestListed(w.relisting.value, rel, i)
    requires var chosen := Chosen(Unreferenced(cfg, w.relisting.value, manifest));
             RecoveriesSucceed(cfg, Sorted(chosen.Keys), chosen, w.recoveries)
    ensures var after := Reconcile(cfg, vol, manifest, w).files;
            && Filled(after, rel)
            && (rel !in vol.files && rel in after ==>
                  |after[rel].bytes| == w.relisting.value[i].size
                  && cfg.sha256(after[rel].bytes) == w.relisting.value[i].key.sha256)
  {
    LatestIsChosen(cfg, w.relisting.value, manifest, rel, i);
    hide Chosen, Unreferenced, Sorted, Reconcile, Filled, RecoveriesSucceed, Recoverable;
    RecoveryIsComplete(cfg, vol, manifest, w);
  }
}
