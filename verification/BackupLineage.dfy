/** The backup history over several volumes sharing one bucket: cycles and restores,
    each stopped anywhere, database writes and volume losses, in any order. */
module BackupLineage {
  import opened Text
  import opened BackupManifest
  import opened BackupWorld
  import opened BackupTick
  import opened BackupIntegrity
  import opened BackupRestore

  datatype World = World(bucket: Bucket, volumes: map<nat, Volume>)

  /** What may happen next: a cycle or a restore on one volume, killed after `k`
      effects; the adoption that follows a restore at boot; the vault writing its
      database; the loss of a volume. */
  datatype Action =
    | Cycled(v: nat, c: Cycle, k: nat)
    | Booted(v: nat, r: Recovery, k: nat)
    | Adopts(v: nat, a: Adoption)
    | Wrote(v: nat, bytes: Bytes)
    | Lost(v: nat)

  function SiteOf(w: World, v: nat): Site
    requires v in w.volumes
  {
    Site(w.bucket, w.volumes[v])
  }

  function WithSite(w: World, v: nat, s: Site): World {
    World(s.bucket, w.volumes[v := s.volume])
  }

  /** Never used before: not in the bucket, not in the manifest, not in any database's
      past, not recorded by any volume. */
  ghost predicate UnusedName(w: World, name: string) {
    && FreshName(w.bucket, name) && '/' !in name
    && (forall v :: v in w.volumes && w.volumes[v].db.Some? ==> name !in w.volumes[v].db.value.ancestors)
    && (forall v :: v in w.volumes ==> !Records(w.volumes[v], name))
  }

  ghost predicate Records(vol: Volume, name: string) {
    ReadSidecar(vol.sidecar) == Some(LegacyName(name))
  }

  /** The vault writes on: a database that exists keeps its past. */
  function Written(vol: Volume, bytes: Bytes): Volume {
    vol.(db := Some(Db(bytes, if vol.db.Some? then vol.db.value.ancestors else {})))
  }

  ghost predicate Step(cfg: Config, w: World, a: Action, w': World) {
    && a.v in w.volumes
    && var s := SiteOf(w, a.v);
    match a
    case Cycled(v, c, k) =>
      && UnusedName(w, c.name) && (c.dump.Some? ==> cfg.empty(c.dump.value) != Some(true))
      && k <= |Trace(cfg, s, c)| && w' == WithSite(w, v, StateAfter(s, Trace(cfg, s, c), k))
    case Booted(v, r, k) =>
      k <= |Restore(cfg, s, r).trace| && w' == WithSite(w, v, StateAfter(s, Restore(cfg, s, r).trace, k))
    case Adopts(v, a) =>
      w' == WithSite(w, v, Adopted(cfg, s, a))
    case Wrote(v, bytes) =>
      && (Empty(cfg, s.volume) == Some(true) || cfg.empty(bytes) != Some(true))
      && w' == WithSite(w, v, s.(volume := Written(s.volume, bytes)))
    case Lost(v) =>
      w' == WithSite(w, v, s.(volume := Volume(None, None, None)))
  }

  // ------------------------------------------------------------ the invariant

  /** Dump names are plain, the manifest does not name itself, and usable dumps hold data. */
  ghost predicate Orderly(cfg: Config, b: Bucket) {
    && CleanNames(b) && (forall name :: name in DumpNames(b) ==> '/' !in name)
    && (History(b).Some? ==> Absent(History(b).value, "manifest"))
    && (forall name :: name in b.dumps && cfg.usable(b.dumps[name]) ==> cfg.empty(b.dumps[name]) != Some(true))
  }

  /** A sidecar never claims more than the database's past supports: a generation is at
      most the manifest's current one, and whoever claims the current one descends from
      the newest dump; an empty volume claims nothing. */
  ghost predicate Honest(cfg: Config, b: Bucket, vol: Volume) {
    var known := ReadSidecar(vol.sidecar);
    && (Empty(cfg, vol) == Some(true) ==> known.None?)
    && (known.Some? ==>
          && vol.db.Some?
          && match known.value
             case LegacyName(name) => name in vol.db.value.ancestors
             case Generation(g) =>
               && History(b).Some? && History(b).value != [] && g <= Latest(History(b).value)
               && (g == Latest(History(b).value) ==> Newest(History(b).value) in vol.db.value.ancestors))
  }

  /** No recorded generation is beyond the manifest's current one. */
  ghost predicate Bounded(b: Bucket, vol: Volume) {
    var known := ReadSidecar(vol.sidecar);
    known.Some? && known.value.Generation? ==>
      History(b).Some? && History(b).value != [] && known.value.generation <= Latest(History(b).value)
  }

  /** What every run keeps, whoever adopts what. */
  ghost predicate Coherent(cfg: Config, w: World) {
    Orderly(cfg, w.bucket) && forall v :: v in w.volumes ==> Bounded(w.bucket, w.volumes[v])
  }

  ghost predicate Lineal(cfg: Config, w: World) {
    Orderly(cfg, w.bucket) && forall v :: v in w.volumes ==> Honest(cfg, w.bucket, w.volumes[v])
  }

  // ------------------------------------------------------- states of a cycle

  /** The cycle's manifest is the stored one, and the volume records its generation,
      records nothing, or still records what it did. */
  ghost predicate Advanced(cfg: Config, s: Site, p: Plan, c: Cycle, t: Site)
    requires NextGeneration(p.entries).Some?
  {
    && History(t.bucket) == Some(Retained(Extended(p, c), cfg.keep))
    && t.volume.db.Some? && c.name in t.volume.db.value.ancestors
    && t.volume.sidecar in {s.volume.sidecar, Some(GenerationText(NextGeneration(p.entries).value)), Some("")}
  }

  ghost predicate Unmoved(s: Site, t: Site) {
    t.bucket.manifest == s.bucket.manifest && t.volume.sidecar == s.volume.sidecar && t.volume.last == s.volume.last
  }

  /** What holds in every state of a cycle. */
  ghost predicate Reached(cfg: Config, s: Site, p: Plan, c: Cycle, t: Site)
    requires NextGeneration(p.entries).Some?
  {
    && (Unmoved(s, t) || Advanced(cfg, s, p, c, t))
    && s.volume.db.Some? && t.volume.db.Some?
    && t.volume.db.value.bytes == s.volume.db.value.bytes
    && s.volume.db.value.ancestors <= t.volume.db.value.ancestors <= s.volume.db.value.ancestors + {c.name}
    && (forall name :: name in t.bucket.dumps ==>
          (name == c.name && t.bucket.dumps[name] == p.dump)
            || (name in s.bucket.dumps && t.bucket.dumps[name] == s.bucket.dumps[name]))
  }

  ghost predicate CanAdvance(cfg: Config, s: Site, p: Plan, c: Cycle) {
    && WellFormed(p.entries) && NextGeneration(p.entries).Some? && Absent(p.entries, c.name)
    && Absent(p.entries, "manifest")
    && CleanName(c.name) && IsDumpName(c.name) && cfg.keep > 0 && s.volume.db.Some?
  }

  lemma {:induction false} PruningOnlyRemoves(b: Bucket, evicted: Entries, deletions: nat -> bool, n: nat)
    requires n <= |evicted| && Absent(evicted, "manifest")
    ensures var b' := PrunedTo(b, evicted, deletions, n);
            && b'.manifest == b.manifest
            && forall name :: name in b'.dumps ==> name in b.dumps && b'.dumps[name] == b.dumps[name]
  {
    if n > 0 {
      PruningOnlyRemoves(b, evicted, deletions, n - 1);
    }
  }

  lemma EvictedIsNotTheManifest(cfg: Config, s: Site, p: Plan, c: Cycle)
    requires CanAdvance(cfg, s, p, c)
    ensures Absent(Evicted(Extended(p, c), cfg.keep), "manifest")
  {
    NotADump();
    hide WellFormed, CleanName, IsDumpName;
    assert Absent(Extended(p, c), "manifest");
  }

  lemma SidecarIsReached(cfg: Config, s: Site, p: Plan, c: Cycle, t: Site)
    requires NextGeneration(p.entries).Some? && Reached(cfg, s, p, c, t) && Advanced(cfg, s, p, c, t)
    ensures var t' := WithSidecar(t, NextGeneration(p.entries).value, c);
            Reached(cfg, s, p, c, t') && Advanced(cfg, s, p, c, t')
  {
    hide GenerationText, Readable, Extended, Retained;
  }

  lemma RetainedIsReached(cfg: Config, s: Site, p: Plan, c: Cycle, t: Site)
    requires NextGeneration(p.entries).Some? && Reached(cfg, s, p, c, t) && Advanced(cfg, s, p, c, t)
    ensures var t' := WithRetained(t, p.dump, c);
            Reached(cfg, s, p, c, t') && Advanced(cfg, s, p, c, t')
  {
    hide GenerationText, Readable, Extended, Retained;
  }

  lemma SettledStates(cfg: Config, s: Site, p: Plan, c: Cycle, published: Site)
    requires CanAdvance(cfg, s, p, c) && Reached(cfg, s, p, c, published) && Advanced(cfg, s, p, c, published)
    ensures var evicted := Evicted(Extended(p, c), cfg.keep);
            forall t :: t in PublishedTrace(published, NextGeneration(p.entries).value, p.dump, evicted, c) ==>
              Reached(cfg, s, p, c, t)
  {
    var evicted := Evicted(Extended(p, c), cfg.keep);
    EvictedIsNotTheManifest(cfg, s, p, c);
    SidecarIsReached(cfg, s, p, c, published);
    var recorded := WithSidecar(published, NextGeneration(p.entries).value, c);
    RetainedIsReached(cfg, s, p, c, recorded);
    var retained := WithRetained(recorded, p.dump, c);
    hide GenerationText, Reached, Advanced, CanAdvance, Extended, Evicted, Absent, WithSidecar, WithRetained;
    forall i | 0 <= i < |evicted|
      ensures Reached(cfg, s, p, c, PruneTrace(retained, evicted, c.deletions, |evicted|)[i])
    {
      PrunedIsReached(cfg, s, p, c, retained, evicted, i + 1);
    }
  }

  lemma PrunedIsReached(cfg: Config, s: Site, p: Plan, c: Cycle, t: Site, evicted: Entries, n: nat)
    requires NextGeneration(p.entries).Some? && Reached(cfg, s, p, c, t) && Advanced(cfg, s, p, c, t)
    requires n <= |evicted| && Absent(evicted, "manifest")
    ensures Reached(cfg, s, p, c, t.(bucket := PrunedTo(t.bucket, evicted, c.deletions, n)))
  {
    PruningOnlyRemoves(t.bucket, evicted, c.deletions, n);
    hide GenerationText, Readable, Extended, Retained, PrunedTo, Absent;
  }

  lemma PublishingStates(cfg: Config, s: Site, p: Plan, c: Cycle)
    requires CanAdvance(cfg, s, p, c) && c.put.Stored?
    ensures forall t :: t in PublishingTrace(cfg, WithDump(s, p, c), p, c) ==> Reached(cfg, s, p, c, t)
  {
    var uploaded := WithDump(s, p, c);
    var text := Render(Retained(Extended(p, c), cfg.keep));
    NotADump();
    hide IsDumpName;
    if Utf8Len(text) <= MAX_MANIFEST_BYTES {
      KeptIsWellFormed(cfg, p, c);
      hide WellFormed;
      RenderedReadsBack(Retained(Extended(p, c), cfg.keep));
      hide Render, Utf8Len, Readable, Retained, Evicted, Extended, GenerationText, PublishedTrace, CleanName;
      var published := WithManifest(uploaded, text, c);
      assert Reached(cfg, s, p, c, published);
      if c.publish.Stored? {
        SettledStates(cfg, s, p, c, published);
      }
    } else {
      hide Render, Utf8Len, Readable, Retained, Evicted, Extended, GenerationText, PublishedTrace, CleanName,
        WellFormed;
    }
  }

  lemma ViewCanAdvance(cfg: Config, w: World, v: nat, c: Cycle)
    requires Orderly(cfg, w.bucket) && v in w.volumes && UnusedName(w, c.name) && cfg.keep > 0
    requires Planned(cfg, SiteOf(w, v), c).Some?
    ensures CanAdvance(cfg, SiteOf(w, v), Planned(cfg, SiteOf(w, v), c).value, c)
  {
    hide WellFormed, CleanName, Listing, FromListing, Readable, Resolve, ReadSidecar, IsDumpName, View;
    ViewIsWellFormed(w.bucket, c.fetched, c.listed);
    ViewNames(w.bucket, c.fetched, c.listed, c.name);
  }

  lemma ViewNames(b: Bucket, fetched: bool, listed: bool, name: string)
    requires FreshName(b, name) && View(b, fetched, listed).Some?
    requires History(b).Some? ==> Absent(History(b).value, "manifest")
    ensures Absent(View(b, fetched, listed).value, name) && Absent(View(b, fetched, listed).value, "manifest")
  {
    NotADump();
    hide Listing, Readable, IsDumpName, CleanName;
    if b.manifest.None? {
      var r := Listing(b);
      forall i | 0 <= i < |r| ensures r[i].0 != name && r[i].0 != "manifest" {
        assert r[i].0 in DumpNames(b);
      }
    }
  }

  lemma UploadIsReached(cfg: Config, s: Site, p: Plan, c: Cycle)
    requires CanAdvance(cfg, s, p, c)
    ensures Reached(cfg, s, p, c, WithDump(s, p, c))
  {
    hide WellFormed, Absent, CleanName, IsDumpName, Advanced;
  }

  lemma CycleStates(cfg: Config, w: World, v: nat, c: Cycle)
    requires Orderly(cfg, w.bucket) && v in w.volumes && UnusedName(w, c.name) && cfg.keep > 0
    ensures var p := Planned(cfg, SiteOf(w, v), c);
            p.Some? ==> forall t :: t in Trace(cfg, SiteOf(w, v), c) ==> Reached(cfg, SiteOf(w, v), p.value, c, t)
  {
    var s := SiteOf(w, v);
    hide Planned, PublishingTrace, Orderly, UnusedName, CanAdvance, Reached, WithDump;
    if Planned(cfg, s, c).Some? {
      var p := Planned(cfg, s, c).value;
      ViewCanAdvance(cfg, w, v, c);
      UploadIsReached(cfg, s, p, c);
      if c.put.Stored? {
        PublishingStates(cfg, s, p, c);
      }
    }
  }

  // ------------------------------------------------- the invariant is kept

  /** What the cycle's manifest is to the history it extends. */
  lemma AdvancedHistory(cfg: Config, s: Site, p: Plan, c: Cycle, t: Site)
    requires CanAdvance(cfg, s, p, c) && Advanced(cfg, s, p, c, t)
    ensures var es := History(t.bucket).value;
            es != [] && WellFormed(es) && Newest(es) == c.name && Latest(es) == Latest(p.entries) + 1
            && Absent(es, "manifest")
  {
    KeptIsWellFormed(cfg, p, c);
    NotADump();
    hide WellFormed, CleanName, IsDumpName, GenerationText, Readable;
    assert Absent(Extended(p, c), "manifest");
  }

  /** Another cycle's manifest leaves every claim as honest as it was, and as bounded. */
  lemma AdvanceKeepsOthers(cfg: Config, s: Site, p: Plan, c: Cycle, t: Site, vol: Volume)
    requires CanAdvance(cfg, s, p, c) && Advanced(cfg, s, p, c, t)
    requires s.bucket.manifest.Some? ==> History(s.bucket) == Some(p.entries)
    ensures Bounded(s.bucket, vol) ==> Bounded(t.bucket, vol)
    ensures Honest(cfg, s.bucket, vol) ==> Honest(cfg, t.bucket, vol)
  {
    AdvancedHistory(cfg, s, p, c, t);
    hide Readable, ReadSidecar, WellFormed, CleanName, IsDumpName, Retained, Extended, GenerationText;
  }

  /** So does any state of the cycle, for the cycling volume itself. */
  lemma ReachedKeepsClaims(cfg: Config, s: Site, p: Plan, c: Cycle, t: Site)
    requires CanAdvance(cfg, s, p, c) && Reached(cfg, s, p, c, t)
    requires s.bucket.manifest.Some? ==> History(s.bucket) == Some(p.entries)
    ensures Bounded(s.bucket, s.volume) ==> Bounded(t.bucket, t.volume)
    ensures Honest(cfg, s.bucket, s.volume) && Empty(cfg, s.volume) == Some(false) ==> Honest(cfg, t.bucket, t.volume)
  {
    GenerationReadsBack(NextGeneration(p.entries).value);
    assert ReadSidecar(Some("")) == None;
    hide Readable, ReadSidecar, CleanName, IsDumpName, Retained, Extended, GenerationText;
    if !Unmoved(s, t) {
      AdvancedHistory(cfg, s, p, c, t);
      AdvanceKeepsOthers(cfg, s, p, c, t, s.volume);
    }
  }

  lemma ReachedIsOrderly(cfg: Config, s: Site, p: Plan, c: Cycle, t: Site)
    requires CanAdvance(cfg, s, p, c) && Reached(cfg, s, p, c, t) && Orderly(cfg, s.bucket)
    requires '/' !in c.name && cfg.empty(p.dump) != Some(true)
    ensures Orderly(cfg, t.bucket)
  {
    hide Readable, CleanName, IsDumpName, Retained, Extended, GenerationText, WellFormed;
    if !Unmoved(s, t) {
      AdvancedHistory(cfg, s, p, c, t);
    }
  }

  /** A cycle, wherever it stops, keeps the bucket orderly and every volume's claim. */
  lemma CycleKeepsClaims(cfg: Config, w: World, a: Action, w': World)
    requires Orderly(cfg, w.bucket) && cfg.keep > 0 && a.Cycled? && Step(cfg, w, a, w')
    ensures Orderly(cfg, w'.bucket) && w'.volumes.Keys == w.volumes.Keys
    ensures forall u :: u in w.volumes ==> KeepsClaim(cfg, w, w', u)
  {
    var s, c := SiteOf(w, a.v), a.c;
    var p := Planned(cfg, s, c);
    CycleStates(cfg, w, a.v, c);
    if a.k > 0 {
      assert p.Some?;
      ViewCanAdvance(cfg, w, a.v, c);
      var t := StateAfter(s, Trace(cfg, s, c), a.k);
      hide Readable, ReadSidecar, CleanName, IsDumpName, Retained, Extended, GenerationText, Effects, Listing,
        FromListing, Resolve, Bounded, Honest;
      ReachedIsOrderly(cfg, s, p.value, c, t);
      ReachedKeepsClaims(cfg, s, p.value, c, t);
      forall u | u in w'.volumes && u != a.v ensures KeepsClaim(cfg, w, w', u) {
        if Unmoved(s, t) {
          OnlyTheManifestCounts(cfg, w.bucket, w'.bucket, w.volumes[u]);
        } else {
          AdvanceKeepsOthers(cfg, s, p.value, c, t, w.volumes[u]);
        }
      }
    } else {
      assert w' == w;
    }
  }

  ghost predicate KeepsClaim(cfg: Config, w: World, w': World, u: nat) {
    && u in w.volumes && u in w'.volumes
    && (Bounded(w.bucket, w.volumes[u]) ==> Bounded(w'.bucket, w'.volumes[u]))
    && (Honest(cfg, w.bucket, w.volumes[u]) ==> Honest(cfg, w'.bucket, w'.volumes[u]))
  }

  lemma OnlyTheManifestCounts(cfg: Config, b: Bucket, b': Bucket, vol: Volume)
    requires b'.manifest == b.manifest
    ensures Bounded(b, vol) ==> Bounded(b', vol)
    ensures Honest(cfg, b, vol) ==> Honest(cfg, b', vol)
  {
    hide Readable, ReadSidecar;
  }

  // ------------------------------------------------- restores and the rest

  lemma PlainName(name: string)
    requires '/' !in name
    ensures LastPart(name) == name
  {
  }

  lemma HistoryIsWellFormed(b: Bucket)
    ensures History(b).Some? ==> WellFormed(History(b).value)
  {
    if History(b).Some? {
      ParseYieldsWellFormed(b.manifest.value);
    }
  }

  /** The candidate says what the bucket has: the manifest's entry k from the end, or a
      listed dump. */
  lemma CandidateIs(b: Bucket, r: Recovery, k: nat)
    requires Candidates(b, r).Some? && k < |Candidates(b, r).value|
    ensures var c := Candidates(b, r).value[k];
            if c.generation.Some? then
              && History(b).Some? && k < |History(b).value|
              && var e := History(b).value[|History(b).value| - 1 - k];
                 c.name == e.name && c.generation == Some(e.generation)
            else c.name in DumpNames(b)
  {
    hide Readable, Listing, DumpNames;
  }

  lemma SidecarAfterImport(c: Candidate, t: Try, s: Site, bytes: Bytes)
    requires !t.recorded.Unwritten?
    requires c.generation.None? ==> IsDumpName(c.name) && '/' !in c.name
    ensures var vol := Lineaged(Linked(s, c, bytes), c, t).volume;
            ReadSidecar(vol.sidecar) ==
              if t.recorded.Truncated? then None
              else if c.generation.Some? then Some(Generation(c.generation.value)) else Some(LegacyName(c.name))
  {
    assert ReadSidecar(Some("")) == None;
    if c.generation.Some? {
      GenerationReadsBack(c.generation.value);
    } else {
      PlainName(c.name);
      NameReadsBack(c.name);
    }
    hide ReadSidecar, GenerationText, NameText, LastPart, IsDumpName;
  }

  /** What a restore records about a candidate it imported is honest and bounded. */
  lemma ImportIsHonest(cfg: Config, s: Site, r: Recovery, k: nat, bytes: Bytes)
    requires Orderly(cfg, s.bucket)
    requires Candidates(s.bucket, r).Some? && k < |Candidates(s.bucket, r).value| && !r.tries(k).recorded.Unwritten?
    requires var c := Candidates(s.bucket, r).value[k];
             Delivered(s.bucket, c, r.tries(k)) == Some(bytes) && cfg.usable(bytes)
    ensures var c := Candidates(s.bucket, r).value[k];
            var vol := Lineaged(Linked(s, c, bytes), c, r.tries(k)).volume;
            Honest(cfg, s.bucket, vol) && Bounded(s.bucket, vol)
  {
    var c := Candidates(s.bucket, r).value[k];
    CandidateIs(s.bucket, r, k);
    HistoryIsWellFormed(s.bucket);
    hide Candidates, CleanName, CleanNames, History, LineageText;
    assert c.generation.None? ==> IsDumpName(c.name) && '/' !in c.name;
    SidecarAfterImport(c, r.tries(k), s, bytes);
    hide DumpNames, IsDumpName, ReadSidecar;
  }

  lemma BootKeepsClaims(cfg: Config, w: World, a: Action, w': World)
    requires Orderly(cfg, w.bucket) && a.Booted? && Step(cfg, w, a, w')
    ensures w'.bucket == w.bucket && w'.volumes.Keys == w.volumes.Keys
    ensures forall u :: u in w.volumes ==> KeepsClaim(cfg, w, w', u)
  {
    var s := SiteOf(w, a.v);
    RestoreStates(cfg, s, a.r);
    hide Restore, Readable, ReadSidecar, Lineaged, Linked, Candidates, Delivered;
    if a.k > 0 {
      var out := Restore(cfg, s, a.r);
      var t := StateAfter(s, out.trace, a.k);
      assert t in out.trace;
      if t.volume.sidecar != s.volume.sidecar {
        var k := out.imported.value;
        var c := Candidates(s.bucket, a.r).value[k];
        ImportIsHonest(cfg, s, a.r, k, Delivered(s.bucket, c, a.r.tries(k)).value);
      }
    } else {
      assert w' == w;
    }
  }

  /** Every state of a restore: the bucket stays, and the sidecar changes only in the
      last one, after an import. */
  lemma RestoreStates(cfg: Config, s: Site, r: Recovery)
    ensures var out := Restore(cfg, s, r);
            && (out.trace != [] ==> Empty(cfg, s.volume) == Some(true))
            && forall t :: t in out.trace ==>
                 && t.bucket == s.bucket && t.volume.last == s.volume.last
                 && (t.volume.sidecar != s.volume.sidecar ==>
                       && out.imported.Some? && Candidates(s.bucket, r).Some?
                       && !r.tries(out.imported.value).recorded.Unwritten?
                       && var cs, k := Candidates(s.bucket, r).value, out.imported.value;
                       && k < |cs| && Delivered(s.bucket, cs[k], r.tries(k)).Some?
                       && cfg.usable(Delivered(s.bucket, cs[k], r.tries(k)).value)
                       && t == Lineaged(Linked(s, cs[k], Delivered(s.bucket, cs[k], r.tries(k)).value), cs[k],
                                        r.tries(k)))
  {
    RestoreFallsBackOnlyFromCorruption(cfg, s, r);
    var out := Restore(cfg, s, r);
    if out.imported.Some? {
      var cs, k := Candidates(s.bucket, r).value, out.imported.value;
      FallbackFrom(cfg, s, cs, r.tries, 0);
      AttemptStates(cfg, s, cs[k], r.tries(k));
      hide TryOne, TryFrom, Delivered, Lineaged, Linked, Candidates;
    } else {
      hide TryOne, TryFrom, Delivered, Lineaged, Linked, Candidates;
    }
  }

  /** The adopting database descends from the backup it claims, if a claim is recorded. */
  ghost predicate Rightful(cfg: Config, s: Site, a: Adoption) {
    Claims(cfg, s, a) && a.recorded.Written? ==>
      s.volume.db.Some? && ClaimedName(s.bucket, a).value in s.volume.db.value.ancestors
  }

  lemma ClaimReadsBack(cfg: Config, b: Bucket, a: Adoption)
    requires Orderly(cfg, b) && ClaimedName(b, a).Some?
    ensures ReadSidecar(Some(ClaimText(b, a)))
            == Some(if b.manifest.Some? && History(b).value != [] then Generation(Latest(History(b).value))
                    else LegacyName(ClaimedName(b, a).value))
  {
    hide ReadSidecar, Readable, GenerationText, NameText, Listing, CleanName, IsDumpName;
    if b.manifest.Some? && History(b).value != [] {
      GenerationReadsBack(Latest(History(b).value));
    } else {
      var name := ClaimedName(b, a).value;
      assert name in DumpNames(b);
      NameReadsBack(name);
    }
  }

  /** An adopted claim is bounded in any case, and honest exactly when it is rightful. */
  lemma AdoptedClaim(cfg: Config, s: Site, a: Adoption)
    requires Orderly(cfg, s.bucket)
    ensures Adopted(cfg, s, a).bucket == s.bucket
    ensures Bounded(s.bucket, s.volume) ==> Bounded(s.bucket, Adopted(cfg, s, a).volume)
    ensures Honest(cfg, s.bucket, s.volume) ==>
              (Honest(cfg, s.bucket, Adopted(cfg, s, a).volume) <==> Rightful(cfg, s, a))
  {
    assert ReadSidecar(Some("")) == None;
    if Claims(cfg, s, a) {
      ClaimReadsBack(cfg, s.bucket, a);
    }
    hide ReadSidecar, Readable, ClaimText, Orderly, Listing;
  }

  lemma AdoptionKeepsClaims(cfg: Config, w: World, a: Action, w': World)
    requires Orderly(cfg, w.bucket) && a.Adopts? && Step(cfg, w, a, w')
    ensures w'.bucket == w.bucket && w'.volumes.Keys == w.volumes.Keys
    ensures forall u :: u in w.volumes && u != a.v ==> w'.volumes[u] == w.volumes[u]
    ensures Bounded(w.bucket, w.volumes[a.v]) ==> Bounded(w.bucket, w'.volumes[a.v])
    ensures Honest(cfg, w.bucket, w.volumes[a.v]) ==>
              (Honest(cfg, w.bucket, w'.volumes[a.v]) <==> Rightful(cfg, SiteOf(w, a.v), a.a))
  {
    AdoptedClaim(cfg, SiteOf(w, a.v), a.a);
    hide Adopted, Orderly, Bounded, Honest, Rightful;
  }

  lemma OtherStepsKeepClaims(cfg: Config, w: World, a: Action, w': World)
    requires (a.Wrote? || a.Lost?) && Step(cfg, w, a, w')
    ensures w'.bucket == w.bucket && w'.volumes.Keys == w.volumes.Keys
    ensures forall u :: u in w.volumes ==> KeepsClaim(cfg, w, w', u)
  {
    assert ReadSidecar(None) == None;
    hide Readable, ReadSidecar;
  }

  ghost predicate RightfulStep(cfg: Config, w: World, a: Action) {
    a.Adopts? && a.v in w.volumes ==> Rightful(cfg, SiteOf(w, a.v), a.a)
  }

  lemma StepKeepsOrderly(cfg: Config, w: World, a: Action, w': World)
    requires Orderly(cfg, w.bucket) && cfg.keep > 0 && Step(cfg, w, a, w')
    ensures Orderly(cfg, w'.bucket)
  {
    match a
    case Cycled(_, _, _) => CycleKeepsClaims(cfg, w, a, w');
    case Booted(_, _, _) => BootKeepsClaims(cfg, w, a, w');
    case _ =>
  }

  /** Whatever happens next, adoptions included, no recorded generation is beyond the
      current one. */
  lemma StepKeepsCoherent(cfg: Config, w: World, a: Action, w': World)
    requires Coherent(cfg, w) && cfg.keep > 0 && Step(cfg, w, a, w')
    ensures Coherent(cfg, w')
  {
    StepKeepsOrderly(cfg, w, a, w');
    match a
    case Cycled(_, _, _) =>
      CycleKeepsClaims(cfg, w, a, w');
      hide Bounded, Honest, Orderly, Step;
    case Booted(_, _, _) =>
      BootKeepsClaims(cfg, w, a, w');
      hide Bounded, Honest, Orderly, Step;
    case Adopts(_, _) =>
      AdoptionKeepsClaims(cfg, w, a, w');
      hide Bounded, Honest, Orderly, Step;
    case _ =>
      OtherStepsKeepClaims(cfg, w, a, w');
      hide Bounded, Honest, Orderly, Step;
  }

  /** Whatever happens next, a volume's claim stays honest, unless the volume itself
      adopts without descending from what it claims. */
  lemma StepKeepsHonest(cfg: Config, w: World, a: Action, w': World, u: nat)
    requires Orderly(cfg, w.bucket) && cfg.keep > 0 && Step(cfg, w, a, w')
    requires u in w.volumes && Honest(cfg, w.bucket, w.volumes[u])
    ensures u in w'.volumes
    ensures Honest(cfg, w'.bucket, w'.volumes[u]) <==> (a.v == u ==> RightfulStep(cfg, w, a))
  {
    match a
    case Cycled(_, _, _) =>
      CycleKeepsClaims(cfg, w, a, w');
      hide Bounded, Honest, Orderly, Step;
    case Booted(_, _, _) =>
      BootKeepsClaims(cfg, w, a, w');
      hide Bounded, Honest, Orderly, Step;
    case Adopts(_, _) =>
      AdoptionKeepsClaims(cfg, w, a, w');
      hide Bounded, Honest, Orderly, Step, Rightful;
    case _ =>
      OtherStepsKeepClaims(cfg, w, a, w');
      hide Bounded, Honest, Orderly, Step;
  }

  /** Every claim stays honest exactly when the step is not an adoption by a database
      that does not descend from what it claims. */
  lemma StepKeepsLineal(cfg: Config, w: World, a: Action, w': World)
    requires Lineal(cfg, w) && cfg.keep > 0 && Step(cfg, w, a, w')
    ensures Lineal(cfg, w') <==> RightfulStep(cfg, w, a)
  {
    StepKeepsOrderly(cfg, w, a, w');
    forall u | u in w.volumes
      ensures u in w'.volumes && (Honest(cfg, w'.bucket, w'.volumes[u]) <==> (a.v == u ==> RightfulStep(cfg, w, a)))
    {
      StepKeepsHonest(cfg, w, a, w', u);
    }
    SameVolumes(cfg, w, a, w');
    hide Honest, Orderly, Step, RightfulStep;
  }

  lemma SameVolumes(cfg: Config, w: World, a: Action, w': World)
    requires Step(cfg, w, a, w')
    ensures w'.volumes.Keys == w.volumes.Keys && a.v in w.volumes
  {
  }
}
