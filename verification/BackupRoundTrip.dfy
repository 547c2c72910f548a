/** What a cycle without failures achieves: the dump is the current backup, a repeated
    cycle has nothing to do, and a volume lost afterwards comes back with it. */
module BackupRoundTrip {
  import opened Text
  import opened BackupManifest
  import opened BackupWorld
  import opened BackupTick
  import opened BackupIntegrity
  import opened BackupRestore
  import opened BackupLineage
  import opened BackupHistory
  import opened BackupSkips

  /** Nothing fails, and the manifest fits the cap. */
  ghost predicate Succeeds(cfg: Config, p: Plan, c: Cycle)
    requires NextGeneration(p.entries).Some?
  {
    && c.put.Stored? && c.publish.Stored? && c.sized && c.recorded.Written? && c.renamed
    && Utf8Len(Render(Retained(Extended(p, c), cfg.keep))) <= MAX_MANIFEST_BYTES
  }

  /** The dump is the bucket's current backup and this volume's own. */
  ghost predicate Current(s: Site, name: string, dump: Bytes) {
    && History(s.bucket).Some? && History(s.bucket).value != []
    && var e := History(s.bucket).value[|History(s.bucket).value| - 1];
    && e.name == name && e.size == |dump| && name in s.bucket.dumps && s.bucket.dumps[name] == dump
    && s.volume.sidecar == Some(GenerationText(e.generation)) && s.volume.last == Some(dump)
  }

  lemma SettledVolume(s: Site, generation: U64, dump: Bytes, evicted: Entries, c: Cycle)
    requires c.recorded.Written? && c.renamed
    ensures var trace := PublishedTrace(s, generation, dump, evicted, c);
            trace != []
            && trace[|trace| - 1].volume == s.volume.(sidecar := Some(GenerationText(generation)), last := Some(dump))
  {
    hide GenerationText;
    var retained := WithRetained(WithSidecar(s, generation, c), dump, c);
    var pruned := PruneTrace(retained, evicted, c.deletions, |evicted|);
    if evicted != [] {
      assert PublishedTrace(s, generation, dump, evicted, c)[2 + |evicted|] == pruned[|evicted| - 1];
    }
  }

  lemma NewestEntry(cfg: Config, p: Plan, c: Cycle)
    requires WellFormed(p.entries) && NextGeneration(p.entries).Some? && CleanName(c.name) && Absent(p.entries, c.name)
    requires cfg.keep > 0
    ensures var kept := Retained(Extended(p, c), cfg.keep);
            kept != [] && kept[|kept| - 1] == Entry(NextGeneration(p.entries).value, c.name, RecordedSize(p, c))
  {
    hide WellFormed, CleanName, Retained;
    PushAndRetain(p.entries, c.name, RecordedSize(p, c), cfg.keep);
  }

  lemma SettledIsCurrent(cfg: Config, s: Site, p: Plan, c: Cycle, published: Site)
    requires CanAdvance(cfg, s, p, c) && Succeeds(cfg, p, c)
    requires History(published.bucket) == Some(Retained(Extended(p, c), cfg.keep))
    requires c.name in published.bucket.dumps && published.bucket.dumps[c.name] == p.dump
    ensures var trace :=
            PublishedTrace(published, NextGeneration(p.entries).value, p.dump, Evicted(Extended(p, c), cfg.keep), c);
            && trace != [] && Current(trace[|trace| - 1], c.name, p.dump)
            && History(trace[|trace| - 1].bucket) == Some(Retained(Extended(p, c), cfg.keep))
  {
    var evicted := Evicted(Extended(p, c), cfg.keep);
    var generation := NextGeneration(p.entries).value;
    EvictedIsNotTheManifest(cfg, s, p, c);
    NewIsNotEvicted(cfg, s, p, c);
    NewestEntry(cfg, p, c);
    hide GenerationText, Readable, Extended, Evicted, Retained, Absent, WellFormed, CleanName, IsDumpName,
      PublishedTrace;
    SettledVolume(published, generation, p.dump, evicted, c);
    LastPublished(published, generation, p.dump, evicted, c);
    PruningOnlyRemoves(published.bucket, evicted, c.deletions, |evicted|);
    PruningSpares(published.bucket, evicted, c.deletions, |evicted|, c.name);
  }

  lemma PublishingIsCurrent(cfg: Config, s: Site, p: Plan, c: Cycle)
    requires CanAdvance(cfg, s, p, c) && Succeeds(cfg, p, c)
    ensures var trace := PublishingTrace(cfg, WithDump(s, p, c), p, c);
            && Current(trace[|trace| - 1], c.name, p.dump)
            && History(trace[|trace| - 1].bucket) == Some(Retained(Extended(p, c), cfg.keep))
  {
    var es := Retained(Extended(p, c), cfg.keep);
    KeptIsWellFormed(cfg, p, c);
    hide WellFormed, Render, Readable, Retained, Evicted, Extended, GenerationText, PublishedTrace, CleanName,
      IsDumpName, Utf8Len;
    RenderedReadsBack(es);
    SettledIsCurrent(cfg, s, p, c, WithManifest(WithDump(s, p, c), Render(es), c));
  }

  /** A cycle that has something to upload and meets no failure ends with its dump as
      the bucket's current backup, recorded and retained by the volume. */
  lemma SuccessIsCurrent(cfg: Config, w: World, v: nat, c: Cycle)
    requires Orderly(cfg, w.bucket) && cfg.keep > 0 && v in w.volumes && UnusedName(w, c.name)
    requires Planned(cfg, SiteOf(w, v), c).Some? && Succeeds(cfg, Planned(cfg, SiteOf(w, v), c).value, c)
    ensures var s := SiteOf(w, v);
            var trace := Trace(cfg, s, c);
            var end := StateAfter(s, trace, |trace|);
            && Current(end, c.name, Planned(cfg, s, c).value.dump)
            && History(end.bucket) == Some(Retained(Extended(Planned(cfg, s, c).value, c), cfg.keep))
  {
    hide Planned, PublishingTrace, Orderly, FreshName, Readable, Current, Records;
    var s, p := SiteOf(w, v), Planned(cfg, SiteOf(w, v), c).value;
    CanAdvanceFrom(cfg, w, v, c);
    PublishingIsCurrent(cfg, s, p, c);
  }

  lemma CurrentGeneration(b: Bucket, vol: Volume, e: Entry)
    requires History(b).Some? && History(b).value != [] && History(b).value[|History(b).value| - 1] == e
    requires vol.sidecar == Some(GenerationText(e.generation))
    ensures Resolve(ReadSidecar(vol.sidecar), History(b).value) == Some(Latest(History(b).value))
    ensures Latest(History(b).value) > 0
    ensures !Behind(b, vol)
  {
    HistoryIsWellFormed(b);
    hide Readable, ReadSidecar, GenerationText, CleanName;
    GenerationReadsBack(e.generation);
  }

  /** A quiet database uploads nothing: as long as its dump is the current backup, every
      further cycle that takes the same dump and can compare it has no effect. */
  lemma QuietCycleDoesNothing(cfg: Config, s: Site, c: Cycle, name: string, dump: Bytes)
    requires Current(s, name, dump) && c.dump == Some(dump) && c.comparable
    ensures Trace(cfg, s, c) == []
  {
    hide Readable, ReadSidecar, Resolve, GenerationText, Effects;
    CurrentGeneration(s.bucket, s.volume, History(s.bucket).value[|History(s.bucket).value| - 1]);
  }

  /** The first candidate is fetched, checked, linked and recorded. */
  predicate FirstTrySucceeds(r: Recovery) {
    && r.enabled && r.connected && r.fetched
    && var t := r.tries(0);
    !t.stop && t.swept && t.delivered && t.private && t.linked && t.recorded.Written?
  }

  lemma FirstCandidate(es: Entries)
    requires es != []
    ensures NewestFirst(es) != []
    ensures var e := es[|es| - 1]; NewestFirst(es)[0] == Candidate(e.name, e.size, Some(e.generation))
  {
  }

  /** Backup round trip: when the volume is lost while its dump is the current backup, a
      restore whose transfer succeeds brings back exactly the dump, and the restored
      volume may go on extending the history. */
  lemma BackupRoundTrip(cfg: Config, s: Site, r: Recovery, name: string, dump: Bytes)
    requires Current(s, name, dump) && FirstTrySucceeds(r) && cfg.usable(dump) && |dump| <= MAX_DB_OBJECT_BYTES
    ensures var lost := Site(s.bucket, Volume(None, None, None));
            var out := Restore(cfg, lost, r);
            && out.outcome == Ready && out.imported == Some(0) && out.trace != []
            && var back := out.trace[|out.trace| - 1];
               && back.bucket == s.bucket && back.volume.db == Some(Db(dump, {name}))
               && !Behind(back.bucket, back.volume)
  {
    var es := History(s.bucket).value;
    var e := es[|es| - 1];
    FirstCandidate(es);
    hide Readable, GenerationText, NewestFirst, Behind;
    var lost := Site(s.bucket, Volume(None, None, None));
    var cs := Candidates(s.bucket, r).value;
    var c := Candidate(name, |dump|, Some(e.generation));
    assert cs[0] == c && Delivered(s.bucket, c, r.tries(0)) == Some(dump);
    var a := TryOne(cfg, lost, c, r.tries(0));
    assert a.verdict == Imported && a.trace == [Linked(lost, c, dump), Lineaged(Linked(lost, c, dump), c, r.tries(0))];
    CurrentGeneration(s.bucket, a.trace[1].volume, e);
  }

  // ------------------------------------------------------- a fresh deployment

  /** An empty bucket, and volumes that have never pushed or restored anything. */
  ghost predicate Fresh(w: World) {
    && w.bucket == Bucket(None, map[])
    && forall v :: v in w.volumes ==>
         w.volumes[v].sidecar.None? && w.volumes[v].last.None?
         && (w.volumes[v].db.Some? ==> w.volumes[v].db.value.ancestors == {})
  }

  /** A name as the timestamp yields it. */
  predicate Stamped(name: string) {
    IsDumpName(name) && CleanName(name) && '/' !in name && |name| <= 40 && forall c :: c in name ==> c < '\U{0080}'
  }

  /** Every guard passes, the dump is taken, and nothing fails. */
  ghost predicate GoesWell(cfg: Config, c: Cycle) {
    && !c.stop && c.connected && c.fetched && c.listed && c.swept && c.private && c.sized
    && c.dump.Some? && cfg.empty(c.dump.value) != Some(true)
    && c.put.Stored? && c.publish.Stored? && c.recorded.Written? && c.renamed
  }

  lemma FreshIsLineal(cfg: Config, w: World)
    requires Fresh(w)
    ensures Lineal(cfg, w) && Coherent(cfg, w) && AllFaithful(cfg, w) && Backed(w.bucket) && Exact(w.bucket)
  {
    assert ReadSidecar(None) == None;
    assert DumpNames(w.bucket) == {};
    hide Readable, ReadSidecar, IsDumpName, CleanName;
  }

  lemma FreshView()
    ensures View(Bucket(None, map[]), true, true) == Some([])
  {
    var b := Bucket(None, map[]);
    assert DumpNames(b) == {};
    assert Listing(b) == [];
  }

  lemma FreshPlan(cfg: Config, w: World, v: nat, c: Cycle)
    requires Fresh(w) && v in w.volumes && Empty(cfg, w.volumes[v]) == Some(false) && GoesWell(cfg, c)
    ensures Planned(cfg, SiteOf(w, v), c) == Some(Plan([], c.dump.value))
  {
    FreshView();
    hide View, ReadSidecar;
  }

  lemma FirstManifestFits(cfg: Config, p: Plan, c: Cycle)
    requires p.entries == [] && cfg.keep > 0 && Stamped(c.name)
    ensures Utf8Len(Render(Retained(Extended(p, c), cfg.keep))) <= MAX_MANIFEST_BYTES
  {
    hide Render, Utf8Len, IsDumpName, CleanName;
    ManifestFitsTheCap(Retained(Extended(p, c), cfg.keep));
  }

  /** The first backup of a fresh deployment: the world is honest, faithful and backed,
      and a cycle on any volume with data that meets no failure is a step of the
      history which changes the stored manifest and ends with its dump current. */
  lemma FirstBackup(cfg: Config, w: World, v: nat, c: Cycle)
    requires Fresh(w) && v in w.volumes && Empty(cfg, w.volumes[v]) == Some(false) && cfg.keep > 0
    requires GoesWell(cfg, c) && Stamped(c.name)
    ensures Lineal(cfg, w) && Coherent(cfg, w) && AllFaithful(cfg, w) && Backed(w.bucket) && Exact(w.bucket)
    ensures var s := SiteOf(w, v);
            var k := |Trace(cfg, s, c)|;
            var end := StateAfter(s, Trace(cfg, s, c), k);
            && Step(cfg, w, Cycled(v, c, k), WithSite(w, v, end)) && Careful(cfg, w, Cycled(v, c, k))
            && end.bucket.manifest != w.bucket.manifest && Current(end, c.name, c.dump.value)
  {
    FreshIsLineal(cfg, w);
    FreshPlan(cfg, w, v, c);
    var s, p := SiteOf(w, v), Plan([], c.dump.value);
    FirstManifestFits(cfg, p, c);
    TraceIsLong(cfg, s, c);
    hide Planned, Effects, Lineal, AllFaithful, Current, IsDumpName, CleanName, Readable, Render, Utf8Len,
      PublishingTrace;
    assert UnusedName(w, c.name);
    SuccessIsCurrent(cfg, w, v, c);
    CurrentIsStored(StateAfter(s, Trace(cfg, s, c), |Trace(cfg, s, c)|), c.name, c.dump.value);
  }

  lemma CurrentIsStored(s: Site, name: string, dump: Bytes)
    requires Current(s, name, dump)
    ensures s.bucket.manifest.Some?
  {
    hide Readable;
  }

  lemma TraceIsLong(cfg: Config, s: Site, c: Cycle)
    requires Planned(cfg, s, c).Some? && Succeeds(cfg, Planned(cfg, s, c).value, c)
    ensures |Trace(cfg, s, c)| >= 4
  {
    hide Planned, Render, Utf8Len, Retained, Evicted, Extended, GenerationText;
  }
}
