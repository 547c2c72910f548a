/** Referential integrity of the backup manifest at every point a cycle may stop. */
module BackupIntegrity {
  import opened Text
  import opened BackupManifest
  import opened BackupWorld
  import opened BackupTick

  ghost predicate AllBacked(b: Bucket, es: Entries) {
    forall i :: 0 <= i < |es| ==> es[i].name in b.dumps && |b.dumps[es[i].name]| == es[i].size
  }

  /** Every entry of the stored manifest names an existing object of the recorded size. */
  ghost predicate Backed(b: Bucket) {
    History(b).Some? ==> AllBacked(b, History(b).value)
  }

  predicate Absent(es: Entries, name: string) {
    forall i :: 0 <= i < |es| ==> es[i].name != name
  }

  /** The name of a new dump: timestamp and random suffix make it unused. */
  predicate FreshName(b: Bucket, name: string) {
    && IsDumpName(name) && CleanName(name) && name !in b.dumps
    && (History(b).Some? ==> Absent(History(b).value, name))
  }

  /** The one way a cycle breaks the integrity: its manifest takes effect although the
      dump's size was not measured, or although the request is taken to have failed, so
      that the dump it names is deleted again. */
  predicate Misled(cfg: Config, p: Plan, c: Cycle)
    requires NextGeneration(p.entries).Some?
  {
    && c.put.Stored? && !c.publish.Lost?
    && Utf8Len(Render(Retained(Extended(p, c), cfg.keep))) <= MAX_MANIFEST_BYTES
    && ((!c.sized && p.dump != []) || (c.publish.StoredUnacknowledged? && c.cleanup))
  }

  // ------------------------------------------------------------ small steps

  lemma ViewIsBacked(b: Bucket, fetched: bool, listed: bool, name: string)
    requires Backed(b) && FreshName(b, name) && View(b, fetched, listed).Some?
    ensures AllBacked(b, View(b, fetched, listed).value) && Absent(View(b, fetched, listed).value, name)
  {
    hide Readable, Listing, IsDumpName, CleanName;
    if b.manifest.None? {
      var r := Listing(b);
      forall i | 0 <= i < |r| ensures r[i].0 in b.dumps && r[i].0 != name && r[i].1 == |b.dumps[r[i].0]| {
        assert r[i].0 in DumpNames(b);
      }
    }
  }

  /** The manifest a cycle renders reads back as the retained entries. */
  lemma RenderedReadsBack(es: Entries)
    requires WellFormed(es) && Utf8Len(Render(es)) <= MAX_MANIFEST_BYTES
    ensures Readable(Render(es)) == Some(es)
  {
    hide Parse, Render, WellFormed, Utf8Len;
    RoundTrip(es);
  }

  lemma KeptIsWellFormed(cfg: Config, p: Plan, c: Cycle)
    requires WellFormed(p.entries) && NextGeneration(p.entries).Some? && CleanName(c.name) && Absent(p.entries, c.name)
    requires cfg.keep > 0
    ensures WellFormed(Extended(p, c)) && WellFormed(Retained(Extended(p, c), cfg.keep))
    ensures Retained(Extended(p, c), cfg.keep) != [] && Newest(Retained(Extended(p, c), cfg.keep)) == c.name
    ensures Latest(Retained(Extended(p, c), cfg.keep)) == Latest(p.entries) + 1
  {
    hide WellFormed, CleanName, Retained;
    PushAndRetain(p.entries, c.name, RecordedSize(p, c), cfg.keep);
  }

  lemma SuffixIsBacked(b: Bucket, es: Entries, keep: nat)
    requires AllBacked(b, es)
    ensures AllBacked(b, Retained(es, keep))
  {
    if |es| > keep {
      forall i | 0 <= i < keep ensures Retained(es, keep)[i] == es[|es| - keep + i] {
      }
    }
  }

  lemma RemovalKeepsBacked(b: Bucket, es: Entries, name: string)
    requires AllBacked(b, es) && Absent(es, name)
    ensures AllBacked(Remove(b, name), es)
  {
  }

  lemma {:induction false} PruningKeepsBacked(b: Bucket, es: Entries, evicted: Entries, deletions: nat -> bool, n: nat)
    requires AllBacked(b, es) && n <= |evicted|
    requires forall i :: 0 <= i < |evicted| ==> Absent(es, evicted[i].name)
    ensures var b' := PrunedTo(b, evicted, deletions, n);
            AllBacked(b', es) && (b'.manifest.None? || b'.manifest == b.manifest)
  {
    if n > 0 {
      PruningKeepsBacked(b, es, evicted, deletions, n - 1);
    }
  }

  // ---------------------------------------------------------- one cycle

  /** After a manifest of backed entries took effect, nothing the cycle does afterwards
      breaks the integrity. */
  lemma SettlingKeepsBacked(s: Site, es: Entries, generation: U64, dump: Bytes, evicted: Entries, c: Cycle)
    requires History(s.bucket) == Some(es) && AllBacked(s.bucket, es)
    requires forall i :: 0 <= i < |evicted| ==> Absent(es, evicted[i].name)
    ensures forall t :: t in PublishedTrace(s, generation, dump, evicted, c) ==> Backed(t.bucket)
  {
    hide GenerationText, Readable, AllBacked, Absent;
    var recorded := WithSidecar(s, generation, c);
    var retained := WithRetained(recorded, dump, c);
    forall i | 0 <= i < |evicted| ensures Backed(PruneTrace(retained, evicted, c.deletions, |evicted|)[i].bucket) {
      PruningKeepsBacked(s.bucket, es, evicted, c.deletions, i + 1);
    }
  }

  lemma EvictedAreAbsent(es: Entries, keep: nat)
    requires WellFormed(es)
    ensures forall i :: 0 <= i < |Evicted(es, keep)| ==> Absent(Retained(es, keep), Evicted(es, keep)[i].name)
  {
    hide WellFormed, Retained, Evicted;
    RetainedSplits(es, keep);
  }

  lemma StoredManifestIsBacked(cfg: Config, s: Site, p: Plan, c: Cycle)
    requires WellFormed(p.entries) && NextGeneration(p.entries).Some? && CleanName(c.name) && Absent(p.entries, c.name)
    requires cfg.keep > 0
    requires AllBacked(s.bucket, p.entries) && c.name in s.bucket.dumps && s.bucket.dumps[c.name] == p.dump
    requires Utf8Len(Render(Retained(Extended(p, c), cfg.keep))) <= MAX_MANIFEST_BYTES && !c.publish.Lost?
    ensures var es := Retained(Extended(p, c), cfg.keep);
            var b := WithManifest(s, Render(es), c).bucket;
            && History(b) == Some(es)
            && (AllBacked(b, es) <==> (c.sized || p.dump == []))
            && es != [] && es[|es| - 1] == Entry(Latest(p.entries) + 1, c.name, RecordedSize(p, c))
  {
    hide WellFormed, CleanName, Retained, Render, Readable, Utf8Len;
    var es := Retained(Extended(p, c), cfg.keep);
    PushAndRetain(p.entries, c.name, RecordedSize(p, c), cfg.keep);
    RenderedReadsBack(es);
    var b := WithManifest(s, Render(es), c).bucket;
    if c.sized || p.dump == [] {
      ExtendedIsBacked(s.bucket, p, c);
      SuffixIsBacked(s.bucket, Extended(p, c), cfg.keep);
    } else {
      assert es[|es| - 1].size == 0 && |b.dumps[es[|es| - 1].name]| != 0;
    }
  }

  lemma ExtendedIsBacked(b: Bucket, p: Plan, c: Cycle)
    requires NextGeneration(p.entries).Some? && AllBacked(b, p.entries)
    requires c.name in b.dumps && b.dumps[c.name] == p.dump && (c.sized || p.dump == [])
    ensures AllBacked(b, Extended(p, c))
  {
  }

  lemma UndoingKeepsBacked(s: Site, c: Cycle)
    requires Backed(s.bucket) && IsDumpName(c.name)
    requires History(s.bucket).Some? ==> Absent(History(s.bucket).value, c.name)
    ensures Backed(CleanedUp(s, c).bucket)
  {
    hide Readable;
    if History(s.bucket).Some? {
      RemovalKeepsBacked(s.bucket, History(s.bucket).value, c.name);
    }
  }

  lemma PublishingKeepsBacked(cfg: Config, s: Site, p: Plan, c: Cycle)
    requires WellFormed(p.entries) && NextGeneration(p.entries).Some? && CleanName(c.name) && IsDumpName(c.name)
    requires Absent(p.entries, c.name) && cfg.keep > 0 && c.put.Stored?
    requires AllBacked(s.bucket, p.entries) && c.name in s.bucket.dumps && s.bucket.dumps[c.name] == p.dump
    requires Backed(s.bucket) && (History(s.bucket).Some? ==> Absent(History(s.bucket).value, c.name))
    ensures (forall t :: t in PublishingTrace(cfg, s, p, c) ==> Backed(t.bucket)) <==> !Misled(cfg, p, c)
  {
    var es := Retained(Extended(p, c), cfg.keep);
    var trace := PublishingTrace(cfg, s, p, c);
    UndoingKeepsBacked(s, c);
    if Utf8Len(Render(es)) <= MAX_MANIFEST_BYTES && !c.publish.Lost? {
      StoredManifestIsBacked(cfg, s, p, c);
      KeptIsWellFormed(cfg, p, c);
      EvictedAreAbsent(Extended(p, c), cfg.keep);
      hide Render, Utf8Len, Retained, Evicted, Readable, IsDumpName, WellFormed, PublishedTrace;
      var published := WithManifest(s, Render(es), c);
      assert published in trace;
      if c.publish.Stored? && AllBacked(published.bucket, es) {
        SettlingKeepsBacked(published, es, NextGeneration(p.entries).value, p.dump, Evicted(Extended(p, c), cfg.keep),
                            c);
      }
      if c.publish.StoredUnacknowledged? {
        var undone := CleanedUp(published, c);
        assert undone in trace && History(undone.bucket) == Some(es);
        assert c.cleanup ==> es[|es| - 1].name !in undone.bucket.dumps;
      }
    } else {
      hide Render, Utf8Len, Retained, Evicted, Readable;
    }
  }

  /** Integrity at every crash point of one cycle: every state it passes through backs
      every entry of the manifest stored in it, exactly when it is not misled. */
  lemma TickKeepsBacked(cfg: Config, s: Site, c: Cycle)
    requires Backed(s.bucket) && CleanNames(s.bucket) && FreshName(s.bucket, c.name) && cfg.keep > 0
    ensures (forall t :: t in Trace(cfg, s, c) ==> Backed(t.bucket))
            <==> (Planned(cfg, s, c).Some? ==> !Misled(cfg, Planned(cfg, s, c).value, c))
  {
    hide Readable, WellFormed, CleanName, IsDumpName, PublishingTrace, Render, Utf8Len, View, Resolve, Proceeds,
      ReadSidecar, Listing;
    if Planned(cfg, s, c).Some? {
      var p := Planned(cfg, s, c).value;
      ViewIsWellFormed(s.bucket, c.fetched, c.listed);
      ViewIsBacked(s.bucket, c.fetched, c.listed, c.name);
      var uploaded := WithDump(s, p, c);
      assert AllBacked(uploaded.bucket, p.entries) && Backed(uploaded.bucket);
      if c.put.Stored? {
        PublishingKeepsBacked(cfg, uploaded, p, c);
      }
    }
  }

  /** A cycle whose manifest does not take effect, because it is too large or its request
      is lost, takes its dump back: the bucket ends as it was, and so do the volume's
      records. */
  lemma FailedCycleIsUndone(cfg: Config, s: Site, c: Cycle)
    requires Planned(cfg, s, c).Some? && FreshName(s.bucket, c.name) && c.put.Stored? && c.cleanup
    requires c.publish.Lost?
             || Utf8Len(Render(Retained(Extended(Planned(cfg, s, c).value, c), cfg.keep))) > MAX_MANIFEST_BYTES
    ensures var trace := Trace(cfg, s, c);
            && trace != [] && trace[|trace| - 1].bucket == s.bucket
            && trace[|trace| - 1].volume == s.volume.(db := trace[|trace| - 1].volume.db)
  {
    NotADump();
    hide Planned, IsDumpName, CleanName, Readable, Render, Utf8Len, Retained, Extended;
    var uploaded := WithDump(s, Planned(cfg, s, c).value, c);
    assert Remove(uploaded.bucket, c.name).dumps == s.bucket.dumps;
  }

  // --------------------------------------------------------- error-free cycles

  function Names(es: Entries): set<string> {
    set i | 0 <= i < |es| :: es[i].name
  }

  /** No manifest, or one that names exactly the dumps the bucket holds. */
  ghost predicate Exact(b: Bucket) {
    b.manifest.Some? ==> History(b).Some? && DumpNames(b) == Names(History(b).value)
  }

  ghost predicate Flawless(c: Cycle) {
    c.put.Stored? && c.publish.Stored? && c.cleanup && forall n: nat :: c.deletions(n)
  }

  lemma ViewIsExact(b: Bucket, fetched: bool, listed: bool)
    requires Exact(b) && View(b, fetched, listed).Some?
    ensures Names(View(b, fetched, listed).value) == DumpNames(b)
  {
    hide Readable, Listing, IsDumpName;
    if b.manifest.None? {
      var r := Listing(b);
      var es := FromListing(r);
      forall name | name in DumpNames(b) ensures name in Names(es) {
        var i :| 0 <= i < |r| && r[i].0 == name;
        assert es[i].name == name;
      }
    }
  }

  lemma {:induction false} PrunedNames(b: Bucket, evicted: Entries, deletions: nat -> bool, n: nat)
    requires n <= |evicted| && (forall i: nat :: deletions(i))
    requires forall i :: 0 <= i < |evicted| ==> IsDumpName(evicted[i].name)
    ensures var b' := PrunedTo(b, evicted, deletions, n);
            b'.manifest == b.manifest && DumpNames(b') == DumpNames(b) - Names(evicted[..n])
  {
    hide IsDumpName, DumpNames, Names, Remove;
    if n == 0 {
      assert Names(evicted[..0]) == {} by { NoNames(evicted); }
    } else {
      PrunedNames(b, evicted, deletions, n - 1);
      NotADump();
      RemovedName(PrunedTo(b, evicted, deletions, n - 1), evicted[n - 1].name);
      OneMoreName(evicted, n);
    }
  }

  lemma NoNames(es: Entries)
    ensures Names(es[..0]) == {}
  {
  }

  lemma RemovedName(b: Bucket, name: string)
    requires name != "manifest"
    ensures Remove(b, name).manifest == b.manifest && DumpNames(Remove(b, name)) == DumpNames(b) - {name}
  {
    hide IsDumpName;
  }

  lemma OneMoreName(es: Entries, n: nat)
    requires 0 < n <= |es|
    ensures Names(es[..n]) == Names(es[..n - 1]) + {es[n - 1].name}
  {
    var front := es[..n - 1];
    assert forall i :: 0 <= i < |front| ==> es[..n][i] == front[i];
    assert es[..n][n - 1] == es[n - 1];
  }

  lemma NamesConcat(a: Entries, b: Entries)
    ensures Names(a + b) == Names(a) + Names(b)
  {
    forall i | 0 <= i < |a| ensures a[i].name in Names(a + b) {
      assert (a + b)[i] == a[i];
    }
    forall i | 0 <= i < |b| ensures b[i].name in Names(a + b) {
      assert (a + b)[|a| + i] == b[i];
    }
  }

  lemma SplitNames(es: Entries, keep: nat)
    requires WellFormed(es)
    ensures Names(Retained(es, keep)) == Names(es) - Names(Evicted(es, keep))
  {
    RetainedSplits(es, keep);
    hide WellFormed, Retained, Evicted;
    NamesConcat(Evicted(es, keep), Retained(es, keep));
  }

  lemma LastPublished(s: Site, generation: U64, dump: Bytes, evicted: Entries, c: Cycle)
    ensures var trace := PublishedTrace(s, generation, dump, evicted, c);
            trace != [] && trace[|trace| - 1].bucket == PrunedTo(s.bucket, evicted, c.deletions, |evicted|)
  {
    hide GenerationText;
    var pruned := PruneTrace(WithRetained(WithSidecar(s, generation, c), dump, c), evicted, c.deletions, |evicted|);
    if evicted != [] {
      assert PublishedTrace(s, generation, dump, evicted, c)[2 + |evicted|] == pruned[|evicted| - 1];
    }
  }

  lemma DumpNamesAfterUpload(s: Site, p: Plan, c: Cycle)
    requires IsDumpName(c.name) && c.put.Stored?
    ensures DumpNames(WithDump(s, p, c).bucket) == DumpNames(s.bucket) + {c.name}
  {
  }

  lemma ExtendedNames(p: Plan, c: Cycle)
    requires NextGeneration(p.entries).Some?
    ensures Names(Extended(p, c)) == Names(p.entries) + {c.name}
  {
    var all := Extended(p, c);
    assert all[|p.entries|].name == c.name;
    forall i | 0 <= i < |p.entries| ensures all[i].name in Names(p.entries) && p.entries[i].name in Names(all) {
      assert all[i] == p.entries[i];
    }
  }

  lemma UndoingIsExact(s: Site, p: Plan, c: Cycle)
    requires Absent(p.entries, c.name) && Flawless(c) && IsDumpName(c.name)
    requires DumpNames(s.bucket) == Names(p.entries) + {c.name}
    requires s.bucket.manifest.Some? ==> History(s.bucket).Some? && Names(History(s.bucket).value) == Names(p.entries)
    ensures Exact(CleanedUp(s, c).bucket)
  {
    NotADump();
    hide IsDumpName, Readable;
    assert c.name !in Names(p.entries);
    assert DumpNames(CleanedUp(s, c).bucket) == Names(p.entries);
  }

  lemma EvictedAreDumps(b: Bucket, es: Entries, keep: nat)
    requires WellFormed(es) && DumpNames(b) == Names(es)
    ensures forall i :: 0 <= i < |Evicted(es, keep)| ==> IsDumpName(Evicted(es, keep)[i].name)
  {
    RetainedSplits(es, keep);
    var kept, gone := Retained(es, keep), Evicted(es, keep);
    hide WellFormed, Retained, Evicted, IsDumpName;
    forall i | 0 <= i < |gone| ensures IsDumpName(gone[i].name) {
      assert (gone + kept)[i] == gone[i];
      assert gone[i].name in Names(es);
      assert gone[i].name in DumpNames(b);
    }
  }

  /** Pruning everything evicted leaves the dumps the published manifest names. */
  lemma SettlingIsExact(s: Site, all: Entries, keep: nat, generation: U64, dump: Bytes, c: Cycle)
    requires WellFormed(all) && DumpNames(s.bucket) == Names(all) && History(s.bucket) == Some(Retained(all, keep))
    requires Flawless(c)
    ensures var trace := PublishedTrace(s, generation, dump, Evicted(all, keep), c);
            trace != [] && Exact(trace[|trace| - 1].bucket)
  {
    var gone := Evicted(all, keep);
    SplitNames(all, keep);
    EvictedAreDumps(s.bucket, all, keep);
    LastPublished(s, generation, dump, gone, c);
    hide WellFormed, Retained, Evicted, IsDumpName, Readable, PublishedTrace;
    PrunedNames(s.bucket, gone, c.deletions, |gone|);
    assert gone[..|gone|] == gone;
  }

  lemma PublishingIsExact(cfg: Config, s: Site, p: Plan, c: Cycle)
    requires WellFormed(p.entries) && NextGeneration(p.entries).Some? && CleanName(c.name) && IsDumpName(c.name)
    requires Absent(p.entries, c.name) && cfg.keep > 0 && Flawless(c)
    requires DumpNames(s.bucket) == Names(p.entries) + {c.name}
    requires s.bucket.manifest.Some? ==> History(s.bucket).Some? && Names(History(s.bucket).value) == Names(p.entries)
    ensures var trace := PublishingTrace(cfg, s, p, c); Exact(trace[|trace| - 1].bucket)
  {
    var all := Extended(p, c);
    var es := Retained(all, cfg.keep);
    KeptIsWellFormed(cfg, p, c);
    ExtendedNames(p, c);
    hide CleanName, Retained, Evicted, Readable, Render, Utf8Len, PublishedTrace, WellFormed, IsDumpName, Extended;
    if Utf8Len(Render(es)) > MAX_MANIFEST_BYTES {
      UndoingIsExact(s, p, c);
    } else {
      RenderedReadsBack(es);
      var published := WithManifest(s, Render(es), c);
      assert DumpNames(published.bucket) == DumpNames(s.bucket);
      SettlingIsExact(published, all, cfg.keep, NextGeneration(p.entries).value, p.dump, c);
    }
  }

  /** A cycle without failures ends with a bucket whose dumps are exactly the names in
      its manifest, whenever it began with one, or with no manifest at all. */
  lemma FlawlessTickIsExact(cfg: Config, s: Site, c: Cycle)
    requires Exact(s.bucket) && CleanNames(s.bucket) && FreshName(s.bucket, c.name) && cfg.keep > 0 && Flawless(c)
    ensures var trace := Trace(cfg, s, c); Exact(StateAfter(s, trace, |trace|).bucket)
  {
    hide Readable, WellFormed, CleanName, IsDumpName, PublishingTrace, Render, Utf8Len, View, Resolve, Proceeds,
      ReadSidecar, Listing;
    if Planned(cfg, s, c).Some? {
      var p := Planned(cfg, s, c).value;
      ViewIsWellFormed(s.bucket, c.fetched, c.listed);
      ViewIsExact(s.bucket, c.fetched, c.listed);
      var uploaded := WithDump(s, p, c);
      DumpNamesAfterUpload(s, p, c);
      assert c.name !in DumpNames(s.bucket);
      assert Absent(p.entries, c.name) by {
        forall i | 0 <= i < |p.entries| ensures p.entries[i].name != c.name {
          assert p.entries[i].name in Names(p.entries);
        }
      }
      PublishingIsExact(cfg, uploaded, p, c);
    }
  }
}
