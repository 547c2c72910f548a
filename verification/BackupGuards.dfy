/** What one cycle does, without its own vocabulary: which cycles act at all, and where
    the bucket and the volume are after one that runs to its end. */
module BackupGuards {
  import opened Requests
  import opened Text
  import opened BackupManifest
  import opened BackupWorld
  import opened BackupTick

  // ------------------------------------------------------------- the history

  /** The dumps of a bucket without a manifest, numbered in ascending name order. */
  ghost predicate Numbered(b: Bucket, es: Entries) {
    && (forall i :: 0 <= i < |es| ==>
          && es[i].name in b.dumps && "sqlite-" <= es[i].name && EndsWith(es[i].name, ".sqlite3")
          && es[i].generation == i + 1 && es[i].size == |b.dumps[es[i].name]|)
    && (forall i, j :: 0 <= i < j < |es| ==> es[i].name != es[j].name && Le(es[i].name, es[j].name))
    && (forall name :: name in b.dumps && "sqlite-" <= name && EndsWith(name, ".sqlite3") ==>
          exists i :: 0 <= i < |es| && es[i].name == name)
  }

  /** The cycle learns this history: what a stored manifest of at most 256 KiB says, and
      for a bucket without one what a listing of at most ten thousand objects shows. */
  ghost predicate Learns(b: Bucket, fetched: bool, listed: bool, es: Entries) {
    && fetched
    && match b.manifest {
         case Some(text) => Utf8Len(text) <= 262_144 && Parse(text) == Some(es)
         case None => listed && |b.dumps| <= 10_000 && Numbered(b, es)
       }
  }

  predicate Lists(b: Bucket, es: Entries) {
    Listable(b) && es == FromListing(Listing(b))
  }

  lemma ListingCovers(b: Bucket, es: Entries, name: string)
    requires Lists(b, es) && name in b.dumps && "sqlite-" <= name && EndsWith(name, ".sqlite3")
    ensures exists i :: 0 <= i < |es| && es[i].name == name
  {
    hide Listing, EndsWith;
    assert name in DumpNames(b);
    var i :| 0 <= i < |Listing(b)| && Listing(b)[i].0 == name;
    assert es[i].name == name;
  }

  lemma ListingNames(b: Bucket, es: Entries, i: nat)
    requires Lists(b, es) && i < |es|
    ensures es[i].name in b.dumps && "sqlite-" <= es[i].name && EndsWith(es[i].name, ".sqlite3")
    ensures es[i].generation == i + 1 && es[i].size == |b.dumps[es[i].name]|
  {
    hide Listing, EndsWith;
    assert Listing(b)[i].0 in DumpNames(b);
  }

  lemma ListingOrders(b: Bucket, es: Entries, i: nat, j: nat)
    requires Lists(b, es) && i < j < |es|
    ensures es[i].name != es[j].name && Le(es[i].name, es[j].name)
  {
    ListingAscends(b);
    hide Listing, Le, DumpNames;
  }

  lemma ListingIsNumbered(b: Bucket, es: Entries)
    requires Lists(b, es)
    ensures Numbered(b, es)
  {
    hide Lists, EndsWith, Le;
    forall i | 0 <= i < |es|
      ensures es[i].name in b.dumps && "sqlite-" <= es[i].name && EndsWith(es[i].name, ".sqlite3")
      ensures es[i].generation == i + 1 && es[i].size == |b.dumps[es[i].name]|
    {
      ListingNames(b, es, i);
    }
    forall i, j | 0 <= i < j < |es| ensures es[i].name != es[j].name && Le(es[i].name, es[j].name) {
      ListingOrders(b, es, i, j);
    }
    forall name | name in b.dumps && "sqlite-" <= name && EndsWith(name, ".sqlite3")
      ensures exists i :: 0 <= i < |es| && es[i].name == name
    {
      ListingCovers(b, es, name);
    }
  }

  lemma NumberedIsUnique(b: Bucket, a: Entries, es: Entries)
    requires Numbered(b, a) && Numbered(b, es)
    ensures a == es
  {
    hide EndsWith, Le;
    NumberedNames(b, a);
    NumberedNames(b, es);
    forall i | 0 <= i < |a| ensures a[i] == es[i] {
      assert a[i].name == es[i].name;
    }
  }

  lemma NumberedNames(b: Bucket, es: Entries)
    requires Numbered(b, es)
    ensures |es| == |DumpNames(b)| && forall i :: 0 <= i < |es| ==> es[i].name == Sorted(DumpNames(b))[i]
  {
    hide EndsWith, Le, Sorted;
    var names := seq(|es|, i requires 0 <= i < |es| => es[i].name);
    Distinct(names);
    assert (set i | 0 <= i < |names| :: names[i]) == DumpNames(b) by {
      forall name | name in DumpNames(b) ensures name in set i | 0 <= i < |names| :: names[i] {
        var i :| 0 <= i < |es| && es[i].name == name;
        assert names[i] == name;
      }
    }
    AscendingIsSorted(DumpNames(b), names);
  }

  lemma NumberedIsFewer(b: Bucket)
    ensures |DumpNames(b)| <= |b.dumps|
  {
    assert DumpNames(b) <= b.dumps.Keys;
    FewerNames(DumpNames(b), b.dumps.Keys);
    assert |b.dumps.Keys| == |b.dumps|;
  }

  lemma FewerNames(a: set<string>, s: set<string>)
    requires a <= s
    ensures |a| <= |s|
  {
    assert s == a + (s - a);
  }

  lemma HistoryIsLearned(b: Bucket, fetched: bool, listed: bool, es: Entries)
    ensures View(b, fetched, listed) == Some(es) <==> Learns(b, fetched, listed, es)
  {
    hide Listing, Numbered, DumpNames, Parse, Utf8Len;
    if b.manifest.None? {
      NumberedIsFewer(b);
      if Listable(b) {
        ListingIsNumbered(b, FromListing(Listing(b)));
        if Numbered(b, es) {
          NumberedIsUnique(b, es, FromListing(Listing(b)));
        }
      }
    }
  }

  // ----------------------------------------------------------------- lineage

  /** The volume's sidecar proves a generation of the history: it records the number, or
      in the older format the name of the entry that has it. */
  ghost predicate Proves(sidecar: Option<string>, es: Entries, g: U64) {
    && sidecar.Some?
    && var value := TrimEnd(TrimStart(sidecar.value));
       || ParseU64(value) == Some(g)
       || (ParseU64(value) == None && exists i :: 0 <= i < |es| && es[i].name == value && es[i].generation == g)
  }

  lemma LearnedIsDistinct(b: Bucket, fetched: bool, listed: bool, es: Entries)
    requires Learns(b, fetched, listed, es)
    ensures forall i :: 0 <= i < |es| ==> es[i].generation > 0 && es[i].name != ""
    ensures forall i, j :: 0 <= i < j < |es| ==> es[i].generation < es[j].generation && es[i].name != es[j].name
  {
    hide Parse, Utf8Len, EndsWith, Le;
    if b.manifest.Some? {
      ParseYieldsWellFormed(b.manifest.value);
    }
  }

  lemma SidecarProves(sidecar: Option<string>, es: Entries, g: U64)
    requires forall i :: 0 <= i < |es| ==> es[i].name != ""
    requires forall i, j :: 0 <= i < j < |es| ==> es[i].name != es[j].name
    ensures Resolve(ReadSidecar(sidecar), es) == Some(g) <==> Proves(sidecar, es, g)
  {
    hide ParseU64, FindName, TrimEnd, TrimStart;
    if sidecar.Some? {
      var value := TrimEnd(TrimStart(sidecar.value));
      FoundName(es, value);
      assert ParseU64("") == None by { EmptyIsNoNumber(); }
    }
  }

  lemma EmptyIsNoNumber()
    ensures ParseU64("") == None
  {
  }

  // ------------------------------------------------------------------ guards

  /** A cycle acts: not stopped, on a database that decidedly holds data, over a bucket
      whose history it learns, may extend and can number on; with a dump it may upload
      and, when the volume owns the current generation, that differs from the one
      pushed last. */
  ghost predicate Acts(cfg: Config, s: Site, c: Cycle, es: Entries) {
    && !c.stop && c.connected && c.swept && c.private && c.dump.Some?
    && s.volume.db.Some? && cfg.empty(s.volume.db.value.bytes) == Some(false)
    && Learns(s.bucket, c.fetched, c.listed, es)
    && (es != [] ==>
          && es[|es| - 1].generation < 0xFFFF_FFFF_FFFF_FFFF
          && (exists g: U64 :: Proves(s.volume.sidecar, es, g) && es[|es| - 1].generation <= g)
          && !(Proves(s.volume.sidecar, es, es[|es| - 1].generation) && c.comparable && s.volume.last == c.dump))
  }

  /** The cycle acts exactly then, and what it uploads is its dump. */
  lemma PlanIsExact(cfg: Config, s: Site, c: Cycle, p: Plan)
    ensures Planned(cfg, s, c) == Some(p) <==> Acts(cfg, s, c, p.entries) && c.dump == Some(p.dump)
  {
    HistoryIsLearned(s.bucket, c.fetched, c.listed, p.entries);
    hide View, Learns, Resolve, ReadSidecar, Proves;
    if Learns(s.bucket, c.fetched, c.listed, p.entries) {
      var es := p.entries;
      LearnedIsDistinct(s.bucket, c.fetched, c.listed, es);
      forall g: U64 ensures Resolve(ReadSidecar(s.volume.sidecar), es) == Some(g) <==> Proves(s.volume.sidecar, es, g) {
        SidecarProves(s.volume.sidecar, es, g);
      }
      assert U64_LIMIT == 0xFFFF_FFFF_FFFF_FFFF + 1;
    }
  }

  /** A cycle has any effect exactly when it acts. */
  lemma CycleActs(cfg: Config, s: Site, c: Cycle)
    ensures Trace(cfg, s, c) != [] <==> exists es :: Acts(cfg, s, c, es)
  {
    hide Acts, Effects;
    if Planned(cfg, s, c).Some? {
      PlanIsExact(cfg, s, c, Planned(cfg, s, c).value);
    } else {
      forall es | Acts(cfg, s, c, es) ensures false {
        assert c.dump.Some? by { ActsOnADump(cfg, s, c, es); }
        PlanIsExact(cfg, s, c, Plan(es, c.dump.value));
      }
    }
  }

  lemma ActsOnADump(cfg: Config, s: Site, c: Cycle, es: Entries)
    requires Acts(cfg, s, c, es)
    ensures c.dump.Some?
  {
  }

  // ----------------------------------------------------------------- the end

  /** The history extended by the new dump: the next generation, from 1 on, and its size
      if that could be measured. */
  function Grown(es: Entries, name: string, size: U64): Entries
    requires es == [] || es[|es| - 1].generation < 0xFFFF_FFFF_FFFF_FFFF
  {
    es + [Entry(if es == [] then 1 else es[|es| - 1].generation + 1, name, size)]
  }

  /** How many of the oldest entries leave the manifest when the newest `keep` stay. */
  function Leaving(es: Entries, keep: nat): (n: nat)
    ensures n <= |es|
  {
    if |es| <= keep then 0 else |es| - keep
  }

  /** What the deletions that take effect leave of a bucket. */
  function Without(b: Bucket, gone: Entries, deletions: nat -> bool): Bucket {
    Bucket(if exists i :: 0 <= i < |gone| && deletions(i) && gone[i].name == "manifest" then None else b.manifest,
           b.dumps - set i | 0 <= i < |gone| && deletions(i) && gone[i].name != "manifest" :: gone[i].name)
  }

  lemma {:induction false} PrunedIsWithout(b: Bucket, evicted: Entries, deletions: nat -> bool, n: nat)
    requires n <= |evicted|
    ensures PrunedTo(b, evicted, deletions, n) == Without(b, evicted[..n], deletions)
  {
    if n == 0 {
      assert Without(b, [], deletions).dumps == b.dumps;
    } else {
      PrunedIsWithout(b, evicted, deletions, n - 1);
      WithoutOneMore(b, evicted[..n - 1], evicted[n - 1], deletions);
      assert evicted[..n] == evicted[..n - 1] + [evicted[n - 1]];
    }
  }

  lemma WithoutOneMore(b: Bucket, gone: Entries, e: Entry, deletions: nat -> bool)
    ensures Without(b, gone + [e], deletions)
            == if deletions(|gone|) then Remove(Without(b, gone, deletions), e.name) else Without(b, gone, deletions)
  {
    var more := gone + [e];
    assert forall i :: 0 <= i < |gone| ==> more[i] == gone[i];
    assert more[|gone|] == e;
    var names := set i | 0 <= i < |gone| && deletions(i) && gone[i].name != "manifest" :: gone[i].name;
    var names' := set i | 0 <= i < |more| && deletions(i) && more[i].name != "manifest" :: more[i].name;
    assert names' == if deletions(|gone|) && e.name != "manifest" then names + {e.name} else names;
  }

  /** Where a cycle that acts and runs to its end leaves the bucket. An upload that is not
      acknowledged ends it; one whose manifest is too large or not acknowledged is deleted
      again; otherwise the manifest names the newest dumps and the ones that left it go. */
  ghost predicate BucketEnds(cfg: Config, b: Bucket, c: Cycle, dump: Bytes, all: Entries, end: Bucket) {
    var gone := Leaving(all, cfg.keep);
    var text := Render(all[gone..]);
    if !c.put.Stored? then
      end == b.(dumps := if c.put.Lost? then b.dumps else b.dumps[c.name := dump])
    else if Utf8Len(text) > 262_144 || !c.publish.Stored? then
      && end.manifest == (if Utf8Len(text) > 262_144 || c.publish.Lost? then b.manifest else Some(text))
      && end.dumps == (if c.cleanup then b.dumps - {c.name} else b.dumps[c.name := dump])
    else end == Without(Bucket(Some(text), b.dumps[c.name := dump]), all[..gone], c.deletions)
  }

  /** Where it leaves the volume: the sidecar and the retained copy follow a published
      manifest only; the database becomes a continuation of every dump that was stored. */
  ghost predicate VolumeEnds(cfg: Config, vol: Volume, c: Cycle, dump: Bytes, all: Entries, end: Volume)
    requires vol.db.Some? && all != []
  {
    var published := c.put.Stored? && c.publish.Stored? && Utf8Len(Render(all[Leaving(all, cfg.keep)..])) <= 262_144;
    && end.db == Some(Db(vol.db.value.bytes, vol.db.value.ancestors + if c.put.Lost? then {} else {c.name}))
    && end.last == (if published && c.renamed then Some(dump) else vol.last)
    && end.sidecar == (if !published || c.recorded.Unwritten? then vol.sidecar
                       else if c.recorded.Written? then Some(Decimal(all[|all| - 1].generation) + "\n")
                       else Some(""))
  }

  lemma PlannedGrows(cfg: Config, p: Plan, c: Cycle)
    requires NextGeneration(p.entries).Some?
    requires p.entries == [] || p.entries[|p.entries| - 1].generation < 0xFFFF_FFFF_FFFF_FFFF
    ensures var all := Grown(p.entries, c.name, if c.sized then |p.dump| else 0);
            && Extended(p, c) == all && all[|all| - 1].generation == NextGeneration(p.entries).value
            && Retained(all, cfg.keep) == all[Leaving(all, cfg.keep)..]
            && Evicted(all, cfg.keep) == all[..Leaving(all, cfg.keep)]
  {
  }

  lemma PublishedEnd(s: Site, generation: U64, dump: Bytes, evicted: Entries, c: Cycle)
    ensures var trace := PublishedTrace(s, generation, dump, evicted, c);
            trace[|trace| - 1] == Site(Without(s.bucket, evicted, c.deletions),
                                       WithRetained(WithSidecar(s, generation, c), dump, c).volume)
  {
    hide GenerationText, RecordText, Without, Remove;
    PrunedIsWithout(s.bucket, evicted, c.deletions, |evicted|);
    assert evicted[..|evicted|] == evicted;
    var retained := WithRetained(WithSidecar(s, generation, c), dump, c);
    var pruned := PruneTrace(retained, evicted, c.deletions, |evicted|);
    var trace := [s, WithSidecar(s, generation, c), retained] + pruned;
    if evicted == [] {
      assert trace[|trace| - 1] == retained;
    } else {
      assert trace[|trace| - 1] == pruned[|pruned| - 1];
    }
  }

  lemma EffectsEnd(cfg: Config, s: Site, p: Plan, c: Cycle)
    requires NextGeneration(p.entries).Some?
    ensures var trace, uploaded := Effects(cfg, s, p, c), WithDump(s, p, c);
            var text := Render(Retained(Extended(p, c), cfg.keep));
            var published := WithManifest(uploaded, text, c);
            var settled := WithSidecar(published, NextGeneration(p.entries).value, c);
            trace[|trace| - 1] ==
              if !c.put.Stored? then uploaded
              else if Utf8Len(text) > MAX_MANIFEST_BYTES then CleanedUp(uploaded, c)
              else if !c.publish.Stored? then CleanedUp(published, c)
              else Site(Without(published.bucket, Evicted(Extended(p, c), cfg.keep), c.deletions),
                        WithRetained(settled, p.dump, c).volume)
  {
    hide Render, Utf8Len, Without, Retained, Evicted, Extended, NextGeneration, PublishedTrace, WithDump, WithManifest,
      CleanedUp, WithSidecar, WithRetained;
    var published := WithManifest(WithDump(s, p, c), Render(Retained(Extended(p, c), cfg.keep)), c);
    PublishedEnd(published, NextGeneration(p.entries).value, p.dump, Evicted(Extended(p, c), cfg.keep), c);
  }

  /** Where a cycle that acts and runs to its end leaves everything, from the answers it gets. */
  lemma CycleEndIsExact(cfg: Config, s: Site, c: Cycle, es: Entries)
    requires Acts(cfg, s, c, es) && IsDumpName(c.name)
    ensures var trace, dump := Trace(cfg, s, c), c.dump.value;
            var all := Grown(es, c.name, if c.sized then |dump| else 0);
            && trace != []
            && BucketEnds(cfg, s.bucket, c, dump, all, trace[|trace| - 1].bucket)
            && VolumeEnds(cfg, s.volume, c, dump, all, trace[|trace| - 1].volume)
  {
    var p := Plan(es, c.dump.value);
    PlanIsExact(cfg, s, c, p);
    PlannedGrows(cfg, p, c);
    NotADump();
    hide Planned, Learns, Proves, Render, Utf8Len, Without, Decimal, Retained, Evicted, Extended, NextGeneration, Grown,
      Effects, IsDumpName, Leaving;
    EffectsEnd(cfg, s, p, c);
    assert s.bucket.dumps[c.name := p.dump] - {c.name} == s.bucket.dumps - {c.name};
    assert MAX_MANIFEST_BYTES == 262_144;
    assert s.volume.db.value.ancestors + {} == s.volume.db.value.ancestors;
  }
}
