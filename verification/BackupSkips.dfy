/** A skipped upload is really redundant: the newest object already holds the dump. */
module BackupSkips {
  import opened Requests
  import opened Text
  import opened BackupManifest
  import opened BackupWorld
  import opened BackupTick
  import opened BackupIntegrity
  import opened BackupRestore
  import opened BackupLineage
  import opened BackupHistory

  /** The volume can prove the stored manifest's current generation. */
  ghost predicate Proves(b: Bucket, vol: Volume) {
    && History(b).Some? && History(b).value != []
    && Resolve(ReadSidecar(vol.sidecar), History(b).value) == Some(Latest(History(b).value))
  }

  /** While a volume can prove the current generation, its retained copy is the newest
      object; before there is a manifest, and on an empty volume, there is no copy. */
  ghost predicate Faithful(cfg: Config, b: Bucket, vol: Volume) {
    && (Empty(cfg, vol) == Some(true) ==> vol.last.None?)
    && (b.manifest.None? ==> vol.last.None?)
    && (Proves(b, vol) && vol.last.Some? ==>
          var newest := Newest(History(b).value); newest in b.dumps && b.dumps[newest] == vol.last.value)
  }

  ghost predicate AllFaithful(cfg: Config, w: World) {
    forall v :: v in w.volumes ==> Faithful(cfg, w.bucket, w.volumes[v])
  }

  /** The cycle's manifest takes effect and is acknowledged. */
  predicate Publishes(cfg: Config, p: Plan, c: Cycle)
    requires NextGeneration(p.entries).Some?
  {
    c.put.Stored? && c.publish.Stored? && Utf8Len(Render(Retained(Extended(p, c), cfg.keep))) <= MAX_MANIFEST_BYTES
  }

  /** The cycle stops, after k effects, with its generation recorded and its dump not
      retained, beside a copy of something else. */
  predicate LeavesAnotherCopy(cfg: Config, s: Site, c: Cycle, k: nat) {
    && var p := Planned(cfg, s, c);
    && p.Some? && Publishes(cfg, p.value, c) && c.recorded.Written? && k >= 3 && (k == 3 || !c.renamed)
    && s.volume.last.Some? && s.volume.last != Some(p.value.dump)
  }

  /** The adoption records the current generation beside a copy of something else than
      the newest object. */
  predicate AdoptsBesideAnotherCopy(cfg: Config, s: Site, a: Adoption) {
    && Claims(cfg, s, a) && a.recorded.Written? && s.volume.last.Some?
    && History(s.bucket).Some? && History(s.bucket).value != []
    && var newest := Newest(History(s.bucket).value);
       !(newest in s.bucket.dumps && s.bucket.dumps[newest] == s.volume.last.value)
  }

  /** The step records no generation beside a copy of something else. */
  predicate Careful(cfg: Config, w: World, a: Action) {
    a.v in w.volumes ==>
      match a
      case Cycled(v, c, k) => !LeavesAnotherCopy(cfg, SiteOf(w, v), c, k)
      case Adopts(v, adoption) => !AdoptsBesideAnotherCopy(cfg, SiteOf(w, v), adoption)
      case _ => true
  }

  // ------------------------------------------------------ what a cycle keeps

  /** Dumps survive the cycle: all others while nothing is published, its own once it is. */
  ghost predicate Survives(s: Site, p: Plan, c: Cycle, t: Site) {
    && (t.bucket.manifest == s.bucket.manifest ==>
          forall name :: name in s.bucket.dumps && name != c.name ==> name in t.bucket.dumps)
    && (t.volume.sidecar != s.volume.sidecar ==> c.name in t.bucket.dumps)
    && t.volume.last in {s.volume.last, Some(p.dump)}
  }

  lemma {:induction false} PruningSpares(b: Bucket, evicted: Entries, deletions: nat -> bool, n: nat, name: string)
    requires n <= |evicted| && Absent(evicted, name) && name in b.dumps
    ensures name in PrunedTo(b, evicted, deletions, n).dumps
  {
    if n > 0 {
      PruningSpares(b, evicted, deletions, n - 1, name);
    }
  }

  lemma NewIsNotEvicted(cfg: Config, s: Site, p: Plan, c: Cycle)
    requires CanAdvance(cfg, s, p, c)
    ensures Absent(Evicted(Extended(p, c), cfg.keep), c.name)
  {
    hide WellFormed, CleanName, IsDumpName, Evicted, Retained;
    KeptIsWellFormed(cfg, p, c);
    EvictedAreAbsent(Extended(p, c), cfg.keep);
    var kept := Retained(Extended(p, c), cfg.keep);
    assert kept[|kept| - 1].name == c.name;
  }

  lemma SettledSurvives(cfg: Config, s: Site, p: Plan, c: Cycle, published: Site)
    requires CanAdvance(cfg, s, p, c) && c.name in published.bucket.dumps
    requires published.bucket.manifest.Some? && published.bucket.manifest != s.bucket.manifest
    requires published.volume.last == s.volume.last
    ensures var evicted := Evicted(Extended(p, c), cfg.keep);
            forall t :: t in PublishedTrace(published, NextGeneration(p.entries).value, p.dump, evicted, c) ==>
              Survives(s, p, c, t)
  {
    var evicted := Evicted(Extended(p, c), cfg.keep);
    EvictedIsNotTheManifest(cfg, s, p, c);
    NewIsNotEvicted(cfg, s, p, c);
    hide GenerationText, CanAdvance, Extended, Evicted;
    var retained := WithRetained(WithSidecar(published, NextGeneration(p.entries).value, c), p.dump, c);
    forall i | 0 <= i < |evicted| ensures Survives(s, p, c, PruneTrace(retained, evicted, c.deletions, |evicted|)[i]) {
      PruningSpares(published.bucket, evicted, c.deletions, i + 1, c.name);
      PruningOnlyRemoves(published.bucket, evicted, c.deletions, i + 1);
      hide PrunedTo, Absent;
    }
  }

  lemma PublishingSurvives(cfg: Config, s: Site, p: Plan, c: Cycle)
    requires CanAdvance(cfg, s, p, c) && c.put.Stored?
    requires s.bucket.manifest.Some? ==> History(s.bucket) == Some(p.entries)
    ensures forall t :: t in PublishingTrace(cfg, WithDump(s, p, c), p, c) ==> Survives(s, p, c, t)
  {
    var uploaded := WithDump(s, p, c);
    var es := Retained(Extended(p, c), cfg.keep);
    NotADump();
    hide IsDumpName, CleanName, PublishedTrace, Evicted;
    if Utf8Len(Render(es)) <= MAX_MANIFEST_BYTES {
      KeptIsWellFormed(cfg, p, c);
      RenderedReadsBack(es);
      hide Render, Utf8Len, Readable, Extended, Retained, WellFormed;
      var published := WithManifest(uploaded, Render(es), c);
      if s.bucket.manifest == Some(Render(es)) {
        assert false;
      }
      if c.publish.Stored? {
        SettledSurvives(cfg, s, p, c, published);
      }
    } else {
      hide Render, Utf8Len, Readable, Extended, Retained, WellFormed;
    }
  }

  lemma CycleSurvives(cfg: Config, w: World, v: nat, c: Cycle)
    requires Orderly(cfg, w.bucket) && v in w.volumes && UnusedName(w, c.name) && cfg.keep > 0
    ensures var s, p := SiteOf(w, v), Planned(cfg, SiteOf(w, v), c);
            p.Some? ==> forall t :: t in Trace(cfg, s, c) ==> Survives(s, p.value, c, t)
  {
    hide Planned, PublishingTrace, Lineal, FreshName, Readable;
    var s, p := SiteOf(w, v), Planned(cfg, SiteOf(w, v), c);
    if p.Some? {
      CanAdvanceFrom(cfg, w, v, c);
      if c.put.Stored? {
        PublishingSurvives(cfg, s, p.value, c);
      }
    }
  }

  // ---------------------------------------------------------- the invariant

  lemma StillBehind(b: Bucket, vol: Volume, vol': Volume)
    requires Behind(b, vol) && vol'.sidecar == vol.sidecar
    ensures Behind(b, vol')
  {
  }

  /** The cycling volume in any state of its cycle. */
  lemma OwnStateIsFaithful(cfg: Config, s: Site, p: Plan, c: Cycle, t: Site)
    requires CanAdvance(cfg, s, p, c) && (s.bucket.manifest.Some? ==> History(s.bucket) == Some(p.entries))
    requires Reached(cfg, s, p, c, t) && Survives(s, p, c, t) && Bounded(s.bucket, s.volume)
    requires Faithful(cfg, s.bucket, s.volume) && Empty(cfg, s.volume) == Some(false)
    requires c.name !in s.bucket.dumps && !Records(s.volume, c.name)
    ensures Faithful(cfg, t.bucket, t.volume)
            <==> (t.volume.sidecar in {s.volume.sidecar, Some("")} || t.volume.last.None?
              || t.volume.last == Some(p.dump))
  {
    GenerationReadsBack(NextGeneration(p.entries).value);
    assert ReadSidecar(Some("")) == None;
    hide Readable, ReadSidecar, Resolve, CleanName, IsDumpName, WellFormed, Extended, Retained, GenerationText,
      Honest, Absent;
    if Unmoved(s, t) {
      UnmovedIsFaithful(cfg, s, p, c, t, s.volume);
    } else {
      AdvancedHistory(cfg, s, p, c, t);
      if t.volume.sidecar == s.volume.sidecar {
        FallsBehind(cfg, s, p, c, t, s.volume);
        StillBehind(t.bucket, s.volume, t.volume);
      } else {
        assert t.bucket.dumps[c.name] == p.dump;
        ResolvesItself(History(t.bucket).value, NextGeneration(p.entries).value);
        NothingResolves(History(t.bucket).value);
      }
    }
  }

  lemma SettledAt(s: Site, generation: U64, dump: Bytes, evicted: Entries, c: Cycle, i: nat)
    requires i < |PublishedTrace(s, generation, dump, evicted, c)|
    ensures var t := PublishedTrace(s, generation, dump, evicted, c)[i];
            && t.volume.sidecar
              == (if i == 0 then s.volume.sidecar
                else RecordText(s.volume.sidecar, GenerationText(generation), c.recorded))
            && t.volume.last == if i >= 2 && c.renamed then Some(dump) else s.volume.last
  {
    hide GenerationText;
    var retained := WithRetained(WithSidecar(s, generation, c), dump, c);
    if i >= 3 {
      assert PublishedTrace(s, generation, dump, evicted, c)[i]
        == PruneTrace(retained, evicted, c.deletions, |evicted|)[i - 3];
    }
  }

  /** The bookkeeping files after k effects. */
  lemma StoppedAt(cfg: Config, s: Site, p: Plan, c: Cycle, k: nat)
    requires NextGeneration(p.entries).Some? && 0 < k <= |Effects(cfg, s, p, c)|
    ensures var t := StateAfter(s, Effects(cfg, s, p, c), k);
            && t.volume.sidecar == (if Publishes(cfg, p, c) && k >= 3
                                    then RecordText(s.volume.sidecar, GenerationText(NextGeneration(p.entries).value),
                                                    c.recorded)
                                    else s.volume.sidecar)
            && t.volume.last == if Publishes(cfg, p, c) && k >= 4 && c.renamed then Some(p.dump) else s.volume.last
  {
    hide Render, Utf8Len, Retained, Extended, Evicted, GenerationText, RecordText;
    var uploaded := WithDump(s, p, c);
    if c.put.Stored? && k >= 2 {
      var trace := PublishingTrace(cfg, uploaded, p, c);
      assert Effects(cfg, s, p, c)[k - 1] == trace[k - 2];
      if Publishes(cfg, p, c) {
        var published := WithManifest(uploaded, Render(Retained(Extended(p, c), cfg.keep)), c);
        SettledAt(published, NextGeneration(p.entries).value, p.dump, Evicted(Extended(p, c), cfg.keep), c, k - 2);
      }
    }
  }

  /** The text a cycle records is neither what a volume recorded before nor empty. */
  lemma RecordIsNew(cfg: Config, s: Site, p: Plan)
    requires Bounded(s.bucket, s.volume) && NextGeneration(p.entries).Some?
    requires s.bucket.manifest.Some? ==> History(s.bucket) == Some(p.entries)
    ensures Some(GenerationText(NextGeneration(p.entries).value)) !in {s.volume.sidecar, Some("")}
  {
    GenerationReadsBack(NextGeneration(p.entries).value);
    assert ReadSidecar(Some("")) == None;
    hide Readable, ReadSidecar, GenerationText;
  }

  /** Where a cycle may stop, exactly: after k effects the volume's claim is faithful
      unless the manifest is published, the new generation recorded, the rename of the
      dump not reached or failed, and some other copy was retained before. */
  lemma FaithfulAtStop(cfg: Config, w: World, v: nat, c: Cycle, k: nat)
    requires Orderly(cfg, w.bucket) && cfg.keep > 0 && v in w.volumes && UnusedName(w, c.name)
    requires Bounded(w.bucket, w.volumes[v]) && Faithful(cfg, w.bucket, w.volumes[v])
    requires k <= |Trace(cfg, SiteOf(w, v), c)|
    ensures var t := StateAfter(SiteOf(w, v), Trace(cfg, SiteOf(w, v), c), k);
            Faithful(cfg, t.bucket, t.volume) <==> !LeavesAnotherCopy(cfg, SiteOf(w, v), c, k)
  {
    var s := SiteOf(w, v);
    if k > 0 {
      var p := Planned(cfg, s, c).value;
      CycleStates(cfg, w, v, c);
      CycleSurvives(cfg, w, v, c);
      CanAdvanceFrom(cfg, w, v, c);
      assert Empty(cfg, s.volume) == Some(false);
      StoppedAt(cfg, s, p, c, k);
      RecordIsNew(cfg, s, p);
      hide Planned, Effects, Readable, ReadSidecar, Resolve, Bounded, Faithful, Advanced, CanAdvance, Reached,
        Survives, Orderly, GenerationText, Publishes, Records;
      var t := StateAfter(s, Trace(cfg, s, c), k);
      OwnStateIsFaithful(cfg, s, p, c, t);
    }
  }

  lemma ResolvesItself(es: Entries, g: U64)
    ensures Resolve(Some(Generation(g)), es) == Some(g)
  {
  }

  lemma NothingResolves(es: Entries)
    ensures Resolve(None, es) == None
  {
  }

  /** While nothing is published the newest object is untouched. */
  lemma UnmovedIsFaithful(cfg: Config, s: Site, p: Plan, c: Cycle, t: Site, vol: Volume)
    requires CanAdvance(cfg, s, p, c) && (s.bucket.manifest.Some? ==> History(s.bucket) == Some(p.entries))
    requires Reached(cfg, s, p, c, t) && Survives(s, p, c, t) && Unmoved(s, t) && Faithful(cfg, s.bucket, vol)
    ensures Faithful(cfg, t.bucket, vol)
  {
    hide Readable, ReadSidecar, Resolve, CleanName, IsDumpName, WellFormed, Extended, Retained, GenerationText,
      Advanced;
  }

  lemma OtherStateIsFaithful(cfg: Config, s: Site, p: Plan, c: Cycle, t: Site, vol: Volume)
    requires CanAdvance(cfg, s, p, c) && (s.bucket.manifest.Some? ==> History(s.bucket) == Some(p.entries))
    requires Reached(cfg, s, p, c, t) && Survives(s, p, c, t) && Bounded(s.bucket, vol)
    requires Faithful(cfg, s.bucket, vol) && !Records(vol, c.name)
    ensures Faithful(cfg, t.bucket, vol)
  {
    hide Readable, ReadSidecar, Resolve, CleanName, IsDumpName, WellFormed, Extended, Retained, GenerationText, Bounded,
      Records;
    if Unmoved(s, t) {
      UnmovedIsFaithful(cfg, s, p, c, t, vol);
    } else {
      FallsBehind(cfg, s, p, c, t, vol);
      hide Survives, CanAdvance;
    }
  }

  lemma OthersCycle(cfg: Config, w: World, a: Action, w': World, u: nat)
    requires Coherent(cfg, w) && cfg.keep > 0 && a.Cycled? && Step(cfg, w, a, w')
    requires u in w.volumes && u != a.v && Faithful(cfg, w.bucket, w.volumes[u])
    ensures w'.volumes[u] == w.volumes[u] && Faithful(cfg, w'.bucket, w'.volumes[u])
  {
    var s, c := SiteOf(w, a.v), a.c;
    if a.k > 0 {
      CycleStates(cfg, w, a.v, c);
      CycleSurvives(cfg, w, a.v, c);
      hide Effects, Readable, ReadSidecar, Resolve, Listing, FromListing, IsDumpName, CleanName, Faithful, Advanced,
        CanAdvance, Reached, Survives, Orderly, Bounded, Records;
      var p := Planned(cfg, s, c).value;
      CanAdvanceFrom(cfg, w, a.v, c);
      hide Planned;
      OtherStateIsFaithful(cfg, s, p, c, StateAfter(s, Trace(cfg, s, c), a.k), w.volumes[u]);
    }
  }

  /** Adoption against the retained copy, exactly: a faithful volume stays faithful unless
      it records the current generation beside a copy that is not the newest object. */
  lemma AdoptionKeepsFaithful(cfg: Config, s: Site, a: Adoption)
    requires Faithful(cfg, s.bucket, s.volume)
    ensures Faithful(cfg, s.bucket, Adopted(cfg, s, a).volume) <==> !AdoptsBesideAnotherCopy(cfg, s, a)
  {
    assert ReadSidecar(Some("")) == None;
    if History(s.bucket).Some? && History(s.bucket).value != [] {
      GenerationReadsBack(Latest(History(s.bucket).value));
    }
    hide Readable, ReadSidecar, GenerationText, Listing;
  }

  /** The ordinary restart: a faithful volume that proves the current generation adopts
      without harm. */
  lemma RestartIsCareful(cfg: Config, s: Site, a: Adoption)
    requires Faithful(cfg, s.bucket, s.volume) && Proves(s.bucket, s.volume)
    ensures !AdoptsBesideAnotherCopy(cfg, s, a)
  {
    hide Readable, ReadSidecar, Resolve, Claims;
  }

  /** A volume's retained copy stays faithful through every step of anyone exactly when
      the step is not a careless one of its own. */
  lemma StepKeepsFaithful(cfg: Config, w: World, a: Action, w': World, u: nat)
    requires Coherent(cfg, w) && cfg.keep > 0 && Step(cfg, w, a, w')
    requires u in w.volumes && Faithful(cfg, w.bucket, w.volumes[u])
    ensures u in w'.volumes
    ensures Faithful(cfg, w'.bucket, w'.volumes[u]) <==> (a.v == u ==> Careful(cfg, w, a))
  {
    match a
    case Cycled(v, c, k) =>
      if v == u {
        FaithfulAtStop(cfg, w, v, c, k);
      } else {
        OthersCycle(cfg, w, a, w', u);
      }
      hide Trace, Faithful, LeavesAnotherCopy, Coherent;
    case Booted(v, r, k) =>
      RestoreStates(cfg, SiteOf(w, v), r);
      hide Restore, Readable, ReadSidecar, Resolve, Coherent;
      if k > 0 {
        var t := StateAfter(SiteOf(w, v), Restore(cfg, SiteOf(w, v), r).trace, k);
        assert t in Restore(cfg, SiteOf(w, v), r).trace;
      }
    case Adopts(v, adoption) =>
      if v == u {
        AdoptionKeepsFaithful(cfg, SiteOf(w, v), adoption);
      }
      hide Faithful, AdoptsBesideAnotherCopy, Adopted, Coherent;
      assert w'.bucket == w.bucket;
    case _ => hide Readable, ReadSidecar, Resolve, Coherent;
  }

  /** The volume's own steps before some point are careful. */
  ghost predicate CarefulBy(cfg: Config, worlds: seq<World>, actions: seq<Action>, v: nat, n: nat)
    requires n <= |actions| && |worlds| == |actions| + 1
  {
    forall i :: 0 <= i < n && actions[i].v == v ==> Careful(cfg, worlds[i], actions[i])
  }

  /** In every run, whatever the others do, a volume's retained copy is faithful up to
      some point exactly when its own steps before it were careful. */
  lemma {:induction false} FaithfulWhileCareful(cfg: Config, worlds: seq<World>, actions: seq<Action>, v: nat, n: nat)
    requires Run(cfg, worlds, actions) && Coherent(cfg, worlds[0]) && cfg.keep > 0 && n < |worlds|
    requires v in worlds[0].volumes && Faithful(cfg, worlds[0].bucket, worlds[0].volumes[v])
    ensures forall m :: 0 <= m <= n ==> v in worlds[m].volumes
    ensures (forall m :: 0 <= m <= n ==> Faithful(cfg, worlds[m].bucket, worlds[m].volumes[v]))
            <==> CarefulBy(cfg, worlds, actions, v, n)
  {
    hide Step, Coherent, Faithful, Careful;
    if n > 0 {
      FaithfulWhileCareful(cfg, worlds, actions, v, n - 1);
      RunStaysCoherent(cfg, worlds, actions, n - 1);
      assert Step(cfg, worlds[n - 1], actions[n - 1], worlds[n]);
      SameVolumes(cfg, worlds[n - 1], actions[n - 1], worlds[n]);
      if Faithful(cfg, worlds[n - 1].bucket, worlds[n - 1].volumes[v]) {
        StepKeepsFaithful(cfg, worlds[n - 1], actions[n - 1], worlds[n], v);
      }
    }
  }

  lemma FaithfulSkip(cfg: Config, s: Site, c: Cycle, dump: Bytes)
    requires Faithful(cfg, s.bucket, s.volume) && Admitted(cfg, s, c).Some?
    requires Redundant(s.volume, Admitted(cfg, s, c).value, dump, c.comparable)
    ensures var es := Admitted(cfg, s, c).value;
            es != [] && Newest(es) in s.bucket.dumps && s.bucket.dumps[Newest(es)] == dump
  {
    hide Readable, ReadSidecar, Resolve, Listing, FromListing;
  }

  /** Over every run, whatever the other volumes do: as long as a volume records no
      generation beside a copy of something else, neither by a cycle that stops before
      it retains its dump nor by an adoption, a cycle of it that skips its upload finds
      the newest object equal to the dump it just took. */
  lemma SkippedUploadsAreRedundant(cfg: Config, worlds: seq<World>, actions: seq<Action>, n: nat, v: nat, c: Cycle,
                                   dump: Bytes)
    requires Run(cfg, worlds, actions) && Coherent(cfg, worlds[0]) && cfg.keep > 0 && n < |worlds|
    requires v in worlds[0].volumes && Faithful(cfg, worlds[0].bucket, worlds[0].volumes[v])
    requires CarefulBy(cfg, worlds, actions, v, n) && v in worlds[n].volumes
    requires Admitted(cfg, SiteOf(worlds[n], v), c).Some?
    requires Redundant(worlds[n].volumes[v], Admitted(cfg, SiteOf(worlds[n], v), c).value, dump, c.comparable)
    ensures var b, es := worlds[n].bucket, Admitted(cfg, SiteOf(worlds[n], v), c).value;
            es != [] && Newest(es) in b.dumps && b.dumps[Newest(es)] == dump
  {
    FaithfulWhileCareful(cfg, worlds, actions, v, n);
    hide Run, Coherent, Admitted, Redundant, Faithful, CarefulBy;
    FaithfulSkip(cfg, SiteOf(worlds[n], v), c, dump);
  }

  /** The skip the volume's records suggest is wrong. */
  ghost predicate WrongSkip(cfg: Config, s: Site, c: Cycle) {
    && c.dump.Some? && Admitted(cfg, s, c).Some?
    && Redundant(s.volume, Admitted(cfg, s, c).value, c.dump.value, c.comparable)
    && var es := Admitted(cfg, s, c).value;
       !(es != [] && Newest(es) in s.bucket.dumps && s.bucket.dumps[Newest(es)] == c.dump.value)
  }

  /** Faithful is exactly what it takes: over a history that can be extended, a volume
      with data is unfaithful exactly when some cycle of it would skip wrongly. */
  lemma UnfaithfulSkipsWrongly(cfg: Config, s: Site)
    requires History(s.bucket).Some? && History(s.bucket).value != [] && NextGeneration(History(s.bucket).value).Some?
    requires Empty(cfg, s.volume) == Some(false)
    ensures Faithful(cfg, s.bucket, s.volume) <==> forall c :: !WrongSkip(cfg, s, c)
  {
    HistoryIsWellFormed(s.bucket);
    hide Readable, ReadSidecar, Resolve, NextGeneration, CleanName;
    if !Faithful(cfg, s.bucket, s.volume) {
      var c := Cycle(false, true, true, true, true, "", s.volume.last, true, true, true, Stored, Stored, Written, true,
                     i => true, true);
      AdmittedUnlessBehind(cfg, s, c);
      assert WrongSkip(cfg, s, c);
    }
  }
}
