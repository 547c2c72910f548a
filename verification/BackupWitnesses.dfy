/** Concrete histories in which what the backup chain does not promise goes wrong. */
module BackupWitnesses {
  import opened Requests
  import opened Text
  import opened BackupManifest
  import opened BackupWorld
  import opened BackupTick
  import opened BackupIntegrity
  import opened BackupRestore
  import opened BackupLineage
  import opened BackupHistory
  import opened BackupSkips
  import opened BackupRoundTrip
  import BackupListing

  // ------------------------------------------------------- a misled cycle

  /** The first cycle of a fresh deployment, well but for its manifest: the request is
      applied although it is taken to have failed, and the dump is deleted again; or the
      staged dump cannot be measured. Then some state stores a manifest that names a
      missing object, or one of another size. */
  lemma MisledCycleBreaksIntegrity(cfg: Config, w: World, v: nat, c: Cycle)
    requires Fresh(w) && v in w.volumes && Empty(cfg, w.volumes[v]) == Some(false) && cfg.keep > 0
    requires GoesWell(cfg, c.(publish := Stored, sized := true)) && Stamped(c.name) && !c.publish.Lost?
    requires (c.publish.StoredUnacknowledged? && c.cleanup) || (!c.sized && c.dump.value != [])
    ensures Backed(w.bucket) && exists t :: t in Trace(cfg, SiteOf(w, v), c) && !Backed(t.bucket)
  {
    FreshIsLineal(cfg, w);
    FreshPlan(cfg, w, v, c.(publish := Stored, sized := true));
    var s, p := SiteOf(w, v), Plan([], c.dump.value);
    assert Planned(cfg, s, c) == Some(p);
    FirstManifestFits(cfg, p, c);
    hide Planned, Trace, IsDumpName, CleanName, Readable, Render, Utf8Len, Retained, Extended;
    assert UnusedName(w, c.name) && Misled(cfg, p, c);
    HasCleanNames(cfg, w.bucket);
    hide Backed, FreshName, Misled;
    TickKeepsBacked(cfg, s, c);
  }

  // --------------------------------------------------------- a wrong skip

  /** After two effects the manifest is published, after three the generation is recorded. */
  lemma SecondAndThird(cfg: Config, s: Site, p: Plan, c: Cycle)
    requires CanAdvance(cfg, s, p, c) && BackupRoundTrip.Succeeds(cfg, p, c)
    ensures var trace := Effects(cfg, s, p, c);
            && |trace| >= 4
            && var t := trace[2];
               && History(t.bucket) == Some(Retained(Extended(p, c), cfg.keep))
               && c.name in t.bucket.dumps && t.bucket.dumps[c.name] == p.dump
               && t.volume.sidecar == Some(GenerationText(NextGeneration(p.entries).value))
               && t.volume.last == s.volume.last && t.volume.db.Some?
               && t.volume.db.value.bytes == s.volume.db.value.bytes && c.name in t.volume.db.value.ancestors
               && trace[1] == t.(volume := t.volume.(sidecar := s.volume.sidecar))
  {
    KeptIsWellFormed(cfg, p, c);
    hide WellFormed, Render, Readable, Retained, Evicted, Extended, GenerationText, CleanName, IsDumpName, Utf8Len,
      PruneTrace;
    RenderedReadsBack(Retained(Extended(p, c), cfg.keep));
    var published := WithManifest(WithDump(s, p, c), Render(Retained(Extended(p, c), cfg.keep)), c);
    assert Effects(cfg, s, p, c)[1] == published;
    assert Effects(cfg, s, p, c)[2] == WithSidecar(published, NextGeneration(p.entries).value, c);
  }

  /** A volume at the current generation whose other guards pass is admitted. */
  lemma CurrentIsAdmitted(cfg: Config, s: Site, e: Entry, c: Cycle)
    requires History(s.bucket).Some? && History(s.bucket).value != []
    requires History(s.bucket).value[|History(s.bucket).value| - 1] == e
    requires s.volume.sidecar == Some(GenerationText(e.generation))
    requires Latest(History(s.bucket).value) + 1 < U64_LIMIT
    requires GoesWell(cfg, c) && Empty(cfg, s.volume) == Some(false)
    ensures Admitted(cfg, s, c) == History(s.bucket)
    ensures var redundant := c.comparable && s.volume.last == c.dump;
            && Planned(cfg, s, c) == (if redundant then None else Some(Plan(History(s.bucket).value, c.dump.value)))
            && Redundant(s.volume, History(s.bucket).value, c.dump.value, c.comparable) == redundant
  {
    CurrentGeneration(s.bucket, s.volume, e);
    hide Readable, ReadSidecar, Resolve, GenerationText, Behind;
    AdmittedUnlessBehind(cfg, s, c);
  }

  /** The world after a cycle that is killed after k effects. */
  function Killed(cfg: Config, w: World, v: nat, c: Cycle, k: nat): (w': World)
    requires v in w.volumes && k <= |Trace(cfg, SiteOf(w, v), c)|
    ensures v in w'.volumes
  {
    WithSite(w, v, StateAfter(SiteOf(w, v), Trace(cfg, SiteOf(w, v), c), k))
  }

  function Finished(cfg: Config, w: World, v: nat, c: Cycle): (w': World)
    requires v in w.volumes
    ensures v in w'.volumes
  {
    Killed(cfg, w, v, c, |Trace(cfg, SiteOf(w, v), c)|)
  }

  function Rewritten(w: World, v: nat, bytes: Bytes): (w': World)
    requires v in w.volumes
    ensures v in w'.volumes
  {
    WithSite(w, v, Site(w.bucket, BackupLineage.Written(w.volumes[v], bytes)))
  }

  lemma FirstHistory(cfg: Config, p: Plan, c: Cycle)
    requires p.entries == [] && cfg.keep > 0
    ensures Retained(Extended(p, c), cfg.keep) == [Entry(1, c.name, RecordedSize(p, c))]
  {
  }

  lemma SecondHistory(cfg: Config, name: string, size: U64, p: Plan, c: Cycle)
    requires p.entries == [Entry(1, name, size)] && cfg.keep > 0 && NextGeneration(p.entries).Some?
    ensures var es := Retained(Extended(p, c), cfg.keep);
            && es != [] && es[|es| - 1] == Entry(2, c.name, RecordedSize(p, c)) && |es| <= 2
            && forall i :: 0 <= i < |es| ==> es[i].name in {name, c.name}
  {
  }

  lemma OtherNamesStayUnused(w: World, v: nat, end: Site, e: Entry, name: string)
    requires Fresh(w) && v in w.volumes && History(end.bucket) == Some([e]) && end.bucket.dumps.Keys <= {e.name}
    requires end.volume.db.Some? && end.volume.db.value.ancestors <= {e.name}
    requires end.volume.sidecar == Some(GenerationText(e.generation)) && Stamped(name) && name != e.name
    ensures UnusedName(WithSite(w, v, end), name)
  {
    GenerationReadsBack(e.generation);
    assert ReadSidecar(None) == None;
    hide Readable, ReadSidecar, GenerationText, IsDumpName, CleanName;
  }

  /** Where the first cycle of a fresh deployment ends. */
  lemma FirstEnd(cfg: Config, w: World, v: nat, c: Cycle)
    requires Fresh(w) && v in w.volumes && Empty(cfg, w.volumes[v]) == Some(false) && cfg.keep > 0
    requires GoesWell(cfg, c) && Stamped(c.name)
    ensures var s := SiteOf(w, v);
            var end := StateAfter(s, Trace(cfg, s, c), |Trace(cfg, s, c)|);
            && Current(end, c.name, c.dump.value) && History(end.bucket) == Some([Entry(1, c.name, |c.dump.value|)])
            && end.volume.db.Some?
            && forall name :: Stamped(name) && name != c.name ==> UnusedName(WithSite(w, v, end), name)
  {
    FreshIsLineal(cfg, w);
    FreshPlan(cfg, w, v, c);
    var s, p := SiteOf(w, v), Plan([], c.dump.value);
    FirstManifestFits(cfg, p, c);
    TraceIsLong(cfg, s, c);
    FirstHistory(cfg, p, c);
    hide Planned, Effects, Lineal, AllFaithful, Current, IsDumpName, CleanName, Readable, Render, Utf8Len,
      PublishingTrace, Advanced, Retained, Extended, Backed, Exact;
    assert UnusedName(w, c.name);
    SuccessIsCurrent(cfg, w, v, c);
    CycleStates(cfg, w, v, c);
    var end := StateAfter(s, Trace(cfg, s, c), |Trace(cfg, s, c)|);
    assert end in Trace(cfg, s, c) && Reached(cfg, s, p, c, end);
    hide UnusedName, Stamped, Trace, StateAfter, GenerationText;
    forall name | Stamped(name) && name != c.name ensures UnusedName(WithSite(w, v, end), name) {
      CurrentSidecar(end, c.name, c.dump.value);
      OtherNamesStayUnused(w, v, end, Entry(1, c.name, |c.dump.value|), name);
    }
  }

  lemma CurrentSidecar(s: Site, name: string, dump: Bytes)
    requires Current(s, name, dump)
    ensures var es := History(s.bucket).value; s.volume.sidecar == Some(GenerationText(es[|es| - 1].generation))
  {
  }

  /** One cycle over a history of one backup, going well until it is killed after two effects or
      three. */
  lemma KilledBeforeRetaining(cfg: Config, w: World, v: nat, c: Cycle, name: string, size: U64, x: Bytes)
    requires Orderly(cfg, w.bucket) && cfg.keep > 0 && v in w.volumes && UnusedName(w, c.name) && GoesWell(cfg, c)
    requires Stamped(name) && Stamped(c.name) && Empty(cfg, w.volumes[v]) == Some(false)
    requires History(w.bucket) == Some([Entry(1, name, size)]) && w.volumes[v].sidecar == Some(GenerationText(1))
    requires w.volumes[v].last == Some(x) && c.dump.value != x
    ensures var s := SiteOf(w, v);
            var trace := Trace(cfg, s, c);
            && |trace| >= 4
            && var t := trace[2];
               && History(t.bucket).Some? && History(t.bucket).value != [] && Latest(History(t.bucket).value) == 2
               && Newest(History(t.bucket).value) == c.name && c.name in t.bucket.dumps
               && t.bucket.dumps[c.name] == c.dump.value
               && t.volume.sidecar == Some(GenerationText(2)) && t.volume.last == Some(x) && t.volume.db.Some?
               && Empty(cfg, t.volume) == Some(false) && c.name in t.volume.db.value.ancestors
               && trace[1] == t.(volume := t.volume.(sidecar := s.volume.sidecar))
  {
    var s, p := SiteOf(w, v), Plan([Entry(1, name, size)], c.dump.value);
    hide Readable, GenerationText, IsDumpName, CleanName, Orderly, Admitted, Redundant, FreshName, Effects, Render,
      Utf8Len;
    CurrentIsAdmitted(cfg, s, Entry(1, name, size), c);
    assert Planned(cfg, s, c) == Some(p);
    CanAdvanceFrom(cfg, w, v, c);
    SecondHistory(cfg, name, size, p, c);
    hide Retained, Extended, Planned;
    ManifestFitsTheCap(Retained(Extended(p, c), cfg.keep));
    SecondAndThird(cfg, s, p, c);
  }

  lemma FirstWorld(cfg: Config, w: World, v: nat, c1: Cycle, name: string)
    requires Fresh(w) && v in w.volumes && Empty(cfg, w.volumes[v]) == Some(false) && cfg.keep > 0
    requires GoesWell(cfg, c1) && Stamped(c1.name) && Stamped(name) && c1.name != name
    ensures var w1 := Finished(cfg, w, v, c1);
            && Step(cfg, w, Cycled(v, c1, |Trace(cfg, SiteOf(w, v), c1)|), w1)
            && Orderly(cfg, w1.bucket) && UnusedName(w1, name) && w1.volumes[v].db.Some?
            && History(w1.bucket) == Some([Entry(1, c1.name, |c1.dump.value|)])
            && w1.volumes[v].sidecar == Some(GenerationText(1)) && w1.volumes[v].last == c1.dump
            && Careful(cfg, w, Cycled(v, c1, |Trace(cfg, SiteOf(w, v), c1)|))
  {
    hide Orderly, Lineal, Coherent, Trace, Readable, GenerationText, IsDumpName, CleanName, Backed, Exact, AllFaithful,
      Stamped, FreshName, Fresh;
    FirstBackup(cfg, w, v, c1);
    FirstEnd(cfg, w, v, c1);
    LinealIsOrderly(cfg, w);
    StepKeepsOrderly(cfg, w, Cycled(v, c1, |Trace(cfg, SiteOf(w, v), c1)|), Finished(cfg, w, v, c1));
  }

  lemma LinealIsOrderly(cfg: Config, w: World)
    requires Lineal(cfg, w)
    ensures Orderly(cfg, w.bucket)
  {
  }

  /** The volume backs up x and then holds y. */
  lemma BackedUpThenChanged(cfg: Config, w: World, v: nat, y: Bytes, c1: Cycle, c2: Cycle)
    requires Fresh(w) && v in w.volumes && Empty(cfg, w.volumes[v]) == Some(false) && cfg.keep > 0
    requires GoesWell(cfg, c1) && cfg.empty(y) == Some(false) && Stamped(c1.name) && Stamped(c2.name)
    requires c1.name != c2.name
    ensures var w1 := Finished(cfg, w, v, c1);
            && Step(cfg, w, Cycled(v, c1, |Trace(cfg, SiteOf(w, v), c1)|), w1)
            && Careful(cfg, w, Cycled(v, c1, |Trace(cfg, SiteOf(w, v), c1)|))
            && var w2 := Rewritten(w1, v, y);
               && Step(cfg, w1, Wrote(v, y), w2) && Orderly(cfg, w2.bucket) && UnusedName(w2, c2.name)
               && Empty(cfg, w2.volumes[v]) == Some(false)
               && History(w2.bucket) == Some([Entry(1, c1.name, |c1.dump.value|)])
               && w2.volumes[v].sidecar == Some(GenerationText(1)) && w2.volumes[v].last == c1.dump
  {
    hide Orderly, Trace, Readable, GenerationText, Stamped, FreshName, Fresh, Finished, Careful;
    FirstWorld(cfg, w, v, c1, c2.name);
    var w1 := Finished(cfg, w, v, c1);
    var w2 := Rewritten(w1, v, y);
    assert Step(cfg, w1, Wrote(v, y), w2);
    OnlyTheDatabaseChanged(w1, w2, v, c2.name);
  }

  /** Killed before it retains y, the volume returns to x and wrongly skips. */
  lemma KilledThenReturned(cfg: Config, w: World, v: nat, x: Bytes, c2: Cycle, c3: Cycle, name: string, size: U64)
    requires Orderly(cfg, w.bucket) && cfg.keep > 0 && v in w.volumes && UnusedName(w, c2.name)
    requires Empty(cfg, w.volumes[v]) == Some(false) && History(w.bucket) == Some([Entry(1, name, size)])
    requires w.volumes[v].sidecar == Some(GenerationText(1)) && w.volumes[v].last == Some(x)
    requires Stamped(name) && Stamped(c2.name) && GoesWell(cfg, c2) && GoesWell(cfg, c3) && c3.comparable
    requires cfg.empty(x) == Some(false) && c2.dump.value != x && c3.dump == Some(x)
    ensures 3 <= |Trace(cfg, SiteOf(w, v), c2)|
    ensures var w3 := Killed(cfg, w, v, c2, 3);
            && Step(cfg, w, Cycled(v, c2, 3), w3) && v in w3.volumes
            && var w4 := Rewritten(w3, v, x);
               && Step(cfg, w3, Wrote(v, x), w4) && SkipsOver(cfg, w4, v, c3, c2.dump.value)
  {
    hide Orderly, Trace, Admitted, Planned, Redundant, Readable, GenerationText, IsDumpName, CleanName, ReadSidecar,
      Stamped, FreshName;
    KilledBeforeRetaining(cfg, w, v, c2, name, size, x);
    var w3 := Killed(cfg, w, v, c2, 3);
    var w4 := Rewritten(w3, v, x);
    var es := History(w4.bucket).value;
    CurrentIsAdmitted(cfg, SiteOf(w4, v), es[|es| - 1], c3);
    TraceOfNothing(cfg, SiteOf(w4, v), c3);
  }

  /** Killed one effect earlier, before it records the generation, the volume adopts: it
      descends from the backup it claims, and is then exactly where the later kill
      leaves it. */
  lemma AdoptionStandsInForTheRecord(cfg: Config, w: World, v: nat, x: Bytes, c: Cycle, name: string, size: U64,
                                     listed: bool)
    requires Orderly(cfg, w.bucket) && cfg.keep > 0 && v in w.volumes && UnusedName(w, c.name) && GoesWell(cfg, c)
    requires Stamped(name) && Stamped(c.name) && Empty(cfg, w.volumes[v]) == Some(false)
    requires History(w.bucket) == Some([Entry(1, name, size)]) && w.volumes[v].sidecar == Some(GenerationText(1))
    requires w.volumes[v].last == Some(x) && c.dump.value != x
    ensures 3 <= |Trace(cfg, SiteOf(w, v), c)|
    ensures var w2, a := Killed(cfg, w, v, c, 2), Adoption(true, true, true, listed, Written);
            && Step(cfg, w, Cycled(v, c, 2), w2) && Careful(cfg, w, Cycled(v, c, 2)) && v in w2.volumes
            && Rightful(cfg, SiteOf(w2, v), a) && Step(cfg, w2, Adopts(v, a), Killed(cfg, w, v, c, 3))
  {
    hide Orderly, Trace, Readable, GenerationText, IsDumpName, CleanName, Stamped, FreshName, Publishes;
    KilledBeforeRetaining(cfg, w, v, c, name, size, x);
    var w2, w3 := Killed(cfg, w, v, c, 2), Killed(cfg, w, v, c, 3);
    var a := Adoption(true, true, true, listed, Written);
    assert Adopted(cfg, SiteOf(w2, v), a).volume == w3.volumes[v];
    assert w3.volumes == w2.volumes[v := w3.volumes[v]];
  }

  /** The cycle skips its upload as redundant although the newest object holds other bytes. */
  ghost predicate SkipsOver(cfg: Config, w: World, v: nat, c: Cycle, newest: Bytes) {
    && v in w.volumes && c.dump.Some? && c.dump.value != newest
    && var s := SiteOf(w, v);
    && WrongSkip(cfg, s, c) && Trace(cfg, s, c) == []
    && var es := Admitted(cfg, s, c).value;
       es != [] && Newest(es) in s.bucket.dumps && s.bucket.dumps[Newest(es)] == newest
  }

  /** A run of allowed steps from a fresh deployment whose next cycle wrongly skips: the
      volume backs up x, then y but is killed before it retains y, and returns to x. */
  lemma KilledCycleMisleadsTheNextSkip(cfg: Config, w: World, v: nat, c1: Cycle, c2: Cycle, c3: Cycle)
    requires Fresh(w) && v in w.volumes && Empty(cfg, w.volumes[v]) == Some(false) && cfg.keep > 0
    requires GoesWell(cfg, c1) && GoesWell(cfg, c2) && GoesWell(cfg, c3) && c3.comparable
    requires c1.dump == c3.dump && c1.dump != c2.dump
    requires cfg.empty(c1.dump.value) == Some(false) && cfg.empty(c2.dump.value) == Some(false)
    requires Stamped(c1.name) && Stamped(c2.name) && c1.name != c2.name
    ensures exists worlds, actions :: worlds != [] && worlds[0] == w && Run(cfg, worlds, actions)
                                      && SkipsOver(cfg, worlds[|worlds| - 1], v, c3, c2.dump.value)
  {
    hide Fresh, Stamped, Step, Trace, SkipsOver, UnusedName, Orderly, GenerationText, History, Killed, Finished,
      Rewritten, Empty, Run, Careful;
    var x, y := c1.dump.value, c2.dump.value;
    BackedUpThenChanged(cfg, w, v, y, c1, c2);
    var w1 := Finished(cfg, w, v, c1);
    var w2 := Rewritten(w1, v, y);
    KilledThenReturned(cfg, w2, v, x, c2, c3, c1.name, |x|);
    var w3 := Killed(cfg, w2, v, c2, 3);
    var w4 := Rewritten(w3, v, x);
    var worlds := [w, w1, w2, w3, w4];
    var actions := [Cycled(v, c1, |Trace(cfg, SiteOf(w, v), c1)|), Wrote(v, y), Cycled(v, c2, 3), Wrote(v, x)];
    RunOfFour(cfg, w, w1, w2, w3, w4, actions[0], actions[1], actions[2], actions[3]);
    assert worlds[|worlds| - 1] == w4;
  }

  /** Every adoption of the run is rightful, and every cycle stops carefully. */
  ghost predicate OnlyAdoptionsAreCareless(cfg: Config, worlds: seq<World>, actions: seq<Action>)
    requires |worlds| == |actions| + 1
  {
    forall i :: 0 <= i < |actions| ==>
      RightfulStep(cfg, worlds[i], actions[i]) && (actions[i].Adopts? || Careful(cfg, worlds[i], actions[i]))
  }

  /** The same with no careless cycle: the volume backs up x, then y but is killed before
      it records the new generation, adopts at its next boot, as is its right, and
      returns to x. */
  lemma AdoptionMisleadsTheNextSkip(cfg: Config, w: World, v: nat, c1: Cycle, c2: Cycle, c3: Cycle, listed: bool)
    requires Fresh(w) && v in w.volumes && Empty(cfg, w.volumes[v]) == Some(false) && cfg.keep > 0
    requires GoesWell(cfg, c1) && GoesWell(cfg, c2) && GoesWell(cfg, c3) && c3.comparable
    requires c1.dump == c3.dump && c1.dump != c2.dump
    requires cfg.empty(c1.dump.value) == Some(false) && cfg.empty(c2.dump.value) == Some(false)
    requires Stamped(c1.name) && Stamped(c2.name) && c1.name != c2.name
    ensures exists worlds, actions :: worlds != [] && worlds[0] == w && Run(cfg, worlds, actions)
                                      && OnlyAdoptionsAreCareless(cfg, worlds, actions)
                                      && SkipsOver(cfg, worlds[|worlds| - 1], v, c3, c2.dump.value)
  {
    hide Fresh, Stamped, Step, Trace, SkipsOver, UnusedName, Orderly, GenerationText, History, Killed, Finished,
      Rewritten, Empty, Run, Careful, Rightful;
    var x, y := c1.dump.value, c2.dump.value;
    BackedUpThenChanged(cfg, w, v, y, c1, c2);
    var w1 := Finished(cfg, w, v, c1);
    var w2 := Rewritten(w1, v, y);
    AdoptionStandsInForTheRecord(cfg, w2, v, x, c2, c1.name, |x|, listed);
    KilledThenReturned(cfg, w2, v, x, c2, c3, c1.name, |x|);
    var w3 := Killed(cfg, w2, v, c2, 2);
    var w4 := Killed(cfg, w2, v, c2, 3);
    var w5 := Rewritten(w4, v, x);
    var a := Adopts(v, Adoption(true, true, true, listed, Written));
    var worlds := [w, w1, w2, w3, w4] + [w5];
    var actions := [Cycled(v, c1, |Trace(cfg, SiteOf(w, v), c1)|), Wrote(v, y), Cycled(v, c2, 2), a] + [Wrote(v, x)];
    RunOfFour(cfg, w, w1, w2, w3, w4, actions[0], actions[1], actions[2], actions[3]);
    RunGoesOn(cfg, [w, w1, w2, w3, w4], actions[..4], w5, actions[4]);
    assert actions[..4] + [actions[4]] == actions;
    WritingIsCareful(cfg, w1, v, y);
    WritingIsCareful(cfg, w4, v, x);
    assert worlds[|worlds| - 1] == w5;
  }

  lemma WritingIsCareful(cfg: Config, w: World, v: nat, bytes: Bytes)
    ensures Careful(cfg, w, Wrote(v, bytes))
  {
  }

  lemma RunGoesOn(cfg: Config, worlds: seq<World>, actions: seq<Action>, w: World, a: Action)
    requires Run(cfg, worlds, actions) && Step(cfg, worlds[|actions|], a, w)
    ensures Run(cfg, worlds + [w], actions + [a])
  {
    hide Step;
  }

  lemma RunOfFour(cfg: Config, w: World, w1: World, w2: World, w3: World, w4: World, a: Action, b: Action, c: Action,
                  d: Action)
    requires Step(cfg, w, a, w1) && Step(cfg, w1, b, w2) && Step(cfg, w2, c, w3) && Step(cfg, w3, d, w4)
    ensures Run(cfg, [w, w1, w2, w3, w4], [a, b, c, d])
  {
    hide Step;
  }

  lemma OnlyTheDatabaseChanged(w: World, w': World, v: nat, name: string)
    requires v in w.volumes && w.volumes[v].db.Some? && UnusedName(w, name)
    requires w'.bucket == w.bucket && w'.volumes.Keys == w.volumes.Keys
    requires forall u :: u in w.volumes && u != v ==> w'.volumes[u] == w.volumes[u]
    requires w'.volumes[v].db.Some? && w'.volumes[v].db.value.ancestors == w.volumes[v].db.value.ancestors
    requires w'.volumes[v].sidecar == w.volumes[v].sidecar
    ensures UnusedName(w', name)
  {
    hide FreshName, ReadSidecar;
  }

  lemma TraceOfNothing(cfg: Config, s: Site, c: Cycle)
    requires Planned(cfg, s, c).None?
    ensures Trace(cfg, s, c) == []
  {
  }

  // ---------------------------------------------- adoption after a fallback

  /** Two backups, the newer one damaged. */
  function TwoBackups(older: string, newer: string, good: Bytes, bad: Bytes): Bucket {
    Bucket(Some(Render([Entry(1, older, |good|), Entry(2, newer, |bad|)])), map[older := good, newer := bad])
  }

  predicate GoesThrough(t: Try) {
    !t.stop && t.swept && t.delivered && t.private && t.linked && t.recorded.Written?
  }

  lemma TwoBackupsHistory(older: string, newer: string, good: Bytes, bad: Bytes)
    requires Stamped(older) && Stamped(newer) && older != newer
    ensures History(TwoBackups(older, newer, good, bad)) == Some([Entry(1, older, |good|), Entry(2, newer, |bad|)])
  {
    var es := [Entry(1, older, |good|), Entry(2, newer, |bad|)];
    assert WellFormed(es);
    hide Render, Utf8Len, WellFormed;
    ManifestFitsTheCap(es);
    RenderedReadsBack(es);
  }

  lemma FallsBackToOlder(cfg: Config, older: string, newer: string, good: Bytes, bad: Bytes, r: Recovery)
    requires Stamped(older) && Stamped(newer) && older != newer && cfg.usable(good) && !cfg.usable(bad)
    requires |good| <= MAX_DB_OBJECT_BYTES && |bad| <= MAX_DB_OBJECT_BYTES
    requires r.enabled && r.connected && r.fetched && GoesThrough(r.tries(0)) && GoesThrough(r.tries(1))
    ensures var s := Site(TwoBackups(older, newer, good, bad), Volume(None, None, None));
            var out := Restore(cfg, s, r);
            && out.imported == Some(1) && out.trace != []
            && out.trace[|out.trace| - 1]
              == Site(s.bucket, Volume(Some(Db(good, {older})), Some(GenerationText(1)), None))
  {
    var b := TwoBackups(older, newer, good, bad);
    var s := Site(b, Volume(None, None, None));
    TwoBackupsHistory(older, newer, good, bad);
    hide Readable, GenerationText, Render, Stamped, NewestFirst;
    var cs := NewestFirst(History(b).value);
    var first, second := Candidate(newer, |bad|, Some(2)), Candidate(older, |good|, Some(1));
    assert Candidates(b, r) == Some(cs) && cs == [first, second];
    assert TryOne(cfg, s, first, r.tries(0)) == Attempt([], Invalid);
    var linked := Linked(s, second, good);
    assert TryOne(cfg, s, second, r.tries(1)) == Attempt([linked, Lineaged(linked, second, r.tries(1))], Imported);
    assert TryFrom(cfg, s, cs, r.tries, 0) == TryFrom(cfg, s, cs, r.tries, 1);
  }

  /** The boot that overrides the guard: the newest backup is damaged, the restore falls
      back to the older one, the adoption of the same boot claims the newest, and the
      next cycle plans to extend the history from a database that does not descend from
      its newest backup. Without the adoption it would have refused. */
  lemma AdoptionShadowsTheNewest(cfg: Config, older: string, newer: string, good: Bytes, bad: Bytes, r: Recovery,
                                 listed: bool, c: Cycle)
    requires Stamped(older) && Stamped(newer) && older != newer && cfg.usable(good) && !cfg.usable(bad)
    requires |good| <= MAX_DB_OBJECT_BYTES && |bad| <= MAX_DB_OBJECT_BYTES && cfg.empty(good) == Some(false)
    requires r.enabled && r.connected && r.fetched && GoesThrough(r.tries(0)) && GoesThrough(r.tries(1))
    requires GoesWell(cfg, c)
    ensures var s := Site(TwoBackups(older, newer, good, bad), Volume(None, None, None));
            var out := Restore(cfg, s, r);
            && out.imported == Some(1) && out.trace != [] && History(s.bucket).Some?
            && var restored := out.trace[|out.trace| - 1];
               var a := Adoption(true, true, true, listed, Written);
               var adopted := Adopted(cfg, restored, a);
               && Trace(cfg, restored, c) == [] && !Rightful(cfg, restored, a)
               && Planned(cfg, adopted, c) == Some(Plan(History(s.bucket).value, c.dump.value))
               && Newest(History(s.bucket).value) == newer && adopted.volume.db == Some(Db(good, {older}))
  {
    FallsBackToOlder(cfg, older, newer, good, bad, r);
    TwoBackupsHistory(older, newer, good, bad);
    hide Restore, Readable, GenerationText, TwoBackups, Stamped, Trace, Admitted, Redundant, Planned, Listing;
    var b := TwoBackups(older, newer, good, bad);
    var restored := Site(b, Volume(Some(Db(good, {older})), Some(GenerationText(1)), None));
    GenerationIsBehind(b, restored.volume, 1);
    BehindRefuses(cfg, restored, c);
    var adopted := Adopted(cfg, restored, Adoption(true, true, true, listed, Written));
    CurrentIsAdmitted(cfg, adopted, Entry(2, newer, |bad|), c);
  }

  // ------------------------------------------------ a name with a space in it

  const SPACED := "sqlite-a b.sqlite3"

  lemma SpacedIsAscii()
    ensures |SPACED| == 18 && forall i :: 0 <= i < 18 ==> SPACED[i] < '\U{0080}'
  {
  }

  lemma SpacedName()
    ensures IsDumpName(SPACED) && !CleanName(SPACED) && |SPACED| <= 40 && forall c :: c in SPACED ==> c < '\U{0080}'
  {
    SpacedIsAscii();
    assert SPACED == "sqlite-" + "a b.sqlite3" == "sqlite-a b" + ".sqlite3";
    assert SPACED[8] == ' ' && SPACED[8] in SPACED && IsWhite(' ');
  }

  /** A bucket from before the manifest, holding one dump. */
  function Legacy(name: string, bytes: Bytes): Bucket {
    Bucket(None, map[name := bytes])
  }

  lemma LegacyListing(name: string, bytes: Bytes)
    requires IsDumpName(name)
    ensures Listable(Legacy(name, bytes)) && Listing(Legacy(name, bytes)) == [(name, |bytes|)]
    ensures View(Legacy(name, bytes), true, true) == Some([Entry(1, name, |bytes|)])
  {
    var b := Legacy(name, bytes);
    hide IsDumpName, Listing;
    assert DumpNames(b) == {name};
    assert Listing(b)[0].0 in DumpNames(b);
    var es := FromListing(Listing(b));
    assert es[0] == Entry(1, name, |bytes|) && es == [es[0]];
  }

  /** A volume that adopts the one listed dump may extend the listing. */
  lemma LegacyAdopts(cfg: Config, name: string, bytes: Bytes, vol: Volume, c: Cycle)
    requires IsDumpName(name) && Empty(cfg, vol) == Some(false) && vol.last.None? && GoesWell(cfg, c)
    ensures var s := Adopted(cfg, Site(Legacy(name, bytes), vol), Adoption(true, true, true, true, Written));
            && s.bucket == Legacy(name, bytes)
            && Planned(cfg, s, c) == Some(Plan([Entry(1, name, |bytes|)], c.dump.value))
  {
    LegacyListing(name, bytes);
    NameReadsBack(name);
    hide IsDumpName, Listing, ReadSidecar, NameText, FromListing, View;
    var s := Adopted(cfg, Site(Legacy(name, bytes), vol), Adoption(true, true, true, true, Written));
    assert s.volume.sidecar == Some(NameText(name));
    assert Resolve(Some(LegacyName(name)), [Entry(1, name, |bytes|)]) == Some(1);
  }

  lemma SpacedManifest(cfg: Config, size: U64, p: Plan, c: Cycle)
    requires p.entries == [Entry(1, SPACED, size)] && cfg.keep >= 2 && Stamped(c.name)
    ensures NextGeneration(p.entries).Some?
    ensures var es := Retained(Extended(p, c), cfg.keep);
            !BackupListing.AllClean(es) && Utf8Len(Render(es)) <= MAX_MANIFEST_BYTES
  {
    SpacedName();
    hide IsDumpName, CleanName, Render, Utf8Len;
    var es := Retained(Extended(p, c), cfg.keep);
    assert es == [Entry(1, SPACED, size), Entry(2, c.name, RecordedSize(p, c))];
    assert es[0].name == SPACED;
    ManifestFitsTheCap(es);
  }

  lemma SpacedCyclePublishes(cfg: Config, s: Site, size: U64, c: Cycle)
    requires s.bucket.manifest.None? && cfg.keep >= 2 && GoesWell(cfg, c) && Stamped(c.name)
    requires Planned(cfg, s, c) == Some(Plan([Entry(1, SPACED, size)], c.dump.value)) && FreshName(s.bucket, c.name)
    ensures exists t :: t in Trace(cfg, s, c) && t.bucket.manifest.Some? && History(t.bucket).None?
  {
    var p := Plan([Entry(1, SPACED, size)], c.dump.value);
    SpacedManifest(cfg, size, p, c);
    hide Planned, FreshName, Trace, Stamped, Render, Utf8Len, Retained, Extended, Readable, BackupListing.AllClean;
    BackupListing.ListingCycleStoresReadable(cfg, s, c);
    var t := WithManifest(WithDump(s, p, c), Render(Retained(Extended(p, c), cfg.keep)), c);
    assert t in Trace(cfg, s, c) && t.bucket.manifest.Some? && History(t.bucket).None?;
  }

  /** The first cycle over a bucket that holds one dump with a space in its name, by a
      volume that adopted it: the manifest it publishes does not read back, and no later
      cycle of anyone has any effect. */
  lemma SpacedNameEndsTheBackups(cfg: Config, bytes: Bytes, vol: Volume, c: Cycle)
    requires Empty(cfg, vol) == Some(false) && vol.last.None? && cfg.keep >= 2
    requires GoesWell(cfg, c) && Stamped(c.name)
    ensures var s := Adopted(cfg, Site(Legacy(SPACED, bytes), vol), Adoption(true, true, true, true, Written));
            exists t :: t in Trace(cfg, s, c) && t.bucket.manifest.Some? && History(t.bucket).None?
                        && forall other, c' :: Trace(cfg, Site(t.bucket, other), c') == []
  {
    SpacedName();
    LegacyAdopts(cfg, SPACED, bytes, vol, c);
    var s := Adopted(cfg, Site(Legacy(SPACED, bytes), vol), Adoption(true, true, true, true, Written));
    hide Planned, Adopted, IsDumpName, CleanName, Readable, GoesWell;
    assert FreshName(s.bucket, c.name);
    SpacedCyclePublishes(cfg, s, |bytes|, c);
    hide Trace;
    var t :| t in Trace(cfg, s, c) && t.bucket.manifest.Some? && History(t.bucket).None?;
    forall other, c' ensures Trace(cfg, Site(t.bucket, other), c') == [] {
      BackupListing.UnreadableRefuses(cfg, Site(t.bucket, other), c');
    }
  }
}
