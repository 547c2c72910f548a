/** What holds over every history of a bucket shared by several volumes: the chain of
    generations is linear, and its manifest stays backed. */
module BackupHistory {
  import opened Text
  import opened BackupManifest
  import opened BackupWorld
  import opened BackupTick
  import opened BackupIntegrity
  import opened BackupRestore
  import opened BackupLineage

  ghost predicate Run(cfg: Config, worlds: seq<World>, actions: seq<Action>) {
    && |worlds| == |actions| + 1
    && forall i :: 0 <= i < |actions| ==> Step(cfg, worlds[i], actions[i], worlds[i + 1])
  }

  lemma {:induction false} RunStaysOrderly(cfg: Config, worlds: seq<World>, actions: seq<Action>, n: nat)
    requires Run(cfg, worlds, actions) && Orderly(cfg, worlds[0].bucket) && cfg.keep > 0 && n < |worlds|
    ensures Orderly(cfg, worlds[n].bucket)
  {
    hide Step, Orderly;
    if n > 0 {
      RunStaysOrderly(cfg, worlds, actions, n - 1);
      StepKeepsOrderly(cfg, worlds[n - 1], actions[n - 1], worlds[n]);
    }
  }

  /** In every run, whoever adopts what, no recorded generation is beyond the current one. */
  lemma {:induction false} RunStaysCoherent(cfg: Config, worlds: seq<World>, actions: seq<Action>, n: nat)
    requires Run(cfg, worlds, actions) && Coherent(cfg, worlds[0]) && cfg.keep > 0 && n < |worlds|
    ensures Coherent(cfg, worlds[n])
  {
    hide Step, Coherent;
    if n > 0 {
      RunStaysCoherent(cfg, worlds, actions, n - 1);
      StepKeepsCoherent(cfg, worlds[n - 1], actions[n - 1], worlds[n]);
    }
  }

  /** Every claim in a run is honest up to some point exactly when every adoption before
      it was rightful. */
  lemma {:induction false} LinealWhileRightful(cfg: Config, worlds: seq<World>, actions: seq<Action>, n: nat)
    requires Run(cfg, worlds, actions) && Lineal(cfg, worlds[0]) && cfg.keep > 0 && n < |worlds|
    ensures (forall m :: 0 <= m <= n ==> Lineal(cfg, worlds[m]))
            <==> forall m :: 0 <= m < n ==> RightfulStep(cfg, worlds[m], actions[m])
  {
    hide Step, Lineal, RightfulStep;
    if n > 0 {
      LinealWhileRightful(cfg, worlds, actions, n - 1);
      if Lineal(cfg, worlds[n - 1]) {
        StepKeepsLineal(cfg, worlds[n - 1], actions[n - 1], worlds[n]);
      }
    }
  }

  // ------------------------------------------------------------ linear history

  /** The volume cannot prove the stored manifest's current generation. */
  ghost predicate Behind(b: Bucket, vol: Volume) {
    && History(b).Some? && History(b).value != []
    && var g := Resolve(ReadSidecar(vol.sidecar), History(b).value); g.None? || g.value < Latest(History(b).value)
  }

  ghost predicate HoldsNewest(w: World, v: nat) {
    && v in w.volumes && w.volumes[v].db.Some? && History(w.bucket).Some? && History(w.bucket).value != []
    && Newest(History(w.bucket).value) in w.volumes[v].db.value.ancestors
  }

  /** A volume that is behind uploads nothing, whatever its cycle meets. */
  lemma BehindRefuses(cfg: Config, s: Site, c: Cycle)
    requires Behind(s.bucket, s.volume)
    ensures Trace(cfg, s, c) == []
  {
    HistoryIsWellFormed(s.bucket);
    hide Readable, ReadSidecar, Resolve, CleanName, Effects;
    assert Latest(History(s.bucket).value) > 0;
  }

  /** An honest volume that can prove the current generation descends from the newest dump. */
  lemma UpToDateHoldsNewest(cfg: Config, w: World, v: nat)
    requires v in w.volumes && Honest(cfg, w.bucket, w.volumes[v])
    requires History(w.bucket).Some? && History(w.bucket).value != []
    ensures Behind(w.bucket, w.volumes[v]) || HoldsNewest(w, v)
  {
    hide Readable, ReadSidecar, Resolve, CleanName, Orderly, Honest;
    HistoryIsWellFormed(w.bucket);
    var es := History(w.bucket).value;
    assert Latest(es) > 0;
    hide WellFormed;
    if Proceeds(Resolve(ReadSidecar(w.volumes[v].sidecar), es), Latest(es)) {
      ProceedsOnlyFromNewest(cfg, w.bucket, w.volumes[v], es);
    }
  }

  /** Only a volume proving the current generation ever uploads on top of it, and if its
      claim is honest it descends from the newest backup. */
  lemma OnlyTheOwnerExtends(cfg: Config, w: World, v: nat, c: Cycle)
    requires Orderly(cfg, w.bucket) && v in w.volumes && Bounded(w.bucket, w.volumes[v])
    requires Planned(cfg, SiteOf(w, v), c).Some?
    ensures var es := Planned(cfg, SiteOf(w, v), c).value.entries;
            Latest(es) > 0 ==>
              && Resolve(ReadSidecar(w.volumes[v].sidecar), es) == Some(Latest(es))
              && (Honest(cfg, w.bucket, w.volumes[v]) ==>
                    w.volumes[v].db.Some? && Newest(es) in w.volumes[v].db.value.ancestors)
  {
    hide Readable, ReadSidecar, Resolve, CleanName, WellFormed, Orderly, Listing, FromListing, Honest, Bounded;
    var es := Planned(cfg, SiteOf(w, v), c).value.entries;
    assert CleanNames(w.bucket) by {
      assert Orderly(cfg, w.bucket);
      HasCleanNames(cfg, w.bucket);
    }
    ViewIsWellFormed(w.bucket, c.fetched, c.listed);
    if Latest(es) > 0 {
      ProceedsAtTheLatest(w.bucket, w.volumes[v], es);
      if Honest(cfg, w.bucket, w.volumes[v]) {
        ProceedsOnlyFromNewest(cfg, w.bucket, w.volumes[v], es);
      }
    }
  }

  lemma HasCleanNames(cfg: Config, b: Bucket)
    requires Orderly(cfg, b)
    ensures CleanNames(b)
  {
  }

  lemma ProceedsAtTheLatest(b: Bucket, vol: Volume, es: Entries)
    requires Bounded(b, vol) && WellFormed(es) && es != [] && (b.manifest.Some? ==> History(b) == Some(es))
    requires Latest(es) > 0 && Proceeds(Resolve(ReadSidecar(vol.sidecar), es), Latest(es))
    ensures Resolve(ReadSidecar(vol.sidecar), es) == Some(Latest(es))
  {
    hide Readable, ReadSidecar, FindName, WellFormed;
    var known := ReadSidecar(vol.sidecar);
    if known.Some? && known.value.LegacyName? {
      NameResolves(es, known.value.name);
    }
  }

  /** An honest claim that reaches the current generation comes from the newest dump. */
  lemma ProceedsOnlyFromNewest(cfg: Config, b: Bucket, vol: Volume, es: Entries)
    requires Honest(cfg, b, vol) && WellFormed(es) && es != [] && (b.manifest.Some? ==> History(b) == Some(es))
    requires Latest(es) > 0 && Proceeds(Resolve(ReadSidecar(vol.sidecar), es), Latest(es))
    ensures Resolve(ReadSidecar(vol.sidecar), es) == Some(Latest(es)) && vol.db.Some?
    ensures Newest(es) in vol.db.value.ancestors
  {
    hide Readable, ReadSidecar, FindName, WellFormed;
    var known := ReadSidecar(vol.sidecar);
    if known.Some? && known.value.LegacyName? {
      NameResolves(es, known.value.name);
    }
  }

  lemma OldClaimsFallBehind(es: Entries, known: Option<Known>)
    requires WellFormed(es) && es != []
    requires known.Some? && known.value.Generation? ==> known.value.generation < Latest(es)
    requires known.Some? && known.value.LegacyName? ==> known.value.name != Newest(es)
    ensures var g := Resolve(known, es); g.None? || g.value < Latest(es)
  {
    hide FindName, WellFormed;
    if known.Some? && known.value.LegacyName? {
      NameResolves(es, known.value.name);
    }
  }

  /** A manifest naming a dump a volume has not recorded leaves it behind. */
  lemma FallsBehind(cfg: Config, s: Site, p: Plan, c: Cycle, t: Site, vol: Volume)
    requires CanAdvance(cfg, s, p, c) && Advanced(cfg, s, p, c, t)
    requires Bounded(s.bucket, vol) && !Records(vol, c.name)
    requires s.bucket.manifest.Some? ==> History(s.bucket) == Some(p.entries)
    ensures Behind(t.bucket, vol)
  {
    hide Readable, ReadSidecar, Resolve, CleanName, WellFormed, GenerationText, Extended, Retained, IsDumpName, Absent;
    AdvancedHistory(cfg, s, p, c, t);
    OldClaimsFallBehind(History(t.bucket).value, ReadSidecar(vol.sidecar));
  }

  lemma CanAdvanceFrom(cfg: Config, w: World, v: nat, c: Cycle)
    requires Orderly(cfg, w.bucket) && v in w.volumes && UnusedName(w, c.name) && cfg.keep > 0
    requires Planned(cfg, SiteOf(w, v), c).Some?
    ensures var p := Planned(cfg, SiteOf(w, v), c).value;
            CanAdvance(cfg, SiteOf(w, v), p, c) && (w.bucket.manifest.Some? ==> History(w.bucket) == Some(p.entries))
  {
    ViewCanAdvance(cfg, w, v, c);
    hide Readable, ReadSidecar, Resolve, CleanName, WellFormed, Orderly, Listing, FromListing;
  }

  /** A cycle that changed the stored manifest had admitted a history and advanced it. */
  lemma PublishedState(cfg: Config, w: World, a: Action, w': World)
    requires Orderly(cfg, w.bucket) && cfg.keep > 0 && a.Cycled? && Step(cfg, w, a, w')
    requires w'.bucket.manifest != w.bucket.manifest
    ensures var s, p := SiteOf(w, a.v), Planned(cfg, SiteOf(w, a.v), a.c);
            && p.Some? && CanAdvance(cfg, s, p.value, a.c)
            && (w.bucket.manifest.Some? ==> History(w.bucket) == Some(p.value.entries))
            && Advanced(cfg, s, p.value, a.c, Site(w'.bucket, w'.volumes[a.v]))
  {
    var s, c := SiteOf(w, a.v), a.c;
    CycleStates(cfg, w, a.v, c);
    hide Effects, Readable, ReadSidecar, Resolve, Listing, FromListing, CleanName, WellFormed, IsDumpName, Honest,
      Advanced, CanAdvance;
    var p := Planned(cfg, s, c);
    assert a.k > 0 && p.Some?;
    var t := StateAfter(s, Trace(cfg, s, c), a.k);
    assert t in Trace(cfg, s, c) && t == Site(w'.bucket, w'.volumes[a.v]);
    assert Reached(cfg, s, p.value, c, t);
    ViewCanAdvance(cfg, w, a.v, c);
  }

  /** Whenever a cycle, wherever it stopped, has changed the stored manifest, it has
      appended exactly the next generation to the history it read; if that history was
      not empty the volume proved its current generation, and descends from its newest
      dump if its claim is honest; and every other volume is now behind. */
  lemma PublicationExtendsTheChain(cfg: Config, w: World, a: Action, w': World)
    requires Coherent(cfg, w) && cfg.keep > 0 && a.Cycled? && Step(cfg, w, a, w')
    requires w'.bucket.manifest != w.bucket.manifest
    ensures Planned(cfg, SiteOf(w, a.v), a.c).Some? && History(w'.bucket).Some? && History(w'.bucket).value != []
    ensures var before, after := Planned(cfg, SiteOf(w, a.v), a.c).value.entries, History(w'.bucket).value;
            && Latest(after) == Latest(before) + 1 && Newest(after) == a.c.name
            && (Latest(before) > 0 ==>
                  && Resolve(ReadSidecar(w.volumes[a.v].sidecar), before) == Some(Latest(before))
                  && (Honest(cfg, w.bucket, w.volumes[a.v]) ==>
                        w.volumes[a.v].db.Some? && Newest(before) in w.volumes[a.v].db.value.ancestors))
    ensures forall u :: u in w.volumes && u != a.v ==> Outdated(w', u)
  {
    PublishedState(cfg, w, a, w');
    OnlyTheOwnerExtends(cfg, w, a.v, a.c);
    hide Planned, Trace, Readable, ReadSidecar, Resolve, CanAdvance, Advanced, Behind, Orderly, FreshName, Honest,
      Bounded, Records;
    var s, p := SiteOf(w, a.v), Planned(cfg, SiteOf(w, a.v), a.c).value;
    var t := Site(w'.bucket, w'.volumes[a.v]);
    AdvancedHistory(cfg, s, p, a.c, t);
    forall u | u in w.volumes && u != a.v ensures Outdated(w', u) {
      FallsBehind(cfg, s, p, a.c, t, w.volumes[u]);
    }
  }

  /** Behind, and not a continuation of the newest backup either: the state every other
      volume is in once a volume has published. */
  ghost predicate Outdated(w: World, u: nat) {
    u in w.volumes && Behind(w.bucket, w.volumes[u]) && !HoldsNewest(w, u)
  }

  /** The volume's own boot ends with the newest backup, or the volume records a claim it
      adopts. */
  ghost predicate Readmits(cfg: Config, w: World, a: Action, w': World, u: nat) {
    && a.v == u && u in w.volumes
    && ((a.Booted? && HoldsNewest(w', u))
        || (a.Adopts? && Claims(cfg, SiteOf(w, u), a.a) && a.a.recorded.Written?))
  }

  lemma CycleKeepsBehind(cfg: Config, w: World, a: Action, w': World, u: nat)
    requires Coherent(cfg, w) && cfg.keep > 0 && Step(cfg, w, a, w') && a.Cycled?
    requires u in w.volumes && Behind(w.bucket, w.volumes[u])
    ensures u in w'.volumes && Behind(w'.bucket, w'.volumes[u])
    ensures !HoldsNewest(w, u) ==> !HoldsNewest(w', u)
  {
    if a.v == u {
      BehindRefuses(cfg, SiteOf(w, u), a.c);
    } else if w'.bucket.manifest != w.bucket.manifest {
      PublicationExtendsTheChain(cfg, w, a, w');
    }
    hide Readable, ReadSidecar, Resolve, Trace, Coherent;
  }

  /** A restore leaves its volume behind unless it brought the newest backup. */
  lemma BootKeepsBehind(cfg: Config, w: World, a: Action, w': World)
    requires Orderly(cfg, w.bucket) && Step(cfg, w, a, w') && a.Booted? && Behind(w.bucket, w.volumes[a.v])
    ensures Behind(w.bucket, w'.volumes[a.v]) || HoldsNewest(w', a.v)
  {
    var s := SiteOf(w, a.v);
    RestoreStates(cfg, s, a.r);
    hide Restore, Readable, ReadSidecar, Resolve, Candidates, Delivered, Lineaged, Linked, Orderly;
    var out := Restore(cfg, s, a.r);
    var t := StateAfter(s, out.trace, a.k);
    if a.k > 0 && t.volume.sidecar != s.volume.sidecar {
      assert t in out.trace;
      var k := out.imported.value;
      ImportIsHonest(cfg, s, a.r, k, Delivered(s.bucket, Candidates(s.bucket, a.r).value[k], a.r.tries(k)).value);
      hide Honest, Behind;
      UpToDateHoldsNewest(cfg, w', a.v);
    } else if a.k > 0 {
      assert t in out.trace;
    }
  }

  lemma AdoptionAgainstBehind(cfg: Config, s: Site, a: Adoption)
    requires Behind(s.bucket, s.volume)
    ensures Behind(s.bucket, Adopted(cfg, s, a).volume) <==> !(Claims(cfg, s, a) && a.recorded.Written?)
  {
    AdoptionLiftsTheGuard(cfg, s, a);
    hide Readable, ReadSidecar, ClaimText, Behind, Resolve, Listing;
  }

  /** A volume that is behind stays behind through every step of anyone, unless its own
      boot brings it the newest backup; of its own adoptions exactly those that record a
      claim end it. */
  lemma BehindPersists(cfg: Config, w: World, a: Action, w': World, u: nat)
    requires Coherent(cfg, w) && cfg.keep > 0 && Step(cfg, w, a, w')
    requires u in w.volumes && Behind(w.bucket, w.volumes[u])
    ensures u in w'.volumes
    ensures Behind(w'.bucket, w'.volumes[u]) || Readmits(cfg, w, a, w', u)
    ensures a.Adopts? ==> (Behind(w'.bucket, w'.volumes[u]) <==> !Readmits(cfg, w, a, w', u))
  {
    match a
    case Cycled(_, _, _) =>
      CycleKeepsBehind(cfg, w, a, w', u);
      hide Step, Behind, Coherent;
    case Booted(v, r, _) =>
      BootKeepsClaims(cfg, w, a, w');
      if v == u {
        BootKeepsBehind(cfg, w, a, w');
      }
      hide Behind, Coherent, Restore, Bounded, Honest;
    case Adopts(v, adoption) =>
      if v == u {
        AdoptionAgainstBehind(cfg, SiteOf(w, u), adoption);
      }
      hide Behind, Coherent, Adopted, Claims;
    case Wrote(_, _) =>
      hide Readable, ReadSidecar, Resolve, Coherent;
    case Lost(_) =>
      assert ReadSidecar(None) == None;
      hide Readable, ReadSidecar, Coherent;
  }

  /** An outdated volume stays outdated through every step of anyone, adoptions by the
      others included, exactly until its own boot brings it the newest backup or it
      records a claim it adopts. */
  lemma OutdatedPersists(cfg: Config, w: World, a: Action, w': World, u: nat)
    requires Coherent(cfg, w) && cfg.keep > 0 && Step(cfg, w, a, w') && Outdated(w, u)
    ensures Outdated(w', u) <==> !Readmits(cfg, w, a, w', u)
  {
    BehindPersists(cfg, w, a, w', u);
    match a
    case Cycled(_, _, _) =>
      CycleKeepsBehind(cfg, w, a, w', u);
      hide Step, Behind, HoldsNewest, Coherent;
    case Booted(_, _, _) =>
      BootKeepsClaims(cfg, w, a, w');
      hide Restore, Behind, Coherent, Bounded, Honest;
    case _ =>
      hide Behind, Coherent, Adopted, Claims;
      assert w'.bucket == w.bucket;
  }

  /** From an outdated state on: outdated up to some later point exactly when nothing
      before it readmits the volume. */
  lemma {:induction false} OutdatedUntilReadmitted(cfg: Config, worlds: seq<World>, actions: seq<Action>, i: nat,
                                                   j: nat, u: nat)
    requires Run(cfg, worlds, actions) && Coherent(cfg, worlds[0]) && cfg.keep > 0
    requires i <= j < |worlds| && Outdated(worlds[i], u)
    ensures (forall m :: i <= m <= j ==> Outdated(worlds[m], u))
            <==> forall m :: i <= m < j ==> !Readmits(cfg, worlds[m], actions[m], worlds[m + 1], u)
  {
    hide Step, Coherent, Outdated, Readmits;
    if i < j {
      OutdatedUntilReadmitted(cfg, worlds, actions, i, j - 1, u);
      RunStaysCoherent(cfg, worlds, actions, j - 1);
      if Outdated(worlds[j - 1], u) {
        OutdatedPersists(cfg, worlds[j - 1], actions[j - 1], worlds[j], u);
      }
    }
  }

  /** Linear history: once a cycle of one volume has published a generation, no other
      volume uploads anything, in any later state of any run, before a boot of its own
      has brought it the newest backup or it has itself recorded a claim it adopted.
      Nothing the other volumes do, their adoptions included, can change that. */
  lemma LinearHistory(cfg: Config, worlds: seq<World>, actions: seq<Action>, i: nat, j: nat, u: nat, c: Cycle)
    requires Run(cfg, worlds, actions) && Coherent(cfg, worlds[0]) && cfg.keep > 0 && i < j < |worlds|
    requires actions[i].Cycled? && worlds[i + 1].bucket.manifest != worlds[i].bucket.manifest
    requires u in worlds[i].volumes && u != actions[i].v
    requires forall m :: i < m < j ==> !Readmits(cfg, worlds[m], actions[m], worlds[m + 1], u)
    ensures u in worlds[j].volumes && Trace(cfg, SiteOf(worlds[j], u), c) == []
  {
    RunStaysCoherent(cfg, worlds, actions, i);
    assert Step(cfg, worlds[i], actions[i], worlds[i + 1]);
    PublicationExtendsTheChain(cfg, worlds[i], actions[i], worlds[i + 1]);
    hide Step, Coherent, Behind, HoldsNewest, Trace, Readmits;
    OutdatedUntilReadmitted(cfg, worlds, actions, i + 1, j, u);
    BehindRefuses(cfg, SiteOf(worlds[j], u), c);
  }

  // --------------------------------------------------------- backed throughout

  /** The step is a cycle that is misled. */
  ghost predicate MisledStep(cfg: Config, w: World, a: Action) {
    && a.Cycled? && a.v in w.volumes && Planned(cfg, SiteOf(w, a.v), a.c).Some?
    && Misled(cfg, Planned(cfg, SiteOf(w, a.v), a.c).value, a.c)
  }

  ghost predicate NeverMisled(cfg: Config, worlds: seq<World>, actions: seq<Action>)
    requires |worlds| == |actions| + 1
  {
    forall i :: 0 <= i < |actions| ==> !MisledStep(cfg, worlds[i], actions[i])
  }

  lemma StepKeepsBacked(cfg: Config, w: World, a: Action, w': World)
    requires Orderly(cfg, w.bucket) && cfg.keep > 0 && Step(cfg, w, a, w') && Backed(w.bucket)
    requires !MisledStep(cfg, w, a)
    ensures Backed(w'.bucket)
  {
    match a
    case Cycled(v, c, k) =>
      HasCleanNames(cfg, w.bucket);
      TickKeepsBacked(cfg, SiteOf(w, v), c);
      hide Trace, Backed, Planned, Misled;
      assert k > 0 ==> StateAfter(SiteOf(w, v), Trace(cfg, SiteOf(w, v), c), k) in Trace(cfg, SiteOf(w, v), c);
    case Booted(v, r, _) =>
      BootKeepsClaims(cfg, w, a, w');
      hide Restore, Backed, Bounded, Honest;
    case _ =>
      hide Backed, ClaimText, ClaimedName;
  }

  /** Over every run in which no cycle is misled, each manifest ever stored names only
      objects that exist at that moment, at their recorded sizes. */
  lemma {:induction false} RunStaysBacked(cfg: Config, worlds: seq<World>, actions: seq<Action>, n: nat)
    requires Run(cfg, worlds, actions) && Orderly(cfg, worlds[0].bucket) && cfg.keep > 0 && n < |worlds|
    requires Backed(worlds[0].bucket) && NeverMisled(cfg, worlds, actions)
    ensures Backed(worlds[n].bucket)
  {
    hide Orderly, Backed, MisledStep, Step;
    if n > 0 {
      RunStaysOrderly(cfg, worlds, actions, n - 1);
      RunStaysBacked(cfg, worlds, actions, n - 1);
      StepKeepsBacked(cfg, worlds[n - 1], actions[n - 1], worlds[n]);
    }
  }

  /** A cycle that runs to its end without failures, or any other step. */
  ghost predicate FlawlessStep(cfg: Config, w: World, a: Action) {
    a.Cycled? && a.v in w.volumes ==> Flawless(a.c) && a.k == |Trace(cfg, SiteOf(w, a.v), a.c)|
  }

  lemma StepKeepsExact(cfg: Config, w: World, a: Action, w': World)
    requires Orderly(cfg, w.bucket) && cfg.keep > 0 && Step(cfg, w, a, w') && Exact(w.bucket)
    requires FlawlessStep(cfg, w, a)
    ensures Exact(w'.bucket)
  {
    match a
    case Cycled(v, c, k) =>
      HasCleanNames(cfg, w.bucket);
      FlawlessTickIsExact(cfg, SiteOf(w, v), c);
      hide Trace, Exact, Orderly, FreshName;
    case Booted(v, r, _) =>
      BootKeepsClaims(cfg, w, a, w');
      hide Restore, Exact, Bounded, Honest;
    case _ =>
      hide Exact, ClaimText, ClaimedName;
  }

  /** Over every run whose cycles meet no failure, whatever else happens in between, the
      dumps of the bucket are exactly the ones its manifest names. */
  lemma {:induction false} FlawlessRunIsExact(cfg: Config, worlds: seq<World>, actions: seq<Action>, n: nat)
    requires Run(cfg, worlds, actions) && Orderly(cfg, worlds[0].bucket) && cfg.keep > 0 && n < |worlds|
    requires Exact(worlds[0].bucket) && forall i :: 0 <= i < |actions| ==> FlawlessStep(cfg, worlds[i], actions[i])
    ensures Exact(worlds[n].bucket)
  {
    hide Orderly, Exact, FlawlessStep, Step;
    if n > 0 {
      RunStaysOrderly(cfg, worlds, actions, n - 1);
      FlawlessRunIsExact(cfg, worlds, actions, n - 1);
      StepKeepsExact(cfg, worlds[n - 1], actions[n - 1], worlds[n]);
    }
  }

  // ------------------------------------------------- restoring an older backup

  lemma ImportedGeneration(cfg: Config, s: Site, r: Recovery)
    requires var out := Restore(cfg, s, r);
             out.imported.Some? && r.fetched && History(s.bucket).Some? && r.tries(out.imported.value).recorded.Written?
    ensures var out, es := Restore(cfg, s, r), History(s.bucket).value;
            && out.trace != [] && out.imported.value < |es|
            && var g := es[|es| - 1 - out.imported.value].generation;
               out.trace[|out.trace| - 1].volume.sidecar == Some(GenerationText(g))
  {
    hide TryFrom, Restore, Readable, GenerationText, Delivered;
    RestoreFallsBackOnlyFromCorruption(cfg, s, r);
  }

  /** After importing a manifest candidate and recording its generation the volume is
      behind exactly when the candidate was not the newest. */
  lemma OlderImportRefuses(cfg: Config, s: Site, r: Recovery)
    requires var out := Restore(cfg, s, r);
             out.imported.Some? && r.fetched && History(s.bucket).Some? && r.tries(out.imported.value).recorded.Written?
    ensures var out := Restore(cfg, s, r);
            out.trace != [] && (Behind(s.bucket, out.trace[|out.trace| - 1].volume) <==> out.imported.value > 0)
  {
    hide Restore, Behind, GenerationText;
    ImportedGeneration(cfg, s, r);
    var out := Restore(cfg, s, r);
    GenerationIsBehind(s.bucket, out.trace[|out.trace| - 1].volume, out.imported.value);
  }

  lemma GenerationIsBehind(b: Bucket, vol: Volume, k: nat)
    requires History(b).Some? && k < |History(b).value|
    requires var es := History(b).value; vol.sidecar == Some(GenerationText(es[|es| - 1 - k].generation))
    ensures Behind(b, vol) <==> k > 0
  {
    hide Readable, ReadSidecar, GenerationText, CleanName;
    HistoryIsWellFormed(b);
    var es := History(b).value;
    GenerationReadsBack(es[|es| - 1 - k].generation);
  }

  /** The guard is all that a history in the bucket adds: a cycle whose other guards
      pass is admitted exactly when the volume is not behind. */
  lemma AdmittedUnlessBehind(cfg: Config, s: Site, c: Cycle)
    requires History(s.bucket).Some? && History(s.bucket).value != [] && NextGeneration(History(s.bucket).value).Some?
    requires !c.stop && c.connected && c.fetched && Empty(cfg, s.volume) == Some(false)
    ensures Admitted(cfg, s, c) == (if Behind(s.bucket, s.volume) then None else History(s.bucket))
  {
    HistoryIsWellFormed(s.bucket);
    hide Readable, ReadSidecar, Resolve, CleanName;
    assert Latest(History(s.bucket).value) > 0;
  }

  /** Adoption against the guard, exactly: where nothing is written the volume is behind
      as before; a completed record lifts the guard whatever the database descends from;
      a truncated one leaves it behind. */
  lemma AdoptionLiftsTheGuard(cfg: Config, s: Site, a: Adoption)
    requires History(s.bucket).Some? && History(s.bucket).value != []
    ensures Behind(s.bucket, Adopted(cfg, s, a).volume)
            <==> if !a.enabled || Empty(cfg, s.volume) != Some(false) || !a.connected || !a.fetched
                    || a.recorded.Unwritten?
                 then Behind(s.bucket, s.volume)
                 else a.recorded.Truncated?
  {
    assert ReadSidecar(Some("")) == None;
    GenerationReadsBack(Latest(History(s.bucket).value));
    hide Readable, ReadSidecar, GenerationText, Listing;
  }

  /** The whole boot: a restore that imported a manifest candidate and recorded it,
      followed by an adoption. The volume ends behind exactly when the adoption wrote
      nothing and the candidate was an older one, or its record was truncated. */
  lemma BootLiftsTheGuard(cfg: Config, s: Site, r: Recovery, a: Adoption)
    requires var out := Restore(cfg, s, r);
             out.imported.Some? && r.fetched && History(s.bucket).Some? && r.tries(out.imported.value).recorded.Written?
    ensures var out := Restore(cfg, s, r);
            && out.trace != [] && History(s.bucket).value != []
            && var restored := out.trace[|out.trace| - 1];
               restored.bucket == s.bucket
               && (Behind(s.bucket, Adopted(cfg, restored, a).volume)
                   <==> if !a.enabled || Empty(cfg, restored.volume) != Some(false) || !a.connected || !a.fetched
                           || a.recorded.Unwritten?
                        then out.imported.value > 0
                        else a.recorded.Truncated?)
  {
    OlderImportRefuses(cfg, s, r);
    ImportedGeneration(cfg, s, r);
    RestoreStates(cfg, s, r);
    hide Restore, Readable, Behind, Adopted, GenerationText;
    var out := Restore(cfg, s, r);
    AdoptionLiftsTheGuard(cfg, out.trace[|out.trace| - 1], a);
  }
}
