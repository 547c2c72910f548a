/** One periodic backup cycle: guards, dump, upload, manifest, sidecar, retained copy
    and pruning, in the order their effects become durable. */
module BackupTick {
  import opened Requests
  import opened Text
  import opened BackupManifest
  import opened BackupWorld

  /** How the sidecar write ends; a failed write may leave the file truncated. */
  datatype Record = Written | Unwritten | Truncated

  /** What the environment decides over one cycle. */
  datatype Cycle = Cycle(stop: bool, connected: bool, fetched: bool, listed: bool, swept: bool,
                         name: string, dump: Option<Bytes>, private: bool, sized: bool, comparable: bool,
                         put: Answer, publish: Answer, recorded: Record, renamed: bool,
                         deletions: nat -> bool, cleanup: bool)

  // ----------------------------------------------------------------- guards

  /** The history a cycle may extend: none when a guard refuses. */
  function Admitted(cfg: Config, s: Site, c: Cycle): Option<Entries> {
    if c.stop || Empty(cfg, s.volume) != Some(false) || !c.connected then None
    else
      var view := View(s.bucket, c.fetched, c.listed);
      if view.None? || !Proceeds(Resolve(ReadSidecar(s.volume.sidecar), view.value), Latest(view.value))
         || NextGeneration(view.value).None?
      then None
      else view
  }

  /** The upload may be skipped: this volume owns the current generation and the dump
      equals the one it pushed last. */
  predicate Redundant(vol: Volume, es: Entries, dump: Bytes, comparable: bool) {
    Latest(es) > 0 && Resolve(ReadSidecar(vol.sidecar), es) == Some(Latest(es)) && comparable && vol.last == Some(dump)
  }

  datatype Plan = Plan(entries: Entries, dump: Bytes)

  /** The history to extend and the dump to extend it with, when there is something to upload. */
  function Planned(cfg: Config, s: Site, c: Cycle): (p: Option<Plan>)
    ensures p.Some? ==> Admitted(cfg, s, c) == Some(p.value.entries) && NextGeneration(p.value.entries).Some?
  {
    var es := Admitted(cfg, s, c);
    if es.None? || !c.swept || c.dump.None? || !c.private || Redundant(s.volume, es.value, c.dump.value, c.comparable)
    then None
    else Some(Plan(es.value, c.dump.value))
  }

  // ---------------------------------------------------------------- effects

  /** The recorded size; 0 when the staged file cannot be measured. */
  function RecordedSize(p: Plan, c: Cycle): U64 {
    if c.sized then |p.dump| else 0
  }

  function Extended(p: Plan, c: Cycle): Entries
    requires NextGeneration(p.entries).Some?
  {
    Pushed(p.entries, c.name, RecordedSize(p, c))
  }

  function WithDump(s: Site, p: Plan, c: Cycle): Site {
    var vol := if c.put.Lost? || s.volume.db.None? then s.volume
               else s.volume.(db := Some(s.volume.db.value.(ancestors := s.volume.db.value.ancestors + {c.name})));
    Site(PutDump(s.bucket, c.name, p.dump, c.put), vol)
  }

  function WithManifest(s: Site, text: string, c: Cycle): Site {
    s.(bucket := PutManifest(s.bucket, text, c.publish))
  }

  function RecordText(sidecar: Option<string>, text: string, r: Record): Option<string> {
    match r case Written => Some(text) case Unwritten => sidecar case Truncated => Some("")
  }

  function WithSidecar(s: Site, generation: U64, c: Cycle): Site {
    s.(volume := s.volume.(sidecar := RecordText(s.volume.sidecar, GenerationText(generation), c.recorded)))
  }

  function WithRetained(s: Site, dump: Bytes, c: Cycle): Site {
    if c.renamed then s.(volume := s.volume.(last := Some(dump))) else s
  }

  function PrunedTo(b: Bucket, evicted: Entries, deletions: nat -> bool, n: nat): Bucket
    requires n <= |evicted|
  {
    if n == 0 then b
    else
      var before := PrunedTo(b, evicted, deletions, n - 1);
      if deletions(n - 1) then Remove(before, evicted[n - 1].name) else before
  }

  function PruneTrace(s: Site, evicted: Entries, deletions: nat -> bool, n: nat): (r: seq<Site>)
    requires n <= |evicted|
    ensures |r| == n && forall i :: 0 <= i < n ==> r[i] == s.(bucket := PrunedTo(s.bucket, evicted, deletions, i + 1))
  {
    if n == 0 then []
    else PruneTrace(s, evicted, deletions, n - 1) + [s.(bucket := PrunedTo(s.bucket, evicted, deletions, n))]
  }

  function CleanedUp(s: Site, c: Cycle): Site {
    if c.cleanup then s.(bucket := Remove(s.bucket, c.name)) else s
  }

  /** The states of a cycle that published its manifest. */
  function PublishedTrace(s: Site, generation: U64, dump: Bytes, evicted: Entries, c: Cycle): seq<Site> {
    var recorded := WithSidecar(s, generation, c);
    var retained := WithRetained(recorded, dump, c);
    [s, recorded, retained] + PruneTrace(retained, evicted, c.deletions, |evicted|)
  }

  /** Every state a cycle passes through after an effect, in order. */
  function Trace(cfg: Config, s: Site, c: Cycle): seq<Site> {
    var p := Planned(cfg, s, c);
    if p.None? then [] else Effects(cfg, s, p.value, c)
  }

  function Effects(cfg: Config, s: Site, p: Plan, c: Cycle): (r: seq<Site>)
    requires NextGeneration(p.entries).Some?
    ensures r != []
  {
    var uploaded := WithDump(s, p, c);
    [uploaded] + if c.put.Stored? then PublishingTrace(cfg, uploaded, p, c) else []
  }

  /** The states after the dump is stored: the manifest, and what its fate entails. */
  function PublishingTrace(cfg: Config, s: Site, p: Plan, c: Cycle): (r: seq<Site>)
    requires NextGeneration(p.entries).Some?
    ensures r != []
  {
    var text := Render(Retained(Extended(p, c), cfg.keep));
    if Utf8Len(text) > MAX_MANIFEST_BYTES then [CleanedUp(s, c)]
    else
      var published := WithManifest(s, text, c);
      if !c.publish.Stored? then [published, CleanedUp(published, c)]
      else PublishedTrace(published, NextGeneration(p.entries).value, p.dump, Evicted(Extended(p, c), cfg.keep), c)
  }

  /** The state after the first `k` effects: where a cycle that is killed stops. */
  function StateAfter(s: Site, trace: seq<Site>, k: nat): Site
    requires k <= |trace|
  {
    if k == 0 then s else trace[k - 1]
  }

  // ------------------------------------------------------------- the method

  /** Deletes the evicted dumps one by one. */
  method Prune(client: Client, disk: Disk, evicted: Entries, deletions: nat -> bool) returns (ghost trace: seq<Site>)
    modifies client
    ensures trace == PruneTrace(Site(old(client.bucket), disk.volume), evicted, deletions, |evicted|)
    ensures client.bucket == PrunedTo(old(client.bucket), evicted, deletions, |evicted|)
  {
    trace := [];
    var i := 0;
    while i < |evicted|
      invariant 0 <= i <= |evicted|
      invariant trace == PruneTrace(Site(old(client.bucket), disk.volume), evicted, deletions, i)
      invariant client.bucket == PrunedTo(old(client.bucket), evicted, deletions, i)
    {
      if deletions(i) {
        client.bucket := Remove(client.bucket, evicted[i].name);
      }
      i := i + 1;
      trace := trace + [Site(client.bucket, disk.volume)];
    }
  }

  /** Records the new generation, keeps the pushed dump and prunes. */
  method Settle(client: Client, disk: Disk, generation: U64, dump: Bytes, evicted: Entries, c: Cycle)
    returns (ghost trace: seq<Site>)
    modifies client, disk
    ensures trace == PublishedTrace(old(Site(client.bucket, disk.volume)), generation, dump, evicted, c) && trace != []
    ensures Site(client.bucket, disk.volume) == trace[|trace| - 1]
  {
    hide GenerationText, Remove;
    ghost var s := Site(client.bucket, disk.volume);
    disk.volume := disk.volume.(sidecar := RecordText(disk.volume.sidecar, GenerationText(generation), c.recorded));
    ghost var recorded := Site(client.bucket, disk.volume);
    if c.renamed {
      disk.volume := disk.volume.(last := Some(dump));
    }
    ghost var retained := Site(client.bucket, disk.volume);
    ghost var pruned := Prune(client, disk, evicted, c.deletions);
    trace := [s, recorded, retained] + pruned;
    assert pruned != [] ==> trace[|trace| - 1] == pruned[|pruned| - 1];
  }

  /** Publishes the manifest naming the stored dump; when it cannot be published the
      dump is deleted again. */
  method PublishOrUndo(cfg: Config, client: Client, disk: Disk, p: Plan, c: Cycle) returns (ghost trace: seq<Site>)
    requires NextGeneration(p.entries).Some?
    modifies client, disk
    ensures trace == PublishingTrace(cfg, old(Site(client.bucket, disk.volume)), p, c)
    ensures Site(client.bucket, disk.volume) == trace[|trace| - 1]
  {
    hide Render, Utf8Len, PublishedTrace, Remove;
    trace := [];
    var generation := NextGeneration(p.entries).value;
    var manifest := new Manifest(p.entries);
    manifest.Push(Entry(generation, c.name, if c.sized then |p.dump| else 0));
    var evicted := manifest.Retain(cfg.keep);
    var text := manifest.RenderText();
    if Utf8Len(text) <= MAX_MANIFEST_BYTES {
      client.bucket := PutManifest(client.bucket, text, c.publish);
      if c.publish.Stored? {
        trace := Settle(client, disk, generation, p.dump, evicted, c);
        return;
      }
      trace := [Site(client.bucket, disk.volume)];
    }
    if c.cleanup {
      client.bucket := Remove(client.bucket, c.name);
    }
    trace := trace + [Site(client.bucket, disk.volume)];
  }

  /** Uploads the dump, then publishes it. */
  method Upload(cfg: Config, client: Client, disk: Disk, p: Plan, c: Cycle) returns (ghost trace: seq<Site>)
    requires NextGeneration(p.entries).Some? && disk.volume.db.Some?
    modifies client, disk
    ensures trace == Effects(cfg, old(Site(client.bucket, disk.volume)), p, c)
    ensures Site(client.bucket, disk.volume) == trace[|trace| - 1]
  {
    hide PublishingTrace;
    client.bucket := PutDump(client.bucket, c.name, p.dump, c.put);
    if !c.put.Lost? {
      disk.volume :=
        disk.volume.(db := Some(disk.volume.db.value.(ancestors := disk.volume.db.value.ancestors + {c.name})));
    }
    trace := [Site(client.bucket, disk.volume)];
    if c.put.Stored? {
      ghost var published := PublishOrUndo(cfg, client, disk, p, c);
      trace := trace + published;
    }
  }

  method TickAt(cfg: Config, client: Client, disk: Disk, c: Cycle) returns (ghost trace: seq<Site>)
    modifies client, disk
    ensures trace == Trace(cfg, old(Site(client.bucket, disk.volume)), c)
    ensures Site(client.bucket, disk.volume) == StateAfter(old(Site(client.bucket, disk.volume)), trace, |trace|)
  {
    hide View, ReadSidecar, Effects;
    trace := [];
    if c.stop || Empty(cfg, disk.volume) != Some(false) || !c.connected {
      return;
    }
    var view := View(client.bucket, c.fetched, c.listed);
    if view.None? {
      return;
    }
    var known := Resolve(ReadSidecar(disk.volume.sidecar), view.value);
    if !Proceeds(known, Latest(view.value)) || NextGeneration(view.value).None? {
      return;
    }
    if !c.swept || c.dump.None? || !c.private {
      return;
    }
    if Redundant(disk.volume, view.value, c.dump.value, c.comparable) {
      return;
    }
    trace := Upload(cfg, client, disk, Plan(view.value, c.dump.value), c);
  }
}
