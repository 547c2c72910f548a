/** The boot restore: import the newest usable backup into an empty volume, falling
    back to an older one only when a newer one is proven unusable; and the adoption
    of the bucket's lineage. */
module BackupRestore {
  import opened Text
  import opened BackupManifest
  import opened BackupWorld
  import opened BackupTick

  const MAX_DB_OBJECT_BYTES: nat := 4 * 1024 * 1024 * 1024

  /** What the environment decides over one candidate. */
  datatype Try = Try(stop: bool, swept: bool, delivered: bool, private: bool, cleared: bool, linked: bool,
                     recorded: Record, stopAfter: bool)

  datatype Recovery = Recovery(enabled: bool, connected: bool, fetched: bool, listed: bool, stopAfterListing: bool,
                               tries: nat -> Try)

  /** A backup to try: the name, the size it must have, and its generation when it
      comes from the manifest. */
  datatype Candidate = Candidate(name: string, size: U64, generation: Option<U64>)

  datatype Verdict = Imported | Invalid | Failed
  datatype Outcome = Ready | Refused | Aborted

  // -------------------------------------------------------------- candidates

  function NewestFirst(es: Entries): (cs: seq<Candidate>)
    ensures |cs| == |es|
    ensures forall i :: 0 <= i < |cs| ==>
              var e := es[|es| - 1 - i]; cs[i] == Candidate(e.name, e.size, Some(e.generation))
  {
    if es == [] then []
    else
      var e := es[|es| - 1];
      [Candidate(e.name, e.size, Some(e.generation))] + NewestFirst(es[..|es| - 1])
  }

  function NewestListed(listed: seq<(string, U64)>): (cs: seq<Candidate>)
    ensures |cs| == |listed|
    ensures forall i :: 0 <= i < |cs| ==> var l := listed[|listed| - 1 - i]; cs[i] == Candidate(l.0, l.1, None)
  {
    if listed == [] then []
    else
      var l := listed[|listed| - 1];
      [Candidate(l.0, l.1, None)] + NewestListed(listed[..|listed| - 1])
  }

  /** The manifest's entries when it can be read, the listing otherwise; None when the
      bucket can be neither read nor listed. */
  function Candidates(b: Bucket, r: Recovery): Option<seq<Candidate>> {
    if r.fetched && History(b).Some? then Some(NewestFirst(History(b).value))
    else if r.listed && Listable(b) then Some(NewestListed(Listing(b)))
    else None
  }

  // ------------------------------------------------------------ one candidate

  /** What a successful download publishes in staging: the object, at the expected size. */
  function Delivered(b: Bucket, c: Candidate, t: Try): Option<Bytes> {
    if t.delivered && c.name in b.dumps && |b.dumps[c.name]| == c.size && c.size <= MAX_DB_OBJECT_BYTES
      then Some(b.dumps[c.name]) else None
  }

  /** The last component of the object key; what the sidecar records for a listed backup. */
  function LastPart(name: string): string
    decreases |name|
  {
    var i := Find(name, '/');
    if i == |name| then name else LastPart(name[i + 1..])
  }

  function LineageText(c: Candidate): string {
    if c.generation.Some? then GenerationText(c.generation.value) else NameText(LastPart(c.name))
  }

  lemma CutAt(name: string, i: nat)
    requires i < |name| && name[i] == '/'
    ensures name == name[..i] + "/" + name[i + 1..]
  {
  }

  lemma CutAtSlash(name: string)
    ensures var i := Find(name, '/');
            if i == |name| then '/' !in name && LastPart(name) == name
            else name == name[..i] + "/" + name[i + 1..] && LastPart(name) == LastPart(name[i + 1..])
  {
    hide Find;
    var i := Find(name, '/');
    if i < |name| {
      CutAt(name, i);
    } else {
      assert name[..i] == name;
    }
  }

  lemma Associated(a: string, b: string, c: string)
    ensures a + "/" + (b + "/" + c) == a + "/" + b + "/" + c
  {
  }

  lemma {:induction false} LastPartIsLast(name: string) returns (front: string)
    ensures '/' !in LastPart(name) && (LastPart(name) == name || name == front + "/" + LastPart(name))
    decreases |name|
  {
    CutAtSlash(name);
    var i := Find(name, '/');
    front := name[..i];
    hide LastPart, Find;
    if i < |name| {
      var more := LastPartIsLast(name[i + 1..]);
      if LastPart(name) != name[i + 1..] {
        Associated(front, more, LastPart(name));
        front := front + "/" + more;
      }
    }
  }

  /** What an import records: the candidate's generation, or for a listed backup what
      follows the last slash of its name. */
  lemma RecordIsExact(c: Candidate) returns (last: string, front: string)
    ensures c.generation.Some? ==> LineageText(c) == Decimal(c.generation.value) + "\n"
    ensures c.generation.None? ==> LineageText(c) == last + "\n"
    ensures '/' !in last && (c.name == last || c.name == front + "/" + last)
  {
    front := LastPartIsLast(c.name);
    last := LastPart(c.name);
    hide LastPart;
  }

  datatype Attempt = Attempt(trace: seq<Site>, verdict: Verdict)

  function Linked(s: Site, c: Candidate, bytes: Bytes): Site {
    s.(volume := s.volume.(db := Some(Db(bytes, {c.name}))))
  }

  function Lineaged(s: Site, c: Candidate, t: Try): Site {
    s.(volume := s.volume.(sidecar := RecordText(s.volume.sidecar, LineageText(c), t.recorded)))
  }

  /** The no-replace publication into an absent live path, then the lineage record. */
  function LinkIn(s: Site, c: Candidate, bytes: Bytes, t: Try): Attempt {
    if !t.linked then Attempt([], Failed)
    else
      var linked := Linked(s, c, bytes);
      Attempt([linked, Lineaged(linked, c, t)], Imported)
  }

  /** A live database that is provably empty is cleared first; any other one stays. */
  function Import(cfg: Config, s: Site, c: Candidate, bytes: Bytes, t: Try): Attempt {
    if !cfg.usable(bytes) then Attempt([], Invalid)
    else if !t.private then Attempt([], Failed)
    else if s.volume.db.None? then LinkIn(s, c, bytes, t)
    else if Empty(cfg, s.volume) != Some(true) || !t.cleared then Attempt([], Failed)
    else
      var cleared := s.(volume := s.volume.(db := None));
      var a := LinkIn(cleared, c, bytes, t);
      a.(trace := [cleared] + a.trace)
  }

  function TryOne(cfg: Config, s: Site, c: Candidate, t: Try): Attempt {
    var bytes := Delivered(s.bucket, c, t);
    if !t.swept || bytes.None? then Attempt([], Failed) else Import(cfg, s, c, bytes.value, t)
  }

  // ------------------------------------------------------------- the restore

  /** The states passed through, how it ends, and which candidate was imported. */
  datatype Restored = Restored(trace: seq<Site>, outcome: Outcome, imported: Option<nat>)

  function TryFrom(cfg: Config, s: Site, cs: seq<Candidate>, tries: nat -> Try, i: nat): Restored
    requires i <= |cs|
    decreases |cs| - i
  {
    if i == |cs| then Restored([], Refused, None)
    else if tries(i).stop then Restored([], Aborted, None)
    else
      var a := TryOne(cfg, s, cs[i], tries(i));
      match a.verdict
      case Imported => Restored(a.trace, Ready, Some(i))
      case Invalid => TryFrom(cfg, s, cs, tries, i + 1)
      case Failed => Restored(a.trace, if tries(i).stopAfter then Aborted else Refused, None)
  }

  function Restore(cfg: Config, s: Site, r: Recovery): Restored {
    if !r.enabled then Restored([], Ready, None)
    else if Empty(cfg, s.volume).None? then Restored([], Refused, None)
    else if !Empty(cfg, s.volume).value || !r.connected then Restored([], Ready, None)
    else
      var cs := Candidates(s.bucket, r);
      if cs.None? then Restored([], if r.stopAfterListing then Aborted else Refused, None)
      else if cs.value == [] then Restored([], Ready, None)
      else TryFrom(cfg, s, cs.value, r.tries, 0)
  }

  /** The states of an attempt: nothing, an emptied live path, or the whole import. */
  lemma AttemptStates(cfg: Config, s: Site, c: Candidate, t: Try)
    ensures var a := TryOne(cfg, s, c, t);
            && (a.verdict.Imported? ==>
                  && Delivered(s.bucket, c, t).Some? && cfg.usable(Delivered(s.bucket, c, t).value)
                  && Empty(cfg, s.volume) == Some(true) && a.trace != []
                  && a.trace[|a.trace| - 1] == Lineaged(Linked(s, c, Delivered(s.bucket, c, t).value), c, t))
            && (a.verdict.Invalid? ==>
                  a.trace == [] && Delivered(s.bucket, c, t).Some? && !cfg.usable(Delivered(s.bucket, c, t).value))
            && (forall x :: x in a.trace ==>
                  && x.bucket == s.bucket && x.volume.last == s.volume.last
                  && (x.volume.db.None?
                    || (a.verdict.Imported? && x.volume.db == Some(Db(Delivered(s.bucket, c, t).value, {c.name}))))
                  && (x.volume.sidecar == s.volume.sidecar || x == a.trace[|a.trace| - 1]))
            && (a.verdict.Failed? ==> forall x :: x in a.trace ==> x == s.(volume := s.volume.(db := None)))
            && (a.trace != [] ==> Empty(cfg, s.volume) == Some(true))
  {
    hide LineageText;
  }

  // ------------------------------------------------------------ the methods

  method RestoreObject(cfg: Config, client: Client, disk: Disk, c: Candidate, t: Try)
    returns (verdict: Verdict, ghost trace: seq<Site>)
    modifies disk
    ensures Attempt(trace, verdict) == TryOne(cfg, old(Site(client.bucket, disk.volume)), c, t)
    ensures Site(client.bucket, disk.volume) == StateAfter(old(Site(client.bucket, disk.volume)), trace, |trace|)
  {
    hide LineageText;
    trace := [];
    var bytes := Delivered(client.bucket, c, t);
    if !t.swept || bytes.None? {
      return Failed, trace;
    }
    if !cfg.usable(bytes.value) {
      return Invalid, trace;
    }
    if !t.private {
      return Failed, trace;
    }
    if disk.volume.db.Some? {
      if cfg.empty(disk.volume.db.value.bytes) != Some(true) || !t.cleared {
        return Failed, trace;
      }
      disk.volume := disk.volume.(db := None);
      trace := [Site(client.bucket, disk.volume)];
    }
    if !t.linked {
      return Failed, trace;
    }
    disk.volume := disk.volume.(db := Some(Db(bytes.value, {c.name})));
    ghost var linked := Site(client.bucket, disk.volume);
    disk.volume := disk.volume.(sidecar := RecordText(disk.volume.sidecar, LineageText(c), t.recorded));
    trace := trace + [linked, Site(client.bucket, disk.volume)];
    return Imported, trace;
  }

  method RestoreIfEmpty(cfg: Config, client: Client, disk: Disk, r: Recovery)
    returns (outcome: Outcome, ghost trace: seq<Site>, ghost imported: Option<nat>)
    modifies disk
    ensures Restored(trace, outcome, imported) == Restore(cfg, old(Site(client.bucket, disk.volume)), r)
    ensures Site(client.bucket, disk.volume) == StateAfter(old(Site(client.bucket, disk.volume)), trace, |trace|)
  {
    hide TryOne, History, Listing, NewestFirst, NewestListed;
    trace, imported := [], None;
    if !r.enabled {
      return Ready, trace, imported;
    }
    var empty := Empty(cfg, disk.volume);
    if empty.None? {
      return Refused, trace, imported;
    }
    if !empty.value || !r.connected {
      return Ready, trace, imported;
    }
    var candidates := Candidates(client.bucket, r);
    if candidates.None? {
      return if r.stopAfterListing then Aborted else Refused, trace, imported;
    }
    if candidates.value == [] {
      return Ready, trace, imported;
    }
    ghost var s := Site(client.bucket, disk.volume);
    var i := 0;
    while i < |candidates.value|
      invariant 0 <= i <= |candidates.value| && trace == []
      invariant Site(client.bucket, disk.volume) == s
      invariant TryFrom(cfg, s, candidates.value, r.tries, i) == Restore(cfg, s, r)
    {
      if r.tries(i).stop {
        return Aborted, trace, imported;
      }
      AttemptStates(cfg, s, candidates.value[i], r.tries(i));
      var verdict;
      verdict, trace := RestoreObject(cfg, client, disk, candidates.value[i], r.tries(i));
      match verdict {
        case Imported =>
          return Ready, trace, Some(i);
        case Invalid =>
        case Failed =>
          return if r.tries(i).stopAfter then Aborted else Refused, trace, imported;
      }
      i := i + 1;
    }
    return Refused, trace, imported;
  }

  // ------------------------------------------------------------ the fallback

  lemma {:induction false} FallbackFrom(cfg: Config, s: Site, cs: seq<Candidate>, tries: nat -> Try, i: nat)
    requires i <= |cs|
    ensures var out := TryFrom(cfg, s, cs, tries, i);
            && (out.imported.Some? ==>
                  && i <= out.imported.value < |cs|
                  && (forall j :: i <= j < out.imported.value ==>
                        var bytes := Delivered(s.bucket, cs[j], tries(j)); bytes.Some? && !cfg.usable(bytes.value))
                  && var k := out.imported.value;
                     TryOne(cfg, s, cs[k], tries(k)) == Attempt(out.trace, Imported) && out.outcome == Ready)
            && (out.imported.None? ==>
                  out.outcome != Ready && forall x :: x in out.trace ==> x == s.(volume := s.volume.(db := None)))
            && (out.trace != [] ==> Empty(cfg, s.volume) == Some(true))
    decreases |cs| - i
  {
    if i < |cs| && !tries(i).stop {
      AttemptStates(cfg, s, cs[i], tries(i));
      hide TryOne, Delivered;
      if TryOne(cfg, s, cs[i], tries(i)).verdict.Invalid? {
        FallbackFrom(cfg, s, cs, tries, i + 1);
      }
    }
  }

  /** Candidate k was delivered in full and is usable, every newer one was delivered in
      full and is not, and the volume ends with the bytes the bucket keeps for k. */
  ghost predicate FellBackTo(cfg: Config, s: Site, cs: seq<Candidate>, tries: nat -> Try, k: nat, end: Site) {
    && k < |cs| && Delivered(s.bucket, cs[k], tries(k)).Some?
    && (forall j :: 0 <= j < k ==>
          var bytes := Delivered(s.bucket, cs[j], tries(j)); bytes.Some? && !cfg.usable(bytes.value))
    && var bytes := Delivered(s.bucket, cs[k], tries(k)).value;
       cfg.usable(bytes) && end == Lineaged(Linked(s, cs[k], bytes), cs[k], tries(k))
  }

  lemma ImportFallsBack(cfg: Config, s: Site, cs: seq<Candidate>, tries: nat -> Try)
    ensures var out := TryFrom(cfg, s, cs, tries, 0);
            out.imported.Some? ==>
              && out.outcome == Ready && out.trace != []
              && FellBackTo(cfg, s, cs, tries, out.imported.value, out.trace[|out.trace| - 1])
  {
    FallbackFrom(cfg, s, cs, tries, 0);
    var out := TryFrom(cfg, s, cs, tries, 0);
    if out.imported.Some? {
      var k := out.imported.value;
      AttemptStates(cfg, s, cs[k], tries(k));
      hide TryOne, TryFrom, Delivered, Lineaged, Linked, Empty;
    }
  }

  /** The restore imports a candidate only when every newer one was delivered in full
      and failed its integrity check; any other end imports nothing, and a live
      database that is not provably empty is never touched. */
  lemma RestoreFallsBackOnlyFromCorruption(cfg: Config, s: Site, r: Recovery)
    ensures var out := Restore(cfg, s, r);
            && (out.imported.Some? ==>
                  && out.outcome == Ready && out.trace != [] && Candidates(s.bucket, r).Some?
                  && FellBackTo(cfg, s, Candidates(s.bucket, r).value, r.tries, out.imported.value,
                                out.trace[|out.trace| - 1]))
            && (out.imported.None? ==> forall x :: x in out.trace ==> x == s.(volume := s.volume.(db := None)))
            && (Empty(cfg, s.volume) != Some(true) ==> out.trace == [])
  {
    hide TryFrom, Candidates, FellBackTo;
    var cs := Candidates(s.bucket, r);
    if cs.Some? {
      FallbackFrom(cfg, s, cs.value, r.tries, 0);
      ImportFallsBack(cfg, s, cs.value, r.tries);
    }
  }

  // ------------------------------------------------------------- the outcome

  /** The restore has something to decide: it is on, the database is provably empty and
      the client usable. */
  predicate Sought(cfg: Config, s: Site, r: Recovery) {
    r.enabled && Empty(cfg, s.volume) == Some(true) && r.connected
  }

  /** Neither the manifest nor the listing can be read. */
  predicate Unreachable(b: Bucket, r: Recovery) {
    !(r.fetched && History(b).Some?) && !(r.listed && Listable(b))
  }

  /** These are the backups, the newest first: the manifest's entries, or without a
      readable manifest the listed dumps in descending name order. */
  ghost predicate Backups(b: Bucket, r: Recovery, cs: seq<Candidate>) {
    if r.fetched && History(b).Some? then
      var es := History(b).value;
      && |cs| == |es|
      && forall i :: 0 <= i < |cs| ==>
           var e := es[|es| - 1 - i]; cs[i] == Candidate(e.name, e.size, Some(e.generation))
    else
      && r.listed && Listable(b) && |cs| == |DumpNames(b)|
      && (forall i :: 0 <= i < |cs| ==> cs[i].name in DumpNames(b) && cs[i].generation.None?
                                        && cs[i].size == |b.dumps[cs[i].name]|)
      && forall i, j :: 0 <= i < j < |cs| ==> cs[i].name != cs[j].name && Le(cs[j].name, cs[i].name)
  }

  /** The whole object is transferred, at the size the record or the listing gives. */
  predicate Arrives(b: Bucket, c: Candidate, t: Try) {
    && t.swept && t.delivered && c.name in b.dumps && |b.dumps[c.name]| == c.size
    && c.size <= 4 * 1024 * 1024 * 1024
  }

  /** The candidate is proven to be no usable database: the one reason to try an older one. */
  predicate Spoiled(cfg: Config, b: Bucket, c: Candidate, t: Try) {
    Arrives(b, c, t) && !cfg.usable(b.dumps[c.name])
  }

  /** The candidate is usable and everything about its publication goes through. */
  predicate Takes(cfg: Config, s: Site, c: Candidate, t: Try) {
    && Arrives(s.bucket, c, t) && cfg.usable(s.bucket.dumps[c.name]) && t.private && t.linked
    && (s.volume.db.Some? ==> t.cleared)
  }

  /** Every candidate before the k-th is spoiled, and no stop comes between them. */
  ghost predicate SpoiledUpTo(cfg: Config, s: Site, cs: seq<Candidate>, tries: nat -> Try, i: nat, k: nat)
    requires k <= |cs|
  {
    forall j: nat {:trigger tries(j)} :: i <= j < k ==> !tries(j).stop && Spoiled(cfg, s.bucket, cs[j], tries(j))
  }

  /** The k-th candidate decides: there is none any more, or it is not spoiled, or a stop
      comes first. */
  ghost predicate Decides(cfg: Config, s: Site, cs: seq<Candidate>, tries: nat -> Try, k: nat) {
    && k <= |cs| && SpoiledUpTo(cfg, s, cs, tries, 0, k)
    && (k < |cs| ==> tries(k).stop || !Spoiled(cfg, s.bucket, cs[k], tries(k)))
  }

  lemma AttemptVerdict(cfg: Config, s: Site, c: Candidate, t: Try)
    requires Empty(cfg, s.volume) == Some(true)
    ensures TryOne(cfg, s, c, t).verdict
            == if Spoiled(cfg, s.bucket, c, t) then Invalid else if Takes(cfg, s, c, t) then Imported else Failed
  {
    hide LineageText;
  }

  lemma {:induction false} OutcomeFrom(cfg: Config, s: Site, cs: seq<Candidate>, tries: nat -> Try, i: nat, k: nat)
    requires Empty(cfg, s.volume) == Some(true)
    requires i <= k <= |cs| && SpoiledUpTo(cfg, s, cs, tries, i, k)
    requires k < |cs| ==> tries(k).stop || !Spoiled(cfg, s.bucket, cs[k], tries(k))
    ensures var out, taken :=
            TryFrom(cfg, s, cs, tries, i), k < |cs| && !tries(k).stop && Takes(cfg, s, cs[k], tries(k));
            && out.imported == (if taken then Some(k) else None)
            && out.outcome == if taken then Ready
                              else if k < |cs| && (tries(k).stop || tries(k).stopAfter) then Aborted
                              else Refused
    decreases k - i
  {
    hide TryOne, Spoiled, Takes;
    if i < |cs| {
      AttemptVerdict(cfg, s, cs[i], tries(i));
      if i < k {
        assert !tries(i).stop && Spoiled(cfg, s.bucket, cs[i], tries(i));
        OutcomeFrom(cfg, s, cs, tries, i + 1, k);
      }
    }
  }

  lemma BackupsAreCandidates(b: Bucket, r: Recovery, cs: seq<Candidate>)
    requires Backups(b, r, cs)
    ensures Candidates(b, r) == Some(cs)
  {
    hide Listing, History, IsDumpName, DumpNames, Le;
    if r.fetched && History(b).Some? {
      assert NewestFirst(History(b).value) == cs;
    } else {
      ListingDescends(b, cs);
      assert NewestListed(Listing(b)) == cs;
    }
  }

  function Upwards(cs: seq<Candidate>): (names: seq<string>)
    ensures |names| == |cs| && forall i :: 0 <= i < |cs| ==> names[i] == cs[|cs| - 1 - i].name
  {
    seq(|cs|, i requires 0 <= i < |cs| => cs[|cs| - 1 - i].name)
  }

  /** The dumps in descending name order are the listing from its end. */
  lemma ListingDescends(b: Bucket, cs: seq<Candidate>)
    requires |cs| == |DumpNames(b)| && forall i :: 0 <= i < |cs| ==> cs[i].name in DumpNames(b)
    requires forall i, j :: 0 <= i < j < |cs| ==> cs[i].name != cs[j].name && Le(cs[j].name, cs[i].name)
    ensures |Listing(b)| == |cs| && forall i :: 0 <= i < |cs| ==> cs[i].name == Listing(b)[|cs| - 1 - i].0
  {
    hide IsDumpName, DumpNames, Le, Listing;
    var up := Upwards(cs);
    AscendingIsSorted(DumpNames(b), up);
    ListingIsSorted(b);
    assert forall i :: 0 <= i < |cs| ==> cs[i].name == up[|cs| - 1 - i];
  }

  /** What a restore decides, exactly. Where nothing is to be decided the boot goes on,
      unless the database cannot be judged; without a readable manifest or listing it is
      refused; without a backup the boot goes on; otherwise the first candidate that is
      not spoiled decides, and the restore ends ready only by importing it. */
  lemma RestoreOutcomeIsExact(cfg: Config, s: Site, r: Recovery, cs: seq<Candidate>, k: nat)
    requires Sought(cfg, s, r) && !Unreachable(s.bucket, r) ==>
               Backups(s.bucket, r, cs) && Decides(cfg, s, cs, r.tries, k)
    ensures var out := Restore(cfg, s, r);
            if !Sought(cfg, s, r) then
              out == Restored([], if r.enabled && Empty(cfg, s.volume).None? then Refused else Ready, None)
            else if Unreachable(s.bucket, r) then
              out == Restored([], if r.stopAfterListing then Aborted else Refused, None)
            else if cs == [] then
              out == Restored([], Ready, None)
            else
              var taken := k < |cs| && !r.tries(k).stop && Takes(cfg, s, cs[k], r.tries(k));
              && out.imported == (if taken then Some(k) else None)
              && out.outcome == if taken then Ready
                                else if k < |cs| && (r.tries(k).stop || r.tries(k).stopAfter) then Aborted
                                else Refused
  {
    hide TryFrom, NewestFirst, NewestListed, Listing, History, Backups, Takes, Spoiled;
    if Sought(cfg, s, r) && !Unreachable(s.bucket, r) {
      BackupsAreCandidates(s.bucket, r, cs);
      OutcomeFrom(cfg, s, cs, r.tries, 0, k);
    }
  }

  /** Some candidate always decides. */
  lemma {:induction false} SomeoneDecides(cfg: Config, s: Site, cs: seq<Candidate>, tries: nat -> Try, i: nat)
    returns (k: nat)
    requires i <= |cs| && SpoiledUpTo(cfg, s, cs, tries, 0, i)
    ensures Decides(cfg, s, cs, tries, k)
    decreases |cs| - i
  {
    hide Spoiled;
    if i < |cs| && !tries(i).stop && Spoiled(cfg, s.bucket, cs[i], tries(i)) {
      k := SomeoneDecides(cfg, s, cs, tries, i + 1);
    } else {
      k := i;
    }
  }

  /** And only one does. */
  lemma OnlyOneDecides(cfg: Config, s: Site, cs: seq<Candidate>, tries: nat -> Try, j: nat, k: nat)
    requires Decides(cfg, s, cs, tries, j) && Decides(cfg, s, cs, tries, k)
    ensures j == k
  {
    hide Spoiled;
  }

  // ---------------------------------------------------------------- adoption

  /** What the environment decides over one adoption. */
  datatype Adoption = Adoption(enabled: bool, connected: bool, fetched: bool, listed: bool, recorded: Record)

  /** The backup an adopting volume claims to be at: the manifest's newest, or the last
      listed name of a bucket whose manifest is absent or empty. */
  function ClaimedName(b: Bucket, a: Adoption): Option<string> {
    if !a.fetched || (b.manifest.Some? && History(b).None?) then None
    else if b.manifest.Some? && History(b).value != [] then Some(Newest(History(b).value))
    else if a.listed && Listable(b) && Listing(b) != [] then Some(Listing(b)[|Listing(b)| - 1].0)
    else None
  }

  function ClaimText(b: Bucket, a: Adoption): string
    requires ClaimedName(b, a).Some?
  {
    if b.manifest.Some? && History(b).value != [] then GenerationText(Latest(History(b).value))
    else NameText(ClaimedName(b, a).value)
  }

  /** Only a database with data adopts, and only with something to claim. */
  predicate Claims(cfg: Config, s: Site, a: Adoption) {
    a.enabled && Empty(cfg, s.volume) == Some(false) && a.connected && ClaimedName(s.bucket, a).Some?
  }

  /** Boot-time adoption of the bucket's newest backup. */
  function Adopted(cfg: Config, s: Site, a: Adoption): Site {
    if Claims(cfg, s, a)
      then s.(volume := s.volume.(sidecar := RecordText(s.volume.sidecar, ClaimText(s.bucket, a), a.recorded)))
    else s
  }

  /** Adoption, exactly: a non-empty database records the manifest's current generation,
      or the greatest listed dump name of a bucket whose manifest is absent or empty, and
      nothing but its sidecar changes; any other adoption changes nothing. */
  lemma AdoptionIsExact(cfg: Config, s: Site, a: Adoption, greatest: string)
    requires DumpNames(s.bucket) != {} ==> IsGreatest(greatest, DumpNames(s.bucket))
    ensures var es := if History(s.bucket).Some? then History(s.bucket).value else [];
            var text := if es != [] then Some(GenerationText(es[|es| - 1].generation))
                        else if a.listed && Listable(s.bucket) && DumpNames(s.bucket) != {}
                        then Some(greatest + "\n") else None;
            Adopted(cfg, s, a)
            == if a.enabled && Empty(cfg, s.volume) == Some(false) && a.connected && a.fetched
                  && (s.bucket.manifest.None? || History(s.bucket).Some?) && text.Some?
               then s.(volume := s.volume.(sidecar := match a.recorded
                                                     case Written => text
                                                     case Unwritten => s.volume.sidecar
                                                     case Truncated => Some("")))
               else s
  {
    ListingAscends(s.bucket);
    hide GenerationText, Listing, Readable, IsDumpName;
    var r := Listing(s.bucket);
    if r != [] {
      LeAntisymmetric(greatest, r[|r| - 1].0);
    }
  }

  method AdoptLineage(cfg: Config, client: Client, disk: Disk, a: Adoption)
    modifies disk
    ensures Site(client.bucket, disk.volume) == Adopted(cfg, old(Site(client.bucket, disk.volume)), a)
  {
    hide GenerationText, Listing;
    if !a.enabled || Empty(cfg, disk.volume) != Some(false) || !a.connected || !a.fetched {
      return;
    }
    var history := History(client.bucket);
    if client.bucket.manifest.Some? && history.None? {
      return;
    }
    if history.Some? && history.value != [] {
      disk.volume :=
        disk.volume.(sidecar := RecordText(disk.volume.sidecar, GenerationText(Latest(history.value)), a.recorded));
    } else if a.listed && Listable(client.bucket) {
      var names := Listing(client.bucket);
      if names != [] {
        disk.volume :=
          disk.volume.(sidecar := RecordText(disk.volume.sidecar, NameText(names[|names| - 1].0), a.recorded));
      }
    }
  }
}
