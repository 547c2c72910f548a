/** The bucket's database backups, a data volume's database with its two bookkeeping
    files, and the guards both the periodic dump and the boot restore consult. */
module BackupWorld {
  import opened Requests
  import opened Text
  import opened BackupManifest

  const MAX_LIST_KEYS: nat := 10_000

  /** What a deployment fixes: how many backups to keep, whether a database holds no
      data (undecidable for an unreadable one), and the integrity check. */
  datatype Config = Config(keep: nat, empty: Bytes -> Option<bool>, usable: Bytes -> bool)

  /** The bucket under its backup prefix; the manifest is text under its own key. */
  datatype Bucket = Bucket(manifest: Option<string>, dumps: map<string, Bytes>)

  /** A database. The ancestors are a history variable: the names of the dumps its
      content is a continuation of. */
  datatype Db = Db(bytes: Bytes, ancestors: set<string>)

  /** A data volume: the live database, the lineage sidecar and the retained copy of
      the last pushed dump. */
  datatype Volume = Volume(db: Option<Db>, sidecar: Option<string>, last: Option<Bytes>)

  datatype Site = Site(bucket: Bucket, volume: Volume)

  class Client {
    var bucket: Bucket

    constructor (bucket: Bucket)
      ensures this.bucket == bucket
    {
      this.bucket := bucket;
    }
  }

  class Disk {
    var volume: Volume

    constructor (volume: Volume)
      ensures this.volume == volume
    {
      this.volume := volume;
    }
  }

  // --------------------------------------------------------------- requests

  function PutDump(b: Bucket, name: string, bytes: Bytes, answer: Answer): Bucket {
    if answer.Lost? then b else b.(dumps := b.dumps[name := bytes])
  }

  function PutManifest(b: Bucket, text: string, answer: Answer): Bucket {
    if answer.Lost? then b else b.(manifest := Some(text))
  }

  /** A DELETE that takes effect; the manifest is an object like any other. */
  function Remove(b: Bucket, name: string): Bucket {
    if name == "manifest" then b.(manifest := None) else b.(dumps := b.dumps - {name})
  }

  predicate IsDumpName(name: string) {
    "sqlite-" <= name && EndsWith(name, ".sqlite3")
  }

  lemma NotADump()
    ensures !IsDumpName("manifest")
  {
    assert "manifest"[0] == 'm';
  }

  function DumpNames(b: Bucket): set<string> {
    set name | name in b.dumps && IsDumpName(name)
  }

  function Sized(names: seq<string>, dumps: map<string, Bytes>): (r: seq<(string, U64)>)
    requires forall i :: 0 <= i < |names| ==> names[i] in dumps
    ensures |r| == |names| && forall i :: 0 <= i < |r| ==> r[i] == (names[i], |dumps[names[i]]|)
  {
    seq(|names|, i requires 0 <= i < |names| && names[i] in dumps => (names[i], |dumps[names[i]]| as U64))
  }

  /** The dumps in ascending name order. */
  function Listing(b: Bucket): (r: seq<(string, U64)>)
    ensures |r| == |DumpNames(b)|
    ensures forall name :: name in DumpNames(b) ==> exists i :: 0 <= i < |r| && r[i].0 == name
    ensures forall i :: 0 <= i < |r| ==> r[i].0 in DumpNames(b) && r[i].1 == |b.dumps[r[i].0]|
    ensures forall i, j :: 0 <= i < j < |r| ==> r[i].0 != r[j].0
  {
    hide Sorted, IsDumpName;
    var names := Sorted(DumpNames(b));
    assert forall i :: 0 <= i < |names| ==> names[i] in DumpNames(b);
    var r := Sized(names, b.dumps);
    assert forall name :: name in names ==> exists i :: 0 <= i < |r| && r[i].0 == name by {
      forall name | name in names ensures exists i :: 0 <= i < |r| && r[i].0 == name {
        var i :| 0 <= i < |names| && names[i] == name;
        assert r[i].0 == name;
      }
    }
    r
  }

  lemma ListingIsSorted(b: Bucket)
    ensures forall i :: 0 <= i < |Listing(b)| ==> Listing(b)[i].0 == Sorted(DumpNames(b))[i]
  {
    hide Sorted, IsDumpName, DumpNames;
  }

  /** The listing ascends: its last name is the greatest. */
  lemma ListingAscends(b: Bucket)
    ensures forall i, j :: 0 <= i < j < |Listing(b)| ==> Le(Listing(b)[i].0, Listing(b)[j].0)
    ensures Listing(b) != [] ==> IsGreatest(Listing(b)[|Listing(b)| - 1].0, DumpNames(b))
  {
    ListingIsSorted(b);
    SortedAscends(DumpNames(b));
    hide Sorted, IsDumpName, DumpNames, Le, Listing;
    var r := Listing(b);
    if r != [] {
      LeTotal(r[|r| - 1].0, r[|r| - 1].0);
      forall name | name in DumpNames(b) ensures Le(name, r[|r| - 1].0) {
        var i :| 0 <= i < |r| && r[i].0 == name;
      }
    }
  }

  /** A listing beyond the key cap fails. */
  predicate Listable(b: Bucket) {
    |DumpNames(b)| <= |b.dumps| + (if b.manifest.Some? then 1 else 0) <= MAX_LIST_KEYS
  }

  /** The stored manifest as the reading side takes it. */
  function Readable(text: string): Option<Entries> {
    if Utf8Len(text) > MAX_MANIFEST_BYTES then None else Parse(text)
  }

  function History(b: Bucket): Option<Entries> {
    if b.manifest.Some? then Readable(b.manifest.value) else None
  }

  /** The bucket's history as a dump reads it: the manifest, or for a bucket without
      one the listing. None when neither can be read. */
  function View(b: Bucket, fetched: bool, listed: bool): Option<Entries> {
    if !fetched then None
    else if b.manifest.Some? then Readable(b.manifest.value)
    else if listed && Listable(b) then Some(FromListing(Listing(b)))
    else None
  }

  /** Names a listing can turn into manifest entries that read back. */
  predicate CleanNames(b: Bucket) {
    forall name :: name in DumpNames(b) ==> CleanName(name)
  }

  /** The listing's view is well-formed exactly when every listed name is clean: the
      conversion itself does not look. */
  lemma ListingIsWellFormed(b: Bucket)
    requires Listable(b)
    ensures WellFormed(FromListing(Listing(b))) <==> CleanNames(b)
  {
    var r := Listing(b);
    var es := FromListing(r);
    hide Listing, FromListing, CleanName, IsDumpName;
    forall name | name in DumpNames(b) && WellFormed(es) ensures CleanName(name) {
      var i :| 0 <= i < |r| && r[i].0 == name;
      assert es[i].name == name;
    }
    forall i | 0 <= i < |es| && CleanNames(b) ensures CleanName(es[i].name) {
      assert r[i].0 in DumpNames(b);
    }
  }

  lemma ViewIsWellFormed(b: Bucket, fetched: bool, listed: bool)
    requires CleanNames(b)
    ensures View(b, fetched, listed).Some? ==> WellFormed(View(b, fetched, listed).value)
  {
    hide Parse, Listing, FromListing, WellFormed, CleanNames;
    if b.manifest.Some? {
      ParseYieldsWellFormed(b.manifest.value);
    } else if Listable(b) {
      ListingIsWellFormed(b);
    }
  }

  /** The name of the current backup. */
  function Newest(es: Entries): string
    requires es != []
  {
    es[|es| - 1].name
  }

  // ---------------------------------------------------------------- lineage

  /** What the sidecar records: a generation, or in the older format an object name. */
  datatype Known = Generation(generation: U64) | LegacyName(name: string)

  function ReadSidecar(text: Option<string>): Option<Known> {
    if text.None? then None
    else
      var value := TrimEnd(TrimStart(text.value));
      if value == "" then None
      else
        var generation := ParseU64(value);
        if generation.Some? then Some(Generation(generation.value)) else Some(LegacyName(value))
  }

  function GenerationText(generation: U64): string {
    Decimal(generation) + "\n"
  }

  function NameText(name: string): string {
    name + "\n"
  }

  lemma TrimLine(line: string)
    requires line != "" && !IsWhite(line[0]) && !IsWhite(line[|line| - 1])
    ensures TrimEnd(TrimStart(line + "\n")) == line
  {
    var text := line + "\n";
    assert IsWhite('\n') && text[..|text| - 1] == line;
    assert TrimEnd(text) == TrimEnd(line);
  }

  /** A recorded generation reads back as itself. */
  lemma GenerationReadsBack(generation: U64)
    ensures ReadSidecar(Some(GenerationText(generation))) == Some(Generation(generation))
  {
    var d := Decimal(generation);
    DigitsAreClean(generation);
    assert d[0] in d && d[|d| - 1] in d;
    hide Decimal, CleanName, ParseU64, TrimEnd, TrimStart;
    TrimLine(d);
    ParseDecimal(generation);
  }

  /** A recorded dump name reads back as itself, and never as a number. */
  lemma NameReadsBack(name: string)
    requires IsDumpName(name)
    ensures ReadSidecar(Some(NameText(name))) == Some(LegacyName(name))
  {
    assert name[0] == 's' && name[|name| - 1] == '3';
    assert !IsDigit(name[0]);
    hide TrimEnd, TrimStart;
    TrimLine(name);
  }

  /** The generation a volume can prove: a name counts only while the history has it. */
  function Resolve(known: Option<Known>, es: Entries): Option<U64> {
    if known.None? then None
    else match known.value
      case Generation(g) => Some(g)
      case LegacyName(name) => var e := FindName(es, name); if e.Some? then Some(e.value.generation) else None
  }

  /** Whether a volume that knows this much may extend a history this long. */
  predicate Proceeds(known: Option<U64>, latest: U64) {
    latest == 0 || (known.Some? && known.value >= latest)
  }

  /** An absent database is empty; an unreadable one is undecided. */
  function Empty(cfg: Config, vol: Volume): Option<bool> {
    if vol.db.None? then Some(true) else cfg.empty(vol.db.value.bytes)
  }

  lemma {:induction false} FoundName(es: Entries, name: string)
    ensures var e := FindName(es, name);
            if e.Some? then exists i :: 0 <= i < |es| && es[i] == e.value && es[i].name == name
            else forall i :: 0 <= i < |es| ==> es[i].name != name
  {
    if es != [] && es[0].name != name {
      FoundName(es[1..], name);
      var e := FindName(es[1..], name);
      if e.Some? {
        var i :| 0 <= i < |es[1..]| && es[1..][i] == e.value && es[1..][i].name == name;
        assert es[i + 1] == e.value;
      } else {
        forall i | 0 <= i < |es| ensures es[i].name != name {
          if i > 0 {
            assert es[1..][i - 1] == es[i];
          }
        }
      }
    } else if es != [] {
      assert es[0] == FindName(es, name).value;
    }
  }

  /** In a well-formed history a name resolves at most to the current generation, and
      to it only when it is the newest name. */
  lemma NameResolves(es: Entries, name: string)
    requires WellFormed(es) && es != []
    ensures var g := Resolve(Some(LegacyName(name)), es);
            && (g.Some? ==> g.value <= Latest(es))
            && (g == Some(Latest(es)) <==> name == Newest(es))
  {
    FoundName(es, name);
    var e := FindName(es, name);
    hide FindName, CleanName;
    if e.Some? {
      var i :| 0 <= i < |es| && es[i] == e.value && es[i].name == name;
      if i < |es| - 1 {
        assert es[i].generation < es[|es| - 1].generation && es[i].name != es[|es| - 1].name;
      }
    } else {
      assert es[|es| - 1].name != name;
    }
  }
}
