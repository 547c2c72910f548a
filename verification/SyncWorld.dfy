/** The two stores of the state sync, the bucket and the data volume, and the
    requests that change the bucket. */
module SyncWorld {
  import opened Requests
  import opened Text
  import opened SyncManifest
  import opened SyncCache
  import opened SyncKeys

  /** What a deployment fixes: the hash and the durable-set predicate. */
  datatype Config = Config(sha256: Bytes -> Digest, synced: string -> bool)

  /** The bucket under its sync prefix; the manifest is text under its own key. */
  datatype Bucket = Bucket(manifest: Option<string>, objects: map<Key, Bytes>)

  datatype File = File(bytes: Bytes, mtime: nat, ctime: nat)

  /** The data volume: its files by relative path, and the three bookkeeping
      files of the sync (repair list, shadow manifest, hash cache). */
  datatype Volume = Volume(files: map<string, File>, repair: set<string>, shadow: Option<string>, cache: CacheMap)

  function PutObject(b: Bucket, key: Key, bytes: Bytes, answer: Answer): Bucket {
    if answer.Lost? then b else b.(objects := b.objects[key := bytes])
  }

  function PutManifest(b: Bucket, text: string, answer: Answer): Bucket {
    if answer.Lost? then b else b.(manifest := Some(text))
  }

  class Client {
    var bucket: Bucket
    /** Every state the bucket went through during the current run, in order. */
    ghost var trace: seq<Bucket>

    ghost method Begin()
      modifies this`trace
      ensures trace == []
    {
      trace := [];
    }

    method Put(key: Key, bytes: Bytes, answer: Answer) returns (ok: bool)
      modifies this
      ensures bucket == PutObject(old(bucket), key, bytes, answer)
      ensures trace == old(trace) + [bucket] && ok == answer.Stored?
    {
      bucket := PutObject(bucket, key, bytes, answer);
      trace := trace + [bucket];
      ok := answer.Stored?;
    }

    method PutText(text: string, answer: Answer) returns (ok: bool)
      modifies this
      ensures bucket == PutManifest(old(bucket), text, answer)
      ensures trace == old(trace) + [bucket] && ok == answer.Stored?
    {
      bucket := PutManifest(bucket, text, answer);
      trace := trace + [bucket];
      ok := answer.Stored?;
    }
  }

  class Disk {
    var volume: Volume
  }

  /** A path exists as a file, or as a directory some file lives in. */
  predicate Exists(files: map<string, File>, rel: string) {
    rel in files || exists f :: f in files && rel + "/" <= f
  }

  datatype Load = Absent | Unreadable | Loaded(entries: Entries)

  function LoadManifest(b: Bucket, fetched: bool): Load {
    if !fetched then Unreadable
    else if b.manifest.None? then Absent
    else if Utf8Len(b.manifest.value) > MAX_MANIFEST_BYTES || Parse(b.manifest.value).None? then Unreadable
    else Loaded(Parse(b.manifest.value).value)
  }

  /** What the repair file reads back as: it is line-oriented, so names with a
      newline are skipped and a trailing carriage return is lost. */
  function Recorded(rels: set<string>): set<string> {
    set rel | rel in rels && '\n' !in rel :: StripCr(rel)
  }

  /** What loading the manifest tells: that none is stored, or its entries, provided the
      fetch succeeds and the text is at most four mebibytes and reads; otherwise nothing. */
  lemma LoadIsExact(b: Bucket, fetched: bool)
    ensures LoadManifest(b, fetched) == Absent <==> fetched && b.manifest == None
    ensures forall m :: LoadManifest(b, fetched) == Loaded(m)
                        <==> fetched && b.manifest.Some? && Utf8Len(b.manifest.value) <= 4_194_304
                             && Parse(b.manifest.value) == Some(m)
  {
    hide Parse, Utf8Len;
    assert MAX_MANIFEST_BYTES == 4_194_304;
  }

  /** A path is on the list that reads back exactly when the written list had it, or had
      it followed by one carriage return; a name with a newline is never written. */
  lemma RecordedIsExact(rels: set<string>, rel: string)
    ensures rel in Recorded(rels)
            <==> '\n' !in rel && ((rel in rels && (rel == "" || rel[|rel| - 1] != '\r')) || rel + "\r" in rels)
  {
    StripsTo(rel, rel);
    StripsTo(rel + "\r", rel);
    forall written | written in rels && StripCr(written) == rel ensures written == rel || written == rel + "\r" {
      StripsTo(written, rel);
    }
    hide StripCr;
  }

  lemma StripsTo(line: string, rel: string)
    ensures StripCr(line) == rel <==> (line == rel && (rel == "" || rel[|rel| - 1] != '\r')) || line == rel + "\r"
    ensures line == rel + "\r" ==> ('\n' in line <==> '\n' in rel)
  {
  }

  // -------------------------------------------------------- what is stored

  /** The entries of the stored manifest. */
  function NamedBy(b: Bucket): Entries {
    if b.manifest.Some? && Parse(b.manifest.value).Some? then Parse(b.manifest.value).value else map[]
  }

  ghost predicate Content(cfg: Config, b: Bucket, key: Key, sha: Digest) {
    key in b.objects && cfg.sha256(b.objects[key]) == sha
  }

  /** The bucket holds the named content, at its content-addressed key or, unless
      `addressed`, at the path key of the older layout. */
  ghost predicate Held(cfg: Config, b: Bucket, addressed: bool, rel: string, sha: Digest) {
    Content(cfg, b, ObjectKey(rel, sha), sha) || (!addressed && Content(cfg, b, PathKey(rel), sha))
  }

  ghost predicate HoldsAll(cfg: Config, b: Bucket, addressed: bool, m: Entries) {
    forall rel :: rel in m ==> Held(cfg, b, addressed, rel, m[rel].sha256)
  }

  /** Every entry of the stored manifest is backed by the content it names. */
  ghost predicate Intact(cfg: Config, b: Bucket, addressed: bool) {
    HoldsAll(cfg, b, addressed, NamedBy(b))
  }

  lemma StoredTextIsNamed(b: Bucket, text: string, m: Entries, answer: Answer)
    requires Parse(text) == Some(m) && !answer.Lost?
    ensures NamedBy(PutManifest(b, text, answer)) == m
  {
  }

  lemma ParsedManifestIsWellFormed(b: Bucket)
    ensures WellFormed(NamedBy(b))
  {
    if b.manifest.Some? {
      ParseYieldsWellFormed(b.manifest.value);
    }
  }
}
