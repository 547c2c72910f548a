/** Bucket keys of the state sync: content-addressed objects, path keys and the
    manifest, and why the three name spaces never meet. */
module SyncKeys {
  import opened Text
  import opened SyncManifest
  import opened SyncedSet

  datatype Key = ObjectKey(rel: string, sha256: Hex) | PathKey(path: string)

  const OBJECTS := "objects/"

  function KeyName(prefix: string, key: Key): string {
    match key
    case ObjectKey(rel, sha) => prefix + (OBJECTS + (rel + "/" + sha))
    case PathKey(path) => prefix + path
  }

  function ManifestName(prefix: string): string {
    prefix + "manifest"
  }

  /** Position of the last `c`, or the length when there is none. */
  function FindLast(s: string, c: char): (i: nat)
    ensures i <= |s| && (i < |s| ==> s[i] == c)
  {
    if s == "" then 0
    else if s[|s| - 1] == c then |s| - 1
    else
      var i := FindLast(s[..|s| - 1], c);
      if i < |s| - 1 then i else |s|
  }

  lemma {:induction false} FindLastSplit(pre: string, c: char, post: string)
    requires c !in post
    ensures FindLast(pre + [c] + post, c) == |pre|
  {
    var s := pre + [c] + post;
    if post != "" {
      assert s[|s| - 1] == post[|post| - 1];
      FindLastSplit(pre, c, post[..|post| - 1]);
      assert s[..|s| - 1] == pre + [c] + post[..|post| - 1];
    }
  }

  /** Reads a content-addressed key back into its path and hash. */
  function SplitObjectKey(name: string, prefix: string): Option<(string, string)> {
    if !(prefix <= name) then None
    else
      var rest := name[|prefix|..];
      if !(OBJECTS <= rest) then None
      else
        var tail := rest[|OBJECTS|..];
        var i := FindLast(tail, '/');
        if i < |tail| && IsHex(tail[i + 1..]) && tail[..i] != "" then Some((tail[..i], tail[i + 1..])) else None
  }

  lemma HexHasNoSlash(sha: Hex)
    ensures '/' !in sha
  {
    assert !IsHexDigit('/');
  }

  /** Splitting inverts building: the key is the only encoding of its path and hash. */
  lemma SplitInvertsObjectKey(prefix: string, rel: string, sha: Hex)
    requires rel != ""
    ensures SplitObjectKey(KeyName(prefix, ObjectKey(rel, sha)), prefix) == Some((rel, sha))
  {
    var tail := rel + "/" + sha;
    var name := prefix + (OBJECTS + tail);
    assert name[|prefix|..] == OBJECTS + tail;
    assert (OBJECTS + tail)[|OBJECTS|..] == tail;
    HexHasNoSlash(sha);
    FindLastSplit(rel, '/', sha);
    assert tail == rel + ['/'] + sha;
    assert tail[..|rel|] == rel && tail[|rel| + 1..] == sha;
  }

  /** Only keys of that shape split. */
  lemma SplitIsExact(prefix: string, name: string)
    requires SplitObjectKey(name, prefix).Some?
    ensures var (rel, sha) := SplitObjectKey(name, prefix).value;
            rel != "" && IsHex(sha) && name == KeyName(prefix, ObjectKey(rel, sha))
  {
    var rest := name[|prefix|..];
    var tail := rest[|OBJECTS|..];
    var i := FindLast(tail, '/');
    assert tail == tail[..i] + "/" + tail[i + 1..];
    assert rest == OBJECTS + tail;
    assert name == prefix + rest;
  }

  /** The configured state file stays clear of the bucket's own names. */
  predicate GoodStateFile(state: Option<string>) {
    state.Some? ==> state.value != "manifest" && !(OBJECTS <= state.value) && !("db/" <= state.value)
  }

  lemma FirstCharOfSynced(rel: string, state: Option<string>)
    requires IsSynced(rel, state) && state != Some(rel)
    ensures rel != "" && rel[0] in {'t', 'r', 'c', 'a', 's'}
  {
    if InTree(rel) {
      var i := Find(rel, '/');
      assert rel[..i] == "certs" || rel[..i] == "attachments" || rel[..i] == "sends";
      assert rel[0] == rel[..i][0];
    }
  }

  /** A synced path's own key is neither the manifest, nor a content-addressed
      key, nor a database backup. */
  lemma PathKeysAreApart(prefix: string, rel: string, state: Option<string>)
    requires IsSynced(rel, state) && GoodStateFile(state)
    ensures KeyName(prefix, PathKey(rel)) != ManifestName(prefix)
    ensures SplitObjectKey(KeyName(prefix, PathKey(rel)), prefix) == None
    ensures !(prefix + "db/" <= KeyName(prefix, PathKey(rel)))
  {
    var name := prefix + rel;
    assert name[|prefix|..] == rel;
    assert ManifestName(prefix)[|prefix|..] == "manifest";
    if state != Some(rel) {
      FirstCharOfSynced(rel, state);
      assert rel[0] !in {'m', 'o', 'd'};
      assert "manifest"[0] == 'm' && OBJECTS[0] == 'o' && "db/"[0] == 'd';
    }
    PrefixCancels(prefix, "db/", rel);
  }

  lemma PrefixCancels(prefix: string, part: string, rel: string)
    ensures prefix + part <= prefix + rel ==> part <= rel
  {
    assert (prefix + part)[|prefix|..] == part;
    assert (prefix + rel)[|prefix|..] == rel;
  }

  ghost predicate SyncKey(key: Key, state: Option<string>) {
    match key
    case ObjectKey(rel, _) => rel != ""
    case PathKey(path) => IsSynced(path, state)
  }

  /** Distinct keys have distinct names, so one map over keys is the bucket. */
  lemma KeyNamesAreInjective(prefix: string, state: Option<string>, a: Key, b: Key)
    requires GoodStateFile(state) && SyncKey(a, state) && SyncKey(b, state)
    requires KeyName(prefix, a) == KeyName(prefix, b)
    ensures a == b
  {
    match (a, b) {
      case (ObjectKey(r, s), ObjectKey(r', s')) =>
        SplitInvertsObjectKey(prefix, r, s);
        SplitInvertsObjectKey(prefix, r', s');
      case (PathKey(p), PathKey(p')) =>
        assert p == KeyName(prefix, a)[|prefix|..];
        assert p' == KeyName(prefix, b)[|prefix|..];
      case (ObjectKey(r, s), PathKey(p)) =>
        SplitInvertsObjectKey(prefix, r, s);
        PathKeysAreApart(prefix, p, state);
      case (PathKey(p), ObjectKey(r, s)) =>
        SplitInvertsObjectKey(prefix, r, s);
        PathKeysAreApart(prefix, p, state);
    }
  }
}
