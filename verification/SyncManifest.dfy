/** The state-sync manifest: one `<sha256> <size> <path>` line per synced file
    under a `v1` header. */
module SyncManifest {
  import opened Text

  const MAX_MANIFEST_BYTES: nat := 4 * 1024 * 1024

  predicate IsHexDigit(c: char) {
    IsDigit(c) || 'a' <= c <= 'f' || 'A' <= c <= 'F'
  }

  predicate IsHex(s: string) {
    |s| == 64 && forall c :: c in s ==> IsHexDigit(c)
  }

  predicate IsDigest(s: string) {
    |s| == 64 && forall c :: c in s ==> IsDigit(c) || 'a' <= c <= 'f'
  }

  /** 64 hex digits in either case. */
  type Hex = s: string | IsHex(s) witness seq(64, _ => 'a')

  /** A SHA-256 as the supervisor computes it: lower-case hex. */
  type Digest = s: Hex | IsDigest(s) witness seq(64, _ => 'a')

  datatype Entry = Entry(size: U64, sha256: Digest)

  type Entries = map<string, Entry>

  /** The paths one line of the format can carry back unchanged. */
  predicate GoodPath(rel: string) {
    rel != "" && '\n' !in rel && !IsWhite(rel[|rel| - 1])
  }

  predicate WellFormed(m: Entries) {
    forall rel :: rel in m ==> GoodPath(rel)
  }

  // --------------------------------------------------------------- parsing

  function LowerChar(c: char): char {
    if 'A' <= c <= 'Z' then (c as int + 32) as char else c
  }

  function Lower(s: string): (t: string)
    ensures |t| == |s| && forall i :: 0 <= i < |s| ==> t[i] == LowerChar(s[i])
  {
    if s == "" then "" else [LowerChar(s[0])] + Lower(s[1..])
  }

  lemma LowerOfHex(s: string)
    requires IsHex(s)
    ensures IsDigest(Lower(s)) && IsHex(Lower(s))
  {
    var t := Lower(s);
    forall c | c in t ensures IsDigit(c) || 'a' <= c <= 'f' {
      var i :| 0 <= i < |t| && t[i] == c;
      assert s[i] in s;
    }
  }

  /** One non-blank line: the path is the rest of the line and may hold spaces. */
  function ParseLine(line: string): Option<(string, Entry)> {
    var i := Find(line, ' ');
    if i == |line| then None
    else
      var sha, rest := line[..i], line[i + 1..];
      var j := Find(rest, ' ');
      if j == |rest| then None
      else
        var size, rel := ParseU64(rest[..j]), rest[j + 1..];
        if IsHex(sha) && size.Some? && rel != ""
        then
          LowerOfHex(sha);
          Some((rel, Entry(size.value, Lower(sha))))
        else None
  }

  function ParseLines(lines: seq<string>, entries: Entries): Option<Entries> {
    if lines == [] then Some(entries)
    else
      var line := TrimEnd(lines[0]);
      if line == "" then ParseLines(lines[1..], entries)
      else
        var item := ParseLine(line);
        if item.None? then None
        else ParseLines(lines[1..], entries[item.value.0 := item.value.1])
  }

  function Parse(text: string): Option<Entries> {
    var lines := Lines(text);
    if lines != [] && lines[0] == "v1" then ParseLines(lines[1..], map[]) else None
  }

  // ------------------------------------------------------------- rendering

  function Line(rel: string, entry: Entry): string {
    entry.sha256 + " " + Decimal(entry.size) + " " + rel
  }

  function RenderLines(rels: seq<string>, m: Entries): string
    requires forall rel :: rel in rels ==> rel in m
  {
    if rels == [] then "" else Line(rels[0], m[rels[0]]) + "\n" + RenderLines(rels[1..], m)
  }

  function Render(m: Entries): string {
    "v1\n" + RenderLines(Sorted(m.Keys), m)
  }

  // ----------------------------------------------------------- round trips

  lemma LowerOfDigest(s: Digest)
    ensures Lower(s) == s
  {
    forall i | 0 <= i < |s| ensures Lower(s)[i] == s[i] {
      assert s[i] in s;
    }
  }

  /** A rendered line is one untrimmable line of text. */
  lemma LineIsClean(rel: string, entry: Entry)
    requires GoodPath(rel)
    ensures var line := Line(rel, entry);
            line != "" && !IsWhite(line[|line| - 1]) && '\n' !in line
  {
    var line := Line(rel, entry);
    assert line[|line| - 1] == rel[|rel| - 1];
    assert '\n' !in entry.sha256 && '\n' !in Decimal(entry.size);
  }

  lemma LineRoundTrip(rel: string, entry: Entry)
    requires rel != ""
    ensures ParseLine(Line(rel, entry)) == Some((rel, entry))
  {
    var line, sha, size := Line(rel, entry), entry.sha256, Decimal(entry.size);
    var rest := size + [' '] + rel;
    assert line == sha + [' '] + rest;
    assert ' ' !in sha && ' ' !in size;
    FindFirst(sha, ' ', rest);
    assert line[..64] == sha && line[65..] == rest;
    FindFirst(size, ' ', rel);
    assert rest[..|size|] == size && rest[|size| + 1..] == rel;
    ParseDecimal(entry.size);
    LowerOfDigest(sha);
  }

  lemma ParseStep(line: string, tail: seq<string>, rel: string, entry: Entry, entries: Entries)
    requires line != "" && !IsWhite(line[|line| - 1]) && ParseLine(line) == Some((rel, entry))
    ensures ParseLines([line] + tail, entries) == ParseLines(tail, entries[rel := entry])
  {
    assert TrimEnd(line) == line;
    assert ([line] + tail)[1..] == tail;
  }

  ghost function Pick(rels: seq<string>, m: Entries): Entries
    requires forall rel :: rel in rels ==> rel in m
  {
    map rel | rel in rels :: m[rel]
  }

  lemma RenderedHead(rels: seq<string>, m: Entries)
    requires rels != [] && forall rel :: rel in rels ==> rel in m
    requires GoodPath(rels[0])
    ensures Lines(RenderLines(rels, m)) == [Line(rels[0], m[rels[0]])] + Lines(RenderLines(rels[1..], m))
  {
    var line := Line(rels[0], m[rels[0]]);
    LineIsClean(rels[0], m[rels[0]]);
    assert IsWhite('\r');
    LinesCons(line, RenderLines(rels[1..], m));
  }

  lemma {:induction false} RenderedLinesParse(rels: seq<string>, m: Entries, entries: Entries)
    requires WellFormed(m) && forall rel :: rel in rels ==> rel in m
    ensures ParseLines(Lines(RenderLines(rels, m)), entries) == Some(entries + Pick(rels, m))
  {
    if rels == [] {
      assert entries + Pick(rels, m) == entries;
    } else {
      var rel, rest := rels[0], rels[1..];
      var tail, more := Lines(RenderLines(rest, m)), entries[rel := m[rel]];
      calc {
        ParseLines(Lines(RenderLines(rels, m)), entries);
        { RenderedHead(rels, m); }
        ParseLines([Line(rel, m[rel])] + tail, entries);
        { LineIsClean(rel, m[rel]); LineRoundTrip(rel, m[rel]);
          ParseStep(Line(rel, m[rel]), tail, rel, m[rel], entries); }
        ParseLines(tail, more);
        { RenderedLinesParse(rest, m, more); }
        Some(more + Pick(rest, m));
        { assert more + Pick(rest, m) == entries + Pick(rels, m); }
        Some(entries + Pick(rels, m));
      }
    }
  }

  lemma {:induction false} ParsedLinesAreGood(lines: seq<string>, entries: Entries)
    requires WellFormed(entries) && forall l :: l in lines ==> '\n' !in l
    ensures var r := ParseLines(lines, entries); r.Some? ==> WellFormed(r.value)
  {
    if lines != [] {
      var line := TrimEnd(lines[0]);
      var item := ParseLine(line);
      assert '\n' !in lines[0];
      if line == "" {
        ParsedLinesAreGood(lines[1..], entries);
      } else if item.Some? {
        var rel := item.value.0;
        assert rel == line[|line| - |rel|..];
        assert rel[|rel| - 1] == line[|line| - 1];
        ParsedLinesAreGood(lines[1..], entries[rel := item.value.1]);
      }
    }
  }

  /** Whatever the parser accepts is well-formed. */
  lemma ParseYieldsWellFormed(text: string)
    ensures Parse(text).Some? ==> WellFormed(Parse(text).value)
  {
    LinesHaveNoNewline(text);
    if Parse(text).Some? {
      ParsedLinesAreGood(Lines(text)[1..], map[]);
    }
  }

  lemma HeaderSplits(body: string)
    ensures Lines("v1\n" + body) == ["v1"] + Lines(body)
  {
    assert "v1\n" + body == "v1" + "\n" + body;
    LinesCons("v1", body);
  }

  lemma RenderedParses(m: Entries)
    requires WellFormed(m)
    ensures Parse(Render(m)) == Some(m)
  {
    hide ParseLines, RenderLines, Sorted, Lines, WellFormed;
    var rels := Sorted(m.Keys);
    RenderedLinesParse(rels, m, map[]);
    PicksAll(rels, m);
    hide Pick;
    var body := RenderLines(rels, m);
    HeaderSplits(body);
    assert (["v1"] + Lines(body))[1..] == Lines(body);
  }

  lemma PicksAll(rels: seq<string>, m: Entries)
    requires forall rel :: rel in rels <==> rel in m
    ensures map[] + Pick(rels, m) == m
  {
  }

  /** A rendered manifest reads back as itself exactly when it is well-formed. */
  lemma RoundTrip(m: Entries)
    ensures Parse(Render(m)) == Some(m) <==> WellFormed(m)
  {
    if WellFormed(m) {
      RenderedParses(m);
    } else {
      ParseYieldsWellFormed(Render(m));
    }
    hide Parse, Render, WellFormed;
  }

  // ------------------------------------------------------- the mutable object

  class Manifest {
    var entries: Entries

    constructor (entries: Entries)
      ensures this.entries == entries
    {
      this.entries := entries;
    }

    method Insert(rel: string, entry: Entry)
      modifies this
      ensures entries == old(entries)[rel := entry]
    {
      entries := entries[rel := entry];
    }

    method RenderText() returns (out: string)
      ensures out == Render(entries)
    {
      hide Sorted, Line;
      out := "v1\n";
      var rels := Sorted(entries.Keys);
      var i := 0;
      while i < |rels|
        invariant 0 <= i <= |rels|
        invariant out + RenderLines(rels[i..], entries) == Render(entries)
      {
        out := out + Line(rels[i], entries[rels[i]]) + "\n";
        i := i + 1;
      }
    }
  }

  method ParseText(text: string) returns (r: Option<Entries>)
    ensures r == Parse(text)
  {
    var lines := Lines(text);
    if lines == [] || lines[0] != "v1" {
      return None;
    }
    var entries: Entries := map[];
    var i := 1;
    while i < |lines|
      invariant 1 <= i <= |lines|
      invariant ParseLines(lines[i..], entries) == Parse(text)
    {
      var line := TrimEnd(lines[i]);
      if line != "" {
        var item := ParseLine(line);
        if item.None? {
          return None;
        }
        entries := entries[item.value.0 := item.value.1];
      }
      i := i + 1;
    }
    return Some(entries);
  }
}
