/** The backup manifest: `<generation> <name> <size>` lines in strictly ascending
    generation order under a `v1` header. */
module BackupManifest {
  import opened Text

  const MAX_MANIFEST_BYTES: nat := 256 * 1024

  datatype Entry = Entry(generation: U64, name: string, size: U64)

  type Entries = seq<Entry>

  /** A name one whitespace-separated field can carry. */
  predicate CleanName(name: string) {
    name != "" && forall c :: c in name ==> !IsWhite(c)
  }

  predicate WellFormed(es: Entries) {
    && (forall i :: 0 <= i < |es| ==> es[i].generation > 0 && CleanName(es[i].name))
    && (forall i, j :: 0 <= i < j < |es| ==> es[i].generation < es[j].generation && es[i].name != es[j].name)
  }

  /** The generation of the newest entry, and 0 without entries. */
  function Latest(es: Entries): U64 {
    if es == [] then 0 else es[|es| - 1].generation
  }

  /** One more than the newest, unless that no longer fits. */
  function NextGeneration(es: Entries): Option<U64> {
    if Latest(es) + 1 < U64_LIMIT then Some(Latest(es) + 1) else None
  }

  function FindName(es: Entries, name: string): Option<Entry> {
    if es == [] then None else if es[0].name == name then Some(es[0]) else FindName(es[1..], name)
  }

  function Retained(es: Entries, keep: nat): Entries {
    if |es| <= keep then es else es[|es| - keep..]
  }

  function Evicted(es: Entries, keep: nat): Entries {
    if |es| <= keep then [] else es[..|es| - keep]
  }

  /** The view of a bucket without a manifest: generations by listing position. */
  function FromListing(listed: seq<(string, U64)>): (es: Entries)
    requires |listed| < U64_LIMIT
    ensures |es| == |listed|
    ensures forall i :: 0 <= i < |es| ==> es[i] == Entry(i + 1, listed[i].0, listed[i].1)
  {
    seq(|listed|, i requires 0 <= i < |listed| => Entry(i + 1, listed[i].0, listed[i].1))
  }

  // --------------------------------------------------------------- parsing

  function FirstWhite(s: string): (i: nat)
    ensures i <= |s| && (i < |s| ==> IsWhite(s[i])) && forall c :: c in s[..i] ==> !IsWhite(c)
  {
    if s == "" || IsWhite(s[0]) then 0 else 1 + FirstWhite(s[1..])
  }

  /** The maximal runs of non-white characters. */
  function Fields(s: string): seq<string>
    decreases |s|
  {
    if s == "" then []
    else if IsWhite(s[0]) then Fields(s[1..])
    else
      var i := FirstWhite(s);
      [s[..i]] + Fields(s[i..])
  }

  function ParseEntry(line: string): Option<Entry> {
    var f := Fields(line);
    if |f| != 3 then None
    else
      var generation, size := ParseU64(f[0]), ParseU64(f[2]);
      if generation.Some? && size.Some? && generation.value > 0
      then Some(Entry(generation.value, f[1], size.value))
      else None
  }

  /** An entry may follow: its generation ascends and its name is new. */
  predicate MayFollow(es: Entries, e: Entry) {
    Latest(es) < e.generation && forall i :: 0 <= i < |es| ==> es[i].name != e.name
  }

  function ParseLines(lines: seq<string>, es: Entries): Option<Entries> {
    if lines == [] then Some(es)
    else
      var line := TrimEnd(TrimStart(lines[0]));
      if line == "" then ParseLines(lines[1..], es)
      else
        var e := ParseEntry(line);
        if e.Some? && MayFollow(es, e.value) then ParseLines(lines[1..], es + [e.value]) else None
  }

  function Parse(text: string): Option<Entries> {
    var lines := Lines(text);
    if lines != [] && lines[0] == "v1" then ParseLines(lines[1..], []) else None
  }

  // ------------------------------------------------------------- rendering

  function Line(e: Entry): string {
    Decimal(e.generation) + " " + e.name + " " + Decimal(e.size)
  }

  function RenderLines(es: Entries): string {
    if es == [] then "" else Line(es[0]) + "\n" + RenderLines(es[1..])
  }

  function Render(es: Entries): string {
    "v1\n" + RenderLines(es)
  }

  // ----------------------------------------------------------- round trips

  lemma {:induction false} FirstWhiteAfter(field: string, rest: string)
    requires (forall c :: c in field ==> !IsWhite(c)) && (rest == "" || IsWhite(rest[0]))
    ensures FirstWhite(field + rest) == |field|
  {
    if field == "" {
      assert field + rest == rest;
    } else {
      assert (field + rest)[1..] == field[1..] + rest;
      FirstWhiteAfter(field[1..], rest);
    }
  }

  lemma FieldsCons(field: string, rest: string)
    requires CleanName(field) && (rest == "" || IsWhite(rest[0]))
    ensures Fields(field + rest) == [field] + Fields(rest)
  {
    FirstWhiteAfter(field, rest);
    assert (field + rest)[0] in field;
    assert (field + rest)[..|field|] == field && (field + rest)[|field|..] == rest;
  }

  lemma FieldsSkip(rest: string)
    ensures Fields(" " + rest) == Fields(rest)
  {
    assert (" " + rest)[1..] == rest;
  }

  lemma DigitsAreClean(n: nat)
    ensures CleanName(Decimal(n)) && '\n' !in Decimal(n)
  {
    forall c | c in Decimal(n) ensures !IsWhite(c) {
      assert IsDigit(c);
    }
  }

  lemma LastField(field: string)
    requires CleanName(field)
    ensures Fields(field) == [field]
  {
    FieldsCons(field, "");
    assert field + "" == field;
  }

  lemma ThreeFields(a: string, b: string, c: string)
    requires CleanName(a) && CleanName(b) && CleanName(c)
    ensures Fields(a + (" " + (b + (" " + c)))) == [a, b, c]
  {
    LastField(c);
    FieldsSkip(c);
    FieldsCons(b, " " + c);
    FieldsSkip(b + (" " + c));
    FieldsCons(a, " " + (b + (" " + c)));
  }

  lemma LineFields(e: Entry)
    requires CleanName(e.name)
    ensures Fields(Line(e)) == [Decimal(e.generation), e.name, Decimal(e.size)]
  {
    hide Fields, Decimal, CleanName;
    var g, s := Decimal(e.generation), Decimal(e.size);
    DigitsAreClean(e.generation);
    DigitsAreClean(e.size);
    ThreeFields(g, e.name, s);
    assert Line(e) == g + (" " + (e.name + (" " + s)));
  }

  lemma LineParses(e: Entry)
    requires CleanName(e.name) && e.generation > 0
    ensures ParseEntry(Line(e)) == Some(e)
  {
    LineFields(e);
    ParseDecimal(e.generation);
    ParseDecimal(e.size);
  }

  /** A rendered line is one line of text that trimming leaves alone. */
  lemma LineIsClean(e: Entry)
    requires CleanName(e.name)
    ensures var line := Line(e);
            line != "" && '\n' !in line && !EndsWith(line, "\r") && TrimEnd(TrimStart(line)) == line
  {
    var line, g, s := Line(e), Decimal(e.generation), Decimal(e.size);
    DigitsAreClean(e.generation);
    DigitsAreClean(e.size);
    assert IsWhite('\n') && IsWhite('\r');
    assert line[0] == g[0] && g[0] in g;
    assert line[|line| - 1] == s[|s| - 1] && s[|s| - 1] in s;
  }

  lemma RenderedHead(es: Entries)
    requires es != [] && CleanName(es[0].name)
    ensures Lines(RenderLines(es)) == [Line(es[0])] + Lines(RenderLines(es[1..]))
  {
    LineIsClean(es[0]);
    LinesCons(Line(es[0]), RenderLines(es[1..]));
  }

  lemma ParseStep(e: Entry, tail: seq<string>, done: Entries)
    requires CleanName(e.name) && e.generation > 0 && MayFollow(done, e)
    ensures ParseLines([Line(e)] + tail, done) == ParseLines(tail, done + [e])
  {
    LineIsClean(e);
    LineParses(e);
    hide Line, ParseEntry;
    assert ([Line(e)] + tail)[1..] == tail;
  }

  lemma {:induction false} RenderedLinesParse(es: Entries, done: Entries)
    requires WellFormed(done + es)
    ensures ParseLines(Lines(RenderLines(es)), done) == Some(done + es)
  {
    if es == [] {
      assert done + es == done;
    } else {
      var e, rest := es[0], es[1..];
      assert (done + es)[|done|] == e;
      FollowsInOrder(done, es);
      assert done + es == (done + [e]) + rest;
      var tail := Lines(RenderLines(rest));
      RenderedHead(es);
      ParseStep(e, tail, done);
      RenderedLinesParse(rest, done + [e]);
    }
  }

  lemma FollowsInOrder(done: Entries, es: Entries)
    requires WellFormed(done + es) && es != []
    ensures MayFollow(done, es[0]) && es[0].generation > 0 && CleanName(es[0].name)
  {
    var all := done + es;
    assert all[|done|] == es[0] && all[..|done|] == done;
    if done != [] {
      assert all[|done| - 1] == done[|done| - 1];
    }
    forall i | 0 <= i < |done| ensures done[i].name != es[0].name {
      assert all[i] == done[i];
    }
  }

  lemma {:induction false} FieldsAreClean(s: string)
    ensures forall f :: f in Fields(s) ==> CleanName(f)
    decreases |s|
  {
    if s != "" {
      if IsWhite(s[0]) {
        FieldsAreClean(s[1..]);
      } else {
        FieldsAreClean(s[FirstWhite(s)..]);
      }
    }
  }

  lemma AppendKeepsWellFormed(es: Entries, e: Entry)
    requires WellFormed(es) && MayFollow(es, e) && e.generation > 0 && CleanName(e.name)
    ensures WellFormed(es + [e])
  {
  }

  lemma {:induction false} ParsedLinesAreGood(lines: seq<string>, es: Entries)
    requires WellFormed(es)
    ensures var r := ParseLines(lines, es); r.Some? ==> WellFormed(r.value)
  {
    hide Fields, WellFormed, TrimStart, TrimEnd;
    if lines != [] {
      var line := TrimEnd(TrimStart(lines[0]));
      var e := ParseEntry(line);
      if line == "" {
        ParsedLinesAreGood(lines[1..], es);
      } else if e.Some? && MayFollow(es, e.value) {
        FieldsAreClean(line);
        AppendKeepsWellFormed(es, e.value);
        ParsedLinesAreGood(lines[1..], es + [e.value]);
      }
    }
  }

  lemma ParseYieldsWellFormed(text: string)
    ensures Parse(text).Some? ==> WellFormed(Parse(text).value)
  {
    hide ParseLines;
    if Parse(text).Some? {
      ParsedLinesAreGood(Lines(text)[1..], []);
    }
  }

  lemma HeaderSplits(body: string)
    ensures Lines("v1\n" + body) == ["v1"] + Lines(body)
  {
    assert "v1\n" + body == "v1" + "\n" + body;
    LinesCons("v1", body);
  }

  lemma RenderedParses(es: Entries)
    requires WellFormed(es)
    ensures Parse(Render(es)) == Some(es)
  {
    hide ParseLines, RenderLines, Lines, WellFormed;
    HeaderSplits(RenderLines(es));
    assert [] + es == es;
    RenderedLinesParse(es, []);
    assert (["v1"] + Lines(RenderLines(es)))[1..] == Lines(RenderLines(es));
  }

  /** A rendered manifest reads back as itself exactly when it is well-formed. */
  lemma RoundTrip(es: Entries)
    ensures Parse(Render(es)) == Some(es) <==> WellFormed(es)
  {
    if WellFormed(es) {
      RenderedParses(es);
    } else {
      ParseYieldsWellFormed(Render(es));
      hide Parse, Render, WellFormed;
    }
  }

  // ------------------------------------------------------ push and retain

  lemma SuffixIsWellFormed(es: Entries, cut: nat)
    requires WellFormed(es) && cut <= |es|
    ensures WellFormed(es[cut..])
  {
    hide CleanName;
    var kept := es[cut..];
    forall j | 0 <= j < |kept| ensures kept[j] == es[cut + j] {
    }
  }

  /** Retaining splits the entries into an evicted front and a kept back, which is
      well-formed and shares no name with the evicted entries. */
  lemma RetainedSplits(es: Entries, keep: nat)
    requires WellFormed(es)
    ensures WellFormed(Retained(es, keep)) && Evicted(es, keep) + Retained(es, keep) == es
    ensures |es| > keep ==> |Retained(es, keep)| == keep
    ensures forall i, j :: 0 <= i < |Evicted(es, keep)| && 0 <= j < |Retained(es, keep)| ==>
              Evicted(es, keep)[i].name != Retained(es, keep)[j].name
  {
    if |es| > keep {
      var cut := |es| - keep;
      SuffixIsWellFormed(es, cut);
      var kept, gone := es[cut..], es[..cut];
      assert gone + kept == es;
      forall i, j | 0 <= i < |gone| && 0 <= j < |kept| ensures gone[i].name != kept[j].name {
        assert gone[i] == es[i] && kept[j] == es[cut + j];
      }
      hide WellFormed;
    }
  }

  /** The manifest a push under the next generation and a fresh name leads to. */
  function Pushed(es: Entries, name: string, size: U64): Entries
    requires NextGeneration(es).Some?
  {
    es + [Entry(NextGeneration(es).value, name, size)]
  }

  /** Pushing under the next generation and a fresh name, then keeping the newest
      entries, preserves well-formedness and makes the pushed entry the current one. */
  lemma PushAndRetain(es: Entries, name: string, size: U64, keep: nat)
    requires WellFormed(es) && NextGeneration(es).Some? && CleanName(name) && keep > 0
    requires forall i :: 0 <= i < |es| ==> es[i].name != name
    ensures var pushed := Pushed(es, name, size);
            var kept := Retained(pushed, keep);
            && WellFormed(pushed) && WellFormed(kept) && 0 < |kept| <= keep
            && kept[|kept| - 1] == Entry(Latest(es) + 1, name, size) && Latest(kept) == Latest(es) + 1
  {
    var pushed := Pushed(es, name, size);
    AppendKeepsWellFormed(es, pushed[|es|]);
    RetainedSplits(pushed, keep);
    hide WellFormed, CleanName;
    assert pushed[|pushed| - 1] == Entry(Latest(es) + 1, name, size);
    if |pushed| > keep {
      assert Retained(pushed, keep)[keep - 1] == pushed[|pushed| - 1];
    }
  }

  // -------------------------------------------------------------- the size

  lemma LineLength(e: Entry)
    requires |e.name| <= 40 && forall c :: c in e.name ==> c < '\U{0080}'
    ensures Utf8Len(Line(e) + "\n") <= 83
  {
    assert PowerOfTen(20) > U64_LIMIT by { PowerOfTwenty(); }
    DecimalWidth(e.generation, 20);
    DecimalWidth(e.size, 20);
    var line := Line(e) + "\n";
    forall c | c in line ensures c < '\U{0080}' {
      DigitsAreAscii(e.generation);
      DigitsAreAscii(e.size);
    }
    AsciiLen(line);
  }

  lemma {:induction false} RenderedLength(es: Entries)
    requires forall i :: 0 <= i < |es| ==> |es[i].name| <= 40 && forall c :: c in es[i].name ==> c < '\U{0080}'
    ensures Utf8Len(RenderLines(es)) <= 83 * |es|
  {
    hide Utf8Len, Line;
    if es == [] {
      AsciiLen("");
    } else {
      LineLength(es[0]);
      RenderedLength(es[1..]);
      Utf8LenConcat(Line(es[0]) + "\n", RenderLines(es[1..]));
    }
  }

  /** With at most 1000 entries and names of at most 40 ASCII characters the rendered
      manifest stays far below the cap the reading side enforces. */
  lemma ManifestFitsTheCap(es: Entries)
    requires |es| <= 1000
    requires forall i :: 0 <= i < |es| ==> |es[i].name| <= 40 && forall c :: c in es[i].name ==> c < '\U{0080}'
    ensures Utf8Len(Render(es)) <= 83_003 <= MAX_MANIFEST_BYTES
  {
    RenderedLength(es);
    hide RenderLines;
    AsciiLen("v1\n");
    Utf8LenConcat("v1\n", RenderLines(es));
  }

  // ------------------------------------------------------- the mutable object

  class Manifest {
    var entries: Entries

    constructor (entries: Entries)
      ensures this.entries == entries
    {
      this.entries := entries;
    }

    method Push(e: Entry)
      modifies this
      ensures entries == old(entries) + [e]
    {
      entries := entries + [e];
    }

    method Retain(keep: nat) returns (evicted: Entries)
      modifies this
      ensures entries == Retained(old(entries), keep) && evicted == Evicted(old(entries), keep)
    {
      if |entries| <= keep {
        return [];
      }
      var cut := |entries| - keep;
      evicted := entries[..cut];
      entries := entries[cut..];
    }

    method RenderText() returns (out: string)
      ensures out == Render(entries)
    {
      hide Line;
      out := "v1\n";
      var i := 0;
      while i < |entries|
        invariant 0 <= i <= |entries|
        invariant out + RenderLines(entries[i..]) == Render(entries)
      {
        out := out + (Line(entries[i]) + "\n");
        i := i + 1;
      }
    }
  }

  method ParseText(text: string) returns (r: Option<Entries>)
    ensures r == Parse(text)
  {
    hide ParseEntry, TrimStart, TrimEnd, Lines;
    var lines := Lines(text);
    if lines == [] || lines[0] != "v1" {
      return None;
    }
    var es: Entries := [];
    var i := 1;
    while i < |lines|
      invariant 1 <= i <= |lines|
      invariant ParseLines(lines[i..], es) == Parse(text)
    {
      var line := TrimEnd(TrimStart(lines[i]));
      if line != "" {
        var e := ParseEntry(line);
        if e.None? || !MayFollow(es, e.value) {
          return None;
        }
        es := es + [e.value];
      }
      i := i + 1;
    }
    return Some(es);
  }
}
