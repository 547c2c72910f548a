/** A bucket without a manifest: what the first manifest built from its listing reads
    back as. The listing does not look at names, and a name with whitespace breaks the
    text format. */
module BackupListing {
  import opened Text
  import opened BackupManifest
  import opened BackupWorld
  import opened BackupTick
  import opened BackupIntegrity

  // -------------------------------------------------------- lines and fields

  lemma Regroup(pre: string, post: string, y: string)
    ensures pre + ['\n'] + post + y == pre + ['\n'] + (post + y)
  {
  }

  lemma {:induction false} FindHits(s: string, c: char)
    requires c in s
    ensures Find(s, c) < |s|
  {
    if s[0] != c {
      FindHits(s[1..], c);
    }
  }

  lemma {:induction false} LinesConcat(x: string, rest: string)
    ensures Lines(x + "\n" + rest) == Lines(x + "\n") + Lines(rest)
    decreases |x|
  {
    hide Lines, StripCr;
    if '\n' in x {
      FindHits(x, '\n');
      var i := Find(x, '\n');
      var pre, post := x[..i], x[i + 1..];
      assert x == pre + ['\n'] + post;
      LinesConcat(post, rest);
      Regroup(pre, post, "\n");
      LinesSplit(pre, post + "\n");
      Regroup(pre, post + "\n", rest);
      LinesSplit(pre, post + "\n" + rest);
    } else {
      LinesSplit(x, rest);
      LinesSplit(x, "");
      assert x + "\n" == x + ['\n'] + "" && x + "\n" + rest == x + ['\n'] + rest;
      assert Lines("") == [] by {
        NoLines();
      }
    }
  }

  lemma NoLines()
    ensures Lines("") == []
  {
  }

  lemma LinesSplit(line: string, rest: string)
    requires '\n' !in line
    ensures Lines(line + ['\n'] + rest) == [StripCr(line)] + Lines(rest)
  {
    var text := line + ['\n'] + rest;
    FindFirst(line, '\n', rest);
    assert text[..|line|] == line && text[|line| + 1..] == rest;
  }

  lemma {:induction false} ParseLinesConcat(a: seq<string>, b: seq<string>, es: Entries)
    ensures var m := ParseLines(a, es);
            ParseLines(a + b, es) == if m.Some? then ParseLines(b, m.value) else None
  {
    hide ParseEntry, TrimStart, TrimEnd, MayFollow;
    if a == [] {
      assert a + b == b;
    } else {
      assert (a + b)[1..] == a[1..] + b;
      var line := TrimEnd(TrimStart(a[0]));
      var e := ParseEntry(line);
      if line == "" {
        ParseLinesConcat(a[1..], b, es);
      } else if e.Some? {
        ParseLinesConcat(a[1..], b, es + [e.value]);
      }
    }
  }

  predicate Blank(line: string) {
    TrimEnd(TrimStart(line)) == ""
  }

  /** Every line that says something raises the current generation. */
  lemma {:induction false} SayingRaises(lines: seq<string>, es: Entries)
    ensures var m := ParseLines(lines, es);
            && (m.Some? ==> Latest(es) <= Latest(m.value))
            && (m.Some? && (exists l :: l in lines && !Blank(l)) ==> Latest(es) < Latest(m.value))
  {
    hide ParseEntry, TrimStart, TrimEnd;
    if lines != [] {
      var line := TrimEnd(TrimStart(lines[0]));
      var e := ParseEntry(line);
      if line == "" {
        SayingRaises(lines[1..], es);
      } else if e.Some? && MayFollow(es, e.value) {
        SayingRaises(lines[1..], es + [e.value]);
      }
    }
  }

  lemma {:induction false} TrimStartKeepsEnd(s: string)
    requires s != "" && !IsWhite(s[|s| - 1])
    ensures var t := TrimStart(s); t != "" && t[|t| - 1] == s[|s| - 1]
  {
    if IsWhite(s[0]) {
      TrimStartKeepsEnd(s[1..]);
    }
  }

  lemma NotBlank(s: string)
    requires s != "" && !IsWhite(s[|s| - 1])
    ensures !Blank(s)
  {
    TrimStartKeepsEnd(s);
  }

  lemma LastLineSays(x: string)
    requires x != "" && !IsWhite(x[|x| - 1]) && '\n' !in x
    ensures x in Lines(x + "\n") && !Blank(x)
  {
    assert IsWhite('\r');
    assert StripCr(x) == x;
    NotBlank(x);
    hide Lines, StripCr, Blank;
    LinesSplit(x, "");
    assert x + "\n" == x + ['\n'] + "";
  }

  /** A text that ends in something visible has a line that is not blank. */
  lemma {:induction false} SomeLineSays(x: string)
    requires x != "" && !IsWhite(x[|x| - 1])
    ensures exists l :: l in Lines(x + "\n") && !Blank(l)
    decreases |x|
  {
    assert IsWhite('\n');
    hide Blank, Lines, StripCr, IsWhite;
    if '\n' in x {
      FindHits(x, '\n');
      var i := Find(x, '\n');
      var pre, post := x[..i], x[i + 1..];
      SomeLineSays(post);
      assert x == pre + ['\n'] + post;
      Regroup(pre, post, "\n");
      LinesSplit(pre, post + "\n");
      var l :| l in Lines(post + "\n") && !Blank(l);
      assert l in Lines(x + "\n");
    } else {
      LastLineSays(x);
    }
  }

  lemma {:induction false} TrimEndKeepsHead(head: string, tail: string)
    requires head != "" && !IsWhite(head[|head| - 1])
    ensures head <= TrimEnd(head + tail)
  {
    var s := head + tail;
    if tail == "" {
      assert s == head;
    } else if IsWhite(s[|s| - 1]) {
      assert s[..|s| - 1] == head + tail[..|tail| - 1];
      TrimEndKeepsHead(head, tail[..|tail| - 1]);
    }
  }

  /** A line that starts with a number and a blank reads, if at all, as an entry of that
      generation. */
  lemma NumberLeads(g: U64, tail: string)
    requires tail != "" && IsWhite(tail[0])
    ensures !Blank(Decimal(g) + tail)
    ensures var e := ParseEntry(TrimEnd(TrimStart(Decimal(g) + tail))); e.Some? ==> e.value.generation == g
  {
    var d := Decimal(g);
    DigitsAreClean(g);
    assert d[0] in d && d[|d| - 1] in d;
    assert (d + tail)[0] == d[0];
    hide Decimal, CleanName, ParseU64, IsWhite, Fields;
    TrimEndKeepsHead(d, tail);
    var t := TrimEnd(d + tail);
    var w := t[|d|..];
    assert t == d + w && (w != "" ==> w[0] == tail[0]);
    FieldsCons(d, w);
    ParseDecimal(g);
  }

  // ------------------------------------------------------- unclean names

  lemma {:induction false} FieldsConcat(a: string, b: string)
    requires b != "" && IsWhite(b[0])
    ensures Fields(a + b) == Fields(a) + Fields(b)
    decreases |a|
  {
    if a == "" {
      assert a + b == b;
    } else if IsWhite(a[0]) {
      assert (a + b)[1..] == a[1..] + b;
      FieldsConcat(a[1..], b);
    } else {
      var i := FirstWhite(a);
      var field, rest := a[..i], a[i..];
      assert CleanName(field);
      hide Fields, FirstWhite, CleanName, IsWhite;
      assert a == field + rest && a + b == field + (rest + b);
      FieldsCons(field, rest);
      FieldsCons(field, rest + b);
      FieldsConcat(rest, b);
    }
  }

  lemma {:induction false} SomeField(s: string)
    requires s != "" && !IsWhite(s[|s| - 1])
    ensures Fields(s) != []
    decreases |s|
  {
    if IsWhite(s[0]) {
      SomeField(s[1..]);
    }
  }

  lemma {:induction false} FirstWhiteHits(s: string)
    requires exists c :: c in s && IsWhite(c)
    ensures FirstWhite(s) < |s|
  {
    if !IsWhite(s[0]) {
      FirstWhiteHits(s[1..]);
    }
  }

  /** A visible first and last character, and something blank between. */
  lemma UncleanIsTwoFields(name: string)
    requires name != "" && !IsWhite(name[0]) && !IsWhite(name[|name| - 1]) && !CleanName(name)
    ensures |Fields(name)| >= 2
  {
    FirstWhiteHits(name);
    SomeField(name[FirstWhite(name)..]);
  }

  /** Names as the listing filter lets them through start and end visibly. */
  lemma DumpNameIsVisible(name: string)
    requires IsDumpName(name)
    ensures name != "" && !IsWhite(name[0]) && !IsWhite(name[|name| - 1])
  {
    assert name[0] == 's' && name[|name| - 1] == '3';
  }

  lemma FieldsOfThree(g: string, name: string, s: string)
    requires CleanName(g) && CleanName(s)
    ensures Fields(g + (" " + (name + (" " + s)))) == [g] + (Fields(name) + [s])
  {
    hide Fields, CleanName;
    assert IsWhite(' ');
    LastField(s);
    FieldsSkip(s);
    FieldsConcat(name, " " + s);
    FieldsSkip(name + (" " + s));
    FieldsCons(g, " " + (name + (" " + s)));
  }

  lemma Shape(g: string, name: string, s: string)
    ensures g + " " + name + " " + s == g + (" " + (name + (" " + s)))
  {
  }

  lemma UncleanLineFails(e: Entry)
    requires IsDumpName(e.name) && !CleanName(e.name)
    ensures ParseEntry(Line(e)) == None
  {
    hide Decimal, CleanName, IsDumpName, Fields, ParseEntry, IsWhite;
    DumpNameIsVisible(e.name);
    UncleanIsTwoFields(e.name);
    DigitsAreClean(e.generation);
    DigitsAreClean(e.size);
    FieldsOfThree(Decimal(e.generation), e.name, Decimal(e.size));
    Shape(Decimal(e.generation), e.name, Decimal(e.size));
    NotThreeFields(Line(e));
  }

  lemma NotThreeFields(line: string)
    requires |Fields(line)| != 3
    ensures ParseEntry(line) == None
  {
    hide Fields;
  }

  lemma BrokenLine(e: Entry, a: string, b: string, rest: string)
    requires e.name == a + ['\n'] + b
    ensures var d, s := Decimal(e.generation), Decimal(e.size);
            Line(e) + "\n" + rest == (d + (" " + a)) + ['\n'] + (b + " " + s + "\n" + rest)
  {
    hide Decimal;
    var d, s := Decimal(e.generation), Decimal(e.size);
    var left := (d + (" " + a)) + ['\n'];
    assert Line(e) == left + (b + " " + s);
    assert Line(e) + "\n" + rest == left + (b + " " + s + "\n" + rest);
  }

  /** The first line of a rendered entry starts with its generation and a blank, even
      when the name breaks the line. */
  lemma FirstLine(e: Entry, rest: string)
    ensures var lines := Lines(Line(e) + "\n" + rest);
            && lines != []
            && exists tail: string :: tail != "" && tail[0] == ' ' && lines[0] == Decimal(e.generation) + tail
  {
    var d, s := Decimal(e.generation), Decimal(e.size);
    DigitsAreClean(e.generation);
    DigitsAreClean(e.size);
    hide Decimal, CleanName;
    var i := Find(e.name, '\n');
    var a := e.name[..i];
    if i < |e.name| {
      var b := e.name[i + 1..];
      assert e.name == a + ['\n'] + b;
      BrokenLine(e, a, b, rest);
      LinesSplit(d + (" " + a), b + " " + s + "\n" + rest);
      StripKeepsBlank(d, a);
    } else {
      assert a == e.name;
      var tail := a + " " + s;
      assert Line(e) + "\n" + rest == (d + (" " + tail)) + ['\n'] + rest;
      LinesSplit(d + (" " + tail), rest);
      StripKeepsBlank(d, tail);
    }
  }

  lemma StripKeepsBlank(d: string, a: string)
    ensures exists tail: string :: tail != "" && tail[0] == ' ' && StripCr(d + (" " + a)) == d + tail
  {
    var s := d + (" " + a);
    assert s[|d|] == ' ';
    if EndsWith(s, "\r") {
      assert s[|s| - 1] == '\r';
      var tail := (" " + a)[..|a|];
      assert s[..|s| - 1] == d + tail && tail[0] == ' ';
    } else {
      assert s == d + (" " + a);
    }
  }

  /** Rendered entries do not follow a history that has reached their first generation. */
  lemma TooLate(es: Entries, done: Entries)
    requires es != [] && es[0].generation <= Latest(done)
    ensures ParseLines(Lines(RenderLines(es)), done) == None
  {
    var lines := Lines(RenderLines(es));
    FirstLine(es[0], RenderLines(es[1..]));
    var tail: string :| tail != "" && tail[0] == ' ' && lines[0] == Decimal(es[0].generation) + tail;
    NumberLeads(es[0].generation, tail);
    hide Lines, RenderLines, Decimal, ParseEntry, TrimStart, TrimEnd;
  }

  /** An entry whose name holds a newline, with another entry after it. */
  lemma BrokenLineFails(e: Entry, es: Entries, done: Entries)
    requires '\n' in e.name && es != [] && es[0].generation == e.generation + 1
    ensures ParseLines(Lines(Line(e) + "\n" + RenderLines(es)), done) == None
  {
    var d, s, rest := Decimal(e.generation), Decimal(e.size), RenderLines(es);
    DigitsAreClean(e.generation);
    DigitsAreClean(e.size);
    assert s[|s| - 1] in s;
    hide Decimal, CleanName, RenderLines, ParseEntry, TrimStart, TrimEnd, Blank;
    hide Lines, StripCr, Line;
    FindHits(e.name, '\n');
    var i := Find(e.name, '\n');
    var a, b := e.name[..i], e.name[i + 1..];
    assert e.name == a + ['\n'] + b;
    var more := b + " " + s;
    BrokenLine(e, a, b, rest);
    LinesSplit(d + (" " + a), more + "\n" + rest);
    LinesConcat(more, rest);
    SomeLineSays(more);
    StripKeepsBlank(d, a);
    var tail: string :| tail != "" && tail[0] == ' ' && StripCr(d + (" " + a)) == d + tail;
    NumberLeads(e.generation, tail);
    AfterTheBreak(d + tail, Lines(more + "\n"), es, done, e.generation);
  }

  lemma AfterTheBreak(first: string, more: seq<string>, es: Entries, done: Entries, g: U64)
    requires !Blank(first) && (exists l :: l in more && !Blank(l)) && es != [] && es[0].generation == g + 1
    requires var e := ParseEntry(TrimEnd(TrimStart(first))); e.Some? ==> e.value.generation == g
    ensures ParseLines([first] + (more + Lines(RenderLines(es))), done) == None
  {
    hide Lines, RenderLines, ParseEntry, TrimStart, TrimEnd;
    var rest := Lines(RenderLines(es));
    var e := ParseEntry(TrimEnd(TrimStart(first)));
    assert ([first] + (more + rest))[1..] == more + rest;
    if e.Some? && MayFollow(done, e.value) {
      var done' := done + [e.value];
      ParseLinesConcat(more, rest, done');
      SayingRaises(more, done');
      var m := ParseLines(more, done');
      if m.Some? {
        TooLate(es, m.value);
      }
    }
  }

  /** An unclean name, with another entry after it, makes the text unreadable. */
  lemma UncleanEntryFails(e: Entry, es: Entries, done: Entries)
    requires IsDumpName(e.name) && !CleanName(e.name) && es != [] && es[0].generation == e.generation + 1
    ensures ParseLines(Lines(Line(e) + "\n" + RenderLines(es)), done) == None
  {
    if '\n' in e.name {
      BrokenLineFails(e, es, done);
    } else {
      UncleanLineFails(e);
      SingleLine(e);
      hide Line, RenderLines, ParseEntry, IsDumpName, CleanName;
      LinesCons(Line(e), RenderLines(es));
    }
  }

  /** Without a newline in the name the rendered entry is one line trimming leaves alone. */
  lemma SingleLine(e: Entry)
    requires '\n' !in e.name
    ensures var line := Line(e);
            line != "" && '\n' !in line && !EndsWith(line, "\r") && TrimEnd(TrimStart(line)) == line
  {
    var line, g, s := Line(e), Decimal(e.generation), Decimal(e.size);
    DigitsAreClean(e.generation);
    DigitsAreClean(e.size);
    assert IsWhite('\r');
    assert line[0] == g[0] && g[0] in g;
    assert line[|line| - 1] == s[|s| - 1] && s[|s| - 1] in s;
  }

  // ------------------------------------------------------ the stored manifest

  /** Generations without a gap. */
  ghost predicate Consecutive(es: Entries) {
    forall i :: 0 <= i < |es| ==> es[i].generation == es[0].generation + i
  }

  predicate AllClean(es: Entries) {
    forall i :: 0 <= i < |es| ==> CleanName(es[i].name)
  }

  lemma {:induction false} UncleanFails(es: Entries, done: Entries)
    requires Consecutive(es) && (forall i :: 0 <= i < |es| ==> es[i].generation > 0 && IsDumpName(es[i].name))
    requires es != [] && CleanName(es[|es| - 1].name) && !AllClean(es)
    ensures ParseLines(Lines(RenderLines(es)), done) == None
  {
    hide CleanName, IsDumpName, Lines;
    var e, rest := es[0], es[1..];
    if CleanName(e.name) {
      var i :| 0 <= i < |es| && !CleanName(es[i].name);
      assert rest[i - 1] == es[i];
      UncleanFails(rest, done + [e]);
      RenderedHead(es);
      if MayFollow(done, e) {
        ParseStep(e, Lines(RenderLines(rest)), done);
      } else {
        LineIsClean(e);
        LineParses(e);
        hide Line, ParseEntry, RenderLines;
      }
    } else {
      assert rest != [] && rest[0] == es[1];
      UncleanEntryFails(e, rest, done);
    }
  }

  /** A gapless manifest of dump names that ends in a clean one reads back exactly when
      every name is clean. */
  lemma ReadsBackWhenClean(es: Entries)
    requires Consecutive(es) && (forall i :: 0 <= i < |es| ==> es[i].generation > 0 && IsDumpName(es[i].name))
    requires es != [] && CleanName(es[|es| - 1].name) && forall i, j :: 0 <= i < j < |es| ==> es[i].name != es[j].name
    ensures Parse(Render(es)).Some? <==> AllClean(es)
    ensures AllClean(es) ==> Parse(Render(es)) == Some(es)
  {
    hide CleanName, IsDumpName, Lines, RenderLines, ParseLines;
    HeaderSplits(RenderLines(es));
    if AllClean(es) {
      RoundTrip(es);
    } else {
      assert (["v1"] + Lines(RenderLines(es)))[1..] == Lines(RenderLines(es));
      UncleanFails(es, []);
    }
  }

  lemma ListedEntries(b: Bucket, name: string)
    requires Listable(b) && FreshName(b, name)
    ensures var es := FromListing(Listing(b));
            && (forall i :: 0 <= i < |es| ==> es[i].generation == i + 1 && IsDumpName(es[i].name) && es[i].name != name)
            && (forall i, j :: 0 <= i < j < |es| ==> es[i].name != es[j].name)
  {
    var r := Listing(b);
    hide IsDumpName, CleanName, Listing, Readable;
    forall i | 0 <= i < |r| ensures IsDumpName(r[i].0) && r[i].0 != name {
      assert r[i].0 in DumpNames(b);
    }
  }

  lemma SuffixIsConsecutive(all: Entries, keep: nat)
    requires (forall i :: 0 <= i < |all| ==> all[i].generation == i + 1 && IsDumpName(all[i].name)) && all != []
    requires keep > 0
    requires forall i, j :: 0 <= i < j < |all| ==> all[i].name != all[j].name
    ensures var es := Retained(all, keep);
            && Consecutive(es) && (forall i :: 0 <= i < |es| ==> es[i].generation > 0 && IsDumpName(es[i].name))
            && es != [] && es[|es| - 1] == all[|all| - 1]
            && forall i, j :: 0 <= i < j < |es| ==> es[i].name != es[j].name
  {
    var es := Retained(all, keep);
    var cut := |all| - |es|;
    SuffixAt(all, keep);
    hide IsDumpName, Retained;
    forall i | 0 <= i < |es| ensures es[i].generation == cut + i + 1 && IsDumpName(es[i].name) {
    }
    forall i, j | 0 <= i < j < |es| ensures es[i].name != es[j].name {
      assert all[cut + i].name != all[cut + j].name;
    }
  }

  lemma SuffixAt(all: Entries, keep: nat)
    ensures |Retained(all, keep)| == if |all| <= keep then |all| else keep
    ensures forall i :: 0 <= i < |Retained(all, keep)| ==>
              Retained(all, keep)[i] == all[|all| - |Retained(all, keep)| + i]
  {
  }

  /** The manifest built over a listing: gapless, of dump names, ending in the new one. */
  lemma ListedManifest(cfg: Config, b: Bucket, p: Plan, c: Cycle)
    requires Listable(b) && p.entries == FromListing(Listing(b)) && NextGeneration(p.entries).Some?
    requires FreshName(b, c.name) && cfg.keep > 0
    ensures var es := Retained(Extended(p, c), cfg.keep);
            && Consecutive(es) && (forall i :: 0 <= i < |es| ==> es[i].generation > 0 && IsDumpName(es[i].name))
            && es != [] && es[|es| - 1].name == c.name && forall i, j :: 0 <= i < j < |es| ==> es[i].name != es[j].name
  {
    hide IsDumpName, CleanName, Listing, FromListing, Readable, Retained;
    ListedEntries(b, c.name);
    SuffixIsConsecutive(Extended(p, c), cfg.keep);
  }

  /** A cycle over a bucket without a manifest stores a readable one exactly when the
      listed names it retains hold no whitespace; names it evicts at once do no harm. */
  lemma ListingCycleStoresReadable(cfg: Config, s: Site, c: Cycle)
    requires s.bucket.manifest.None? && Planned(cfg, s, c).Some? && FreshName(s.bucket, c.name) && cfg.keep > 0
    requires c.put.Stored? && !c.publish.Lost?
    requires Utf8Len(Render(Retained(Extended(Planned(cfg, s, c).value, c), cfg.keep))) <= MAX_MANIFEST_BYTES
    ensures var es := Retained(Extended(Planned(cfg, s, c).value, c), cfg.keep);
            var published := WithManifest(WithDump(s, Planned(cfg, s, c).value, c), Render(es), c);
            && published in Trace(cfg, s, c)
            && (History(published.bucket).Some? <==> AllClean(es))
            && (AllClean(es) ==> History(published.bucket) == Some(es))
  {
    hide IsDumpName, CleanName, Listing, FromListing, Parse, Render, Utf8Len, Retained, Extended, Resolve,
      ReadSidecar, AllClean, PruneTrace, Consecutive;
    var p := Planned(cfg, s, c).value;
    var es := Retained(Extended(p, c), cfg.keep);
    ListedManifest(cfg, s.bucket, p, c);
    ReadsBackWhenClean(es);
    var published := WithManifest(WithDump(s, p, c), Render(es), c);
    assert Trace(cfg, s, c)[1] == published;
  }

  /** An unreadable manifest stops every later cycle: none of them has any effect. */
  lemma UnreadableRefuses(cfg: Config, s: Site, c: Cycle)
    requires s.bucket.manifest.Some? && History(s.bucket).None?
    ensures Trace(cfg, s, c) == []
  {
  }
}
