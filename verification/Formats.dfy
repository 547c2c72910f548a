/** The texts the two manifest readers accept, and what they read out of each. */
module Formats {
  import opened Text
  import S = SyncManifest
  import B = BackupManifest

  // ------------------------------------------------------------------ pieces

  ghost predicate AllWhite(s: string) {
    forall c :: c in s ==> IsWhite(c)
  }

  lemma {:induction false} TrimEndIsExact(s: string, t: string)
    ensures TrimEnd(s) == t <==> t <= s && AllWhite(s[|t|..]) && (t == "" || !IsWhite(t[|t| - 1]))
  {
    hide IsWhite;
    if s != "" && IsWhite(s[|s| - 1]) {
      var front := s[..|s| - 1];
      TrimEndIsExact(front, t);
      if t <= front {
        assert s[|t|..] == front[|t|..] + [s[|s| - 1]];
      } else if t <= s {
        assert t == s;
      }
    } else if t < s {
      assert s[|s| - 1] in s[|t|..];
    }
  }

  lemma {:induction false} TrimStartIsExact(s: string)
    ensures exists w :: AllWhite(w) && s == w + TrimStart(s)
  {
    if s != "" && IsWhite(s[0]) {
      TrimStartIsExact(s[1..]);
      var w :| AllWhite(w) && s[1..] == w + TrimStart(s[1..]);
      assert AllWhite([s[0]] + w) && s == [s[0]] + w + TrimStart(s);
    } else {
      assert AllWhite("") && s == "" + TrimStart(s);
    }
  }

  function Zeros(k: nat): string {
    seq(k, _ => '0')
  }

  /** A decimal: an optional plus sign, any number of zeros and the number. */
  ghost predicate Spells(s: string, n: nat) {
    exists k: nat :: s == Zeros(k) + Decimal(n) || s == "+" + Zeros(k) + Decimal(n)
  }

  predicate Digits(s: string) {
    forall c :: c in s ==> IsDigit(c)
  }

  lemma ValueAppends(s: string, c: char)
    requires Digits(s) && IsDigit(c)
    ensures Digits(s + [c]) && ValueOf(s + [c]) == 10 * ValueOf(s) + DigitValue(c)
  {
    assert (s + [c])[..|s|] == s;
  }

  lemma DecimalAppends(n: nat, c: char)
    requires n > 0 && IsDigit(c)
    ensures Decimal(10 * n + DigitValue(c)) == Decimal(n) + [c]
  {
    var d := DigitValue(c);
    assert (10 * n + d) / 10 == n && (10 * n + d) % 10 == d;
    assert Digit(d) == c;
  }

  lemma DecimalOfDigit(c: char)
    requires IsDigit(c)
    ensures DigitValue(c) < 10 && Decimal(DigitValue(c)) == [c]
  {
    assert Digit(DigitValue(c)) == c;
  }

  lemma SmallSpells(s: string, c: char)
    requires Digits(s) && IsDigit(c) && ValueOf(s) == 0
    ensures s + [c] == Zeros(|s|) + Decimal(ValueOf(s + [c]))
  {
    LeadingZeros(s);
    ValueAppends(s, c);
    DecimalOfDigit(c);
  }

  lemma LargeSpells(s: string, c: char, k: nat)
    requires Digits(s) && IsDigit(c) && ValueOf(s) > 0 && s == Zeros(k) + Decimal(ValueOf(s))
    ensures s + [c] == Zeros(k) + Decimal(ValueOf(s + [c]))
  {
    hide Zeros, Decimal, DigitValue, Digits, ValueOf;
    ValueAppends(s, c);
    DecimalAppends(ValueOf(s), c);
    Associated(Zeros(k), Decimal(ValueOf(s)), [c]);
  }

  lemma Associated(a: string, b: string, c: string)
    ensures a + b + c == a + (b + c)
  {
  }

  /** A text of digits: zeros, then the decimal of its value. */
  lemma {:induction false} DigitsSpell(s: string) returns (k: nat)
    requires s != "" && Digits(s)
    ensures s == Zeros(k) + Decimal(ValueOf(s))
  {
    var front, last := s[..|s| - 1], s[|s| - 1];
    assert s == front + [last] && last in s;
    hide Zeros, Decimal, DigitValue;
    if front == "" || ValueOf(front) == 0 {
      SmallSpells(front, last);
      k := |front|;
    } else {
      k := DigitsSpell(front);
      LargeSpells(front, last, k);
    }
  }

  lemma {:induction false} LeadingZeros(s: string)
    requires Digits(s) && ValueOf(s) == 0
    ensures s == Zeros(|s|)
  {
    if s != "" {
      LeadingZeros(s[..|s| - 1]);
      assert s[|s| - 1] in s && s == s[..|s| - 1] + [s[|s| - 1]];
    }
  }

  lemma {:induction false} ZerosAddNothing(k: nat, s: string)
    requires Digits(s)
    ensures Digits(Zeros(k) + s) && ValueOf(Zeros(k) + s) == ValueOf(s)
  {
    if s == "" {
      assert Zeros(k) + s == Zeros(k);
      ZerosAreNothing(k);
    } else {
      var front, last := s[..|s| - 1], s[|s| - 1];
      assert last in s;
      ZerosAddNothing(k, front);
      ValueAppends(Zeros(k) + front, last);
      assert Zeros(k) + s == Zeros(k) + front + [last];
    }
  }

  lemma {:induction false} ZerosAreNothing(k: nat)
    ensures Digits(Zeros(k)) && ValueOf(Zeros(k)) == 0
  {
    if k > 0 {
      ZerosAreNothing(k - 1);
      ValueAppends(Zeros(k - 1), '0');
      assert Zeros(k) == Zeros(k - 1) + ['0'];
    }
  }

  lemma NumberIsDigits(s: string, n: U64) returns (digits: string)
    requires ParseU64(s) == Some(n)
    ensures digits != "" && Digits(digits) && ValueOf(digits) == n && (s == digits || s == "+" + digits)
  {
    hide ValueOf;
    digits := if s[0] == '+' then s[1..] else s;
  }

  lemma NumberSpells(s: string, n: U64)
    requires ParseU64(s) == Some(n)
    ensures Spells(s, n)
  {
    hide Decimal, ValueOf, Zeros, ParseU64, Digits;
    var digits := NumberIsDigits(s, n);
    var k := DigitsSpell(digits);
    assert "+" + Zeros(k) + Decimal(n) == "+" + (Zeros(k) + Decimal(n));
  }

  lemma SpellingParses(digits: string, n: U64, k: nat)
    requires digits == Zeros(k) + Decimal(n)
    ensures ParseU64(digits) == Some(n) && ParseU64("+" + digits) == Some(n)
  {
    hide Decimal, ValueOf, Zeros;
    DecimalValue(n);
    ZerosAddNothing(k, Decimal(n));
    assert digits[0] in digits;
    assert ("+" + digits)[1..] == digits;
  }

  /** A text reads as a 64-bit number exactly when it spells it. */
  lemma U64IsExact(s: string, n: U64)
    ensures ParseU64(s) == Some(n) <==> Spells(s, n)
  {
    hide ParseU64, Decimal, Zeros;
    if ParseU64(s) == Some(n) {
      NumberSpells(s, n);
    }
    if Spells(s, n) {
      var k: nat :| s == Zeros(k) + Decimal(n) || s == "+" + Zeros(k) + Decimal(n);
      SpellingParses(Zeros(k) + Decimal(n), n, k);
      assert "+" + Zeros(k) + Decimal(n) == "+" + (Zeros(k) + Decimal(n));
    }
  }

  /** Segments closed by a newline each, then what follows the last newline. */
  function Joined(segments: seq<string>, open: string): string {
    if segments == [] then open else segments[0] + "\n" + Joined(segments[1..], open)
  }

  /** A line without the carriage return that stands before its newline. */
  predicate Closed(segment: string, line: string) {
    segment == if segment != "" && segment[|segment| - 1] == '\r' then line + "\r" else line
  }

  lemma StrippedCloses(segment: string)
    ensures Closed(segment, StripCr(segment))
  {
  }

  /** A text of closed segments and an open end has one line for each segment, and one for
      the end unless that is empty. */
  lemma {:induction false} LinesAreExact(segments: seq<string>, open: string)
    requires '\n' !in open && forall i :: 0 <= i < |segments| ==> '\n' !in segments[i]
    ensures var lines := Lines(Joined(segments, open));
            && |lines| == |segments| + (if open == "" then 0 else 1)
            && (open != "" ==> lines[|segments|] == open)
            && forall i :: 0 <= i < |segments| ==> Closed(segments[i], lines[i])
  {
    hide Closed, Lines, Find;
    if segments == [] {
      OneLine(open);
    } else {
      var first, rest := segments[0], Joined(segments[1..], open);
      LinesAreExact(segments[1..], open);
      FirstLine(first, rest);
      var lines, more := Lines(Joined(segments, open)), Lines(rest);
      assert lines == [StripCr(first)] + more;
      StrippedCloses(first);
      hide Joined, StripCr;
      forall i | 0 <= i < |segments| ensures Closed(segments[i], lines[i]) {
        if i > 0 {
          assert segments[i] == segments[1..][i - 1] && lines[i] == more[i - 1];
        }
      }
    }
  }

  lemma OneLine(open: string)
    requires '\n' !in open
    ensures Lines(open) == if open == "" then [] else [open]
  {
    assert forall i :: 0 <= i < |open| ==> open[i] != '\n';
  }

  lemma FirstLine(first: string, rest: string)
    requires '\n' !in first
    ensures Lines(first + "\n" + rest) == [StripCr(first)] + Lines(rest)
  {
    var text := first + ['\n'] + rest;
    FindFirst(first, '\n', rest);
    assert text[..|first|] == first && text[|first| + 1..] == rest;
  }

  /** Every text is of that form. */
  lemma {:induction false} EveryTextIsJoined(text: string) returns (segments: seq<string>, open: string)
    ensures text == Joined(segments, open)
    ensures '\n' !in open && forall i :: 0 <= i < |segments| ==> '\n' !in segments[i]
    decreases |text|
  {
    var i := Find(text, '\n');
    if i == |text| {
      segments, open := [], text;
      assert text[..i] == text;
    } else {
      var more;
      more, open := EveryTextIsJoined(text[i + 1..]);
      segments := [text[..i]] + more;
      assert segments[1..] == more && text == text[..i] + "\n" + text[i + 1..];
    }
  }

  // ----------------------------------------------------------- the sync lines

  /** A line of the state manifest: hash, size and path with one space between, and
      white space that is ignored behind. */
  predicate SyncFields(line: string, sha: string, size: string, rel: string, tail: string) {
    line == sha + " " + size + " " + rel + tail
  }

  /** The line names the path with this size and, in either case, this hash. */
  ghost predicate SyncItem(line: string, rel: string, e: S.Entry) {
    exists sha, size, tail ::
      && SyncFields(line, sha, size, rel, tail)
      && |sha| == 64
      && (forall i :: 0 <= i < 64 ==>
            sha[i] in "0123456789abcdefABCDEF" && (sha[i] == e.sha256[i] || sha[i] as int + 32 == e.sha256[i] as int))
      && Spells(size, e.size)
      && rel != "" && !IsWhite(rel[|rel| - 1]) && AllWhite(tail)
  }

  lemma HexDigitIsListed(c: char)
    ensures S.IsHexDigit(c) <==> c in "0123456789abcdefABCDEF"
  {
    var all := "0123456789abcdefABCDEF";
    if S.IsHexDigit(c) {
      var n := c as int - (if IsDigit(c) then 48 else if 'a' <= c then 87 else 49);
      assert all[n] == c;
    }
  }

  /** A digest is a hash in lower case. */
  lemma LoweredHash(sha: string, digest: S.Digest)
    ensures S.IsHex(sha) && S.Lower(sha) == digest
            <==> |sha| == 64 && forall i :: 0 <= i < 64 ==>
                   && sha[i] in "0123456789abcdefABCDEF"
                   && (sha[i] == digest[i] || sha[i] as int + 32 == digest[i] as int)
  {
    if |sha| == 64 {
      forall i | 0 <= i < 64
        ensures S.IsHexDigit(sha[i]) && S.LowerChar(sha[i]) == digest[i]
                <==> sha[i] in "0123456789abcdefABCDEF"
                     && (sha[i] == digest[i] || sha[i] as int + 32 == digest[i] as int)
      {
        assert digest[i] in digest;
        HexDigitIsListed(sha[i]);
      }
      assert S.IsHex(sha) <==> forall i :: 0 <= i < 64 ==> S.IsHexDigit(sha[i]);
    }
  }

  lemma NumberIsOneWord(s: string, n: U64)
    requires ParseU64(s) == Some(n)
    ensures s != "" && ' ' !in s
  {
    assert !IsDigit(' ');
  }

  lemma WordsAreCutOut(a: string, b: string, c: string)
    requires ' ' !in a && ' ' !in b
    ensures var line := a + " " + b + " " + c;
            var i := Find(line, ' ');
            && i == |a| && line[..i] == a
            && Find(line[i + 1..], ' ') == |b| && line[i + 1..][..|b|] == b && line[i + 1..][|b| + 1..] == c
  {
    var rest := b + [' '] + c;
    assert a + " " + b + " " + c == a + [' '] + rest;
    FindFirst(a, ' ', rest);
    assert (a + [' '] + rest)[|a| + 1..] == rest;
    FindFirst(b, ' ', c);
  }

  /** What the parser accepts has the three fields. */
  lemma ItemHasFields(line: string, rel: string, e: S.Entry) returns (sha: string, size: string)
    requires S.ParseLine(line) == Some((rel, e))
    ensures SyncFields(line, sha, size, rel, "") && S.IsHex(sha) && S.Lower(sha) == e.sha256
    ensures ParseU64(size) == Some(e.size) && rel != ""
  {
    hide S.IsHex, S.Lower, ParseU64, Find;
    var i := Find(line, ' ');
    var rest := line[i + 1..];
    var j := Find(rest, ' ');
    sha, size := line[..i], rest[..j];
    assert line == sha + " " + rest && rest == size + " " + rel;
  }

  /** And it accepts whatever has them. */
  lemma FieldsMakeAnItem(sha: string, size: string, rel: string, e: S.Entry)
    requires S.IsHex(sha) && S.Lower(sha) == e.sha256 && ParseU64(size) == Some(e.size) && rel != ""
    ensures S.ParseLine(sha + " " + size + " " + rel) == Some((rel, e))
  {
    HashIsOneWord(sha);
    NumberIsOneWord(size, e.size);
    WordsAreCutOut(sha, size, rel);
    hide S.IsHex, S.Lower, ParseU64, Find;
  }

  lemma HashIsOneWord(sha: string)
    requires S.IsHex(sha)
    ensures ' ' !in sha
  {
    assert !S.IsHexDigit(' ');
  }

  /** What a line names is what the parser makes of it once its end is trimmed. */
  lemma SyncLineIsExact(line: string, rel: string, e: S.Entry)
    ensures S.ParseLine(TrimEnd(line)) == Some((rel, e)) <==> SyncItem(line, rel, e)
  {
    var trimmed := TrimEnd(line);
    TrimEndIsExact(line, trimmed);
    hide S.ParseLine, TrimEnd, S.IsHex, S.Lower, ParseU64, AllWhite, Spells, IsWhite;
    if S.ParseLine(trimmed) == Some((rel, e)) {
      var sha, size := ItemHasFields(trimmed, rel, e);
      LoweredHash(sha, e.sha256);
      U64IsExact(size, e.size);
      assert trimmed[|trimmed| - 1] == rel[|rel| - 1];
      assert SyncFields(line, sha, size, rel, line[|trimmed|..]);
    }
    if SyncItem(line, rel, e) {
      var sha, size, tail :| SyncFields(line, sha, size, rel, tail) && |sha| == 64
                             && (forall i :: 0 <= i < 64 ==>
                                   && sha[i] in "0123456789abcdefABCDEF"
                                   && (sha[i] == e.sha256[i] || sha[i] as int + 32 == e.sha256[i] as int))
                             && Spells(size, e.size) && rel != "" && !IsWhite(rel[|rel| - 1]) && AllWhite(tail);
      LoweredHash(sha, e.sha256);
      U64IsExact(size, e.size);
      var front := sha + " " + size + " " + rel;
      assert front[|front| - 1] == rel[|rel| - 1] && line == front + tail && line[|front|..] == tail;
      TrimEndIsExact(line, front);
      FieldsMakeAnItem(sha, size, rel, e);
    }
  }

  /** No line names the path. */
  ghost predicate Silent(lines: seq<string>, rel: string) {
    forall i, e: S.Entry :: 0 <= i < |lines| ==> !SyncItem(lines[i], rel, e)
  }

  /** The last line that names the path says this. */
  ghost predicate SaysLast(lines: seq<string>, rel: string, e: S.Entry) {
    exists i :: 0 <= i < |lines| && SyncItem(lines[i], rel, e) && Silent(lines[i + 1..], rel)
  }

  predicate Has(m: S.Entries, rel: string, e: S.Entry) {
    rel in m && m[rel] == e
  }

  /** The line is blank or an item. */
  ghost predicate Reads(line: string) {
    AllWhite(line) || exists rel, e :: SyncItem(line, rel, e)
  }

  lemma LastOf(line: string, rest: seq<string>, rel: string, e: S.Entry)
    ensures Silent([line] + rest, rel) <==> Silent(rest, rel) && forall e' :: !SyncItem(line, rel, e')
    ensures SaysLast([line] + rest, rel, e) <==> SaysLast(rest, rel, e) || (Silent(rest, rel) && SyncItem(line, rel, e))
  {
    hide SyncItem;
    var lines := [line] + rest;
    assert lines[0] == line && lines[1..] == rest;
    forall i | 0 <= i < |rest| ensures lines[i + 1] == rest[i] && lines[i + 1 + 1..] == rest[i + 1..] {
    }
    if Silent(rest, rel) && forall e' :: !SyncItem(line, rel, e') {
      forall i, e': S.Entry | 0 <= i < |lines| ensures !SyncItem(lines[i], rel, e') {
        if i > 0 {
          assert lines[i] == rest[i - 1];
        }
      }
    }
    if SaysLast(lines, rel, e) {
      var i :| 0 <= i < |lines| && SyncItem(lines[i], rel, e) && Silent(lines[i + 1..], rel);
      if i > 0 {
        assert lines[i] == rest[i - 1] && lines[i + 1..] == rest[i - 1 + 1..];
      }
    }
  }

  /** A blank line names nothing, any other one what the parser makes of it. */
  lemma OneSyncLine(line: string)
    ensures TrimEnd(line) == "" <==> AllWhite(line)
    ensures forall rel, e :: SyncItem(line, rel, e)
                             <==> TrimEnd(line) != "" && S.ParseLine(TrimEnd(line)) == Some((rel, e))
    ensures Reads(line) <==> TrimEnd(line) == "" || S.ParseLine(TrimEnd(line)).Some?
  {
    TrimEndIsExact(line, "");
    assert S.ParseLine("") == None;
    hide SyncItem, S.ParseLine, AllWhite;
    forall rel, e ensures SyncItem(line, rel, e) <==> S.ParseLine(TrimEnd(line)) == Some((rel, e)) {
      SyncLineIsExact(line, rel, e);
    }
    if S.ParseLine(TrimEnd(line)).Some? {
      var item := S.ParseLine(TrimEnd(line)).value;
      assert SyncItem(line, item.0, item.1);
    }
  }

  lemma {:induction false} SyncLinesAreExact(lines: seq<string>, acc: S.Entries)
    ensures S.ParseLines(lines, acc).Some? <==> forall i :: 0 <= i < |lines| ==> Reads(lines[i])
    ensures S.ParseLines(lines, acc).Some? ==>
              forall rel, e :: Has(S.ParseLines(lines, acc).value, rel, e)
                               <==> SaysLast(lines, rel, e) || (Silent(lines, rel) && Has(acc, rel, e))
  {
    hide SyncItem, AllWhite, TrimEnd, S.ParseLine, Reads, SaysLast, Silent;
    if lines == [] {
      forall rel, e ensures Silent(lines, rel) && !SaysLast(lines, rel, e) {
        NothingSaid(rel, e);
      }
    } else {
      var line, rest := lines[0], lines[1..];
      assert lines == [line] + rest;
      OneSyncLine(line);
      forall rel, e
        ensures Silent(lines, rel) <==> Silent(rest, rel) && forall e' :: !SyncItem(line, rel, e')
        ensures SaysLast(lines, rel, e) <==> SaysLast(rest, rel, e) || (Silent(rest, rel) && SyncItem(line, rel, e))
      {
        LastOf(line, rest, rel, e);
      }
      var item := S.ParseLine(TrimEnd(line));
      if TrimEnd(line) == "" {
        SyncLinesAreExact(rest, acc);
      } else if item.Some? {
        SyncLinesAreExact(rest, acc[item.value.0 := item.value.1]);
      }
      assert forall i :: 1 <= i < |lines| ==> lines[i] == rest[i - 1];
    }
  }

  lemma NothingSaid(rel: string, e: S.Entry)
    ensures Silent([], rel) && !SaysLast([], rel, e)
  {
  }

  /** A text reads as these entries exactly when its first line is the header, every other
      line is blank or an item, and the entries are what the last line for each path says. */
  lemma SyncTextIsExact(text: string, m: S.Entries)
    ensures S.Parse(text) == Some(m)
            <==> Lines(text) != [] && Lines(text)[0] == "v1"
                 && (forall i :: 1 <= i < |Lines(text)| ==> Reads(Lines(text)[i]))
                 && forall rel, e :: Has(m, rel, e) <==> SaysLast(Lines(text)[1..], rel, e)
  {
    hide Lines, S.ParseLines, Reads, SaysLast;
    var lines := Lines(text);
    if lines != [] && lines[0] == "v1" {
      var rest := lines[1..];
      SyncLinesAreExact(rest, map[]);
      assert forall i :: 1 <= i < |lines| ==> lines[i] == rest[i - 1];
      assert forall i :: 0 <= i < |rest| ==> rest[i] == lines[i + 1];
      var r := S.ParseLines(rest, map[]);
      if r.Some? && forall rel, e :: Has(m, rel, e) <==> SaysLast(rest, rel, e) {
        SameEntries(m, r.value);
      }
    }
  }

  lemma SameEntries(a: S.Entries, b: S.Entries)
    requires forall rel, e :: Has(a, rel, e) <==> Has(b, rel, e)
    ensures a == b
  {
    assert forall rel :: rel in a ==> Has(a, rel, a[rel]);
    assert forall rel :: rel in b ==> Has(b, rel, b[rel]);
  }

  // --------------------------------------------------------- the backup lines

  /** A line of the backup manifest: generation, name and size, with white space between
      them that may also stand before and behind. */
  predicate BackupFields(line: string, generation: string, name: string, size: string, gaps: seq<string>) {
    |gaps| == 4 && line == gaps[0] + generation + gaps[1] + name + gaps[2] + size + gaps[3]
  }

  ghost predicate BackupItem(line: string, e: B.Entry) {
    exists generation, size, gaps ::
      && BackupFields(line, generation, e.name, size, gaps)
      && (forall i :: 0 <= i < 4 ==> AllWhite(gaps[i])) && gaps[1] != "" && gaps[2] != ""
      && Spells(generation, e.generation) && e.generation > 0 && Spells(size, e.size) && B.CleanName(e.name)
  }

  lemma {:induction false} FieldsSkipWhite(w: string, s: string)
    requires AllWhite(w)
    ensures B.Fields(w + s) == B.Fields(s)
  {
    if w == "" {
      assert w + s == s;
    } else {
      FieldsSkipWhite(w[1..], s);
      assert (w + s)[0] == w[0] && w[0] in w && (w + s)[1..] == w[1..] + s;
    }
  }

  lemma WhiteHasNoFields(w: string)
    requires AllWhite(w)
    ensures B.Fields(w) == []
  {
    FieldsSkipWhite(w, "");
    assert w + "" == w;
  }

  /** The first field, and what stands around it. */
  lemma {:induction false} FirstField(s: string) returns (w: string, rest: string)
    requires B.Fields(s) != []
    ensures s == w + B.Fields(s)[0] + rest && AllWhite(w) && B.CleanName(B.Fields(s)[0])
    ensures B.Fields(rest) == B.Fields(s)[1..] && (rest == "" || IsWhite(rest[0]))
    decreases |s|
  {
    hide IsWhite;
    if IsWhite(s[0]) {
      var v;
      v, rest := FirstField(s[1..]);
      w := [s[0]] + v;
      assert s == [s[0]] + s[1..];
    } else {
      var i := B.FirstWhite(s);
      w, rest := "", s[i..];
      assert B.Fields(s) == [s[..i]] + B.Fields(rest);
    }
  }

  lemma {:induction false} NoFieldIsWhite(s: string)
    requires B.Fields(s) == []
    ensures AllWhite(s)
  {
    if s != "" {
      NoFieldIsWhite(s[1..]);
      assert s == [s[0]] + s[1..];
    }
  }

  lemma FieldAfterGap(w: string, field: string, rest: string)
    requires AllWhite(w) && B.CleanName(field) && (rest == "" || IsWhite(rest[0]))
    ensures B.Fields(w + field + rest) == [field] + B.Fields(rest)
  {
    hide B.Fields, B.CleanName;
    B.FieldsCons(field, rest);
    FieldsSkipWhite(w, field + rest);
    assert w + field + rest == w + (field + rest);
  }

  lemma StartsWhite(w: string, s: string)
    requires AllWhite(w) && w != ""
    ensures IsWhite((w + s)[0])
  {
    assert w[0] in w;
  }

  lemma StaysOpen(rest: string, w: string)
    requires AllWhite(w) && (rest == "" || IsWhite(rest[0]))
    ensures rest + w == "" || IsWhite((rest + w)[0])
  {
    if rest == "" && w != "" {
      assert rest + w == w && w[0] in w;
    }
  }

  lemma {:induction false} FieldsIgnoreEnd(s: string, w: string)
    requires AllWhite(w)
    ensures B.Fields(s + w) == B.Fields(s)
    decreases |s|
  {
    hide B.Fields, IsWhite;
    if B.Fields(s) == [] {
      NoFieldIsWhite(s);
      WhiteHasNoFields(s + w);
    } else {
      hide AllWhite;
      var v, rest := FirstField(s);
      var first := B.Fields(s)[0];
      FieldsIgnoreEnd(rest, w);
      StaysOpen(rest, w);
      FieldAfterGap(v, first, rest + w);
      assert s + w == v + first + (rest + w);
    }
  }

  lemma FieldsIgnoreTrimming(line: string)
    ensures B.Fields(TrimEnd(TrimStart(line))) == B.Fields(line)
  {
    TrimStartIsExact(line);
    var start := TrimStart(line);
    var w :| AllWhite(w) && line == w + start;
    FieldsSkipWhite(w, start);
    TrimEndIsExact(start, TrimEnd(start));
    var end := start[|TrimEnd(start)|..];
    FieldsIgnoreEnd(TrimEnd(start), end);
    assert start == TrimEnd(start) + end;
  }

  /** Three fields and the white space around them. */
  lemma ThreeFieldsAround(line: string) returns (gaps: seq<string>)
    requires |B.Fields(line)| == 3
    ensures var f := B.Fields(line);
            && BackupFields(line, f[0], f[1], f[2], gaps) && B.CleanName(f[1])
            && (forall i :: 0 <= i < 4 ==> AllWhite(gaps[i])) && gaps[1] != "" && gaps[2] != ""
  {
    hide B.Fields, AllWhite, IsWhite;
    var f := B.Fields(line);
    var a, r := FirstField(line);
    var b, s := FirstField(r);
    var c, t := FirstField(s);
    NoFieldIsWhite(t);
    gaps := [a, b, c, t];
    assert f[1] == B.Fields(r)[0] && f[2] == B.Fields(s)[0];
    assert !IsWhite(f[1][0]) && !IsWhite(f[2][0]) && r[0] == (b + f[1])[0] && s[0] == (c + f[2])[0];
    assert line == a + f[0] + (b + f[1] + (c + f[2] + t));
  }

  lemma FieldsBetweenGaps(line: string, generation: string, name: string, size: string, gaps: seq<string>)
    requires BackupFields(line, generation, name, size, gaps)
    requires B.CleanName(generation) && B.CleanName(name) && B.CleanName(size)
    requires (forall i :: 0 <= i < 4 ==> AllWhite(gaps[i])) && gaps[1] != "" && gaps[2] != ""
    ensures B.Fields(line) == [generation, name, size]
  {
    hide B.Fields, B.CleanName, IsWhite;
    var a, b, c, d := gaps[0], gaps[1], gaps[2], gaps[3];
    assert d != "" ==> d[0] in d;
    StartsWhite(b, name + (c + size + d));
    StartsWhite(c, size + d);
    hide AllWhite;
    WhiteHasNoFields(d);
    FieldAfterGap(c, size, d);
    assert c + (size + d) == c + size + d && b + (name + (c + size + d)) == b + name + (c + size + d);
    FieldAfterGap(b, name, c + size + d);
    FieldAfterGap(a, generation, b + name + (c + size + d));
    assert line == a + generation + (b + name + (c + size + d));
  }

  lemma NumberIsOneField(s: string, n: U64)
    requires ParseU64(s) == Some(n)
    ensures B.CleanName(s)
  {
    forall c | c in s ensures !IsWhite(c) {
      assert IsDigit(c) || c == '+';
    }
  }

  /** What the parser makes of a trimmed line is what the line says. */
  lemma BackupLineIsExact(line: string, e: B.Entry)
    ensures B.ParseEntry(TrimEnd(TrimStart(line))) == Some(e) <==> BackupItem(line, e)
  {
    FieldsIgnoreTrimming(line);
    hide B.Fields, TrimEnd, TrimStart, ParseU64, Spells, AllWhite, B.CleanName;
    if |B.Fields(line)| == 3 {
      var f := B.Fields(line);
      U64IsExact(f[0], e.generation);
      U64IsExact(f[2], e.size);
      if B.ParseEntry(TrimEnd(TrimStart(line))) == Some(e) {
        var gaps := ThreeFieldsAround(line);
        assert BackupFields(line, f[0], e.name, f[2], gaps);
      }
    }
    if BackupItem(line, e) {
      var generation, size, gaps :|
        && BackupFields(line, generation, e.name, size, gaps)
        && (forall i :: 0 <= i < 4 ==> AllWhite(gaps[i])) && gaps[1] != "" && gaps[2] != ""
        && Spells(generation, e.generation) && e.generation > 0 && Spells(size, e.size) && B.CleanName(e.name);
      U64IsExact(generation, e.generation);
      U64IsExact(size, e.size);
      NumberIsOneField(generation, e.generation);
      NumberIsOneField(size, e.size);
      FieldsBetweenGaps(line, generation, e.name, size, gaps);
    }
  }

  /** The lines that are not blank. */
  ghost function Filled(lines: seq<string>): seq<string> {
    if lines == [] then [] else (if AllWhite(lines[0]) then [] else [lines[0]]) + Filled(lines[1..])
  }

  /** Generations ascend and no name comes twice. */
  predicate Ordered(es: B.Entries) {
    forall i, j :: 0 <= i < j < |es| ==> es[i].generation < es[j].generation && es[i].name != es[j].name
  }

  ghost predicate Items(lines: seq<string>, es: B.Entries) {
    |lines| == |es| && forall i :: 0 <= i < |es| ==> BackupItem(lines[i], es[i])
  }

  lemma FollowsInOrder(es: B.Entries, e: B.Entry)
    requires Ordered(es) && e.generation > 0
    ensures B.MayFollow(es, e) <==> Ordered(es + [e])
  {
    var more := es + [e];
    assert forall i :: 0 <= i < |es| ==> more[i] == es[i];
    assert more[|es|] == e;
  }

  lemma PartsAreOrdered(es: B.Entries, e: B.Entry, more: B.Entries)
    requires Ordered(es + ([e] + more))
    ensures Ordered(es + [e])
  {
    var all := es + ([e] + more);
    assert forall i :: 0 <= i < |es| + 1 ==> (es + [e])[i] == all[i];
  }

  lemma {:induction false} ParsingExtends(lines: seq<string>, es: B.Entries)
    ensures B.ParseLines(lines, es).Some? ==> es <= B.ParseLines(lines, es).value
  {
    if lines != [] {
      var line := TrimEnd(TrimStart(lines[0]));
      hide B.ParseEntry, TrimEnd, TrimStart, B.MayFollow;
      if line == "" {
        ParsingExtends(lines[1..], es);
      } else if B.ParseEntry(line).Some? {
        ParsingExtends(lines[1..], es + [B.ParseEntry(line).value]);
      }
    }
  }

  lemma BlankIsTrimmed(line: string)
    ensures TrimEnd(TrimStart(line)) == "" <==> AllWhite(line)
  {
    TrimStartIsExact(line);
    var start := TrimStart(line);
    var w :| AllWhite(w) && line == w + start;
    TrimEndIsExact(start, "");
  }

  lemma OtherItem(lines: seq<string>, done: B.Entries, e: B.Entry, es: B.Entries)
    requires es == [] || es[0] != e
    ensures B.ParseLines(lines, done + [e]) != Some(done + es)
  {
    hide B.ParseLines;
    ParsingExtends(lines, done + [e]);
    assert (done + [e])[|done|] == e;
    assert es != [] ==> (done + es)[|done|] == es[0];
  }

  lemma NotItems(line: string, lines: seq<string>, es: B.Entries)
    requires es == [] || !BackupItem(line, es[0])
    ensures !Items([line] + lines, es)
  {
    hide BackupItem;
    assert ([line] + lines)[0] == line;
  }

  lemma ParsesOn(line: string, rest: seq<string>, done: B.Entries)
    ensures var trimmed := TrimEnd(TrimStart(line));
            var e := B.ParseEntry(trimmed);
            B.ParseLines([line] + rest, done)
            == if trimmed == "" then B.ParseLines(rest, done)
               else if e.Some? && B.MayFollow(done, e.value) then B.ParseLines(rest, done + [e.value]) else None
  {
    hide B.ParseEntry, TrimEnd, TrimStart, B.MayFollow;
    assert ([line] + rest)[1..] == rest;
  }

  lemma FilledOn(line: string, rest: seq<string>)
    ensures Filled([line] + rest) == if AllWhite(line) then Filled(rest) else [line] + Filled(rest)
  {
    hide AllWhite;
    assert ([line] + rest)[1..] == rest;
    assert [] + Filled(rest) == Filled(rest);
  }

  lemma {:induction false} BackupLinesAreExact(lines: seq<string>, done: B.Entries, es: B.Entries)
    requires Ordered(done)
    ensures B.ParseLines(lines, done) == Some(done + es) <==> Items(Filled(lines), es) && Ordered(done + es)
  {
    hide B.ParseEntry, TrimEnd, TrimStart, B.MayFollow, BackupItem, AllWhite, Ordered;
    if lines == [] {
      assert done + es == done <==> es == [];
    } else {
      hide Items, Filled, B.ParseLines;
      var line, rest := lines[0], lines[1..];
      assert lines == [line] + rest;
      ParsesOn(line, rest, done);
      FilledOn(line, rest);
      BlankIsTrimmed(line);
      var item := B.ParseEntry(TrimEnd(TrimStart(line)));
      if AllWhite(line) {
        BackupLinesAreExact(rest, done, es);
      } else if es != [] && item == Some(es[0]) {
        var e := es[0];
        BackupLineIsExact(line, e);
        assert es == [e] + es[1..];
        ItemIsCounted(line, e);
        FollowsInOrder(done, e);
        if B.MayFollow(done, e) {
          BackupLinesAreExact(rest, done + [e], es[1..]);
        }
        OneMoreItem(line, rest, done, e, es[1..]);
      } else {
        if es != [] {
          BackupLineIsExact(line, es[0]);
        }
        NotItems(line, Filled(rest), es);
        if item.Some? {
          OtherItem(rest, done, item.value, es);
        }
      }
    }
  }

  lemma OneMoreItem(line: string, rest: seq<string>, done: B.Entries, e: B.Entry, more: B.Entries)
    requires BackupItem(line, e) && (B.MayFollow(done, e) <==> Ordered(done + [e]))
    requires B.MayFollow(done, e) ==>
               (B.ParseLines(rest, done + [e]) == Some(done + [e] + more)
                <==> Items(Filled(rest), more) && Ordered(done + [e] + more))
    ensures B.MayFollow(done, e) && B.ParseLines(rest, done + [e]) == Some(done + ([e] + more))
            <==> Items([line] + Filled(rest), [e] + more) && Ordered(done + ([e] + more))
  {
    hide BackupItem, Items, Ordered, Filled, B.ParseLines, B.MayFollow;
    ItemsCons(line, Filled(rest), e, more);
    assert done + [e] + more == done + ([e] + more);
    if Ordered(done + ([e] + more)) {
      PartsAreOrdered(done, e, more);
    }
  }

  lemma ItemIsCounted(line: string, e: B.Entry)
    requires BackupItem(line, e)
    ensures e.generation > 0
  {
  }

  lemma ItemsCons(line: string, lines: seq<string>, e: B.Entry, es: B.Entries)
    requires BackupItem(line, e)
    ensures Items([line] + lines, [e] + es) <==> Items(lines, es)
  {
    hide BackupItem;
    if Items([line] + lines, [e] + es) {
      forall i | 0 <= i < |es| ensures BackupItem(lines[i], es[i]) {
        assert ([line] + lines)[i + 1] == lines[i] && ([e] + es)[i + 1] == es[i];
      }
    }
  }

  /** A text reads as these entries exactly when its first line is the header and the other
      lines that are not blank say the entries one by one, in order. */
  lemma BackupTextIsExact(text: string, es: B.Entries)
    ensures B.Parse(text) == Some(es)
            <==> Lines(text) != [] && Lines(text)[0] == "v1" && Items(Filled(Lines(text)[1..]), es) && Ordered(es)
  {
    hide Lines, B.ParseLines, Items, Filled, Ordered;
    if Lines(text) != [] {
      assert Ordered([]) by { NothingIsOrdered(); }
      BackupLinesAreExact(Lines(text)[1..], [], es);
      assert [] + es == es;
    }
  }

  lemma NothingIsOrdered()
    ensures Ordered([])
  {
  }

  // ------------------------------------------------------------ the renderings

  lemma {:induction false} SyncLinesAre(rels: seq<string>, m: S.Entries)
    requires forall rel :: rel in rels ==> rel in m && S.GoodPath(rel)
    ensures var lines := Lines(S.RenderLines(rels, m));
            |lines| == |rels|
            && forall i :: 0 <= i < |rels| ==>
                 lines[i] == m[rels[i]].sha256 + " " + Decimal(m[rels[i]].size) + " " + rels[i]
  {
    hide Decimal, S.GoodPath, Lines;
    if rels == [] {
      NoLines();
    } else {
      S.RenderedHead(rels, m);
      SyncLinesAre(rels[1..], m);
    }
  }

  lemma NoLines()
    ensures Lines("") == []
  {
  }

  /** A well-formed state manifest is written as the header and one line for each path, in
      ascending order. */
  lemma SyncRenderIsExact(m: S.Entries)
    requires S.WellFormed(m)
    ensures var lines, rels := Lines(S.Render(m)), Sorted(m.Keys);
            && Ascending(rels) && |lines| == 1 + |m| && lines[0] == "v1"
            && forall i :: 0 <= i < |rels| ==>
                 lines[i + 1] == m[rels[i]].sha256 + " " + Decimal(m[rels[i]].size) + " " + rels[i]
  {
    var rels := Sorted(m.Keys);
    SortedIsAscending(m.Keys);
    hide Sorted, Ascending, Decimal, S.RenderLines, Lines;
    SyncLinesAre(rels, m);
    S.HeaderSplits(S.RenderLines(rels, m));
    assert |m| == |m.Keys|;
  }

  lemma SortedIsAscending(s: set<string>)
    ensures Ascending(Sorted(s))
  {
    SortedAscends(s);
  }

  lemma {:induction false} BackupLinesAre(es: B.Entries)
    requires forall i :: 0 <= i < |es| ==> B.CleanName(es[i].name)
    ensures var lines := Lines(B.RenderLines(es));
            |lines| == |es|
            && forall i :: 0 <= i < |es| ==>
                 lines[i] == Decimal(es[i].generation) + " " + es[i].name + " " + Decimal(es[i].size)
  {
    hide Decimal, B.CleanName, Lines;
    if es == [] {
      NoLines();
    } else {
      B.RenderedHead(es);
      BackupLinesAre(es[1..]);
    }
  }

  /** A backup manifest is written as the header and one line for each entry, in order. */
  lemma BackupRenderIsExact(es: B.Entries)
    requires B.WellFormed(es)
    ensures var lines := Lines(B.Render(es));
            && |lines| == 1 + |es| && lines[0] == "v1"
            && forall i :: 0 <= i < |es| ==>
                 lines[i + 1] == Decimal(es[i].generation) + " " + es[i].name + " " + Decimal(es[i].size)
  {
    BackupLinesAre(es);
    B.HeaderSplits(B.RenderLines(es));
    hide Decimal, B.RenderLines, Lines, B.CleanName;
  }
}
