/** Text handling shared by the two manifest formats: line splitting, trimming,
    decimal numbers and the byte-wise order of strings. */
module Text {

  datatype Option<+T> = None | Some(value: T)

  const U64_LIMIT: nat := 0x1_0000_0000_0000_0000
  type U64 = n: nat | n < U64_LIMIT

  newtype byte = b: int | 0 <= b < 256

  /** File and object contents; their length is a 64-bit number. */
  type Bytes = s: seq<byte> | |s| < U64_LIMIT

  /** The Unicode White_Space property. */
  predicate IsWhite(c: char) {
    || '\t' <= c <= '\r'
    || c in {' ', '\U{0085}', '\U{00A0}', '\U{1680}', '\U{2028}', '\U{2029}', '\U{202F}', '\U{205F}', '\U{3000}'}
    || '\U{2000}' <= c <= '\U{200A}'
  }

  predicate EndsWith(s: string, suffix: string) {
    |suffix| <= |s| && s[|s| - |suffix|..] == suffix
  }

  predicate Contains(s: string, part: string) {
    part <= s || (s != "" && Contains(s[1..], part))
  }

  /** Position of the first `c`, or the length when there is none. */
  function Find(s: string, c: char): (i: nat)
    ensures i <= |s| && c !in s[..i]
    ensures i < |s| ==> s[i] == c
  {
    if s == "" || s[0] == c then 0 else 1 + Find(s[1..], c)
  }

  lemma {:induction false} FindFirst(pre: string, c: char, post: string)
    requires c !in pre
    ensures Find(pre + [c] + post, c) == |pre|
  {
    if pre != "" {
      FindFirst(pre[1..], c, post);
      assert (pre + [c] + post)[1..] == pre[1..] + [c] + post;
    }
  }

  // ---------------------------------------------------------------- lines

  function StripCr(line: string): string {
    if EndsWith(line, "\r") then line[..|line| - 1] else line
  }

  /** Line iteration: a final newline opens no extra line, and a carriage
      return before a newline belongs to the line ending. */
  function Lines(text: string): seq<string>
    decreases |text|
  {
    if text == "" then []
    else
      var i := Find(text, '\n');
      if i == |text| then [text] else [StripCr(text[..i])] + Lines(text[i + 1..])
  }

  lemma {:induction false} LinesCons(line: string, rest: string)
    requires '\n' !in line && !EndsWith(line, "\r")
    ensures Lines(line + "\n" + rest) == [line] + Lines(rest)
  {
    var text := line + ['\n'] + rest;
    FindFirst(line, '\n', rest);
    assert text[..|line|] == line && text[|line| + 1..] == rest;
  }

  lemma {:induction false} LinesHaveNoNewline(text: string)
    ensures forall l :: l in Lines(text) ==> '\n' !in l
    decreases |text|
  {
    if text != "" {
      var i := Find(text, '\n');
      if i < |text| {
        LinesHaveNoNewline(text[i + 1..]);
        forall l | l in Lines(text) ensures '\n' !in l {
          if l == StripCr(text[..i]) {
          } else {
            assert l in Lines(text[i + 1..]);
          }
        }
      } else {
        assert text[..i] == text;
      }
    }
  }

  // ------------------------------------------------------------- trimming

  function TrimEnd(s: string): (t: string)
    ensures t <= s
    ensures t != "" ==> !IsWhite(t[|t| - 1])
  {
    if s != "" && IsWhite(s[|s| - 1]) then TrimEnd(s[..|s| - 1]) else s
  }

  function TrimStart(s: string): (t: string)
    ensures t != "" ==> !IsWhite(t[0])
    ensures s != "" && !IsWhite(s[0]) ==> t == s
  {
    if s != "" && IsWhite(s[0]) then TrimStart(s[1..]) else s
  }

  // -------------------------------------------------------------- numbers

  predicate IsDigit(c: char) { '0' <= c <= '9' }

  function Digit(d: nat): char
    requires d < 10
  {
    "0123456789"[d]
  }

  function DigitValue(c: char): nat
    requires IsDigit(c)
  {
    c as int - '0' as int
  }

  function Decimal(n: nat): (s: string)
    ensures s != "" && forall c :: c in s ==> IsDigit(c)
  {
    if n < 10 then [Digit(n)] else Decimal(n / 10) + [Digit(n % 10)]
  }

  function ValueOf(s: string): nat
    requires forall c :: c in s ==> IsDigit(c)
  {
    if s == "" then 0 else 10 * ValueOf(s[..|s| - 1]) + DigitValue(s[|s| - 1])
  }

  /** Parsing of an unsigned 64-bit number: an optional plus sign, at least one
      digit, no overflow. */
  function ParseU64(s: string): Option<U64> {
    var digits := if s != "" && s[0] == '+' then s[1..] else s;
    if digits != "" && (forall c :: c in digits ==> IsDigit(c)) && ValueOf(digits) < U64_LIMIT
    then Some(ValueOf(digits))
    else None
  }

  lemma {:induction false} DecimalValue(n: nat)
    ensures ValueOf(Decimal(n)) == n
  {
    if n >= 10 {
      DecimalValue(n / 10);
      assert Decimal(n)[..|Decimal(n)| - 1] == Decimal(n / 10);
    } else {
      assert Decimal(n)[..0] == "";
    }
  }

  lemma ParseDecimal(n: U64)
    ensures ParseU64(Decimal(n)) == Some(n)
  {
    DecimalValue(n);
    assert IsDigit(Decimal(n)[0]);
  }

  /** n has at most `width` decimal digits when it is below the matching power of ten. */
  function PowerOfTen(width: nat): nat {
    if width == 0 then 1 else 10 * PowerOfTen(width - 1)
  }

  lemma {:induction false} DecimalWidth(n: nat, width: nat)
    requires 0 < width && n < PowerOfTen(width)
    ensures |Decimal(n)| <= width
  {
    if n >= 10 {
      DecimalWidth(n / 10, width - 1);
    }
  }

  lemma DigitsAreAscii(n: nat)
    ensures forall c :: c in Decimal(n) ==> c < '\U{0080}'
  {
    forall c | c in Decimal(n) ensures c < '\U{0080}' {
      assert IsDigit(c);
    }
  }

  lemma PowerOfTwenty()
    ensures PowerOfTen(20) == 100_000_000_000_000_000_000
  {
    assert PowerOfTen(5) == 100_000;
    assert PowerOfTen(10) == 10_000_000_000;
    assert PowerOfTen(15) == 1_000_000_000_000_000;
  }

  // --------------------------------------------------------- UTF-8 length

  function CharBytes(c: char): nat {
    if c < '\U{0080}' then 1 else if c < '\U{0800}' then 2 else if c < '\U{10000}' then 3 else 4
  }

  /** Length in bytes of the UTF-8 encoding. */
  function Utf8Len(s: string): nat {
    if s == "" then 0 else CharBytes(s[0]) + Utf8Len(s[1..])
  }

  lemma {:induction false} Utf8LenConcat(a: string, b: string)
    ensures Utf8Len(a + b) == Utf8Len(a) + Utf8Len(b)
  {
    if a == "" {
      assert a + b == b;
    } else {
      Utf8LenConcat(a[1..], b);
      assert (a + b)[1..] == a[1..] + b;
    }
  }

  lemma {:induction false} AsciiLen(s: string)
    requires forall c :: c in s ==> c < '\U{0080}'
    ensures Utf8Len(s) == |s|
  {
    if s != "" {
      assert forall c :: c in s[1..] ==> c in s;
      assert s[0] in s;
      AsciiLen(s[1..]);
    }
  }

  // ------------------------------------------------------- ordered sets

  /** Lexicographic order by code point, which is the byte order of UTF-8. */
  predicate Le(a: string, b: string) {
    a == "" || (b != "" && (a[0] < b[0] || (a[0] == b[0] && Le(a[1..], b[1..]))))
  }

  lemma {:induction false} LeTotal(a: string, b: string)
    ensures Le(a, b) || Le(b, a)
  {
    if a != "" && b != "" {
      LeTotal(a[1..], b[1..]);
    }
  }

  lemma {:induction false} LeAntisymmetric(a: string, b: string)
    requires Le(a, b) && Le(b, a)
    ensures a == b
  {
    if a != "" {
      LeAntisymmetric(a[1..], b[1..]);
      assert a == [a[0]] + a[1..] && b == [b[0]] + b[1..];
    }
  }

  lemma {:induction false} LeTransitive(a: string, b: string, c: string)
    requires Le(a, b) && Le(b, c)
    ensures Le(a, c)
  {
    if a != "" && a[0] == b[0] && b[0] == c[0] {
      LeTransitive(a[1..], b[1..], c[1..]);
    }
  }

  predicate IsLeast(x: string, s: set<string>) {
    x in s && forall y :: y in s ==> Le(x, y)
  }

  lemma {:induction false} LeastExists(s: set<string>)
    requires s != {}
    ensures exists x :: IsLeast(x, s)
  {
    var x :| x in s;
    LeTotal(x, x);
    if s == {x} {
      assert IsLeast(x, s);
    } else {
      LeastExists(s - {x});
      var z :| IsLeast(z, s - {x});
      LeTotal(x, z);
      if Le(x, z) {
        forall y | y in s ensures Le(x, y) {
          if y != x {
            LeTransitive(x, z, y);
          }
        }
        assert IsLeast(x, s);
      } else {
        assert IsLeast(z, s);
      }
    }
  }

  lemma LeastUnique(x: string, y: string, s: set<string>)
    requires IsLeast(x, s) && IsLeast(y, s)
    ensures x == y
  {
    LeAntisymmetric(x, y);
  }

  function Least(s: set<string>): (x: string)
    requires s != {}
    ensures IsLeast(x, s)
  {
    LeastExists(s);
    assert forall x, y | IsLeast(x, s) && IsLeast(y, s) :: x == y by {
      forall x, y | IsLeast(x, s) && IsLeast(y, s) ensures x == y {
        LeastUnique(x, y, s);
      }
    }
    var x :| x in s && IsLeast(x, s);
    x
  }

  /** The elements in ascending order: the iteration order of an ordered map or set. */
  function Sorted(s: set<string>): (r: seq<string>)
    ensures |r| == |s|
    ensures forall x :: x in r <==> x in s
    ensures forall i, j :: 0 <= i < j < |r| ==> r[i] != r[j]
  {
    if s == {} then [] else [Least(s)] + Sorted(s - {Least(s)})
  }

  lemma {:induction false} SortedAscends(s: set<string>)
    ensures forall i, j :: 0 <= i < j < |Sorted(s)| ==> Le(Sorted(s)[i], Sorted(s)[j])
  {
    if s != {} {
      SortedAscends(s - {Least(s)});
    }
  }

  /** An ascending sequence of all elements, each once, is the sorted one. */
  lemma {:induction false} AscendingIsSorted(s: set<string>, up: seq<string>)
    requires |up| == |s| && forall i :: 0 <= i < |up| ==> up[i] in s
    requires forall i, j :: 0 <= i < j < |up| ==> up[i] != up[j] && Le(up[i], up[j])
    ensures up == Sorted(s)
  {
    if up != [] {
      Distinct(up);
      var least := Least(s);
      assert (set i | 0 <= i < |up| :: up[i]) == s by {
        SubsetOfSize(set i | 0 <= i < |up| :: up[i], s);
      }
      var i :| 0 <= i < |up| && up[i] == least;
      if i > 0 {
        LeAntisymmetric(up[0], least);
      }
      AscendingIsSorted(s - {least}, up[1..]);
      assert up == [least] + up[1..];
    }
  }

  lemma {:induction false} Distinct(s: seq<string>)
    requires forall i, j :: 0 <= i < j < |s| ==> s[i] != s[j]
    ensures |set i | 0 <= i < |s| :: s[i]| == |s|
  {
    if s != [] {
      var front, last := s[..|s| - 1], s[|s| - 1];
      Distinct(front);
      assert (set i | 0 <= i < |s| :: s[i]) == (set i | 0 <= i < |front| :: front[i]) + {last};
    }
  }

  lemma SubsetOfSize(a: set<string>, s: set<string>)
    requires a <= s && |a| == |s|
    ensures a == s
  {
    assert s == a + (s - a);
  }

  predicate IsGreatest(x: string, s: set<string>) {
    x in s && forall y :: y in s ==> Le(y, x)
  }

  /** A proper beginning of a text comes before it in every ascending sequence. */
  lemma {:induction false} PrefixIsLe(a: string, b: string)
    requires a <= b
    ensures Le(a, b)
  {
    if a != "" {
      PrefixIsLe(a[1..], b[1..]);
    }
  }

  /** Insertion into an ascending sequence, and the sort built on it. */
  function InsertSorted(x: string, s: seq<string>): (r: seq<string>)
    ensures multiset(r) == multiset(s) + multiset{x}
  {
    if s == [] || Le(x, s[0]) then [x] + s
    else
      assert s == [s[0]] + s[1..];
      [s[0]] + InsertSorted(x, s[1..])
  }

  function Sort(s: seq<string>): (r: seq<string>)
    ensures multiset(r) == multiset(s)
  {
    if s == [] then []
    else
      assert s == [s[0]] + s[1..];
      InsertSorted(s[0], Sort(s[1..]))
  }

  ghost predicate Ascending(s: seq<string>) {
    forall i, j :: 0 <= i < j < |s| ==> Le(s[i], s[j])
  }

  lemma {:induction false} InsertKeepsAscending(x: string, s: seq<string>)
    requires Ascending(s)
    ensures Ascending(InsertSorted(x, s))
  {
    var r := InsertSorted(x, s);
    if s == [] {
    } else if Le(x, s[0]) {
      forall j | 0 < j < |r| ensures Le(r[0], r[j]) {
        if j > 1 {
          LeTransitive(x, s[0], s[j - 1]);
        }
      }
    } else {
      InsertKeepsAscending(x, s[1..]);
      LeTotal(x, s[0]);
      forall j | 0 < j < |r| ensures Le(r[0], r[j]) {
        assert r[j] == r[1..][j - 1];
        assert r[j] in multiset(r[1..]);
        assert r[1..] == InsertSorted(x, s[1..]);
        assert r[j] == x || r[j] in s[1..];
      }
    }
  }

  lemma {:induction false} SortAscends(s: seq<string>)
    ensures Ascending(Sort(s))
  {
    if s != [] {
      SortAscends(s[1..]);
      InsertKeepsAscending(s[0], Sort(s[1..]));
    }
  }
}
