/** The comparison of a fresh dump with the retained copy: two files read in bounded
    chunks through reads that may be short or interrupted. */
module Unchanged {
  import opened Text

  /** How one read ends. */
  datatype Got = Bytes(count: nat) | Interrupted | Failed

  /** An open file: its content, the position, and how often a read will still be
      interrupted by a signal, or fail. */
  class Reader {
    const content: seq<byte>
    var pos: nat
    var interruptions: nat
    var failures: nat

    ghost predicate Valid()
      reads this
    {
      pos <= |content|
    }

    constructor (content: seq<byte>, interruptions: nat, failures: nat)
      ensures Valid() && this.content == content && pos == 0
      ensures this.interruptions == interruptions && this.failures == failures
    {
      this.content := content;
      this.pos := 0;
      this.interruptions := interruptions;
      this.failures := failures;
    }

    /** One read into `buf[from..]`: some bytes, as few as it likes but none only at
        the end of the file or for a full buffer. */
    method Read(buf: array<byte>, from: nat) returns (got: Got)
      requires Valid() && from <= buf.Length
      modifies this, buf
      ensures Valid()
      ensures got.Bytes? ==>
                && from + got.count <= buf.Length && pos == old(pos) + got.count
                && (got.count == 0 <==> old(pos) == |content| || from == buf.Length)
                && buf[..from + got.count] == old(buf[..from]) + content[old(pos)..pos]
      ensures !got.Bytes? ==> pos == old(pos) && buf[..from] == old(buf[..from])
      ensures if got.Interrupted? then interruptions < old(interruptions) else interruptions == old(interruptions)
      ensures if got.Failed? then failures < old(failures) else failures == old(failures)
    {
      var fails: bool := *;
      if fails && failures > 0 {
        failures := failures - 1;
        return Failed;
      }
      var interrupted: bool := *;
      if interrupted && interruptions > 0 {
        interruptions := interruptions - 1;
        return Interrupted;
      }
      var most := if |content| - pos < buf.Length - from then |content| - pos else buf.Length - from;
      var count: nat :| count <= most && (count == 0 ==> most == 0);
      var i := 0;
      while i < count
        modifies buf
        invariant 0 <= i <= count
        invariant buf[..from + i] == old(buf[..from]) + content[pos..pos + i]
      {
        buf[from + i] := content[pos + i];
        i := i + 1;
      }
      pos := pos + count;
      return Bytes(count);
    }
  }

  function Min(a: nat, b: nat): nat {
    if a < b then a else b
  }

  lemma Joins(content: seq<byte>, from: nat, mid: nat, to: nat)
    requires from <= mid <= to <= |content|
    ensures content[from..mid] + content[mid..to] == content[from..to]
  {
  }

  /** Fills the buffer as far as the file goes: short only at its end, whatever the
      pattern of short and interrupted reads. There is no result exactly when a read
      failed. */
  method ReadFull(r: Reader, buf: array<byte>) returns (n: Option<nat>)
    requires r.Valid()
    modifies r, buf
    ensures r.Valid()
    ensures if n.Some? then r.failures == old(r.failures) else r.failures < old(r.failures)
    ensures n.Some? ==>
              && n.value == Min(buf.Length, |r.content| - old(r.pos)) && r.pos == old(r.pos) + n.value
              && buf[..n.value] == r.content[old(r.pos)..r.pos]
  {
    var count := 0;
    while count < buf.Length
      invariant count <= buf.Length && r.Valid() && r.pos == old(r.pos) + count && r.failures == old(r.failures)
      invariant buf[..count] == r.content[old(r.pos)..r.pos]
      decreases buf.Length - count, r.interruptions
    {
      var got := r.Read(buf, count);
      match got {
        case Bytes(k) =>
          if k == 0 {
            break;
          }
          Joins(r.content, old(r.pos), r.pos - k, r.pos);
          count := count + k;
        case Interrupted =>
        case Failed =>
          return None;
      }
    }
    return Some(count);
  }

  /** Full comparison in chunks: the answer is byte equality, and it is missing exactly
      when a read failed. */
  method SameBytes(a: Reader, b: Reader, chunk: nat) returns (same: Option<bool>)
    requires a != b && a.Valid() && b.Valid() && a.pos == 0 && b.pos == 0 && chunk > 0
    modifies a, b
    ensures same.Some? ==> (same.value <==> a.content == b.content)
    ensures same.Some? <==> a.failures == old(a.failures) && b.failures == old(b.failures)
    ensures a.failures <= old(a.failures) && b.failures <= old(b.failures)
  {
    var bufA, bufB := new byte[chunk], new byte[chunk];
    while true
      invariant a.Valid() && b.Valid() && a.pos == b.pos
      invariant a.failures == old(a.failures) && b.failures == old(b.failures)
      invariant a.content[..a.pos] == b.content[..b.pos]
      decreases |a.content| - a.pos
    {
      ghost var start := a.pos;
      var na := ReadFull(a, bufA);
      if na.None? {
        return None;
      }
      var nb := ReadFull(b, bufB);
      if nb.None? {
        return None;
      }
      if na.value != nb.value {
        return Some(false);
      }
      if na.value == 0 {
        assert a.content == a.content[..a.pos] && b.content == b.content[..b.pos];
        return Some(true);
      }
      if bufA[..na.value] != bufB[..nb.value] {
        assert a.content[start..a.pos] != b.content[start..b.pos];
        return Some(false);
      }
      assert a.content[..a.pos] == a.content[..start] + a.content[start..a.pos];
      assert b.content[..b.pos] == b.content[..start] + b.content[start..b.pos];
    }
  }

  const CHUNK: nat := 64 * 1024

  /** Whether the staged dump repeats the retained copy: any trouble, a missing copy
      included, counts as no. Without trouble the answer is byte equality. */
  method IsRepeat(staged: Reader, last: Reader?) returns (repeat: bool)
    requires staged.Valid() && staged.pos == 0 && (last != null ==> staged != last && last.Valid() && last.pos == 0)
    modifies staged, last
    ensures repeat ==> last != null && staged.content == last.content
    ensures last != null && staged.content == last.content && old(staged.failures) == 0 && old(last.failures) == 0 ==>
              repeat
  {
    if last == null {
      return false;
    }
    var same := SameBytes(staged, last, CHUNK);
    return same == Some(true);
  }
}
