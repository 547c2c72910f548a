/** Resumable download: a bounded retry loop over a partial file, against a server
    that may cut any body short (Range requests: sections 14.2 and 15.3.7 of RFC 9110). */
module Download {
  import opened Text
  import opened SyncManifest

  const MAX_DOWNLOAD_ATTEMPTS: nat := 3

  /** What the caller demands of the bytes it will accept. */
  datatype Expect = Expect(size: Option<nat>, sha256: Option<string>, maxBytes: U64)

  predicate Matching(sha: Bytes -> Digest, want: Expect, bytes: Bytes) {
    && (want.size.Some? ==> |bytes| == want.size.value)
    && (want.sha256.Some? ==> sha(bytes) == want.sha256.value)
  }

  predicate Meets(sha: Bytes -> Digest, want: Expect, bytes: Bytes) {
    |bytes| <= want.maxBytes && Matching(sha, want, bytes)
  }

  /** One reply: an error worth retrying or not, a non-success status, or a body read
      in pieces that ends cleanly or breaks. */
  datatype Reply =
    | Failed(retryable: bool)
    | NotSuccess
    | Body(partial: bool, declared: Option<nat>, pieces: seq<seq<byte>>, broken: bool)

  /** The first `n` pieces of a body in one. */
  function JoinedTo(pieces: seq<seq<byte>>, n: nat): seq<byte>
    requires n <= |pieces|
  {
    if n == 0 then [] else JoinedTo(pieces, n - 1) + pieces[n - 1]
  }

  function Joined(pieces: seq<seq<byte>>): seq<byte> {
    JoinedTo(pieces, |pieces|)
  }

  /** The whole object on 200, its suffix on 206, either one cut short anywhere; a
      declared length is that of the uncut body. */
  ghost predicate Honest(reply: Reply, stored: seq<byte>, offset: nat) {
    reply.Body? ==>
      && (reply.partial ==> 0 < offset <= |stored|)
      && var whole := if reply.partial then stored[offset..] else stored;
         Joined(reply.pieces) <= whole && (reply.declared.Some? ==> reply.declared.value == |whole|)
  }

  /** The server holds `stored` and a short body cannot pass for a whole one: its
      size is expected, or every body declares its length. */
  ghost predicate HonestServer(serve: (nat, nat) -> Reply, stored: seq<byte>, want: Expect) {
    && (forall attempt: nat, offset: nat :: Honest(serve(attempt, offset), stored, offset))
    && (|| want.size == Some(|stored|)
        || forall attempt: nat, offset: nat :: serve(attempt, offset).Body? ==> serve(attempt, offset).declared.Some?)
  }

  ghost predicate Complete(reply: Reply, stored: seq<byte>, offset: nat) {
    reply.Body? && Honest(reply, stored, offset) && !reply.broken
    && Joined(reply.pieces) == if reply.partial then stored[offset..] else stored
  }

  /** Cut before its end, and noticeably so. */
  ghost predicate CutShort(reply: Reply, stored: seq<byte>, offset: nat) {
    reply.Body? && Honest(reply, stored, offset) && (reply.broken || reply.declared.Some?)
    && Joined(reply.pieces) < if reply.partial then stored[offset..] else stored
  }

  /** The server may fail or cut every attempt but the last one allowed. */
  ghost predicate DeliversInTime(serve: (nat, nat) -> Reply, stored: seq<byte>) {
    forall attempt: nat, offset: nat :: var reply := serve(attempt, offset);
      || Complete(reply, stored, offset)
      || (attempt < 3 && (CutShort(reply, stored, offset) || (reply.Failed? && reply.retryable)))
  }

  /** The stored object is what the caller expects, its size included. */
  ghost predicate Wanted(sha: Bytes -> Digest, want: Expect, stored: seq<byte>) {
    want.size == Some(|stored|) && |stored| < U64_LIMIT && Meets(sha, want, stored)
  }

  /** Where a download may resume: the length of the partial file, unless it already
      reaches the expected size. */
  function ResumedOffset(part: Option<Bytes>, size: Option<nat>): (offset: nat)
    ensures offset > 0 ==> part.Some? && |part.value| == offset && (size.Some? ==> offset < size.value)
  {
    var len := if part.Some? then |part.value| else 0;
    if size.Some? && len >= size.value then 0 else len
  }

  lemma {:induction false} JoinedPrefix(pieces: seq<seq<byte>>, i: nat, n: nat)
    requires i <= n <= |pieces|
    ensures JoinedTo(pieces, i) <= JoinedTo(pieces, n)
  {
    if i < n {
      JoinedPrefix(pieces, i, n - 1);
    }
  }

  lemma JoinedStep(pieces: seq<seq<byte>>, i: nat)
    requires i < |pieces|
    ensures JoinedTo(pieces, i + 1) == JoinedTo(pieces, i) + pieces[i]
    ensures JoinedTo(pieces, i + 1) <= JoinedTo(pieces, |pieces|)
  {
    JoinedPrefix(pieces, i + 1, |pieces|);
  }

  lemma NothingJoined(pieces: seq<seq<byte>>)
    ensures JoinedTo(pieces, 0) == []
  {
  }

  /** What a resumed attempt appends to. */
  function Base(before: Option<Bytes>, start: nat): Bytes {
    if start == 0 || before.None? then [] else before.value
  }

  predicate Fits(want: Expect, total: nat) {
    total <= want.maxBytes && (want.size.Some? ==> total <= want.size.value)
  }

  /** The pieces written when nothing fails: all before the first that no longer fits. */
  ghost predicate TakenTo(want: Expect, pieces: seq<seq<byte>>, start: nat, n: nat) {
    && n <= |pieces|
    && (forall i :: 0 < i <= n ==> Fits(want, start + |JoinedTo(pieces, i)|))
    && (n < |pieces| ==> !Fits(want, start + |JoinedTo(pieces, n + 1)|))
  }

  predicate AsDeclared(reply: Reply)
    requires reply.Body?
  {
    reply.declared.Some? ==> |Joined(reply.pieces)| == reply.declared.value
  }

  /** Streams one body into the partial file: it then holds the resumed bytes followed
      by a prefix of the received body, on success by all of it. */
  method Stream(want: Expect, reply: Reply, start: nat, before: Option<Bytes>, trouble: bool)
    returns (ok: bool, part: Option<Bytes>, ghost got: seq<byte>, ghost taken: nat)
    requires reply.Body?
    requires start > 0 ==> before.Some? && |before.value| == start
    ensures got <= Joined(reply.pieces)
    ensures (part == before && trouble) || (part.Some? && part.value == Base(before, start) + got)
    ensures part != before ==> |part.value| <= want.maxBytes || |part.value| == start
    ensures ok ==> part.Some? && part.value == Base(before, start) + Joined(reply.pieces)
    ensures ok ==> got == Joined(reply.pieces) && !reply.broken && AsDeclared(reply)
    ensures !trouble ==>
              && TakenTo(want, reply.pieces, start, taken) && got == JoinedTo(reply.pieces, taken)
              && (ok <==> taken == |reply.pieces| && !reply.broken && AsDeclared(reply))
    ensures (var total := start + |Joined(reply.pieces)|;
             !trouble && !reply.broken && Fits(want, total) && AsDeclared(reply))
            ==> ok
  {
    hide JoinedTo;
    NothingJoined(reply.pieces);
    part, got, ok, taken := before, [], false, 0;
    var created: bool := *;
    if trouble && !created {
      return;
    }
    var base := Base(before, start);
    part := Some(base);
    var total, i := start, 0;
    while i < |reply.pieces|
      invariant 0 <= i <= |reply.pieces| && !ok
      invariant got == JoinedTo(reply.pieces, i) && got <= Joined(reply.pieces) && taken == i
      invariant forall k :: 0 < k <= i ==> Fits(want, start + |JoinedTo(reply.pieces, k)|)
      invariant part.Some? && part.value == base + got && |part.value| == total
      invariant total <= want.maxBytes || total == start
    {
      JoinedStep(reply.pieces, i);
      var stop: bool := *;
      if trouble && stop {
        return;
      }
      var piece := reply.pieces[i];
      total := total + |piece|;
      if total > want.maxBytes || (want.size.Some? && total > want.size.value) {
        return;
      }
      assert Fits(want, start + |JoinedTo(reply.pieces, i + 1)|);
      var written :| 0 <= written <= |piece| && (trouble || written == |piece|);
      AppendPart(base, got, piece, written);
      part := Some(part.value + piece[..written]);
      got := got + piece[..written];
      if written < |piece| {
        return;
      }
      i := i + 1;
      taken := i;
    }
    var synced: bool := *;
    ok := !reply.broken && (reply.declared.Some? ==> total - start == reply.declared.value) && (synced || !trouble);
  }

  lemma AppendPart(base: seq<byte>, got: seq<byte>, piece: seq<byte>, written: nat)
    requires written <= |piece|
    ensures base + got + piece[..written] == base + (got + piece[..written])
    ensures got + piece[..written] <= got + piece
    ensures written == |piece| ==> piece[..written] == piece
  {
  }

  /** A body that is not a 206 is judged the same wherever the attempt meant to resume. */
  lemma RestartIsHonest(reply: Reply, stored: seq<byte>, offset: nat)
    requires reply.Body? && !reply.partial
    ensures Honest(reply, stored, offset) == Honest(reply, stored, 0)
    ensures Complete(reply, stored, offset) == Complete(reply, stored, 0)
    ensures CutShort(reply, stored, offset) == CutShort(reply, stored, 0)
  {
  }

  lemma HonestReply(serve: (nat, nat) -> Reply, stored: seq<byte>, want: Expect, attempt: nat, offset: nat)
    requires HonestServer(serve, stored, want)
    ensures var reply := serve(attempt, offset);
            && Honest(reply, stored, offset)
            && (want.size == Some(|stored|) || (reply.Body? ==> reply.declared.Some?))
  {
    hide Honest;
  }

  lemma TimelyReply(serve: (nat, nat) -> Reply, attempt: nat, offset: nat, stored: seq<byte>)
    requires DeliversInTime(serve, stored)
    ensures var reply := serve(attempt, offset);
            || (reply.Body? && Complete(reply, stored, offset))
            || (reply.Body? && CutShort(reply, stored, offset) && attempt < MAX_DOWNLOAD_ATTEMPTS)
            || (reply.Failed? && reply.retryable && attempt < MAX_DOWNLOAD_ATTEMPTS)
  {
  }

  /** One attempt: where it meant to resume, the reply, where it did, how many pieces it
      wrote, the partial file afterwards, and whether the body was taken to its end. */
  datatype Round = Round(offset: nat, reply: Reply, start: nat, taken: nat, part: Option<Bytes>, whole: bool)

  /** Where the attempt after this one resumes: where it was to, when no body came; with
      the bytes the partial file now has, when one did. */
  function Resumes(r: Round): nat {
    if r.reply.Body? then (if r.part.Some? then |r.part.value| else 0) else r.offset
  }

  /** Another attempt follows: the failure is worth a retry, or the body was not taken to
      its end and the partial file has not reached the expected size. */
  predicate GoesOn(want: Expect, r: Round) {
    if r.reply.Body? then !r.whole && (want.size.Some? ==> Resumes(r) < want.size.value)
    else r.reply.Failed? && r.reply.retryable
  }

  /** What an attempt does to the partial file: without trouble, exactly this. */
  ghost predicate Streams(want: Expect, before: Option<Bytes>, r: Round, trouble: bool) {
    && r.start == (if r.reply.Body? && !r.reply.partial then 0 else r.offset)
    && if !r.reply.Body? then r.part == before && !r.whole
       else if trouble then
         r.whole ==>
           !r.reply.broken && AsDeclared(r.reply) && r.part == Some(Base(before, r.start) + Joined(r.reply.pieces))
       else
         && TakenTo(want, r.reply.pieces, r.start, r.taken)
         && r.part == Some(Base(before, r.start) + JoinedTo(r.reply.pieces, r.taken))
         && (r.whole <==> r.taken == |r.reply.pieces| && !r.reply.broken && AsDeclared(r.reply))
  }

  /** The attempt after these asks for the bytes from where the last one stopped, and is
      made only if that one did not settle the matter. */
  ghost predicate Follows(serve: (nat, nat) -> Reply, want: Expect, part0: Option<Bytes>, log: seq<Round>, r: Round,
                          trouble: bool) {
    && r.offset == (if log != [] then Resumes(log[|log| - 1])
                    else if part0.Some? && (want.size.Some? ==> |part0.value| < want.size.value) then |part0.value|
                    else 0)
    && r.reply == serve(|log| + 1, r.offset)
    && Streams(want, if log == [] then part0 else log[|log| - 1].part, r, trouble)
    && (log != [] ==> GoesOn(want, log[|log| - 1]))
  }

  /** The attempts of one download: at most three, each following the ones before it. */
  ghost predicate Attempts(serve: (nat, nat) -> Reply, want: Expect, part0: Option<Bytes>, log: seq<Round>,
                           trouble: bool) {
    && |log| <= 3
    && forall k :: 0 <= k < |log| ==> Follows(serve, want, part0, log[..k], log[k], trouble)
  }

  /** Without trouble the attempts go on until one settles the matter or three are made. */
  predicate Ended(want: Expect, log: seq<Round>) {
    log != [] && (|log| == 3 || !GoesOn(want, log[|log| - 1]))
  }

  lemma OneMoreAttempt(serve: (nat, nat) -> Reply, want: Expect, part0: Option<Bytes>, log: seq<Round>, r: Round,
                       trouble: bool)
    requires Attempts(serve, want, part0, log, trouble) && |log| < 3
    requires r.offset == (if log == [] then ResumedOffset(part0, want.size) else Resumes(log[|log| - 1]))
    requires r.reply == serve(|log| + 1, r.offset)
    requires Streams(want, if log == [] then part0 else log[|log| - 1].part, r, trouble)
    requires log != [] ==> GoesOn(want, log[|log| - 1])
    ensures Attempts(serve, want, part0, log + [r], trouble)
  {
    assert Follows(serve, want, part0, log, r, trouble);
    hide Follows;
    var log' := log + [r];
    forall k | 0 <= k < |log'| ensures Follows(serve, want, part0, log'[..k], log'[k], trouble) {
      assert log'[..k] == if k < |log| then log[..k] else log;
    }
  }

  /** One attempt that was answered: without a body nothing changes, with one it is
      streamed into the partial file. */
  method Receive(want: Expect, reply: Reply, offset: nat, before: Option<Bytes>, trouble: bool,
                 ghost stored: seq<byte>, ghost honest: bool)
    returns (staged: bool, part: Option<Bytes>, ghost r: Round)
    requires offset > 0 ==> before.Some? && |before.value| == offset
    requires honest ==> Honest(reply, stored, offset) && (before.Some? ==> before.value <= stored)
    ensures r.offset == offset && r.reply == reply && r.part == part && r.whole == staged
    ensures Streams(want, before, r, trouble)
    ensures if reply.Body? then staged ==> part.Some? else !staged && part == before
    ensures part.Some? && (before.Some? ==> |before.value| <= want.maxBytes) ==> |part.value| <= want.maxBytes
    ensures honest && part.Some? ==> part.value <= stored
    ensures honest && !trouble && want.size == Some(|stored|) && |stored| <= want.maxBytes ==>
              && (Complete(reply, stored, offset) ==> staged && part == Some(stored))
              && (CutShort(reply, stored, offset) ==> !staged && part.Some? && |part.value| < |stored|)
    ensures honest && staged && (reply.declared.Some? || want.size == Some(|stored|))
            && (want.size.Some? ==> |part.value| == want.size.value) ==>
              part == Some(stored)
  {
    hide Joined, Honest, Streams, TakenTo, AsDeclared;
    if !reply.Body? {
      staged, part, r := false, before, Round(offset, reply, offset, 0, before, false);
      NoBodyStreams(want, before, r, trouble);
      return;
    }
    var start := offset;
    if offset > 0 && !reply.partial {
      RestartIsHonest(reply, stored, offset);
      start := 0;
    }
    ghost var got, taken;
    staged, part, got, taken := Stream(want, reply, start, before, trouble);
    r := Round(offset, reply, start, taken, part, staged);
    BodyStreams(want, before, r, got, trouble);
    if honest {
      if part.Some? {
        StreamKeepsPrefix(reply, stored, start, before, got, part.value, honest);
      }
      StreamDecides(reply, stored, start, before, got, want, staged, part, trouble);
    }
  }

  /** The bounded attempts: what is staged when they end. */
  method Fetch(sha: Bytes -> Digest, want: Expect, serve: (nat, nat) -> Reply, part0: Option<Bytes>,
               trouble: bool, ghost stored: seq<byte>, ghost honest: bool)
    returns (staged: bool, part: Option<Bytes>, requests: nat, ghost log: seq<Round>)
    requires honest ==> HonestServer(serve, stored, want) && part0.None?
    ensures requests == |log| && Attempts(serve, want, part0, log, trouble) && (!trouble ==> Ended(want, log))
    ensures if log == [] then part == part0 && !staged
            else part == log[|log| - 1].part && staged == log[|log| - 1].whole
    ensures staged ==> part.Some?
    ensures part.Some? && (part0.Some? ==> |part0.value| <= want.maxBytes) ==> |part.value| <= want.maxBytes
    ensures honest ==> forall r :: r in log && r.part.Some? ==> r.part.value <= stored
    ensures honest && staged && Matching(sha, want, part.value) ==> part.value == stored
    ensures honest && !trouble && DeliversInTime(serve, stored) && Wanted(sha, want, stored) ==>
              staged && part.value == stored
  {
    hide Honest, HonestServer, Complete, CutShort, DeliversInTime, Streams, Attempts, ResumedOffset;
    staged, part, requests, log := false, part0, 0, [];
    var offset: nat := ResumedOffset(part, want.size);
    var attempt := 0;
    ghost var timely := honest && !trouble && DeliversInTime(serve, stored) && Wanted(sha, want, stored);
    NoAttempts(serve, want, part0, trouble);
    while true
      invariant attempt < MAX_DOWNLOAD_ATTEMPTS && requests == attempt == |log| && !staged
      invariant Attempts(serve, want, part0, log, trouble) && (log != [] ==> GoesOn(want, log[|log| - 1]))
      invariant log != [] ==> !log[|log| - 1].whole
      invariant if log == [] then part == part0 && offset == ResumedOffset(part0, want.size)
                else part == log[|log| - 1].part && offset == Resumes(log[|log| - 1])
      invariant offset > 0 ==> part.Some? && |part.value| == offset
      invariant part.Some? && (part0.Some? ==> |part0.value| <= want.maxBytes) ==> |part.value| <= want.maxBytes
      invariant honest ==> forall r :: r in log && r.part.Some? ==> r.part.value <= stored
      invariant honest && part.Some? ==> part.value <= stored
      decreases MAX_DOWNLOAD_ATTEMPTS - attempt
    {
      attempt := attempt + 1;
      var stop: bool := *;
      if trouble && stop {
        return;
      }
      requests := requests + 1;
      var reply := serve(attempt, offset);
      if honest {
        HonestReply(serve, stored, want, attempt, offset);
      }
      if timely {
        TimelyReply(serve, attempt, offset, stored);
      }
      ghost var r;
      staged, part, r := Receive(want, reply, offset, part, trouble, stored, honest);
      OneMoreAttempt(serve, want, part0, log, r, trouble);
      log := log + [r];
      if !reply.Body? {
        if reply.Failed? && reply.retryable && attempt < MAX_DOWNLOAD_ATTEMPTS {
          continue;
        }
        return;
      }
      if staged {
        return;
      }
      var done := if part.Some? then |part.value| else 0;
      var stopping: bool := *;
      if attempt == MAX_DOWNLOAD_ATTEMPTS || (trouble && stopping) || (want.size.Some? && done >= want.size.value) {
        return;
      }
      offset := done;
    }
  }

  lemma NoAttempts(serve: (nat, nat) -> Reply, want: Expect, part0: Option<Bytes>, trouble: bool)
    ensures Attempts(serve, want, part0, [], trouble)
  {
  }

  lemma NoBodyStreams(want: Expect, before: Option<Bytes>, r: Round, trouble: bool)
    requires !r.reply.Body? && r.start == r.offset && r.part == before && !r.whole
    ensures Streams(want, before, r, trouble)
  {
  }

  lemma BodyStreams(want: Expect, before: Option<Bytes>, r: Round, got: seq<byte>, trouble: bool)
    requires r.reply.Body? && r.start == (if r.reply.partial then r.offset else 0)
    requires r.whole ==> r.part == Some(Base(before, r.start) + Joined(r.reply.pieces)) && !r.reply.broken
    requires r.whole ==> AsDeclared(r.reply)
    requires !trouble ==>
              && TakenTo(want, r.reply.pieces, r.start, r.taken) && got == JoinedTo(r.reply.pieces, r.taken)
              && r.part == Some(Base(before, r.start) + got)
              && (r.whole <==> r.taken == |r.reply.pieces| && !r.reply.broken && AsDeclared(r.reply))
    ensures Streams(want, before, r, trouble)
  {
    hide JoinedTo, Joined;
  }

  /** The download, where `trouble` allows stop requests and local failures anywhere.
      Success publishes bytes that meet every expectation and, from an honest server
      and no leftover, exactly the stored object; failure leaves the target as it was
      and no partial behind. The partial file is a prefix of that object throughout.
      Without trouble it succeeds exactly when the last attempt takes its body to the
      end and what is staged then meets every expectation; a server that delivers on
      the last attempt at the latest is always enough. */
  method Get(sha: Bytes -> Digest, want: Expect, serve: (nat, nat) -> Reply, part0: Option<Bytes>,
             target0: Option<Bytes>, trouble: bool, ghost stored: seq<byte>, ghost honest: bool)
    returns (ok: bool, part: Option<Bytes>, target: Option<Bytes>, requests: nat, ghost log: seq<Round>)
    requires honest ==> HonestServer(serve, stored, want) && part0.None?
    ensures requests == |log| && Attempts(serve, want, part0, log, trouble) && (!trouble ==> Ended(want, log))
    ensures ok ==> log != [] && log[|log| - 1].whole && target == log[|log| - 1].part
    ensures ok ==> target.Some? && part.None? && Matching(sha, want, target.value)
    ensures !trouble && log[|log| - 1].whole && log[|log| - 1].part.Some?
            && Matching(sha, want, log[|log| - 1].part.value) ==>
              ok
    ensures ok && (part0.Some? ==> |part0.value| <= want.maxBytes) ==> |target.value| <= want.maxBytes
    ensures !ok ==> target == target0 && (part.None? || (requests == 0 && part == part0))
    ensures honest && ok ==> target == Some(stored)
    ensures honest ==> part.None? && forall r :: r in log && r.part.Some? ==> r.part.value <= stored
    ensures honest && !trouble && DeliversInTime(serve, stored) && Wanted(sha, want, stored) ==> ok
  {
    hide Attempts, Matching;
    ok, part, target, requests, log := false, part0, target0, 0, [];
    var aborted: bool := *;
    if trouble && aborted {
      NoAttempts(serve, want, part0, trouble);
      return;
    }
    var staged;
    staged, part, requests, log := Fetch(sha, want, serve, part0, trouble, stored, honest);
    if staged && Matching(sha, want, part.value) {
      var renamed: bool := *;
      if renamed || !trouble {
        ok, target := true, part;
      }
    }
    part := None;
  }

  /** From an honest server a complete body is always taken, a cut one never is, and what
      is taken to its end is the whole object when its length is declared or expected. */
  lemma StreamDecides(reply: Reply, stored: seq<byte>, start: nat, before: Option<Bytes>, got: seq<byte>, want: Expect,
                      staged: bool, part: Option<Bytes>, trouble: bool)
    requires reply.Body? && Honest(reply, stored, start) && got <= Joined(reply.pieces)
    requires start > 0 ==> reply.partial && before.Some? && |before.value| == start && before.value <= stored
    requires !trouble || staged ==> part == Some(Base(before, start) + got)
    requires staged ==> got == Joined(reply.pieces) && !reply.broken && AsDeclared(reply)
    requires (var total := start + |Joined(reply.pieces)|;
              !trouble && !reply.broken && Fits(want, total) && AsDeclared(reply)) ==> staged
    ensures !trouble && want.size == Some(|stored|) && |stored| <= want.maxBytes ==>
              && (Complete(reply, stored, start) ==> staged && part == Some(stored))
              && (CutShort(reply, stored, start) ==> !staged && |part.value| < |stored|)
    ensures staged && (reply.declared.Some? || want.size == Some(|stored|))
            && (want.size.Some? ==> |part.value| == want.size.value) ==>
              part == Some(stored)
  {
    hide Joined;
    if start > 0 {
      assert before.value == stored[..start];
      assert stored == stored[..start] + stored[start..];
      assert Base(before, start) + got <= stored;
    } else {
      assert Base(before, start) + got == got <= stored;
    }
    if staged && |part.value| == |stored| {
      assert part.value == stored[..|part.value|] == stored;
    }
  }

  lemma StreamKeepsPrefix(reply: Reply, stored: seq<byte>, start: nat, before: Option<Bytes>, got: seq<byte>,
                          part: Bytes, honest: bool)
    requires honest ==> Honest(reply, stored, start) && (before.Some? ==> before.value <= stored)
    requires reply.Body? && (start > 0 ==> reply.partial && before.Some? && |before.value| == start)
    requires Some(part) == before || (part == Base(before, start) + got && got <= Joined(reply.pieces))
    ensures honest ==> part <= stored
  {
    if honest && start > 0 {
      assert stored == stored[..start] + stored[start..];
    }
  }

  /** Why an honest server must declare lengths, or the size be expected: a beginning of
      the object that meets the caller's demands itself can be served as a short body
      that is honest, ends cleanly, and passes every test on the way to publication. */
  lemma UndeclaredShortBodyPasses(sha: Bytes -> Digest, want: Expect, stored: seq<byte>, short: Bytes)
    requires short < stored && Meets(sha, want, short)
    ensures var reply := Body(false, None, [short], false);
            && Honest(reply, stored, 0) && !reply.broken && |Joined(reply.pieces)| <= want.maxBytes
            && Base(None, 0) + Joined(reply.pieces) == short && Matching(sha, want, short) && short != stored
  {
    var pieces := [short];
    assert JoinedTo(pieces, 1) == JoinedTo(pieces, 0) + pieces[0];
    assert Joined(pieces) == short;
  }
}
