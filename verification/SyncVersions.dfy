/** Choosing one version per file from a bucket listing. */
module SyncVersions {
  import opened Text
  import opened SyncManifest

  datatype Version = Version(sha256: Hex, size: nat, lastModified: string)

  type Candidates = seq<(string, Version)>

  /** The versions listed for one path, in listing order. */
  function Group(cands: Candidates, rel: string): seq<Version> {
    if cands == [] then []
    else
      var last := cands[|cands| - 1];
      Group(cands[..|cands| - 1], rel) + if last.0 == rel then [last.1] else []
  }

  function Stamps(g: seq<Version>): (s: seq<string>)
    ensures |s| == |g| && forall i :: 0 <= i < |g| ==> s[i] == g[i].lastModified
  {
    if g == [] then [] else [g[0].lastModified] + Stamps(g[1..])
  }

  function Repeats(sorted: seq<string>): bool {
    exists i :: 0 < i < |sorted| && sorted[i - 1] == sorted[i]
  }

  function FindStamp(g: seq<Version>, stamp: string): (v: Version)
    requires stamp in Stamps(g)
    ensures v in g && v.lastModified == stamp
  {
    if g[0].lastModified == stamp then g[0]
    else
      assert Stamps(g) == [g[0].lastModified] + Stamps(g[1..]);
      FindStamp(g[1..], stamp)
  }

  /** A single version is taken as it is; several only when their timestamps are
      all present and all different, and then the newest. */
  function Pick(g: seq<Version>): Option<Version>
    requires g != []
  {
    if |g| == 1 then Some(g[0])
    else if "" in Stamps(g) then None
    else
      var sorted := Sort(Stamps(g));
      assert |sorted| == |multiset(sorted)| == |g|;
      if Repeats(sorted) then None
      else
        assert sorted[|sorted| - 1] in multiset(Stamps(g));
        Some(FindStamp(g, sorted[|sorted| - 1]))
  }

  function Paths(cands: Candidates): (rels: set<string>)
    ensures forall rel :: rel in rels <==> Group(cands, rel) != []
  {
    if cands == [] then {}
    else Paths(cands[..|cands| - 1]) + {cands[|cands| - 1].0}
  }

  function Chosen(cands: Candidates): map<string, Version> {
    map rel | rel in Paths(cands) && Pick(Group(cands, rel)).Some? :: Pick(Group(cands, rel)).value
  }

  lemma ChosenAt(cands: Candidates, rel: string)
    ensures Group(cands, rel) == [] ==> rel !in Chosen(cands)
    ensures Group(cands, rel) != [] ==>
              (rel in Chosen(cands) <==> Pick(Group(cands, rel)).Some?)
              && (rel in Chosen(cands) ==> Chosen(cands)[rel] == Pick(Group(cands, rel)).value)
  {
  }

  lemma GroupStep(cands: Candidates, i: nat, rel: string)
    requires i < |cands|
    ensures Group(cands[..i + 1], rel) == Group(cands[..i], rel) + if cands[i].0 == rel then [cands[i].1] else []
    ensures Paths(cands[..i + 1]) == Paths(cands[..i]) + {cands[i].0}
  {
    assert cands[..i + 1][..i] == cands[..i];
  }

  /** The versions of the first i candidates, collected per path. */
  ghost predicate GroupedTo(cands: Candidates, i: nat, byRel: map<string, seq<Version>>)
    requires i <= |cands|
  {
    byRel.Keys == Paths(cands[..i]) && forall rel :: rel in byRel ==> byRel[rel] == Group(cands[..i], rel)
  }

  lemma GroupedStep(cands: Candidates, i: nat, byRel: map<string, seq<Version>>)
    requires i < |cands| && GroupedTo(cands, i, byRel)
    ensures var (rel, version) := cands[i];
            GroupedTo(cands, i + 1, byRel[rel := (if rel in byRel then byRel[rel] else []) + [version]])
  {
    var (rel, version) := cands[i];
    var after := byRel[rel := (if rel in byRel then byRel[rel] else []) + [version]];
    GroupStep(cands, i, rel);
    hide Group, Paths;
    assert after.Keys == byRel.Keys + {rel};
    forall r | r in after ensures after[r] == Group(cands[..i + 1], r) {
      GroupStep(cands, i, r);
    }
  }

  /** Versions collected per path. */
  method GroupByPath(cands: Candidates) returns (byRel: map<string, seq<Version>>)
    ensures byRel.Keys == Paths(cands)
    ensures forall rel :: rel in byRel ==> byRel[rel] == Group(cands, rel)
  {
    byRel := map[];
    var i := 0;
    assert GroupedTo(cands, 0, byRel);
    hide Group, Paths;
    while i < |cands|
      invariant 0 <= i <= |cands| && GroupedTo(cands, i, byRel)
    {
      hide GroupedTo;
      GroupedStep(cands, i, byRel);
      var (rel, version) := cands[i];
      byRel := byRel[rel := (if rel in byRel then byRel[rel] else []) + [version]];
      i := i + 1;
    }
    assert cands[..i] == cands;
  }

  /** The choices among some of the paths. */
  function ChosenFor(cands: Candidates, rels: seq<string>): map<string, Version> {
    map rel | rel in Chosen(cands) && rel in rels :: Chosen(cands)[rel]
  }

  lemma ChosenForNext(cands: Candidates, rels: seq<string>, k: nat)
    requires k < |rels| && Group(cands, rels[k]) != []
    ensures var pick, before := Pick(Group(cands, rels[k])), ChosenFor(cands, rels[..k]);
            ChosenFor(cands, rels[..k + 1]) == if pick.Some? then before[rels[k] := pick.value] else before
  {
    hide Chosen, Group, Pick;
    ChosenAt(cands, rels[k]);
    forall rel ensures rel in rels[..k + 1] <==> rel in rels[..k] || rel == rels[k] {
      assert rels[..k + 1] == rels[..k] + [rels[k]];
    }
  }

  method ChooseNewest(cands: Candidates) returns (chosen: map<string, Version>)
    ensures chosen == Chosen(cands)
  {
    hide Group, Paths, Pick, Sorted, Chosen;
    var byRel := GroupByPath(cands);
    chosen := map[];
    var rels := Sorted(byRel.Keys);
    var k := 0;
    while k < |rels|
      invariant 0 <= k <= |rels|
      invariant chosen == ChosenFor(cands, rels[..k])
    {
      assert rels[k] in byRel;
      ChosenForNext(cands, rels, k);
      var pick := Pick(byRel[rels[k]]);
      if pick.Some? {
        chosen := chosen[rels[k] := pick.value];
      }
      k := k + 1;
    }
    assert rels[..k] == rels;
    forall rel | rel in Chosen(cands) ensures rel in rels {
      ChosenAt(cands, rel);
    }
  }

  // ------------------------------------------------------------- properties

  /** Without adjacent repetition an ascending sequence holds each element once. */
  lemma StrictIsInjective(s: seq<string>, i: nat, j: nat)
    requires Ascending(s) && !Repeats(s) && i < j < |s|
    ensures s[i] != s[j]
  {
    if s[i] == s[j] {
      assert Le(s[j - 1], s[j]) && (i < j - 1 ==> Le(s[i], s[j - 1]));
      LeAntisymmetric(s[j - 1], s[j]);
    }
  }

  lemma {:induction false} CountAtLeast(s: seq<string>, i: nat, j: nat)
    requires i < j < |s| && s[i] == s[j]
    ensures multiset(s)[s[i]] >= 2
  {
    assert s == s[..j] + [s[j]] + s[j + 1..];
    assert s[i] in s[..j];
    assert multiset(s) == multiset(s[..j]) + multiset{s[j]} + multiset(s[j + 1..]);
  }

  lemma {:induction false} CountTwice(s: seq<string>, x: string) returns (i: nat, j: nat)
    requires multiset(s)[x] >= 2
    ensures i < j < |s| && s[i] == s[j] == x
  {
    i :| 0 <= i < |s| && s[i] == x;
    assert s == s[..i] + [x] + s[i + 1..];
    var rest := s[..i] + s[i + 1..];
    assert multiset(s) == multiset(rest) + multiset{x};
    assert x in multiset(rest);
    var k :| 0 <= k < |rest| && rest[k] == x;
    if k < i {
      i, j := k, i;
    } else {
      j := k + 1;
    }
  }

  /** Two positions with the same stamp make the choice ambiguous. */
  lemma RepeatedStampRepeats(g: seq<Version>, i: nat, j: nat)
    requires i < j < |g| && g[i].lastModified == g[j].lastModified
    ensures Repeats(Sort(Stamps(g)))
  {
    var stamps := Stamps(g);
    CountAtLeast(stamps, i, j);
    SortAscends(stamps);
    var sorted := Sort(stamps);
    if !Repeats(sorted) {
      var a, c := CountTwice(sorted, stamps[i]);
      StrictIsInjective(sorted, a, c);
    }
  }

  /** The version is unambiguously the latest of its group. */
  ghost predicate UniqueLatest(g: seq<Version>, v: Version) {
    && v in g
    && (|g| > 1 ==>
          && (forall i :: 0 <= i < |g| ==> g[i].lastModified != "" && Le(g[i].lastModified, v.lastModified))
          && (forall i, j :: 0 <= i < j < |g| ==> g[i].lastModified != g[j].lastModified))
  }

  lemma RepeatHasPositions(g: seq<Version>) returns (i: nat, j: nat)
    requires Repeats(Sort(Stamps(g)))
    ensures i < j < |g| && g[i].lastModified == g[j].lastModified
  {
    var sorted := Sort(Stamps(g));
    var k :| 0 < k < |sorted| && sorted[k - 1] == sorted[k];
    CountAtLeast(sorted, k - 1, k);
    i, j := CountTwice(Stamps(g), sorted[k]);
  }

  /** The choice is the unique latest version, or nothing when there is none. */
  lemma PickIsUniqueLatest(g: seq<Version>, v: Version)
    requires g != []
    ensures Pick(g) == Some(v) <==> UniqueLatest(g, v)
  {
    var stamps := Stamps(g);
    var sorted := Sort(stamps);
    SortAscends(stamps);
    assert |sorted| == |multiset(sorted)| == |g|;
    if |g| > 1 {
      if "" in stamps {
        var i :| 0 <= i < |stamps| && stamps[i] == "";
        assert g[i].lastModified == "";
      } else if Repeats(sorted) {
        var i, j := RepeatHasPositions(g);
      } else {
        NewestIsUniqueLatest(g);
        var newest := Pick(g).value;
        if UniqueLatest(g, v) {
          LatestIsUnique(g, v, newest);
        }
      }
    }
  }

  lemma NewestIsUniqueLatest(g: seq<Version>)
    requires |g| > 1 && "" !in Stamps(g) && !Repeats(Sort(Stamps(g)))
    ensures UniqueLatest(g, Pick(g).value)
  {
    var stamps := Stamps(g);
    var sorted := Sort(stamps);
    SortAscends(stamps);
    assert |sorted| == |multiset(sorted)| == |g|;
    var newest := sorted[|sorted| - 1];
    LeTotal(newest, newest);
    forall i | 0 <= i < |g| ensures g[i].lastModified != "" && Le(g[i].lastModified, newest) {
      assert stamps[i] in multiset(sorted);
      var k :| 0 <= k < |sorted| && sorted[k] == stamps[i];
    }
    forall i, j | 0 <= i < j < |g| ensures g[i].lastModified != g[j].lastModified {
      if g[i].lastModified == g[j].lastModified {
        RepeatedStampRepeats(g, i, j);
      }
    }
  }

  lemma LatestIsUnique(g: seq<Version>, v: Version, u: Version)
    requires |g| > 1 && UniqueLatest(g, v) && UniqueLatest(g, u)
    ensures u == v
  {
    LeAntisymmetric(u.lastModified, v.lastModified);
  }

  lemma {:induction false} GroupCounts(cands: Candidates, rel: string, v: Version)
    ensures multiset(Group(cands, rel))[v] == multiset(cands)[(rel, v)]
  {
    if cands != [] {
      var n := |cands| - 1;
      GroupCounts(cands[..n], rel, v);
      assert cands == cands[..n] + [cands[n]];
    }
  }

  lemma PermutedGroups(a: Candidates, b: Candidates, rel: string)
    requires multiset(a) == multiset(b)
    ensures multiset(Group(a, rel)) == multiset(Group(b, rel))
  {
    forall v ensures multiset(Group(a, rel))[v] == multiset(Group(b, rel))[v] {
      GroupCounts(a, rel, v);
      GroupCounts(b, rel, v);
    }
  }

  lemma StampsConcat(g: seq<Version>, h: seq<Version>)
    ensures Stamps(g + h) == Stamps(g) + Stamps(h)
  {
    hide Stamps;
  }

  /** Moves one occurrence of `v` to the front, up to order. */
  lemma Extract(h: seq<Version>, v: Version) returns (rest: seq<Version>)
    requires v in h
    ensures multiset(h) == multiset(rest) + multiset{v} && |rest| + 1 == |h|
    ensures multiset(Stamps(h)) == multiset(Stamps(rest)) + multiset{v.lastModified}
  {
    var k :| 0 <= k < |h| && h[k] == v;
    var front, back := h[..k], h[k + 1..];
    rest := front + back;
    assert h == front + ([v] + back);
    StampsConcat(front, back);
    StampsConcat(front, [v] + back);
    StampsConcat([v], back);
  }

  lemma HeadOut(g: seq<Version>)
    requires g != []
    ensures multiset(g) == multiset(g[1..]) + multiset{g[0]}
    ensures multiset(Stamps(g)) == multiset(Stamps(g[1..])) + multiset{g[0].lastModified}
  {
    assert g == [g[0]] + g[1..];
    assert Stamps(g) == [g[0].lastModified] + Stamps(g[1..]);
  }

  lemma {:induction false} PermutedStamps(g: seq<Version>, h: seq<Version>)
    requires multiset(g) == multiset(h)
    ensures multiset(Stamps(g)) == multiset(Stamps(h))
  {
    hide Stamps;
    assert |g| == |multiset(g)| == |h|;
    if g != [] {
      assert g[0] in multiset(h);
      var rest := Extract(h, g[0]);
      HeadOut(g);
      assert multiset(g[1..]) == multiset(g) - multiset{g[0]};
      assert multiset(rest) == multiset(h) - multiset{g[0]};
      PermutedStamps(g[1..], rest);
    } else {
      assert g == h;
    }
  }

  lemma UniqueLatestIgnoresOrder(g: seq<Version>, h: seq<Version>, v: Version)
    requires g != [] && multiset(g) == multiset(h) && UniqueLatest(g, v)
    ensures UniqueLatest(h, v)
  {
    assert |g| == |multiset(g)| == |h|;
    assert v in multiset(h);
    if |g| > 1 {
      forall i | 0 <= i < |h| ensures h[i].lastModified != "" && Le(h[i].lastModified, v.lastModified) {
        assert h[i] in multiset(g);
        var k :| 0 <= k < |g| && g[k] == h[i];
      }
      forall i, j | 0 <= i < j < |h| ensures h[i].lastModified != h[j].lastModified {
        if h[i].lastModified == h[j].lastModified {
          PermutedStamps(g, h);
          CountAtLeast(Stamps(h), i, j);
          var i', j' := CountTwice(Stamps(g), h[i].lastModified);
        }
      }
    }
  }

  lemma PickIgnoresOrder(g: seq<Version>, h: seq<Version>)
    requires g != [] && multiset(g) == multiset(h)
    ensures h != [] && Pick(g) == Pick(h)
  {
    assert |g| == |multiset(g)| == |h|;
    hide Pick, UniqueLatest;
    if Pick(g).Some? {
      PickIsUniqueLatest(g, Pick(g).value);
      UniqueLatestIgnoresOrder(g, h, Pick(g).value);
      PickIsUniqueLatest(h, Pick(g).value);
    } else if Pick(h).Some? {
      PickIsUniqueLatest(h, Pick(h).value);
      UniqueLatestIgnoresOrder(h, g, Pick(h).value);
      PickIsUniqueLatest(g, Pick(h).value);
    }
  }

  /** Recovery does not depend on the order of the listing. */
  lemma ChoiceIgnoresOrder(a: Candidates, b: Candidates)
    requires multiset(a) == multiset(b)
    ensures Chosen(a) == Chosen(b)
  {
    forall rel ensures rel in Chosen(a) <==> rel in Chosen(b)
                ensures rel in Chosen(a) ==> Chosen(a)[rel] == Chosen(b)[rel]
    {
      PermutedGroups(a, b, rel);
      var g, h := Group(a, rel), Group(b, rel);
      assert |g| == |multiset(g)| == |multiset(h)| == |h|;
      if g != [] {
        PickIgnoresOrder(g, h);
      }
    }
  }
}
