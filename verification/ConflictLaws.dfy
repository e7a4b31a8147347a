/** What a resolved file keeps: both sides, and each entry once. */
module ConflictLaws {
  import opened Results
  import opened Text
  import opened Conflicts

  // ---- a file as its two sides made it

  datatype Segment = Plain(line: string) | Conflict(region: Region)

  /** The lines a file with these segments has: a conflict between its four markers. */
  function Lines(segments: seq<Segment>): (lines: seq<string>) {
    if segments == [] then []
    else SegmentLines(segments[0]) + Lines(segments[1..])
  }

  function SegmentLines(s: Segment): (lines: seq<string>)
    ensures lines != []
  {
    match s
    case Plain(line) => [line]
    case Conflict(r) => [OURS] + RegionLines(r)
  }

  /** A conflict after its first marker. */
  function RegionLines(r: Region): (lines: seq<string>) {
    r.ours + [BASE] + r.base + [SEP] + r.theirs + [THEIRS]
  }

  /** No line that stands in a segment is the marker that would end its part. */
  predicate Legible(s: Segment) {
    match s
    case Plain(line) => line != OURS
    case Conflict(r) => BASE !in r.ours && SEP !in r.base && THEIRS !in r.theirs
  }

  ghost predicate AllLegible(segments: seq<Segment>) {
    forall k :: 0 <= k < |segments| ==> Legible(segments[k])
  }

  function Ours(segments: seq<Segment>): (lines: seq<string>) {
    if segments == [] then [] else
    (if segments[0].Plain? then [segments[0].line] else segments[0].region.ours) + Ours(segments[1..])
  }

  function Theirs(segments: seq<Segment>): (lines: seq<string>) {
    if segments == [] then [] else
    (if segments[0].Plain? then [segments[0].line] else segments[0].region.theirs) + Theirs(segments[1..])
  }

  function SwapOne(s: Segment): (swapped: Segment) {
    if s.Plain? then s else Conflict(Region(s.region.theirs, s.region.base, s.region.ours))
  }

  /** The file with the sides exchanged. */
  function Swap(segments: seq<Segment>): (r: seq<Segment>)
    ensures |r| == |segments|
  {
    if segments == [] then [] else [SwapOne(segments[0])] + Swap(segments[1..])
  }

  // ---- reading the segments back

  lemma {:induction false} UntilOf(part: seq<string>, marker: string, rest: seq<string>)
    requires marker !in part
    ensures Until(part + [marker] + rest, marker) == Some((part, rest))
    decreases |part|
  {
    var lines := part + [marker] + rest;
    if part == [] {
      assert lines[1..] == rest;
    } else {
      assert lines[1..] == part[1..] + [marker] + rest && lines[0] == part[0] && part[0] in part;
      UntilOf(part[1..], marker, rest);
      assert part == [part[0]] + part[1..];
    }
  }

  lemma {:induction false} UntilMeans(lines: seq<string>, marker: string)
    ensures var r := Until(lines, marker);
            r.Some? ==> marker !in r.value.0 && lines == r.value.0 + [marker] + r.value.1
  {
    if lines != [] && lines[0] != marker {
      UntilMeans(lines[1..], marker);
    }
  }

  lemma ReadOf(r: Region, rest: seq<string>)
    requires Legible(Conflict(r))
    ensures Read(RegionLines(r) + rest) == Some((r, rest))
  {
    hide Until;
    var c := r.theirs + [THEIRS] + rest;
    var b := r.base + [SEP] + c;
    PartsOfRegion(r, rest);
    UntilOf(r.ours, BASE, b);
    UntilOf(r.base, SEP, c);
    UntilOf(r.theirs, THEIRS, rest);
  }

  lemma ReadMeans(lines: seq<string>)
    ensures var r := Read(lines);
            r.Some? ==> Legible(Conflict(r.value.0)) && [OURS] + lines == SegmentLines(Conflict(r.value.0)) + r.value.1
  {
    hide Until, RegionLines;
    var r := Read(lines);
    if r.Some? {
      var (a, b) := (Until(lines, BASE).value, Until(Until(lines, BASE).value.1, SEP).value);
      UntilMeans(lines, BASE);
      UntilMeans(a.1, SEP);
      UntilMeans(b.1, THEIRS);
      PartsOfRegion(r.value.0, r.value.1);
      Assoc([OURS], RegionLines(r.value.0), r.value.1);
    }
  }

  lemma PartsOfRegion(r: Region, rest: seq<string>)
    ensures r.ours + [BASE] + (r.base + [SEP] + (r.theirs + [THEIRS] + rest)) == RegionLines(r) + rest
  {
    var c := r.theirs + [THEIRS] + rest;
    var b := r.base + [SEP] + c;
    assert r.ours + [BASE] + b == r.ours + [BASE] + r.base + [SEP] + c;
  }

  /** What a file with these segments becomes. */
  function MergeSegments(rel: string, segments: seq<Segment>, n: nat): (merged: Result<Merged, Refusal>) {
    if segments == [] then Ok(Merged([], [])) else
    match segments[0]
    case Plain(line) => After(Merged([line], []), MergeSegments(rel, segments[1..], n + 1))
    case Conflict(r) =>
      var merged :- Merge(rel, n + 1, r.ours, r.base, r.theirs);
      After(Merged(merged, merged), MergeSegments(rel, segments[1..], n + |merged|))
  }

  lemma LinesStart(s: Segment, rest: seq<string>)
    requires Legible(s)
    ensures var lines := SegmentLines(s) + rest;
            match s
            case Plain(line) => lines[0] == line && lines[1..] == rest
            case Conflict(r) => lines[0] == OURS && Read(lines[1..]) == Some((r, rest))
  {
    hide Read, RegionLines;
    if s.Conflict? {
      ReadOf(s.region, rest);
      FirstDropped(OURS, RegionLines(s.region), rest);
    }
  }

  lemma FirstDropped(first: string, a: seq<string>, rest: seq<string>)
    ensures ([first] + a + rest)[0] == first && ([first] + a + rest)[1..] == a + rest
  {
  }

  lemma {:induction false} MergeOfLines(rel: string, segments: seq<Segment>, n: nat)
    requires AllLegible(segments)
    ensures MergeLines(rel, Lines(segments), n) == MergeSegments(rel, segments, n)
    decreases |segments|
  {
    hide Merge, After, Read, SegmentLines;
    if segments != [] {
      var rest := Lines(segments[1..]);
      var lines := Lines(segments);
      assert Legible(segments[0]);
      LinesStart(segments[0], rest);
      match segments[0]
      case Plain(line) =>
        assert lines[1..] == rest && lines[0] != OURS;
        MergeOfLines(rel, segments[1..], n + 1);
      case Conflict(r) =>
        var merged := Merge(rel, n + 1, r.ours, r.base, r.theirs);
        if merged.Ok? {
          MergeOfLines(rel, segments[1..], n + |merged.value|);
        }
    }
  }

  /** The segments of a file; none when a conflict in it does not end. */
  function Segments(lines: seq<string>): (r: Option<seq<Segment>>)
    decreases |lines|
  {
    if lines == [] then Some([])
    else if lines[0] != OURS then
      var rest := Segments(lines[1..]);
      if rest.None? then None else Some([Plain(lines[0])] + rest.value)
    else
      var region := Read(lines[1..]);
      if region.None? then None else
      var rest := Segments(region.value.1);
      if rest.None? then None else Some([Conflict(region.value.0)] + rest.value)
  }

  lemma {:induction false} SegmentsMean(lines: seq<string>)
    ensures var r := Segments(lines); r.Some? ==> AllLegible(r.value) && Lines(r.value) == lines
    decreases |lines|
  {
    hide Read, SegmentLines;
    if lines != [] && Segments(lines).Some? {
      var s := Segments(lines).value;
      assert lines == [lines[0]] + lines[1..];
      if lines[0] != OURS {
        SegmentsMean(lines[1..]);
        PlainLines(lines[0]);
        assert s[1..] == Segments(lines[1..]).value;
      } else {
        ReadMeans(lines[1..]);
        var rest := Read(lines[1..]).value.1;
        SegmentsMean(rest);
        assert s[1..] == Segments(rest).value;
      }
    }
  }

  lemma PlainLines(line: string)
    requires line != OURS
    ensures SegmentLines(Plain(line)) == [line] && Legible(Plain(line))
  {
  }

  /** A file that resolves has segments, and resolves as they do. */
  lemma {:induction false} ResolvedHasSegments(rel: string, lines: seq<string>, n: nat)
    requires MergeLines(rel, lines, n).Ok?
    ensures Segments(lines).Some?
    decreases |lines|
  {
    hide Merge, Read;
    if lines != [] {
      if lines[0] != OURS {
        ResolvedHasSegments(rel, lines[1..], n + 1);
      } else {
        var (r, rest) := Read(lines[1..]).value;
        ResolvedHasSegments(rel, rest, n + |Merge(rel, n + 1, r.ours, r.base, r.theirs).value|);
      }
    }
  }

  // ---- nothing is lost

  predicate Subsequence(a: seq<string>, b: seq<string>) {
    a == [] || (b != [] && ((a[0] == b[0] && Subsequence(a[1..], b[1..])) || Subsequence(a, b[1..])))
  }

  lemma {:induction false} SubsequenceMore(front: seq<string>, a: seq<string>, b: seq<string>)
    requires Subsequence(a, b)
    ensures Subsequence(a, front + b)
    decreases |front|
  {
    if front == [] {
      assert front + b == b;
    } else {
      assert (front + b)[1..] == front[1..] + b;
      SubsequenceMore(front[1..], a, b);
    }
  }

  lemma {:induction false} SubsequenceJoin(a: seq<string>, b: seq<string>, c: seq<string>, d: seq<string>)
    requires Subsequence(a, b) && Subsequence(c, d)
    ensures Subsequence(a + c, b + d)
    decreases |b|
  {
    if a == [] {
      assert a + c == c;
      SubsequenceMore(b, c, d);
    } else {
      assert (b + d)[1..] == b[1..] + d;
      if a[0] == b[0] && Subsequence(a[1..], b[1..]) {
        assert (a + c)[1..] == a[1..] + c;
        SubsequenceJoin(a[1..], b[1..], c, d);
      } else {
        SubsequenceJoin(a, b[1..], c, d);
      }
    }
  }

  lemma {:induction false} SubsequenceSelf(a: seq<string>)
    ensures Subsequence(a, a)
  {
    if a != [] {
      SubsequenceSelf(a[1..]);
    }
  }

  lemma SubsequenceFront(a: seq<string>, more: seq<string>)
    ensures Subsequence(a, a + more)
  {
    SubsequenceSelf(a);
    SubsequenceJoin(a, a, [], more);
    assert a + [] == a;
  }

  lemma SubsequenceBack(more: seq<string>, a: seq<string>)
    ensures Subsequence(a, more + a)
  {
    SubsequenceSelf(a);
    SubsequenceMore(more, a, a);
  }

  /** A conflict becomes both sides, this side's first, or the side that holds the other. */
  lemma MergeHoldsBoth(rel: string, at: nat, ours: seq<string>, base: seq<string>, theirs: seq<string>)
    ensures var m := Merge(rel, at, ours, base, theirs);
            m.Ok? ==>
              m.value in {ours + theirs, ours, theirs} && Subsequence(ours, m.value) && Subsequence(theirs, m.value)
  {
    hide Subsequence, AnyEntry;
    var m := Merge(rel, at, ours, base, theirs);
    if m.Ok? {
      SubsequenceFront(ours, theirs);
      SubsequenceBack(ours, theirs);
      SubsequenceSelf(m.value);
      var shorter := if |ours| >= |theirs| then theirs else ours;
      if Contained(rel, ours, theirs).Some? {
        var n, k := |shorter|, |m.value| - |shorter|;
        if m.value[..n] == shorter {
          SubsequenceFront(shorter, m.value[n..]);
          assert m.value == shorter + m.value[n..];
        } else {
          SubsequenceBack(m.value[..k], shorter);
          assert m.value == m.value[..k] + shorter;
        }
      }
    }
  }

  lemma {:induction false} MergeKeepsSides(rel: string, segments: seq<Segment>, n: nat)
    ensures var m := MergeSegments(rel, segments, n);
            m.Ok? ==> Subsequence(Ours(segments), m.value.out) && Subsequence(Theirs(segments), m.value.out)
    decreases |segments|
  {
    hide Merge, Subsequence;
    SubsequenceSelf([]);
    if segments != [] {
      var tail := segments[1..];
      match segments[0]
      case Plain(line) =>
        MergeKeepsSides(rel, tail, n + 1);
        if MergeSegments(rel, tail, n + 1).Ok? {
          SubsequenceSelf([line]);
          var out := MergeSegments(rel, tail, n + 1).value.out;
          SubsequenceJoin([line], [line], Ours(tail), out);
          SubsequenceJoin([line], [line], Theirs(tail), out);
        }
      case Conflict(r) =>
        var m := Merge(rel, n + 1, r.ours, r.base, r.theirs);
        if m.Ok? && MergeSegments(rel, tail, n + |m.value|).Ok? {
          MergeKeepsSides(rel, tail, n + |m.value|);
          MergeHoldsBoth(rel, n + 1, r.ours, r.base, r.theirs);
          var out := MergeSegments(rel, tail, n + |m.value|).value.out;
          SubsequenceJoin(r.ours, m.value, Ours(tail), out);
          SubsequenceJoin(r.theirs, m.value, Theirs(tail), out);
        }
    }
  }

  /** A file that resolves has both its versions, this side's and the other's, in the result, in order. */
  lemma ResolveLosesNothing(rel: string, lines: seq<string>)
    requires Resolved(rel, lines).Ok?
    ensures var out := Resolved(rel, lines).value;
            && Segments(lines).Some?
            && Subsequence(Ours(Segments(lines).value), out)
            && Subsequence(Theirs(Segments(lines).value), out)
  {
    hide MergeLines, MergeSegments, Segments, Lines, FirstBad, Subsequence;
    ResolvedHasSegments(rel, lines, 0);
    var segments := Segments(lines).value;
    SegmentsMean(lines);
    MergeOfLines(rel, segments, 0);
    MergeKeepsSides(rel, segments, 0);
  }

  // ---- nothing is repeated

  /** The lines of the conflicts. */
  function Added(segments: seq<Segment>): (lines: seq<string>) {
    if segments == [] then [] else
    (if segments[0].Plain? then [] else segments[0].region.ours + segments[0].region.theirs) + Added(segments[1..])
  }

  ghost predicate Alone(rel: string, out: seq<string>, line: string) {
    IsEntry(rel, line) ==>
      && multiset(out)[line] == 1
      && (ProseFile(rel) ==> forall l :: l in out && IsEntry(rel, l) && KeyOf(l) == KeyOf(line) ==> l == line)
  }

  lemma AloneMeans(rel: string, out: seq<string>, line: string)
    requires line in out
    ensures Alone(rel, out, line) <==> !Repeats(rel, out, line) && !HasOtherText(rel, out, line)
  {
    hide IsEntry, KeyOf, ProseFile;
    assert line in multiset(out);
  }

  lemma {:induction false} FirstBadMeans(rel: string, out: seq<string>, added: seq<string>)
    requires forall l :: l in added ==> l in out
    ensures FirstBad(rel, out, added).None? <==> forall l :: l in added ==> Alone(rel, out, l)
  {
    hide Alone, Repeats, HasOtherText;
    if added != [] {
      FirstBadMeans(rel, out, added[1..]);
      AloneMeans(rel, out, added[0]);
      assert forall l :: l in added <==> l == added[0] || l in added[1..];
    }
  }

  lemma MergeHasAll(rel: string, at: nat, r: Region)
    ensures var m := Merge(rel, at, r.ours, r.base, r.theirs);
            m.Ok? ==> SameMembers(m.value, r.ours + r.theirs)
  {
    hide AnyEntry;
    var m := Merge(rel, at, r.ours, r.base, r.theirs);
    if m.Ok? && Contained(rel, r.ours, r.theirs).Some? {
      var shorter := if |r.ours| >= |r.theirs| then r.theirs else r.ours;
      var k := |m.value| - |shorter|;
      forall i | 0 <= i < |shorter|
        ensures shorter[i] in m.value
      {
        assert shorter[i] == m.value[..|shorter|][i] || shorter[i] == m.value[k..][i];
      }
    }
  }

  ghost predicate SameMembers(a: seq<string>, b: seq<string>) {
    forall l :: l in a <==> l in b
  }

  ghost predicate Within(a: seq<string>, b: seq<string>) {
    forall l :: l in a ==> l in b
  }

  lemma MembersJoin(a: seq<string>, b: seq<string>, c: seq<string>, d: seq<string>)
    ensures SameMembers(a, b) && SameMembers(c, d) ==> SameMembers(a + c, b + d)
    ensures Within(a, b) && Within(c, d) ==> Within(a + c, b + d)
  {
  }

  lemma {:induction false} MergeAddsAll(rel: string, segments: seq<Segment>, n: nat)
    ensures var m := MergeSegments(rel, segments, n);
            m.Ok? ==> SameMembers(m.value.added, Added(segments)) && Within(m.value.added, m.value.out)
    decreases |segments|
  {
    hide Merge, SameMembers, Within;
    SelfMembers([]);
    if segments != [] {
      var tail := segments[1..];
      match segments[0]
      case Plain(line) =>
        MergeAddsAll(rel, tail, n + 1);
        if MergeSegments(rel, tail, n + 1).Ok? {
          var rest := MergeSegments(rel, tail, n + 1).value;
          WithinAny([line]);
          MembersJoin([], [], rest.added, Added(tail));
          MembersJoin([], [line], rest.added, rest.out);
        }
      case Conflict(r) =>
        MergeHasAll(rel, n + 1, r);
        var m := Merge(rel, n + 1, r.ours, r.base, r.theirs);
        if m.Ok? && MergeSegments(rel, tail, n + |m.value|).Ok? {
          MergeAddsAll(rel, tail, n + |m.value|);
          var rest := MergeSegments(rel, tail, n + |m.value|).value;
          SelfMembers(m.value);
          MembersJoin(m.value, r.ours + r.theirs, rest.added, Added(tail));
          MembersJoin(m.value, m.value, rest.added, rest.out);
        }
    }
  }

  lemma SelfMembers(a: seq<string>)
    ensures SameMembers(a, a) && Within(a, a)
  {
  }

  lemma WithinAny(a: seq<string>)
    ensures Within([], a)
  {
  }

  /** An entry that either side of a conflict inserts is in the result once, and in a file of prose no other entry
      there has its key. */
  lemma ResolveRepeatsNothing(rel: string, lines: seq<string>, line: string)
    requires Resolved(rel, lines).Ok? && Segments(lines).Some? && line in Added(Segments(lines).value)
    ensures Alone(rel, Resolved(rel, lines).value, line)
  {
    hide MergeLines, MergeSegments, Segments, Lines, FirstBad, Alone, Added;
    var segments := Segments(lines).value;
    SegmentsMean(lines);
    MergeOfLines(rel, segments, 0);
    MergeAddsAll(rel, segments, 0);
    var m := MergeSegments(rel, segments, 0).value;
    FirstBadMeans(rel, m.out, m.added);
  }

  // ---- the sides exchanged

  lemma AnyEntryOf(rel: string, a: seq<string>, b: seq<string>)
    ensures AnyEntry(rel, a + b) <==> AnyEntry(rel, a) || AnyEntry(rel, b)
  {
    hide IsEntry;
    assert forall l :: l in a + b <==> l in a || l in b;
  }

  /** Exchanging the sides of a conflict refuses alike, or gives the same lines. */
  lemma MergeSwapped(rel: string, at: nat, ours: seq<string>, base: seq<string>, theirs: seq<string>)
    ensures var (m, s) := (Merge(rel, at, ours, base, theirs), Merge(rel, at, theirs, base, ours));
            if m.Ok? then s.Ok? && multiset(s.value) == multiset(m.value) && |s.value| == |m.value| else s == m
  {
    ContainedSwapped(rel, ours, theirs);
    hide Contained, AnyEntry, AnyProse, IsEntry, KeyOf, ProseFile;
    AnyEntryOf(rel, ours, theirs);
    AnyEntryOf(rel, theirs, ours);
    ShareSwapped(rel, ours, theirs);
    ShareSwapped(rel, theirs, ours);
    assert multiset(ours + theirs) == multiset(theirs + ours);
  }

  lemma ContainedSwapped(rel: string, ours: seq<string>, theirs: seq<string>)
    ensures Contained(rel, ours, theirs) == Contained(rel, theirs, ours)
  {
    hide AnyEntry;
    if |ours| == |theirs| {
      assert ours[..|theirs|] == ours == ours[|ours| - |theirs|..];
      assert theirs[..|ours|] == theirs == theirs[|theirs| - |ours|..];
    }
  }

  lemma ShareSwapped(rel: string, ours: seq<string>, theirs: seq<string>)
    ensures ShareLine(rel, ours, theirs) ==> ShareLine(rel, theirs, ours)
    ensures ShareKey(rel, ours, theirs) ==> ShareKey(rel, theirs, ours)
  {
    hide IsEntry, KeyOf;
    if ShareKey(rel, ours, theirs) {
      var l, m :| && l in ours && m in theirs && IsEntry(rel, l) && IsEntry(rel, m)
                  && KeyOf(l).Some? && KeyOf(l) == KeyOf(m);
      assert m in theirs && l in ours && IsEntry(rel, m) && IsEntry(rel, l);
    }
  }

  ghost predicate SameLines(a: Merged, b: Merged) {
    multiset(a.out) == multiset(b.out) && multiset(a.added) == multiset(b.added)
  }

  /** Refused alike, or the same lines. */
  ghost predicate AlikeOutcome(m: Result<Merged, Refusal>, s: Result<Merged, Refusal>) {
    if m.Ok? then s.Ok? && SameLines(m.value, s.value) else s == m
  }

  lemma {:induction false} MergeSegmentsSwapped(rel: string, segments: seq<Segment>, n: nat)
    ensures AlikeOutcome(MergeSegments(rel, segments, n), MergeSegments(rel, Swap(segments), n))
    decreases |segments|
  {
    hide Merge, AlikeOutcome, SameLines, After, Swap;
    Same(Merged([], []), Merged([], []));
    SwapNone();
    if segments != [] {
      var tail := segments[1..];
      SwapFirst(segments);
      match segments[0]
      case Plain(line) =>
        MergeSegmentsSwapped(rel, tail, n + 1);
        Same(Merged([line], []), Merged([line], []));
        AfterSame(Merged([line], []), Merged([line], []), MergeSegments(rel, tail, n + 1),
                  MergeSegments(rel, Swap(tail), n + 1));
      case Conflict(r) =>
        var m, s := Merge(rel, n + 1, r.ours, r.base, r.theirs), Merge(rel, n + 1, r.theirs, r.base, r.ours);
        MergeSwapped(rel, n + 1, r.ours, r.base, r.theirs);
        if m.Err? {
          SameRefusal(m.error);
        } else {
          MergeSegmentsSwapped(rel, tail, n + |m.value|);
          Same(Merged(m.value, m.value), Merged(s.value, s.value));
          AfterSame(Merged(m.value, m.value), Merged(s.value, s.value),
                    MergeSegments(rel, tail, n + |m.value|), MergeSegments(rel, Swap(tail), n + |m.value|));
        }
    }
  }

  lemma SwapNone()
    ensures Swap([]) == []
  {
  }

  lemma SwapFirst(segments: seq<Segment>)
    requires segments != []
    ensures Swap(segments)[0] == SwapOne(segments[0]) && Swap(segments)[1..] == Swap(segments[1..])
  {
  }

  lemma SameRefusal(e: Refusal)
    ensures AlikeOutcome(Err(e), Err(e))
  {
  }

  lemma Same(a: Merged, b: Merged)
    requires multiset(a.out) == multiset(b.out) && multiset(a.added) == multiset(b.added)
    ensures SameLines(a, b) && AlikeOutcome(Ok(a), Ok(b))
  {
  }

  lemma AfterSame(a: Merged, b: Merged, x: Result<Merged, Refusal>, y: Result<Merged, Refusal>)
    requires SameLines(a, b) && AlikeOutcome(x, y)
    ensures AlikeOutcome(After(a, x), After(b, y))
  {
  }

  /** What a file with these segments resolves to. */
  function ResolvedSegments(rel: string, segments: seq<Segment>): (resolved: Result<seq<string>, Refusal>) {
    var m :- MergeSegments(rel, segments, 0);
    var bad := FirstBad(rel, m.out, m.added);
    if bad.Some? then Err(bad.value) else Ok(m.out)
  }

  /** Both refused, or both resolved to the same lines in some order. */
  ghost predicate AlikeResult(r: Result<seq<string>, Refusal>, s: Result<seq<string>, Refusal>) {
    (r.Ok? <==> s.Ok?) && (r.Ok? ==> multiset(r.value) == multiset(s.value))
  }

  /** Exchanging the sides changes neither whether conflicts resolve nor the lines they give. Of files it says the
      same when the text of each is read back as its segments. */
  lemma ResolveSwapped(rel: string, segments: seq<Segment>)
    ensures AlikeResult(ResolvedSegments(rel, segments), ResolvedSegments(rel, Swap(segments)))
    ensures Segments(Lines(segments)) == Some(segments) && Segments(Lines(Swap(segments))) == Some(Swap(segments)) ==>
              AlikeResult(Resolved(rel, Lines(segments)), Resolved(rel, Lines(Swap(segments))))
  {
    hide MergeLines, MergeSegments, Segments, Lines, FirstBad, Alone, AllLegible;
    MergeSegmentsSwapped(rel, segments, 0);
    ReadsBackIff(segments);
    ReadsBackIff(Swap(segments));
    if AllLegible(segments) && AllLegible(Swap(segments)) {
      MergeOfLines(rel, segments, 0);
      MergeOfLines(rel, Swap(segments), 0);
    }
    var m, s := MergeSegments(rel, segments, 0), MergeSegments(rel, Swap(segments), 0);
    if m.Ok? {
      MergeAddsAll(rel, segments, 0);
      MergeAddsAll(rel, Swap(segments), 0);
      FirstBadMeans(rel, m.value.out, m.value.added);
      FirstBadMeans(rel, s.value.out, s.value.added);
      MultisetMembers(m.value.added, s.value.added);
      forall l
        ensures Alone(rel, m.value.out, l) <==> Alone(rel, s.value.out, l)
      {
        AloneSame(rel, m.value.out, s.value.out, l);
      }
    }
  }

  /** The text of segments is read back as them exactly when no line in one is the marker that would end its part. */
  lemma ReadsBackIff(segments: seq<Segment>)
    ensures Segments(Lines(segments)) == Some(segments) <==> AllLegible(segments)
  {
    SegmentsMean(Lines(segments));
    if AllLegible(segments) {
      SegmentsOfLines(segments);
    }
  }

  lemma {:induction false} SegmentsOfLines(segments: seq<Segment>)
    requires AllLegible(segments)
    ensures Segments(Lines(segments)) == Some(segments)
  {
    hide Read, SegmentLines;
    if segments != [] {
      assert Legible(segments[0]);
      LinesStart(segments[0], Lines(segments[1..]));
      SegmentsOfLines(segments[1..]);
      assert segments == [segments[0]] + segments[1..];
    }
  }

  /** A conflict whose first side holds the marker that ends the second, as a line. */
  function MarkerInside(): (s: Segment) {
    Conflict(Region([THEIRS, "a"], [], ["a"]))
  }

  /** Its file is read as it and resolves. With the sides exchanged the marker ends the conflict, and the file is
      refused for a line it then repeats. */
  lemma MarkerEndsConflict()
    ensures Segments(Lines([MarkerInside()])) == Some([MarkerInside()])
    ensures Resolved("x.sh", Lines([MarkerInside()])) == Ok([THEIRS, "a"])
    ensures Resolved("x.sh", Lines(Swap([MarkerInside()]))) == Err(Repeated("a"))
  {
    hide MergeLines, MergeSegments, Segments, Lines, FirstBad, Merge, AllLegible, MarkerInside;
    var rel := "x.sh";
    var all := [MarkerInside()];
    MarkerIsLegible();
    ReadsBackIff(all);
    MergeOfLines(rel, all, 0);
    MarkerMerges(rel);
    var cut := [Conflict(Region(["a"], [], [])), Plain("a"), Plain(THEIRS)];
    MarkerCuts(cut);
    MergeOfLines(rel, cut, 0);
    CutMerges(rel, cut);
  }

  lemma MarkerIsLegible()
    ensures AllLegible([MarkerInside()])
  {
  }

  lemma MarkerMerges(rel: string)
    requires rel == "x.sh"
    ensures MergeSegments(rel, [MarkerInside()], 0) == Ok(Merged([THEIRS, "a"], [THEIRS, "a"]))
    ensures FirstBad(rel, [THEIRS, "a"], [THEIRS, "a"]) == None
  {
    hide Merge, IsEntry, AnyEntry, FirstBad;
    ShellLines(rel);
    var lines, all := [THEIRS, "a"], [MarkerInside()];
    OneLine(rel, "a");
    assert lines[1..] == ["a"];
    assert Contained(rel, lines, ["a"]) == Some(lines);
    MergeContained(rel, 1, lines, ["a"], lines);
    assert all[1..] == [] && lines + [] == lines;
    NoneRepeat(rel, lines, lines);
  }

  lemma MergeContained(rel: string, at: nat, ours: seq<string>, theirs: seq<string>, all: seq<string>)
    requires Contained(rel, ours, theirs) == Some(all)
    ensures Merge(rel, at, ours, [], theirs) == Ok(all)
  {
    hide Contained;
  }

  lemma {:induction false} NoneRepeat(rel: string, out: seq<string>, added: seq<string>)
    requires !ProseFile(rel) && forall l :: l in added ==> multiset(out)[l] <= 1
    ensures FirstBad(rel, out, added) == None
  {
    hide IsEntry, ProseFile;
    if added != [] {
      NoneRepeat(rel, out, added[1..]);
    }
  }

  lemma MarkerCuts(cut: seq<Segment>)
    requires cut == [Conflict(Region(["a"], [], [])), Plain("a"), Plain(THEIRS)]
    ensures AllLegible(cut) && Lines(Swap([MarkerInside()])) == Lines(cut)
  {
    var swapped := Swap([MarkerInside()]);
    assert swapped == [Conflict(Region(["a"], [], [THEIRS, "a"]))];
    assert swapped[1..] == [];
    assert Lines(swapped) == [OURS, "a", BASE, SEP, THEIRS, "a", THEIRS];
    assert cut[1..] == [Plain("a"), Plain(THEIRS)] && cut[1..][1..] == [Plain(THEIRS)];
    assert Lines([Plain(THEIRS)]) == [THEIRS];
    assert Lines([Plain("a"), Plain(THEIRS)]) == ["a", THEIRS];
    assert Lines(cut) == [OURS, "a", BASE, SEP, THEIRS] + ["a", THEIRS];
  }

  lemma PlainMerges(rel: string, line: string, rest: seq<Segment>, out: seq<string>, n: nat)
    requires MergeSegments(rel, rest, n + 1) == Ok(Merged(out, []))
    ensures MergeSegments(rel, [Plain(line)] + rest, n) == Ok(Merged([line] + out, []))
  {
    assert ([Plain(line)] + rest)[1..] == rest;
    assert After(Merged([line], []), Ok(Merged(out, []))).value.added == [];
  }

  lemma CutMerges(rel: string, cut: seq<Segment>)
    requires rel == "x.sh" && cut == [Conflict(Region(["a"], [], [])), Plain("a"), Plain(THEIRS)]
    ensures MergeSegments(rel, cut, 0) == Ok(Merged(["a", "a", THEIRS], ["a"]))
    ensures FirstBad(rel, ["a", "a", THEIRS], ["a"]) == Some(Repeated("a"))
  {
    hide Merge, IsEntry;
    ShellLines(rel);
    PlainMerges(rel, THEIRS, [], [], 2);
    assert [Plain(THEIRS)] + [] == [Plain(THEIRS)] && [THEIRS] + [] == [THEIRS];
    PlainMerges(rel, "a", [Plain(THEIRS)], [THEIRS], 1);
    assert cut[1..] == [Plain("a")] + [Plain(THEIRS)] && ["a"] + [] == ["a"];
    assert ["a"] + (["a"] + [THEIRS]) == ["a", "a", THEIRS];
    assert Contained(rel, ["a"], []) == Some(["a"]);
    MergeContained(rel, 1, ["a"], [], ["a"]);
    assert multiset(["a", "a", THEIRS])["a"] > 1;
  }

  lemma MultisetMembers(a: seq<string>, b: seq<string>)
    requires multiset(a) == multiset(b)
    ensures SameMembers(a, b)
  {
    forall l
      ensures l in a <==> l in b
    {
      assert l in a <==> l in multiset(a);
      assert l in b <==> l in multiset(b);
    }
  }

  lemma AloneSame(rel: string, a: seq<string>, b: seq<string>, line: string)
    requires multiset(a) == multiset(b)
    ensures Alone(rel, a, line) <==> Alone(rel, b, line)
  {
    hide IsEntry, KeyOf, ProseFile;
    MultisetMembers(a, b);
  }

  // ---- keys

  lemma {:induction false} NameLengthOf(name: string, rest: string)
    requires '`' !in name
    ensures NameLength(name + "`" + rest) == |name|
    decreases |name|
  {
    var s := name + "`" + rest;
    if name != "" {
      assert s[1..] == name[1..] + "`" + rest && s[0] == name[0];
      NameLengthOf(name[1..], rest);
    }
  }

  /** A line led by a backticked name. */
  function Spelled(name: string, space: string, text: string): (s: string) {
    "`" + name + "`" + space + text
  }

  /** An entry led by a backticked name is keyed by the name and the mark after it, whatever else its text is. */
  lemma KeyIsNameAndMark(line: string, name: string, space: string, text: string)
    requires Strip(line) == Spelled(name, space, text) && name != "" && '`' !in name
    requires AllSpace(space) && (text != "" ==> !IsSpace(text[0]))
    ensures KeyOf(line) == Some(Name(name, if text == "" then "" else text[..1]))
  {
    hide Strip, IsSpace, Named, IsImport, Spelled, AllSpace;
    var s := Strip(line);
    NamedParts(s, name, space, text);
    NotImport(s);
    NamedIs(s, name, space, text);
  }

  lemma NotImport(s: string)
    requires s != "" && s[0] == '`'
    ensures !IsImport(s)
  {
    assert "import "[0] == 'i';
  }

  lemma NamedIs(s: string, name: string, space: string, text: string)
    requires s == Spelled(name, space, text) && name != "" && '`' !in name
    requires AllSpace(space) && (text != "" ==> !IsSpace(text[0]))
    ensures Named(s) == Some(Name(name, if text == "" then "" else text[..1]))
  {
    hide *;
    SpelledName(s, name, space, text);
    SpelledText(s, name, space, text);
    NamedBy(s, name, text);
  }

  lemma SpelledName(s: string, name: string, space: string, text: string)
    requires s == Spelled(name, space, text) && name != "" && '`' !in name
    ensures |s| >= |name| + 2 && s[0] == '`' && NameLength(s[1..]) == |name| && s[1..|name| + 1] == name
  {
    hide NameLength, Spelled;
    NamedParts(s, name, space, text);
    NameLengthOf(name, space + text);
  }

  lemma SpelledText(s: string, name: string, space: string, text: string)
    requires s == Spelled(name, space, text) && AllSpace(space) && (text != "" ==> !IsSpace(text[0]))
    ensures |s| >= |name| + 2 && LStrip(s[|name| + 2..]) == text
  {
    hide LStrip, Spelled, IsSpace, AllSpace;
    NamedParts(s, name, space, text);
    LStripPast(space, text);
    LStripNone(text);
  }

  lemma NamedBy(s: string, name: string, text: string)
    requires name != "" && |s| >= |name| + 2 && s[0] == '`' && NameLength(s[1..]) == |name|
    requires s[1..|name| + 1] == name && LStrip(s[|name| + 2..]) == text
    ensures Named(s) == Some(Name(name, if text == "" then "" else text[..1]))
  {
    hide LStrip, NameLength;
  }

  lemma NamedParts(s: string, name: string, space: string, text: string)
    requires s == Spelled(name, space, text)
    ensures |s| == |name| + 2 + |space| + |text| && s[0] == '`'
    ensures s[1..] == name + "`" + (space + text) && s[1..|name| + 1] == name && s[|name| + 2..] == space + text
  {
  }

  lemma LStripNone(s: string)
    requires s != "" ==> !IsSpace(s[0])
    ensures LStrip(s) == s
  {
  }

  // ---- where the code and its description differ

  predicate BlankLines(lines: seq<string>) {
    forall l :: l in lines ==> Strip(l) == ""
  }

  /** Both sides are kept, neither holding the other. */
  predicate KeepsBoth(rel: string, at: nat, ours: seq<string>, base: seq<string>, theirs: seq<string>) {
    Contained(rel, ours, theirs).None? && Merge(rel, at, ours, base, theirs).Ok?
  }

  /** The description keeps both sides when each inserts an entry. The code keeps both with entries on one side only,
      exactly when there is something on each, the base is blank and not both hold prose. */
  lemma KeptWithoutEntriesIff(rel: string, at: nat, ours: seq<string>, base: seq<string>, theirs: seq<string>)
    ensures KeepsBoth(rel, at, ours, base, theirs) && !(AnyEntry(rel, ours) && AnyEntry(rel, theirs)) <==>
            && ours != [] && theirs != [] && BlankLines(base)
            && AnyEntry(rel, ours) != AnyEntry(rel, theirs) && !(AnyProse(rel, ours) && AnyProse(rel, theirs))
  {
    AnyEntryOf(rel, ours, theirs);
    if ours != [] && theirs != [] && AnyEntry(rel, ours) != AnyEntry(rel, theirs) {
      NotContained(rel, ours, theirs);
      NothingShared(rel, ours, theirs);
    }
    EmptyIsContained(rel, ours, theirs);
    hide Contained, AnyEntry, AnyProse, ShareLine, ShareKey, Strip;
  }

  lemma EmptyIsContained(rel: string, ours: seq<string>, theirs: seq<string>)
    ensures Contained(rel, ours, theirs).None? ==> ours != [] && theirs != []
  {
    hide AnyEntry;
  }

  /** Such a conflict: a command on one side, a comment on the other. */
  lemma CommandAndComment()
    ensures var rel, ours, theirs := "x.sh", ["a"], ["# c"];
            && Merge(rel, 1, ours, [], theirs) == Ok(["a", "# c"])
            && Contained(rel, ours, theirs).None? && AnyEntry(rel, ours) && !AnyEntry(rel, theirs)
  {
    hide Merge, Contained, AnyEntry, AnyProse;
    var rel, ours, theirs := "x.sh", ["a"], ["# c"];
    ShellLines(rel);
    OneLine(rel, "a");
    OneLine(rel, "# c");
    NotContained(rel, ours, theirs);
    OneSideWithoutEntries(rel, 1, ours, theirs);
    assert ours + theirs == ["a", "# c"];
  }

  lemma ShellLines(rel: string)
    requires rel == "x.sh"
    ensures !ProseFile(rel) && IsEntry(rel, "a") && !IsEntry(rel, "# c")
  {
    hide Strip;
    TrimmedStrips("a");
    TrimmedStrips("# c");
    assert rel[1..] == ".sh" && rel[3] == 'h';
  }

  lemma OneLine(rel: string, line: string)
    ensures AnyEntry(rel, [line]) <==> IsEntry(rel, line)
    ensures !ProseFile(rel) ==> !AnyProse(rel, [line])
  {
    hide IsEntry, ProseFile;
    assert line in [line];
  }

  /** Both sides are kept although only one of them inserts an entry: the description asks for entries on each
      side, the code for one on either. */
  lemma OneSideWithoutEntries(rel: string, at: nat, ours: seq<string>, theirs: seq<string>)
    requires ours != [] && theirs != [] && AnyEntry(rel, ours) != AnyEntry(rel, theirs)
    ensures Merge(rel, at, ours, [], theirs) ==
            if AnyProse(rel, ours) && AnyProse(rel, theirs) then Err(BothProse(at)) else Ok(ours + theirs)
  {
    AnyEntryOf(rel, ours, theirs);
    NotContained(rel, ours, theirs);
    NothingShared(rel, ours, theirs);
    hide Contained, AnyEntry, AnyProse, ShareLine, ShareKey;
  }

  lemma NothingShared(rel: string, ours: seq<string>, theirs: seq<string>)
    requires AnyEntry(rel, ours) != AnyEntry(rel, theirs)
    ensures !ShareLine(rel, ours, theirs) && !ShareKey(rel, ours, theirs)
  {
    hide IsEntry, KeyOf;
  }

  lemma NotContained(rel: string, ours: seq<string>, theirs: seq<string>)
    requires ours != [] && theirs != [] && AnyEntry(rel, ours) != AnyEntry(rel, theirs)
    ensures Contained(rel, ours, theirs) == None
  {
    hide IsEntry;
    var (longer, shorter) := if |ours| >= |theirs| then (ours, theirs) else (theirs, ours);
    if AnyEntry(rel, shorter) {
      var l :| l in shorter && IsEntry(rel, l);
      assert l !in longer;
      var i :| 0 <= i < |shorter| && shorter[i] == l;
      assert longer[..|shorter|][i] == longer[i]
             && longer[|longer| - |shorter|..][i] == longer[|longer| - |shorter| + i];
    }
  }
}
