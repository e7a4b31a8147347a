/** Which lines are entries, by the kind of file, and what each outcome of a merge says of the two sides. */
module EntryLaws {
  import opened Results
  import opened Text
  import opened Conflicts
  import opened ConflictLaws

  // ---- lines

  ghost predicate Closer(c: char) {
    c == ']' || c == ')' || c == '}'
  }

  /** Nothing, one of four shell words, or closing brackets with at most a comma or a semicolon after them. */
  ghost predicate Punctuation(core: string) {
    || core == "" || core == "fi" || core == "done" || core == "esac" || core == ";;"
    || (Closer(core[0]) &&
        var n := |core| - 1;
        && (forall i :: 0 <= i < n ==> Closer(core[i]))
        && (Closer(core[n]) || (n > 0 && (core[n] == ',' || core[n] == ';'))))
  }

  lemma TrivialMeans(line: string)
    ensures Trivial(line) <==> Punctuation(Strip(line))
  {
    var core := Strip(line);
    hide Strip;
    if core != "" {
      var n := |core| - 1;
      assert forall i :: 0 <= i < n ==> core[..n][i] == core[i];
    }
  }

  ghost predicate Suffix(rel: string, suffix: string) {
    |rel| >= |suffix| && rel[|rel| - |suffix|..] == suffix
  }

  /** In a file of prose the lines with a key are entries, in a shell script those that are no comment, in a Python file
      those that begin with a double quote, and in any other file all; punctuation never is. */
  lemma EntryMeans(rel: string, line: string)
    ensures IsEntry(rel, line) <==>
            && !Punctuation(Strip(line))
            && if Suffix(rel, ".md") || Suffix(rel, ".lean") then KeyOf(line).Some?
               else if Suffix(rel, ".sh") then Strip(line)[0] != '#'
               else if Suffix(rel, ".py") then Strip(line)[0] == '"'
               else true
    ensures IsProse(rel, line) <==>
            (Suffix(rel, ".md") || Suffix(rel, ".lean")) && !Punctuation(Strip(line)) && KeyOf(line) == None
  {
    TrivialMeans(line);
    hide Strip, KeyOf, Trivial;
  }

  /** The key of a line stripped: an import, a backticked name with what follows it, or none. */
  lemma KeyMeans(line: string)
    ensures var core := Strip(line);
            match KeyOf(line)
            case Some(Import(text)) => "import " <= core && text == core
            case Some(Name(name, mark)) => !("import " <= core) && NameLeads(core, name, mark)
            case None => !("import " <= core) && NoNameLeads(core)
  {
    hide Strip, NameLeads, NoNameLeads, Named;
    NamedMeans(Strip(line));
  }

  /** A name between backticks, not empty, and the first character after it that is no white space, if there is one. */
  ghost predicate NameLeads(core: string, name: string, mark: string) {
    && name != "" && '`' !in name
    && |core| >= |name| + 2 && core[0] == '`' && core[1..|name| + 1] == name && core[|name| + 1] == '`'
    && var after := LStrip(core[|name| + 2..]); mark == if after == "" then "" else [after[0]]
  }

  /** It begins with no backtick, or with two, or has no second one. */
  ghost predicate NoNameLeads(core: string) {
    || |core| < 2 || core[0] != '`' || core[1] == '`'
    || forall n :: 1 < n < |core| ==> core[n] != '`'
  }

  lemma NamedMeans(core: string)
    ensures match Named(core)
            case Some(Name(name, mark)) => NameLeads(core, name, mark)
            case Some(Import(_)) => false
            case None => NoNameLeads(core)
  {
    hide NameLeads, NoNameLeads;
    if core != "" && core[0] == '`' {
      var n := NameLength(core[1..]);
      NameRuns(core, n);
      if 0 < n < |core| - 1 {
        Leads(core, n);
      } else {
        NoneLeads(core, n);
      }
    } else {
      NothingLeads(core);
    }
    hide LStrip, NameLength;
  }

  /** How far the name goes. */
  ghost predicate NameTo(core: string, n: nat) {
    && n < |core| && core[0] == '`' && (forall k :: 1 <= k <= n ==> core[k] != '`')
    && (n + 1 < |core| ==> core[n + 1] == '`')
  }

  lemma NameRuns(core: string, n: nat)
    requires core != "" && core[0] == '`' && n == NameLength(core[1..])
    ensures NameTo(core, n)
  {
    var t := core[1..];
    NameLengthMeans(t);
    hide NameLength;
    forall k | 1 <= k <= n
      ensures core[k] != '`'
    {
      assert core[k] == t[..n][k - 1];
    }
    assert n < |t| ==> t[n] == core[n + 1];
  }

  lemma Leads(core: string, n: nat)
    requires NameTo(core, n) && 0 < n < |core| - 1
    ensures var after := LStrip(core[n + 2..]); NameLeads(core, core[1..n + 1], if after == "" then "" else after[..1])
  {
    hide LStrip;
    var name := core[1..n + 1];
    forall k | 0 <= k < n
      ensures name[k] != '`'
    {
      assert name[k] == core[k + 1];
    }
  }

  lemma NoneLeads(core: string, n: nat)
    requires NameTo(core, n) && (n == 0 || n == |core| - 1)
    ensures NoNameLeads(core)
  {
  }

  lemma NothingLeads(core: string)
    requires core == "" || core[0] != '`'
    ensures NoNameLeads(core)
  {
  }

  lemma {:induction false} NameLengthMeans(s: string)
    ensures var n := NameLength(s); '`' !in s[..n] && (n < |s| ==> s[n] == '`')
  {
    if s != "" && s[0] != '`' {
      NameLengthMeans(s[1..]);
      assert s[..NameLength(s)] == [s[0]] + s[1..][..NameLength(s) - 1];
    }
  }

  // ---- one conflict

  /** A side is nothing, or holds an entry and is the start or the end of the other, which is no shorter. */
  ghost predicate HeldBy(rel: string, side: seq<string>, other: seq<string>) {
    && |side| <= |other|
    && (|| side == []
        || ((exists l :: l in side && IsEntry(rel, l)) &&
            (side <= other || other[|other| - |side|..] == side)))
  }

  lemma ContainedMeans(rel: string, ours: seq<string>, theirs: seq<string>)
    ensures Contained(rel, ours, theirs)
            == if HeldBy(rel, theirs, ours) then Some(ours)
               else if HeldBy(rel, ours, theirs) then Some(theirs) else None
  {
    hide IsEntry;
    if |ours| == |theirs| {
      assert ours[0..] == ours && theirs[0..] == theirs;
    }
  }

  ghost predicate ProseIn(rel: string, side: seq<string>) {
    exists l :: l in side && IsProse(rel, l)
  }

  ghost predicate EntryIn(rel: string, side: seq<string>) {
    exists l :: l in side && IsEntry(rel, l)
  }

  ghost predicate LineInBoth(rel: string, ours: seq<string>, theirs: seq<string>) {
    exists l :: l in ours && l in theirs && IsEntry(rel, l)
  }

  ghost predicate KeyInBoth(rel: string, ours: seq<string>, theirs: seq<string>) {
    && (Suffix(rel, ".md") || Suffix(rel, ".lean"))
    && exists l, m :: l in ours && m in theirs && IsEntry(rel, l) && IsEntry(rel, m) && KeyOf(l) == KeyOf(m)
  }

  /** What a merge is, told in the order of its checks: a changed line is refused, a side that holds the other is taken,
      and then come prose on both sides, no entry on either, a line in both and a key in both. */
  lemma MergeMeans(rel: string, at: nat, ours: seq<string>, base: seq<string>, theirs: seq<string>)
    ensures Merge(rel, at, ours, base, theirs) ==
            if exists l :: l in base && Strip(l) != "" then Err(BothChanged(at))
            else if HeldBy(rel, theirs, ours) then Ok(ours)
            else if HeldBy(rel, ours, theirs) then Ok(theirs)
            else if ProseIn(rel, ours) && ProseIn(rel, theirs) then Err(BothProse(at))
            else if !EntryIn(rel, ours) && !EntryIn(rel, theirs) then Err(NoEntry(at))
            else if LineInBoth(rel, ours, theirs) then Err(SharedLine(at))
            else if KeyInBoth(rel, ours, theirs) then Err(SharedKey(at))
            else Ok(ours + theirs)
  {
    ContainedMeans(rel, ours, theirs);
    AnyEntryOf(rel, ours, theirs);
    SidesMean(rel, ours, theirs);
    hide Contained, HeldBy, AnyEntry, AnyProse, ShareLine, ShareKey, Strip, ProseFile;
    hide ProseIn, EntryIn, LineInBoth, KeyInBoth;
  }

  lemma SidesMean(rel: string, ours: seq<string>, theirs: seq<string>)
    ensures AnyProse(rel, ours) <==> ProseIn(rel, ours)
    ensures AnyProse(rel, theirs) <==> ProseIn(rel, theirs)
    ensures AnyEntry(rel, ours) <==> EntryIn(rel, ours)
    ensures AnyEntry(rel, theirs) <==> EntryIn(rel, theirs)
    ensures ShareLine(rel, ours, theirs) <==> LineInBoth(rel, ours, theirs)
    ensures ProseFile(rel) && ShareKey(rel, ours, theirs) <==> KeyInBoth(rel, ours, theirs)
  {
    forall l
      ensures (Suffix(rel, ".md") || Suffix(rel, ".lean")) && IsEntry(rel, l) ==> KeyOf(l).Some?
    {
      EntryMeans(rel, l);
    }
    assert ProseFile(rel) <==> Suffix(rel, ".md") || Suffix(rel, ".lean");
    hide IsEntry, IsProse, KeyOf, ProseFile, Suffix;
  }

  // ---- a whole file

  /** The first line added that is not alone decides: repeated, or an entry whose key another line has. */
  lemma {:induction false} FirstBadIs(rel: string, out: seq<string>, added: seq<string>, i: nat)
    requires i < |added| && (forall k :: 0 <= k < |added| ==> added[k] in out)
    requires !Alone(rel, out, added[i]) && forall k :: 0 <= k < i ==> Alone(rel, out, added[k])
    ensures FirstBad(rel, out, added)
            == Some(if multiset(out)[added[i]] > 1 then Repeated(added[i]) else OtherText(added[i]))
    decreases |added|
  {
    hide Alone, Repeats, HasOtherText;
    BadIs(rel, out, added[0]);
    if i > 0 {
      FirstBadIs(rel, out, added[1..], i - 1);
    }
  }

  lemma BadIs(rel: string, out: seq<string>, line: string)
    requires line in out
    ensures Alone(rel, out, line) <==> !Repeats(rel, out, line) && !HasOtherText(rel, out, line)
    ensures !Alone(rel, out, line) ==> (Repeats(rel, out, line) <==> multiset(out)[line] > 1)
  {
    AloneMeans(rel, out, line);
    hide IsEntry, KeyOf, ProseFile;
  }

  /** A conflict between a command and a comment in a file, with the markers that bound it. */
  lemma MarkersAre()
    ensures Resolved("x.sh", ["b", "<<<<<<< ours", "a", "||||||| base", "=======", "# c", ">>>>>>> theirs", "d"])
            == Ok(["b", "a", "# c", "d"])
  {
    hide MergeLines, MergeSegments, Lines, FirstBad, Merge, AllLegible;
    var rel := "x.sh";
    var out, added := ["b", "a", "# c", "d"], ["a", "# c"];
    var segments := [Plain("b"), Conflict(Region(["a"], [], ["# c"])), Plain("d")];
    ShellLines(rel);
    FileOf(segments);
    MergeOfLines(rel, segments, 0);
    FileMerges(rel, segments);
    NoneRepeat(rel, out, added);
  }

  lemma FileOf(segments: seq<Segment>)
    requires segments == [Plain("b"), Conflict(Region(["a"], [], ["# c"])), Plain("d")]
    ensures Lines(segments) == ["b", "<<<<<<< ours", "a", "||||||| base", "=======", "# c", ">>>>>>> theirs", "d"]
    ensures AllLegible(segments)
  {
    assert segments[1..] == [Conflict(Region(["a"], [], ["# c"])), Plain("d")];
    assert segments[1..][1..] == [Plain("d")] && segments[1..][1..][1..] == [];
    assert Lines([Plain("d")]) == ["d"];
    assert RegionLines(Region(["a"], [], ["# c"])) == ["a", BASE, SEP, "# c", THEIRS];
    assert Lines(segments[1..]) == [OURS, "a", BASE, SEP, "# c", THEIRS, "d"];
  }

  lemma FileMerges(rel: string, segments: seq<Segment>)
    requires rel == "x.sh"
    requires segments == [Plain("b"), Conflict(Region(["a"], [], ["# c"])), Plain("d")]
    ensures MergeSegments(rel, segments, 0) == Ok(Merged(["b", "a", "# c", "d"], ["a", "# c"]))
  {
    hide *;
    var region, end := Region(["a"], [], ["# c"]), [Plain("d")];
    CommandMerges(rel);
    EndMerges(rel);
    ConflictMerges(rel, region, end, ["a", "# c"], Merged(["d"], []), 1);
    PlainBefore(rel, "b", [Conflict(region)] + end, Merged(["a", "# c"] + ["d"], ["a", "# c"] + []), 0);
    assert [Plain("b")] + ([Conflict(region)] + end) == segments;
    assert ["b"] + (["a", "# c"] + ["d"]) == ["b", "a", "# c", "d"] && ["a", "# c"] + [] == ["a", "# c"];
  }

  lemma CommandMerges(rel: string)
    requires rel == "x.sh"
    ensures Merge(rel, 2, ["a"], [], ["# c"]) == Ok(["a", "# c"])
  {
    hide Merge, AnyEntry, AnyProse;
    ShellLines(rel);
    OneLine(rel, "a");
    OneLine(rel, "# c");
    OneSideWithoutEntries(rel, 2, ["a"], ["# c"]);
    assert ["a"] + ["# c"] == ["a", "# c"];
  }

  lemma EndMerges(rel: string)
    ensures MergeSegments(rel, [Plain("d")], 3) == Ok(Merged(["d"], []))
  {
    PlainMerges(rel, "d", [], [], 3);
    assert [Plain("d")] + [] == [Plain("d")] && ["d"] + [] == ["d"];
  }

  lemma PlainBefore(rel: string, line: string, rest: seq<Segment>, m: Merged, n: nat)
    requires MergeSegments(rel, rest, n + 1) == Ok(m)
    ensures MergeSegments(rel, [Plain(line)] + rest, n) == Ok(Merged([line] + m.out, m.added))
  {
    assert ([Plain(line)] + rest)[1..] == rest;
    assert After(Merged([line], []), Ok(m)).value.added == m.added;
  }

  lemma ConflictMerges(rel: string, r: Region, rest: seq<Segment>, merged: seq<string>, m: Merged, n: nat)
    requires Merge(rel, n + 1, r.ours, r.base, r.theirs) == Ok(merged)
    requires MergeSegments(rel, rest, n + |merged|) == Ok(m)
    ensures MergeSegments(rel, [Conflict(r)] + rest, n) == Ok(Merged(merged + m.out, merged + m.added))
  {
    hide Merge;
    assert ([Conflict(r)] + rest)[1..] == rest;
  }
}
