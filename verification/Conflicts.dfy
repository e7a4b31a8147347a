/** Merging a file whose conflicts are two insertions at one place. */
module Conflicts {
  import opened Results
  import opened Text

  const OURS := "<<<<<<< ours"
  const BASE := "||||||| base"
  const SEP := "======="
  const THEIRS := ">>>>>>> theirs"

  datatype Refusal =
    | Unterminated
    | BothChanged(at: nat)
    | BothProse(at: nat)
    | NoEntry(at: nat)
    | SharedLine(at: nat)
    | SharedKey(at: nat)
    | Repeated(line: string)
    | OtherText(line: string)

  // ---- what a line is

  predicate EndsWith(s: string, suffix: string) {
    |suffix| <= |s| && s[|s| - |suffix|..] == suffix
  }

  predicate ProseFile(rel: string) {
    EndsWith(rel, ".md") || EndsWith(rel, ".lean")
  }

  predicate Closers(s: string) {
    s != "" && forall i :: 0 <= i < |s| ==> s[i] in {']', ')', '}'}
  }

  /** Punctuation that closes something, or nothing. */
  predicate Trivial(line: string) {
    var core := Strip(line);
    || core in {"", "fi", "done", "esac", ";;"}
    || Closers(core)
    || (core != "" && core[|core| - 1] in {',', ';'} && Closers(core[..|core| - 1]))
  }

  datatype Key = Import(line: string) | Name(name: string, mark: string)

  /** How many characters `s` begins with before a backtick. */
  function NameLength(s: string): (n: nat)
    ensures n <= |s| && (n < |s| ==> s[n] == '`')
  {
    if s == "" || s[0] == '`' then 0 else 1 + NameLength(s[1..])
  }

  predicate IsImport(s: string) {
    "import " <= s
  }

  /** The backticked name `s` begins with, if it does, and the character after it. */
  function Named(s: string): (key: Option<Key>) {
    hide LStrip, NameLength;
    if s == "" || s[0] != '`' then None else
    var n := NameLength(s[1..]);
    if n == 0 || n == |s| - 1 then None else
    var after := LStrip(s[n + 2..]);
    Some(Name(s[1..n + 1], if after == "" then "" else after[..1]))
  }

  /** An entry's key: an import line, or the leading backticked name and the mark after it. */
  function KeyOf(line: string): (key: Option<Key>) {
    if IsImport(Strip(line)) then Some(Import(Strip(line))) else Named(Strip(line))
  }

  predicate IsEntry(rel: string, line: string) {
    && !Trivial(line)
    && if ProseFile(rel) then KeyOf(line).Some?
       else if EndsWith(rel, ".sh") then !("#" <= Strip(line))
       else if EndsWith(rel, ".py") then "\"" <= Strip(line)
       else true
  }

  predicate IsProse(rel: string, line: string) {
    ProseFile(rel) && !Trivial(line) && !IsEntry(rel, line)
  }

  predicate AnyEntry(rel: string, lines: seq<string>) {
    exists l :: l in lines && IsEntry(rel, l)
  }

  predicate AnyProse(rel: string, lines: seq<string>) {
    exists l :: l in lines && IsProse(rel, l)
  }

  // ---- one conflict

  /** The longer insertion when the other is its start or its end. */
  function Contained(rel: string, ours: seq<string>, theirs: seq<string>): (lines: Option<seq<string>>) {
    var (longer, shorter) := if |ours| >= |theirs| then (ours, theirs) else (theirs, ours);
    if shorter == [] then Some(longer)
    else if !AnyEntry(rel, shorter) then None
    else if longer[..|shorter|] == shorter || longer[|longer| - |shorter|..] == shorter then Some(longer)
    else None
  }

  predicate ShareLine(rel: string, ours: seq<string>, theirs: seq<string>) {
    exists l :: l in ours && l in theirs && IsEntry(rel, l)
  }

  predicate ShareKey(rel: string, ours: seq<string>, theirs: seq<string>) {
    exists l, m :: && l in ours && m in theirs && IsEntry(rel, l) && IsEntry(rel, m)
                   && KeyOf(l).Some? && KeyOf(l) == KeyOf(m)
  }

  /** The lines a conflict at line `at` of the result becomes. */
  function Merge(rel: string, at: nat, ours: seq<string>, base: seq<string>, theirs: seq<string>)
    : (merged: Result<seq<string>, Refusal>)
  {
    if exists l :: l in base && Strip(l) != "" then Err(BothChanged(at))
    else if Contained(rel, ours, theirs).Some? then Ok(Contained(rel, ours, theirs).value)
    else if AnyProse(rel, ours) && AnyProse(rel, theirs) then Err(BothProse(at))
    else if !AnyEntry(rel, ours + theirs) then Err(NoEntry(at))
    else if ShareLine(rel, ours, theirs) then Err(SharedLine(at))
    else if ProseFile(rel) && ShareKey(rel, ours, theirs) then Err(SharedKey(at))
    else Ok(ours + theirs)
  }

  // ---- the whole file

  /** The lines before the next `marker`, and those after it. */
  function Until(lines: seq<string>, marker: string): (r: Option<(seq<string>, seq<string>)>)
    ensures r.Some? ==> |r.value.1| < |lines|
  {
    if lines == [] then None
    else if lines[0] == marker then Some(([], lines[1..]))
    else
      var r := Until(lines[1..], marker);
      if r.None? then None else Some(([lines[0]] + r.value.0, r.value.1))
  }

  datatype Region = Region(ours: seq<string>, base: seq<string>, theirs: seq<string>)

  /** A conflict, from the line after its first marker, and the lines after it. */
  function Read(lines: seq<string>): (r: Option<(Region, seq<string>)>)
    ensures r.Some? ==> |r.value.1| < |lines|
  {
    var a := Until(lines, BASE);
    if a.None? then None else
    var b := Until(a.value.1, SEP);
    if b.None? then None else
    var c := Until(b.value.1, THEIRS);
    if c.None? then None else Some((Region(a.value.0, b.value.0, c.value.0), c.value.1))
  }

  /** The lines of the result, and of them those that come from conflicts. */
  datatype Merged = Merged(out: seq<string>, added: seq<string>)

  function After(first: Merged, rest: Result<Merged, Refusal>): (merged: Result<Merged, Refusal>) {
    if rest.Ok? then Ok(Merged(first.out + rest.value.out, first.added + rest.value.added)) else rest
  }

  /** What `lines` become, when `n` lines of the result come before. */
  function MergeLines(rel: string, lines: seq<string>, n: nat): (merged: Result<Merged, Refusal>)
    decreases |lines|
  {
    if lines == [] then Ok(Merged([], []))
    else if lines[0] != OURS then After(Merged([lines[0]], []), MergeLines(rel, lines[1..], n + 1))
    else
      var region := Read(lines[1..]);
      if region.None? then Err(Unterminated) else
      var (r, rest) := region.value;
      var merged :- Merge(rel, n + 1, r.ours, r.base, r.theirs);
      After(Merged(merged, merged), MergeLines(rel, rest, n + |merged|))
  }

  predicate Repeats(rel: string, out: seq<string>, line: string) {
    IsEntry(rel, line) && multiset(out)[line] > 1
  }

  predicate HasOtherText(rel: string, out: seq<string>, line: string) {
    && ProseFile(rel) && IsEntry(rel, line)
    && exists l :: l in out && IsEntry(rel, l) && KeyOf(l) == KeyOf(line) && l != line
  }

  /** The first line added that is not alone in the result. */
  function FirstBad(rel: string, out: seq<string>, added: seq<string>): (refusal: Option<Refusal>) {
    if added == [] then None
    else if Repeats(rel, out, added[0]) then Some(Repeated(added[0]))
    else if HasOtherText(rel, out, added[0]) then Some(OtherText(added[0]))
    else FirstBad(rel, out, added[1..])
  }

  function Resolved(rel: string, lines: seq<string>): (resolved: Result<seq<string>, Refusal>) {
    var m :- MergeLines(rel, lines, 0);
    var bad := FirstBad(rel, m.out, m.added);
    if bad.Some? then Err(bad.value) else Ok(m.out)
  }

  // ---- the source's loops

  lemma TakenNone(r: Option<(seq<string>, seq<string>)>)
    ensures r.Some? ==> r == Some(([] + r.value.0, r.value.1))
  {
    if r.Some? {
      assert [] + r.value.0 == r.value.0;
    }
  }

  method TakeUntil(lines: seq<string>, start: nat, marker: string) returns (found: bool, taken: seq<string>, i: nat)
    requires start <= |lines|
    ensures i <= |lines|
    ensures found <==> Until(lines[start..], marker).Some?
    ensures found ==> Until(lines[start..], marker) == Some((taken, lines[i..])) && i > start
  {
    taken, i := [], start;
    TakenNone(Until(lines[start..], marker));
    while i < |lines| && lines[i] != marker
      invariant start <= i <= |lines|
      invariant var rest := Until(lines[i..], marker);
                Until(lines[start..], marker) == if rest.None? then None else Some((taken + rest.value.0, rest.value.1))
    {
      assert lines[i..][1..] == lines[i + 1..];
      var rest := Until(lines[i + 1..], marker);
      if rest.Some? {
        Assoc(taken, [lines[i]], rest.value.0);
      }
      taken := taken + [lines[i]];
      i := i + 1;
    }
    found := i < |lines|;
    if found {
      assert taken + [] == taken && lines[i..][1..] == lines[i + 1..];
      i := i + 1;
    }
  }

  lemma AfterTwice(a: Merged, b: Merged, rest: Result<Merged, Refusal>)
    ensures After(a, After(b, rest)) == After(Merged(a.out + b.out, a.added + b.added), rest)
  {
    if rest.Ok? {
      Assoc(a.out, b.out, rest.value.out);
      Assoc(a.added, b.added, rest.value.added);
    }
  }

  lemma AfterNothing(rest: Result<Merged, Refusal>)
    ensures After(Merged([], []), rest) == rest
  {
    if rest.Ok? {
      assert [] + rest.value.out == rest.value.out && [] + rest.value.added == rest.value.added;
    }
  }

  method MergeFile(rel: string, lines: seq<string>) returns (r: Result<Merged, Refusal>)
    ensures r == MergeLines(rel, lines, 0)
  {
    hide Merge, Until, After;
    var out, added, i := [], [], 0;
    assert lines[0..] == lines;
    AfterNothing(MergeLines(rel, lines, 0));
    while i < |lines|
      invariant i <= |lines|
      invariant After(Merged(out, added), MergeLines(rel, lines[i..], |out|)) == MergeLines(rel, lines, 0)
    {
      assert lines[i..][1..] == lines[i + 1..] && lines[i..][0] == lines[i];
      if lines[i] != OURS {
        AfterTwice(Merged(out, added), Merged([lines[i]], []), MergeLines(rel, lines[i + 1..], |out| + 1));
        assert added + [] == added;
        out := out + [lines[i]];
        i := i + 1;
        continue;
      }
      var start := |out| + 1;
      AfterErr(Merged(out, added), Unterminated);
      var found, ours, base, theirs, j;
      found, ours, j := TakeUntil(lines, i + 1, BASE);
      if !found {
        return Err(Unterminated);
      }
      found, base, j := TakeUntil(lines, j, SEP);
      if !found {
        return Err(Unterminated);
      }
      found, theirs, j := TakeUntil(lines, j, THEIRS);
      if !found {
        return Err(Unterminated);
      }
      assert Read(lines[i + 1..]) == Some((Region(ours, base, theirs), lines[j..]));
      var merged := Merge(rel, start, ours, base, theirs);
      if merged.Err? {
        AfterErr(Merged(out, added), merged.error);
        return Err(merged.error);
      }
      AfterTwice(Merged(out, added), Merged(merged.value, merged.value),
                 MergeLines(rel, lines[j..], |out| + |merged.value|));
      out := out + merged.value;
      added := added + merged.value;
      i := j;
    }
    assert lines[i..] == [];
    AfterEnd(out, added);
    return Ok(Merged(out, added));
  }

  lemma AfterErr(first: Merged, e: Refusal)
    ensures After(first, Err(e)) == Err(e)
  {
  }

  lemma AfterEnd(out: seq<string>, added: seq<string>)
    ensures After(Merged(out, added), Ok(Merged([], []))) == Ok(Merged(out, added))
  {
    assert out + [] == out && added + [] == added;
  }

  ghost predicate Counts(counts: map<string, nat>, out: seq<string>) {
    forall l :: (l in counts <==> l in out) && (l in counts ==> counts[l] == multiset(out)[l])
  }

  ghost predicate Keyed(rel: string, keyed: map<Option<Key>, set<string>>, out: seq<string>) {
    && (forall l :: l in out && ProseFile(rel) && IsEntry(rel, l) ==> KeyOf(l) in keyed && l in keyed[KeyOf(l)])
    && (forall k, l :: k in keyed && l in keyed[k] ==> l in out && IsEntry(rel, l) && KeyOf(l) == k)
  }

  lemma CountsNext(counts: map<string, nat>, out: seq<string>, line: string)
    requires Counts(counts, out)
    ensures Counts(counts[line := (if line in counts then counts[line] else 0) + 1], out + [line])
  {
  }

  lemma KeyedNext(rel: string, keyed: map<Option<Key>, set<string>>, out: seq<string>, line: string)
    requires Keyed(rel, keyed, out)
    ensures !(ProseFile(rel) && IsEntry(rel, line)) ==> Keyed(rel, keyed, out + [line])
    ensures var k := KeyOf(line);
            ProseFile(rel) && IsEntry(rel, line) ==>
            Keyed(rel, keyed[k := (if k in keyed then keyed[k] else {}) + {line}], out + [line])
  {
    hide ProseFile, IsEntry, KeyOf;
  }

  /** How often each line occurs, and the entries under each key. */
  method Tally(rel: string, out: seq<string>) returns (counts: map<string, nat>, keyed: map<Option<Key>, set<string>>)
    ensures Counts(counts, out) && Keyed(rel, keyed, out)
  {
    counts, keyed := map[], map[];
    for n := 0 to |out|
      invariant Counts(counts, out[..n]) && Keyed(rel, keyed, out[..n])
    {
      hide *;
      var line := out[n];
      assert out[..n + 1] == out[..n] + [line];
      CountsNext(counts, out[..n], line);
      KeyedNext(rel, keyed, out[..n], line);
      counts := counts[line := (if line in counts then counts[line] else 0) + 1];
      if ProseFile(rel) && IsEntry(rel, line) {
        var k := KeyOf(line);
        keyed := keyed[k := (if k in keyed then keyed[k] else {}) + {line}];
      }
    }
    assert out[..|out|] == out;
  }

  /** More than one entry is filed under a line's key exactly when another entry has that key. */
  lemma KeyedOther(rel: string, keyed: map<Option<Key>, set<string>>, out: seq<string>, line: string)
    requires Keyed(rel, keyed, out) && line in out && ProseFile(rel) && IsEntry(rel, line)
    ensures KeyOf(line) in keyed && (|keyed[KeyOf(line)]| > 1 <==> HasOtherText(rel, out, line))
  {
    hide ProseFile, IsEntry, KeyOf;
    var k := KeyOf(line);
    OneOfMany(keyed[k], line);
    if y :| y in keyed[k] && y != line {
      assert y in out && IsEntry(rel, y) && KeyOf(y) == k;
    }
    if HasOtherText(rel, out, line) {
      var l :| l in out && IsEntry(rel, l) && KeyOf(l) == k && l != line;
      assert l in keyed[k];
    }
  }

  lemma OneOfMany(s: set<string>, x: string)
    requires x in s
    ensures |s| > 1 <==> exists y :: y in s && y != x
  {
    assert s == {x} + (s - {x});
    if y :| y in s && y != x {
      assert y in s - {x};
    }
    if |s| > 1 {
      var y :| y in s - {x};
    }
  }

  method Resolve(rel: string, lines: seq<string>) returns (r: Result<seq<string>, Refusal>)
    ensures r == Resolved(rel, lines)
  {
    hide MergeLines, IsEntry, KeyOf, ProseFile, Keyed;
    var file := MergeFile(rel, lines);
    if file.Err? {
      return Err(file.error);
    }
    var out, added := file.value.out, file.value.added;
    MergeAddsOnlyOutput(rel, lines, 0);
    var counts, keyed := Tally(rel, out);
    assert added[0..] == added;
    for n := 0 to |added|
      invariant FirstBad(rel, out, added) == FirstBad(rel, out, added[n..])
    {
      var line := added[n];
      assert line in out;
      assert added[n..][1..] == added[n + 1..];
      if IsEntry(rel, line) && counts[line] > 1 {
        return Err(Repeated(line));
      }
      if ProseFile(rel) && IsEntry(rel, line) {
        KeyedOther(rel, keyed, out, line);
        if |keyed[KeyOf(line)]| > 1 {
          return Err(OtherText(line));
        }
      }
    }
    return Ok(out);
  }

  lemma {:induction false} MergeAddsOnlyOutput(rel: string, lines: seq<string>, n: nat)
    ensures var r := MergeLines(rel, lines, n); r.Ok? ==> forall l :: l in r.value.added ==> l in r.value.out
    decreases |lines|
  {
    hide Merge, Read;
    if lines != [] {
      if lines[0] != OURS {
        MergeAddsOnlyOutput(rel, lines[1..], n + 1);
      } else if Read(lines[1..]).Some? {
        var (r, rest) := Read(lines[1..]).value;
        var merged := Merge(rel, n + 1, r.ours, r.base, r.theirs);
        if merged.Ok? {
          MergeAddsOnlyOutput(rel, rest, n + |merged.value|);
        }
      }
    }
  }
}
