/** When removing a source's test modules removes nothing else. */
module ModuleCuts {
  import opened Results
  import opened Text
  import opened TestModules
  import opened SourceLaws

  // ---- the modules the text itself has

  /** The text with its own test modules, found left to right past one another, each left as its newlines. */
  function OnePass(text: string): (r: string)
    decreases |text|, 1
  {
    var found := Search(text, 0);
    if found.None? then text else
    var (start, after) := found.value;
    var close := Closing(text, after);
    if close.None? then text else WithoutModule(text, start, close.value + 1)
  }

  /** What closes the brace a header ends with. */
  function Closing(text: string, after: nat): (close: Option<nat>)
    requires 0 < after <= |text|
    ensures close.Some? ==> after - 1 <= close.value < |text|
  {
    CloseFrom(text, after - 1, after - 1)
  }

  /** One module cut, and those after it. */
  function WithoutModule(text: string, start: nat, end: nat): (r: string)
    requires start < end <= |text|
    decreases |text|, 0
  {
    text[..start] + Newlines(Count(text[start..end], '\n')) + OnePass(text[end..])
  }

  // ---- a header is read from its own characters

  lemma {:induction false} SpaceRunLocal(s: string, t: string)
    requires SpaceRun(s) < |s| && SpaceRun(s) < |t| && s[..SpaceRun(s) + 1] == t[..SpaceRun(s) + 1]
    ensures SpaceRun(t) == SpaceRun(s)
  {
    hide IsSpace;
    assert s[0] == s[..SpaceRun(s) + 1][0] == t[0];
    if IsSpace(s[0]) {
      var n := SpaceRun(s);
      assert s[1..][..n] == s[..n + 1][1..] == t[..n + 1][1..] == t[1..][..n];
      SpaceRunLocal(s[1..], t[1..]);
    }
  }

  lemma {:induction false} NameRunLocal(s: string, t: string)
    requires NameRun(s) < |s| && NameRun(s) < |t| && s[..NameRun(s) + 1] == t[..NameRun(s) + 1]
    ensures NameRun(t) == NameRun(s)
  {
    hide NameChar;
    assert s[0] == s[..NameRun(s) + 1][0] == t[0];
    if NameChar(s[0]) {
      var n := NameRun(s);
      assert s[1..][..n] == s[..n + 1][1..] == t[..n + 1][1..] == t[1..][..n];
      NameRunLocal(s[1..], t[1..]);
    }
  }

  /** `t` begins with the first n characters of `s`. */
  ghost predicate Shares(s: string, t: string, n: nat) {
    n <= |s| && n <= |t| && s[..n] == t[..n]
  }

  lemma SharesLess(s: string, t: string, n: nat, i: nat, m: nat)
    requires Shares(s, t, n) && i + m <= n
    ensures Shares(s[i..], t[i..], m)
  {
    assert s[i..][..m] == s[..n][i..i + m] == t[..n][i..i + m] == t[i..][..m];
  }

  lemma SharesAt(s: string, t: string, n: nat, i: nat)
    requires Shares(s, t, n) && i < n
    ensures s[i] == t[i]
  {
    assert s[i] == s[..n][i] == t[..n][i] == t[i];
  }

  lemma NamePartLocal(s: string, t: string)
    requires NamePart(s).Some? && Shares(s, t, NamePart(s).value)
    ensures NamePart(t) == NamePart(s)
  {
    hide SpaceRun, NameRun, Shares;
    var n := NamePart(s).value;
    var b := SpaceRun(s);
    var c := b + NameRun(s[b..]);
    var d := c + SpaceRun(s[c..]);
    SharesLess(s, t, n, 0, b + 1);
    SpaceShared(s, t, n, 0);
    NameShared(s, t, n, b);
    SpaceShared(s, t, n, c);
    SharesAt(s, t, n, d);
    SharesLength(s, t, n);
  }

  lemma SharesLength(s: string, t: string, n: nat)
    requires Shares(s, t, n)
    ensures n <= |s| && n <= |t|
  {
  }

  lemma SpaceShared(s: string, t: string, n: nat, i: nat)
    requires Shares(s, t, n) && i < n && i + SpaceRun(s[i..]) < n
    ensures i <= |t| && SpaceRun(t[i..]) == SpaceRun(s[i..])
  {
    hide SpaceRun;
    SharesLess(s, t, n, i, SpaceRun(s[i..]) + 1);
    SpaceRunLocal(s[i..], t[i..]);
  }

  lemma NameShared(s: string, t: string, n: nat, i: nat)
    requires Shares(s, t, n) && i < n && i + NameRun(s[i..]) < n
    ensures i <= |t| && NameRun(t[i..]) == NameRun(s[i..])
  {
    hide NameRun;
    SharesLess(s, t, n, i, NameRun(s[i..]) + 1);
    NameRunLocal(s[i..], t[i..]);
  }

  lemma ModPartLocal(s: string, t: string)
    requires ModPart(s).Some? && Shares(s, t, ModPart(s).value)
    ensures ModPart(t) == ModPart(s)
  {
    hide SpaceRun, NamePart, Shares;
    var n := ModPart(s).value;
    var a := SpaceRun(s);
    var m := NamePart(s[a + 3..]).value;
    SharesLength(s, t, n);
    SpaceShared(s, t, n, 0);
    assert s[0..] == s && t[0..] == t;
    SharesLess(s, t, n, 0, a);
    SharesLess(s, t, n, a, 3);
    SharesFront(s, t, a);
    SharesFront(s[a..], t[a..], 3);
    assert "mod" <= t[a..];
    SharesLess(s, t, n, a + 3, m);
    NamePartLocal(s[a + 3..], t[a + 3..]);
  }

  lemma SharesFront(s: string, t: string, n: nat)
    requires Shares(s, t, n)
    ensures n <= |s| && n <= |t| && s[..n] == t[..n]
  {
  }

  lemma HeaderLocal(s: string, t: string)
    requires Header(s).Some? && Shares(s, t, Header(s).value)
    ensures Header(t) == Header(s)
  {
    hide ModPart, Shares;
    var n := Header(s).value;
    SharesLength(s, t, n);
    AttributeShared(s, t, n);
    SharesLess(s, t, n, 12, n - 12);
    ModPartLocal(s[12..], t[12..]);
  }

  lemma AttributeShared(s: string, t: string, n: nat)
    requires HasAttribute(s) && Shares(s, t, n) && n >= 12
    ensures HasAttribute(t)
  {
    SharesLess(s, t, n, 0, 12);
    assert forall i :: 0 <= i < 12 ==> s[i] == s[..n][i] == t[..n][i] == t[i];
  }

  // ---- a header has one attribute

  ghost predicate NoHash(s: string, from: nat, to: nat)
    requires to <= |s|
  {
    forall k :: from <= k < to ==> s[k] != '#'
  }

  lemma RunsNoHash(s: string)
    ensures NoHash(s, 0, SpaceRun(s)) && NoHash(s, 0, NameRun(s))
  {
    hide IsSpace;
    HashIsNoSpace();
    assert forall k :: 0 <= k < SpaceRun(s) ==> s[k] == s[..SpaceRun(s)][k];
  }

  lemma NoHashJoin(s: string, i: nat, n: nat)
    requires i + n <= |s| && NoHash(s, 0, i) && NoHash(s[i..], 0, n)
    ensures NoHash(s, 0, i + n)
  {
    assert forall k :: i <= k < i + n ==> s[k] == s[i..][k - i];
  }

  lemma NamePartNoHash(s: string)
    requires NamePart(s).Some?
    ensures NoHash(s, 0, NamePart(s).value)
  {
    hide SpaceRun, NameRun, NoHash;
    var b := SpaceRun(s);
    var c := b + NameRun(s[b..]);
    var d := c + SpaceRun(s[c..]);
    RunsNoHash(s);
    RunsNoHash(s[b..]);
    RunsNoHash(s[c..]);
    NoHashJoin(s, b, c - b);
    NoHashJoin(s, c, d - c);
    BraceNoHash(s, d);
  }

  lemma BraceNoHash(s: string, d: nat)
    requires d < |s| && NoHash(s, 0, d) && s[d] == '{'
    ensures NoHash(s, 0, d + 1)
  {
  }

  lemma ModPartNoHash(s: string)
    requires ModPart(s).Some?
    ensures NoHash(s, 0, ModPart(s).value)
  {
    hide SpaceRun, NamePart, IsSpace;
    var a := SpaceRun(s);
    var m := NamePart(s[a + 3..]).value;
    NamePartNoHash(s[a + 3..]);
    HashIsNoSpace();
    forall k | 0 <= k < a + 3 + m
      ensures s[k] != '#'
    {
      if a <= k < a + 3 {
        assert s[k] == s[a..][k - a] == "mod"[k - a];
      } else if k >= a + 3 {
        assert s[k] == s[a + 3..][k - (a + 3)];
      }
    }
  }

  lemma HashIsNoSpace()
    ensures !IsSpace('#')
  {
  }

  /** The only `#` in a header is its first character. */
  lemma HeaderOneHash(s: string)
    requires Header(s).Some?
    ensures s[0] == '#' && NoHash(s, 1, Header(s).value)
  {
    hide ModPart;
    ModPartNoHash(s[12..]);
    assert forall k :: 12 <= k < |s| ==> s[k] == s[12..][k - 12];
  }

  // ---- cutting one module and then the rest

  /** What comes before a text's first `#` stays as it is. */
  lemma OnePassKeepsFront(text: string, n: nat)
    requires n <= |text| && NoHash(text, 0, n)
    ensures n <= |OnePass(text)| && OnePass(text)[..n] == text[..n]
  {
    hide CloseFrom, HeaderAt;
    var found := Search(text, 0);
    if found.Some? {
      HashAtHeader(text, found.value.0);
      assert found.value.0 >= n;
    }
  }

  lemma HashAtHeader(text: string, i: nat)
    requires i <= |text| && HeaderAt(text, i).Some?
    ensures i < |text| && text[i] == '#'
  {
    HeaderOneHash(text[i..]);
  }

  lemma OnePassDone(text: string)
    requires Search(text, 0).None?
    ensures OnePass(text) == text
  {
  }

  /** Past a front with no header in it the same modules follow. */
  lemma OnePassPast(front: string, rest: string)
    requires forall k :: 0 <= k < |front| ==> HeaderAt(front + rest, k).None?
    ensures OnePass(front + rest) == front + OnePass(rest)
  {
    hide HeaderAt, CloseFrom, Search, OnePass, Newlines, Count;
    SearchPast(front, rest, 0);
    var found := Search(rest, 0);
    if found.None? {
      OnePassDone(rest);
      OnePassDone(front + rest);
    } else {
      OnePassPastModule(front, rest, found.value.0, found.value.1);
    }
  }

  lemma OnePassPastModule(front: string, rest: string, start: nat, after: nat)
    requires Search(rest, 0) == Some((start, after)) && start < after <= |rest|
    requires Search(front + rest, 0) == Some((|front| + start, |front| + after))
    ensures OnePass(front + rest) == front + OnePass(rest)
  {
    hide *;
    ClosingFurther(front, rest, after);
    match Closing(rest, after)
    case None =>
      OnePassOpen(rest, start, after);
      OnePassOpen(front + rest, |front| + start, |front| + after);
    case Some(close) =>
      OnePassPastClosed(front, rest, start, after, close + 1);
  }

  lemma OnePassPastClosed(front: string, rest: string, start: nat, after: nat, end: nat)
    requires Search(rest, 0) == Some((start, after)) && start < after <= |rest|
    requires Search(front + rest, 0) == Some((|front| + start, |front| + after))
    requires end > 0 && Closing(rest, after) == Some(end - 1)
    requires Closing(front + rest, |front| + after) == Some(|front| + end - 1)
    ensures OnePass(front + rest) == front + OnePass(rest)
  {
    hide *;
    calc {
      OnePass(front + rest);
      { OnePassClosed(front + rest, |front| + start, |front| + after, |front| + end); }
      WithoutModule(front + rest, |front| + start, |front| + end);
      { WithoutPast(front, rest, start, end); }
      front + WithoutModule(rest, start, end);
      { OnePassClosed(rest, start, after, end); }
      front + OnePass(rest);
    }
  }

  lemma OnePassOpen(text: string, start: nat, after: nat)
    requires Search(text, 0) == Some((start, after)) && 0 < after <= |text| && Closing(text, after).None?
    ensures OnePass(text) == text
  {
    hide Search, HeaderAt, Closing, WithoutModule;
  }

  lemma OnePassClosed(text: string, start: nat, after: nat, end: nat)
    requires Search(text, 0) == Some((start, after)) && start < after <= |text|
    requires end > 0 && Closing(text, after) == Some(end - 1)
    ensures OnePass(text) == WithoutModule(text, start, end)
  {
    hide Search, HeaderAt, Closing, WithoutModule;
  }

  lemma ClosingFurther(front: string, rest: string, after: nat)
    requires 0 < after <= |rest|
    ensures Closing(front + rest, |front| + after) ==
            var r := Closing(rest, after); if r.Some? then Some(|front| + r.value) else None
  {
    hide CloseFrom, Balances;
    CloseFurther(front, rest, after - 1, after - 1);
  }

  lemma WithoutPast(front: string, rest: string, start: nat, end: nat)
    requires start < end <= |rest|
    ensures WithoutModule(front + rest, |front| + start, |front| + end) == front + WithoutModule(rest, start, end)
  {
    hide Newlines, Count, OnePass;
    var lines := Newlines(Count(rest[start..end], '\n'));
    PastParts(front, rest, start, end);
    Assoc(front, rest[..start], lines);
    Assoc(front, rest[..start] + lines, OnePass(rest[end..]));
  }

  lemma PastParts(front: string, rest: string, start: nat, end: nat)
    requires start <= end <= |rest|
    ensures var text := front + rest;
            && text[..|front| + start] == front + rest[..start]
            && text[|front| + start..|front| + end] == rest[start..end]
            && text[|front| + end..] == rest[end..]
  {
  }

  lemma {:induction false} SearchPast(front: string, rest: string, i: nat)
    requires i <= |front| && forall k :: i <= k < |front| ==> HeaderAt(front + rest, k).None?
    ensures Search(front + rest, i) ==
            var r := Search(rest, 0); if r.Some? then Some((|front| + r.value.0, |front| + r.value.1)) else None
    decreases |front| - i
  {
    hide HeaderAt;
    if i < |front| {
      SearchPast(front, rest, i + 1);
    } else {
      SearchShifted(front, rest, 0);
    }
  }

  lemma {:induction false} SearchShifted(front: string, rest: string, i: nat)
    requires i <= |rest|
    ensures Search(front + rest, |front| + i) ==
            var r := Search(rest, i); if r.Some? then Some((|front| + r.value.0, |front| + r.value.1)) else None
    decreases |rest| - i
  {
    hide HeaderAt;
    if i < |rest| {
      HeaderShifted(front, rest, i);
      SearchShifted(front, rest, i + 1);
    }
  }

  lemma HeaderShifted(front: string, rest: string, i: nat)
    requires i <= |rest|
    ensures HeaderAt(front + rest, |front| + i)
            == var r := HeaderAt(rest, i); if r.Some? then Some(|front| + r.value) else None
  {
    hide Header;
    assert (front + rest)[|front| + i..] == rest[i..];
  }

  /** A header that begins in the front, and may run on past it, is there whether or not the modules that follow
      are cut. */
  lemma HeaderSurvives(front: string, rest: string, k: nat)
    requires k < |front| && HeaderAt(front + rest, k).Some?
    ensures HeaderAt(front + OnePass(rest), k).Some?
  {
    hide OnePass, HeaderAt, Header, Shares;
    var text, cut := front + rest, front + OnePass(rest);
    var end := HeaderEnd(text, k);
    var n := if end > |front| then end - |front| else 0;
    HashesPast(front, rest, k, n);
    OnePassKeepsFront(rest, n);
    FrontsShare(front, rest, OnePass(rest), k, n);
    SharesFewer(text[k..], cut[k..], |front| - k + n, end - k);
    HeaderLocal(text[k..], cut[k..]);
    HeaderThere(cut, k);
  }

  lemma HashesPast(front: string, rest: string, k: nat, n: nat)
    requires k < |front| && n <= |rest| && (n > 0 ==> NoHash((front + rest)[k..], 1, |front| - k + n))
    ensures NoHash(rest, 0, n)
  {
    forall i | 0 <= i < n
      ensures rest[i] != '#'
    {
      assert rest[i] == (front + rest)[k..][|front| - k + i];
    }
  }

  lemma SharesFewer(s: string, t: string, n: nat, m: nat)
    requires Shares(s, t, n) && m <= n
    ensures Shares(s, t, m)
  {
    assert s[..m] == s[..n][..m] && t[..m] == t[..n][..m];
  }

  lemma HeaderThere(text: string, k: nat)
    requires k <= |text|
    ensures HeaderAt(text, k).Some? <==> Header(text[k..]).Some?
  {
    hide Header;
  }

  /** Where the header at k ends; past its first character it has no `#`. */
  lemma HeaderEnd(text: string, k: nat) returns (end: nat)
    requires k <= |text| && HeaderAt(text, k).Some?
    ensures k < end <= |text| && Header(text[k..]) == Some(end - k) && NoHash(text[k..], 1, end - k)
  {
    end := HeaderAt(text, k).value;
    HeaderOneHash(text[k..]);
  }

  lemma FrontsShare(front: string, rest: string, other: string, k: nat, n: nat)
    requires k <= |front| && n <= |rest| && n <= |other| && rest[..n] == other[..n]
    ensures Shares((front + rest)[k..], (front + other)[k..], |front| - k + n)
  {
    assert (front + rest)[k..][..|front| - k + n] == front[k..] + rest[..n];
    assert (front + other)[k..][..|front| - k + n] == front[k..] + other[..n];
  }

  /** Where the text with its own modules cut has no header, cutting them one after another does the same. */
  lemma {:induction false} CutsAreOnePass(text: string)
    requires NoHeader(OnePass(text))
    ensures Removed(text) == Ok(OnePass(text))
    decreases Count(text, '{')
  {
    hide Search, CloseFrom, Cut, Count, HeaderAt, IsModule, Removed, NoHeader;
    RemovedNext(text);
    var found := Search(text, 0);
    if found.Some? {
      var (start, after) := found.value;
      var close := CloseFrom(text, after - 1, after - 1);
      if close.None? {
        NotHeaderless(text, start);
      } else {
        var end := close.value + 1;
        var rest := text[end..];
        var front := text[..start] + Newlines(Count(text[start..end], '\n'));
        CutIs(text, start, end);
        NoHeaderInFront(front, rest);
        OnePassPast(front, rest);
        CutsAreOnePass(Cut(text, start, end));
      }
    }
  }

  lemma CutIs(text: string, start: nat, end: nat)
    requires start <= end <= |text|
    ensures Cut(text, start, end) == text[..start] + Newlines(Count(text[start..end], '\n')) + text[end..]
  {
  }

  lemma NotHeaderless(text: string, i: nat)
    requires i < |text| && HeaderAt(text, i).Some?
    ensures !NoHeader(text)
  {
  }

  lemma NoHeaderInFront(front: string, rest: string)
    requires NoHeader(front + OnePass(rest))
    ensures forall k :: 0 <= k < |front| ==> HeaderAt(front + rest, k).None?
  {
    hide HeaderAt, OnePass;
    forall k | 0 <= k < |front|
      ensures HeaderAt(front + rest, k).None?
    {
      if HeaderAt(front + rest, k).Some? {
        HeaderSurvives(front, rest, k);
      }
    }
  }

  /** Only the text's own test modules go exactly when, with those gone, no header stands in what is left: none has
      formed across a cut. */
  lemma OnlyModulesGoIff(text: string)
    ensures Removed(text) == Ok(OnePass(text)) <==> NoHeader(OnePass(text))
    ensures Blanked(text).Ok? ==> (Blanked(text).value == OnePass(text) <==> NoHeader(OnePass(text)))
  {
    hide OnePass, Removed, NoHeader;
    RemovedKeeps(text);
    if NoHeader(OnePass(text)) {
      CutsAreOnePass(text);
    }
  }

  // ---- where more goes

  lemma NoAttributeWithin(text: string, k: nat)
    requires ATTRIBUTE <= text && 1 <= k <= 12 && (|text| > 12 ==> text[12] == '\n')
    ensures k <= |text| && HeaderAt(text, k).None?
  {
    hide ModPart;
    assert text[..12] == ATTRIBUTE;
    if k < |text| {
      assert text[k..][0] == text[k] && text[k] != '#' && ATTRIBUTE[0] == '#';
    }
  }

  lemma {:induction false} SearchFinds(text: string, i: nat, p: nat)
    requires i <= p < |text| && HeaderAt(text, p).Some? && forall k :: i <= k < p ==> HeaderAt(text, k).None?
    ensures Search(text, i) == Some((p, HeaderAt(text, p).value))
    decreases p - i
  {
    hide HeaderAt;
    if i < p {
      SearchFinds(text, i + 1, p);
    }
  }

  lemma {:induction false} CloseFurther(a: string, t: string, open: nat, i: nat)
    requires open <= i <= |t|
    ensures CloseFrom(a + t, |a| + open, |a| + i) ==
            var r := CloseFrom(t, open, i); if r.Some? then Some(|a| + r.value) else None
    decreases |t| - i
  {
    hide Net;
    if i < |t| {
      assert (a + t)[|a| + open..|a| + i + 1] == t[open..i + 1];
      CloseFurther(a, t, open, i + 1);
    }
  }

  lemma {:induction false} SpacesBefore(w: string, t: string)
    requires AllSpace(w)
    ensures SpaceRun(w + t) == |w| + SpaceRun(t)
    decreases |w|
  {
    hide IsSpace;
    if w == "" {
      assert w + t == t;
    } else {
      assert (w + t)[1..] == w[1..] + t;
      SpacesBefore(w[1..], t);
    }
  }

  lemma PastFront(w: string, t: string, k: nat)
    requires k <= |t|
    ensures (w + t)[|w| + k..] == t[k..] && (w + t)[..|w| + k] == w + t[..k]
  {
  }

  /** White space in front of a module changes nothing. */
  lemma ModPartFurther(w: string, t: string)
    requires AllSpace(w) && ModPart(t).Some?
    ensures ModPart(w + t).Some?
  {
    hide SpaceRun, NamePart, IsSpace;
    SpacesBefore(w, t);
    var n, s := SpaceRun(t), w + t;
    PastFront(w, t, n);
    PastFront(w, t, n + 3);
    assert '\n' in t[..n];
    assert '\n' in s[..|w| + n] && "mod" <= s[|w| + n..];
    assert NamePart(s[|w| + n + 3..]).Some?;
  }

  lemma HeaderOf(rest: string)
    ensures HeaderAt(ATTRIBUTE + rest, 0).Some? <==> ModPart(rest).Some?
  {
    hide ModPart;
    var text := ATTRIBUTE + rest;
    assert text[0..] == text && text[12..] == rest;
  }

  lemma NoModAtHash(t: string)
    requires t != "" && t[0] == '#'
    ensures ModPart("\n" + t).None?
  {
    hide NamePart;
    var s := "\n" + t;
    assert s[1..] == t;
    assert SpaceRun(s) == 1 by {
      assert IsSpace('\n') && !IsSpace('#');
      assert SpaceRun(t) == 0;
    }
  }

  lemma NewlinesAreSpace(n: nat)
    ensures AllSpace("\n" + Newlines(n))
  {
  }

  lemma HeaderBegins(t: string)
    requires HeaderAt(t, 0).Some?
    ensures t != "" && t[0] == '#'
  {
    hide ModPart;
    assert t[0..] == t && ATTRIBUTE[0] == '#';
  }

  /** A module is one wherever it begins. */
  lemma ModuleFurther(a: string, t: string, end: nat)
    requires IsModule(t, 0, end)
    ensures IsModule(a + t, |a|, |a| + end)
  {
    hide CloseFrom, HeaderAt;
    HeaderShifted(a, t, 0);
    var after := HeaderAt(t, 0).value;
    CloseFurther(a, t, after - 1, after - 1);
  }

  lemma MiddleParts(a: string, m: string, rest: string)
    ensures var text := a + (m + rest);
            text[..|a|] == a && text[|a|..|a| + |m|] == m && text[|a| + |m|..] == rest
  {
  }

  lemma CutMiddle(a: string, m: string, rest: string)
    ensures Cut(a + (m + rest), |a|, |a| + |m|) == a + Newlines(Count(m, '\n')) + rest
  {
    hide Newlines, Count;
    MiddleParts(a, m, rest);
  }

  /** The first module found is cut. */
  lemma FirstCut(text: string, start: nat, end: nat)
    requires IsModule(text, start, end) && forall k :: 0 <= k < start ==> HeaderAt(text, k).None?
    ensures Removed(text) == Removed(Cut(text, start, end))
  {
    hide Removed, Search, HeaderAt, CloseFrom, Cut;
    SearchFinds(text, 0, start);
    RemovedNext(text);
  }

  /** A text with one more attribute in front. */
  function AttributeBefore(t: string): (s: string)
    ensures |s| == 13 + |t|
  {
    ATTRIBUTE + ("\n" + t)
  }

  lemma FrontParts(t: string)
    ensures AttributeBefore(t) == ATTRIBUTE + "\n" + t && |ATTRIBUTE + "\n"| == 13
  {
  }

  lemma NoHeaderBefore(t: string)
    requires t != "" && t[0] == '#'
    ensures forall k :: 0 <= k < 13 ==> HeaderAt(AttributeBefore(t), k).None?
  {
    hide HeaderAt, ModPart;
    var text := AttributeBefore(t);
    NoModAtHash(t);
    HeaderOf("\n" + t);
    assert text[12] == '\n';
    forall k | 1 <= k < 13
      ensures HeaderAt(text, k).None?
    {
      NoAttributeWithin(text, k);
    }
  }

  lemma ModuleBehind(m: string, rest: string)
    requires IsModule(m + rest, 0, |m|)
    ensures IsModule(AttributeBefore(m + rest), 13, 13 + |m|)
    ensures Cut(AttributeBefore(m + rest), 13, 13 + |m|) == AttributeBefore(Newlines(Count(m, '\n')) + rest)
  {
    hide IsModule, Cut, AttributeBefore, Newlines, Count;
    var a := ATTRIBUTE + "\n";
    var lines := Newlines(Count(m, '\n'));
    FrontParts(m + rest);
    FrontParts(lines + rest);
    ModuleFurther(a, m + rest, |m|);
    CutMiddle(a, m, rest);
    Assoc(a, lines, rest);
  }

  lemma ModuleBegins(t: string, end: nat)
    requires IsModule(t, 0, end)
    ensures t != "" && t[0] == '#'
  {
    hide HeaderAt, CloseFrom;
    HeaderBegins(t);
  }

  lemma HeaderBehind(n: nat, rest: string)
    requires ModPart(rest).Some?
    ensures HeaderAt(AttributeBefore(Newlines(n) + rest), 0).Some?
  {
    hide ModPart, Newlines, HeaderAt;
    NewlinesAreSpace(n);
    ModPartFurther("\n" + Newlines(n), rest);
    Assoc("\n", Newlines(n), rest);
    HeaderOf("\n" + Newlines(n) + rest);
  }

  /** A test module is promised to be all that goes. With the attribute written twice, cutting the module leaves
      the first of the two, and so the module after it goes as well, which in the text has no attribute. */
  lemma DoubledAttribute(m: string, rest: string)
    requires IsModule(m + rest, 0, |m|) && ModPart(rest).Some?
    ensures var text := AttributeBefore(m + rest);
            var next := AttributeBefore(Newlines(Count(m, '\n')) + rest);
            && HeaderAt(text, 0).None? && IsModule(text, 13, 13 + |m|)
            && Removed(text) == Removed(next)
            && HeaderAt(next, 0).Some?
  {
    hide Count, HeaderAt, IsModule, ModPart, Removed, Cut, Newlines, AttributeBefore;
    ModuleBegins(m + rest, |m|);
    NoHeaderBefore(m + rest);
    ModuleBehind(m, rest);
    FirstCut(AttributeBefore(m + rest), 13, 13 + |m|);
    HeaderBehind(Count(m, '\n'), rest);
  }

  // ---- an input at which more goes

  /** An empty module behind n newlines. */
  function EmptyModule(n: nat, name: char): (s: string)
    ensures |s| == n + 7
  {
    Newlines(n) + "mod " + [name] + "{}"
  }

  lemma EmptyModulePart(n: nat, name: char, rest: string)
    requires n > 0 && NameChar(name)
    ensures var s := EmptyModule(n, name) + rest;
            ModPart(s) == Some(n + 6) && s[n + 5] == '{' && s[n + 6] == '}'
  {
    hide ModPart, NamePart, SpaceRun, IsSpace, NameChar;
    var after := " " + [name] + "{" + ("}" + rest);
    var s := EmptyModule(n, name) + rest;
    assert s == Newlines(n) + ("mod" + after);
    LetterIsNoSpace();
    NewlinesBegin(n, "mod" + after);
    SpaceNameBrace(name, "}" + rest);
    ModBegins(Newlines(n), after);
    ModPartIs(s, n, 3);
  }

  lemma LetterIsNoSpace()
    ensures !IsSpace('m')
  {
  }

  lemma ModBegins(lines: string, after: string)
    ensures var s := lines + ("mod" + after);
            "mod" <= s[|lines|..] && s[|lines| + 3..] == after && s[..|lines|] == lines
  {
    assert (lines + ("mod" + after))[|lines|..] == "mod" + after;
  }

  lemma ModPartIs(s: string, n: nat, m: nat)
    requires 0 < n && n + 3 <= |s| && SpaceRun(s) == n && s[0] == '\n' && "mod" <= s[n..]
             && NamePart(s[n + 3..]) == Some(m)
    ensures ModPart(s) == Some(n + 3 + m)
  {
    hide SpaceRun, NamePart;
    assert s[..n][0] == '\n';
  }

  lemma NewlinesBegin(n: nat, rest: string)
    requires rest != "" && !IsSpace(rest[0])
    ensures SpaceRun(Newlines(n) + rest) == n
  {
    assert IsSpace('\n');
    SpacesBefore(Newlines(n), rest);
  }

  lemma SpaceNameBrace(name: char, rest: string)
    requires NameChar(name)
    ensures NamePart(" " + [name] + "{" + rest) == Some(3)
  {
    var s := " " + [name] + "{" + rest;
    assert s[1..] == [name] + "{" + rest && s[2..] == "{" + rest && s[1..][1..] == "{" + rest;
    assert IsSpace(' ') && !IsSpace(name) && !IsSpace('{') && !NameChar('{');
    assert SpaceRun(s[1..]) == 0 && SpaceRun(s) == 1;
    assert NameRun(s[2..]) == 0 && NameRun(s[1..]) == 1;
    assert SpaceRun(s[2..]) == 0;
  }

  /** With the attribute before it, it is a test module. */
  lemma EmptyModuleIsOne(n: nat, name: char, rest: string)
    requires n > 0 && NameChar(name)
    ensures IsModule(ATTRIBUTE + EmptyModule(n, name) + rest, 0, n + 19)
  {
    hide ModPart, EmptyModule, Balances;
    var text := ATTRIBUTE + EmptyModule(n, name) + rest;
    EmptyModulePart(n, name, rest);
    HeaderLength(EmptyModule(n, name) + rest);
    assert text == ATTRIBUTE + (EmptyModule(n, name) + rest);
    assert text[n + 17] == (EmptyModule(n, name) + rest)[n + 5] && text[n + 18] == (EmptyModule(n, name) + rest)[n + 6];
    ClosedAtOnce(text, n + 17);
  }

  lemma HeaderLength(s: string)
    requires ModPart(s).Some?
    ensures HeaderAt(ATTRIBUTE + s, 0) == Some(12 + ModPart(s).value)
  {
    hide ModPart;
    var text := ATTRIBUTE + s;
    AttributeIs(text);
    assert text[0..] == text && text[12..] == s;
  }

  lemma ClosedAtOnce(text: string, open: nat)
    requires open + 1 < |text| && text[open] == '{' && text[open + 1] == '}'
    ensures CloseFrom(text, open, open) == Some(open + 1)
  {
    assert text[open..open + 1] == "{" && text[open..open + 2] == "{" + "}";
    CountAppend("{", "}", '{');
    CountAppend("{", "}", '}');
    assert Net("{") == 1;
    assert Balances(text, open, open + 1);
  }

  lemma NewlinesOf(n: nat, name: char)
    requires NameChar(name)
    ensures Count(ATTRIBUTE + EmptyModule(n, name), '\n') == n
  {
    hide Count;
    var tail := "mod " + [name] + "{}";
    CountAppend(ATTRIBUTE, EmptyModule(n, name), '\n');
    CountAppend(Newlines(n), tail, '\n');
    assert EmptyModule(n, name) == Newlines(n) + tail;
    CountNewlines(n);
    CountNone(ATTRIBUTE, '\n');
    CountNone(tail, '\n');
  }

  lemma {:induction false} NewlinesStay(n: nat)
    ensures Removed(Newlines(n)) == Ok(Newlines(n)) && OnePass(Newlines(n)) == Newlines(n)
  {
    hide HeaderAt;
    NoHashNoHeader(Newlines(n));
  }

  lemma NoHashNoHeader(text: string)
    requires NoHash(text, 0, |text|)
    ensures Search(text, 0).None?
  {
    hide HeaderAt;
    if Search(text, 0).Some? {
      HashAtHeader(text, Search(text, 0).value.0);
    }
  }

  /** The attribute, and then a test module `a` and a module `b`. */
  function Doubled(): (s: string) {
    AttributeBefore(ATTRIBUTE + EmptyModule(1, 'a') + EmptyModule(1, 'b'))
  }

  lemma DoubledIs()
    ensures Doubled() == "#[cfg(test)]\n" + ("#[cfg(test)]\n" + ("mod a{}\n" + "mod b{}"))
  {
    EmptyModuleIs('a');
    EmptyModuleIs('b');
    DoubledParts(ATTRIBUTE, "\n", "mod a{}", "mod b{}");
  }

  lemma EmptyModuleIs(name: char)
    ensures EmptyModule(1, name) == "\n" + ("mod " + [name] + "{}")
  {
    assert Newlines(1) == "\n";
  }

  lemma DoubledParts(a: string, n: string, m: string, m': string)
    ensures a + (n + (a + (n + m) + (n + m'))) == (a + n) + ((a + n) + ((m + n) + m'))
  {
  }

  /** All that is left of it is three newlines, although with its one test module gone `b` is still there. */
  lemma DoubledAttributeTakesBoth()
    ensures Blanked(Doubled()) == Ok(Newlines(3))
    ensures OnePass(Doubled()) == AttributeBefore(EmptyModule(2, 'b'))
  {
    hide Removed, OnePass, IsModule, EmptyModule, AttributeBefore, Newlines, ModPart, HeaderAt, Cut, Count, NoHash;
    var m, rest := ATTRIBUTE + EmptyModule(1, 'a'), EmptyModule(1, 'b');
    var text := Doubled();
    EmptyModuleIsOne(1, 'a', rest);
    NewlinesOf(1, 'a');
    EmptyModuleBare(1, 'b');
    DoubledAttribute(m, rest);
    ModuleBehind(m, rest);
    ModuleBegins(m + rest, |m|);
    NoHeaderBefore(m + rest);
    BehindParts(m, rest);
    OneModuleOnly(text, 13, 13 + |m|);
    NewlineMore('b');
    LastStep();
    NetOfCut(text, 13, 13 + |m|);
  }

  lemma BehindParts(m: string, rest: string)
    ensures AttributeBefore(m + rest)[13 + |m|..] == rest
  {
    assert AttributeBefore(m + rest) == ATTRIBUTE + "\n" + m + rest;
  }

  lemma EmptyModuleBare(n: nat, name: char)
    requires n > 0 && NameChar(name)
    ensures ModPart(EmptyModule(n, name)).Some? && NoHash(EmptyModule(n, name), 0, n + 7)
  {
    hide ModPart;
    EmptyModulePart(n, name, "");
    assert EmptyModule(n, name) + "" == EmptyModule(n, name);
  }

  /** With no header before it and no `#` after it, a module is all that a pass cuts. */
  lemma OneModuleOnly(text: string, start: nat, end: nat)
    requires IsModule(text, start, end) && forall k :: 0 <= k < start ==> HeaderAt(text, k).None?
    requires NoHash(text[end..], 0, |text[end..]|)
    ensures OnePass(text) == Cut(text, start, end)
  {
    hide Search, HeaderAt, CloseFrom, OnePass, Balances, NoHash;
    SearchFinds(text, 0, start);
    OnePassClosed(text, start, HeaderAt(text, start).value, end);
    NoHashNoHeader(text[end..]);
    OnePassDone(text[end..]);
  }

  lemma NewlineMore(name: char)
    ensures Newlines(1) + EmptyModule(1, name) == EmptyModule(2, name)
    ensures AttributeBefore(EmptyModule(2, name)) == ATTRIBUTE + EmptyModule(3, name)
  {
    var tail := "mod " + [name] + "{}";
    assert Newlines(1) + (Newlines(1) + tail) == Newlines(2) + tail;
    assert "\n" + (Newlines(2) + tail) == Newlines(3) + tail;
  }

  /** What is left once `a` is gone is a test module from end to end. */
  lemma LastStep()
    ensures var next := ATTRIBUTE + EmptyModule(3, 'b');
            Removed(next) == Ok(Newlines(3)) && Net(next) == 0
  {
    hide Removed, OnePass, IsModule, EmptyModule, Newlines, HeaderAt, Count;
    var next := ATTRIBUTE + EmptyModule(3, 'b');
    EmptyModuleIsOne(3, 'b', "");
    assert next + "" == next && next[0..|next|] == next && next[..0] == "" && next[|next|..] == "";
    ModuleBalances(next, 0, |next|);
    FirstCut(next, 0, |next|);
    NewlinesOf(3, 'b');
    assert "" + Newlines(3) + "" == Newlines(3);
    NewlinesStay(3);
  }

  lemma NetOfCut(text: string, start: nat, end: nat)
    requires IsModule(text, start, end)
    ensures Net(Cut(text, start, end)) == Net(text)
  {
    hide Count, Cut, IsModule;
    IsWithin(text, start, end);
    ModuleBalances(text, start, end);
    CutCounts(text, start, end, '{');
    CutCounts(text, start, end, '}');
  }

  lemma IsWithin(text: string, start: nat, end: nat)
    requires IsModule(text, start, end)
    ensures start < end <= |text|
  {
  }
}
