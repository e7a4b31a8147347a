/** Removing a source's test modules, in the view of its code. */
module TestModules {
  import opened Results
  import opened Text

  datatype Refusal = Unbalanced | NeverCloses(at: nat)

  // ---- counting

  function Count(s: string, c: char): (n: nat)
    ensures n <= |s|
  {
    if s == "" then 0 else Count(s[..|s| - 1], c) + if s[|s| - 1] == c then 1 else 0
  }

  /** Opening braces less closing ones. */
  function Net(s: string): (n: int) {
    Count(s, '{') - Count(s, '}')
  }

  lemma {:induction false} CountAppend(a: string, b: string, c: char)
    ensures Count(a + b, c) == Count(a, c) + Count(b, c)
    decreases |b|
  {
    if b == "" {
      assert a + b == a;
    } else {
      assert (a + b)[..|a + b| - 1] == a + b[..|b| - 1];
      CountAppend(a, b[..|b| - 1], c);
    }
  }

  lemma CountNext(s: string, i: nat, c: char)
    requires i < |s|
    ensures Count(s[..i + 1], c) == Count(s[..i], c) + if s[i] == c then 1 else 0
  {
    assert s[..i + 1][..i] == s[..i];
  }

  lemma {:induction false} CountNone(s: string, c: char)
    requires c !in s
    ensures Count(s, c) == 0
  {
    if s != "" {
      CountNone(s[..|s| - 1], c);
    }
  }

  // ---- the brace that closes another

  /** The closing brace at i leaves as many open as there were at `open`. */
  predicate Balances(text: string, open: nat, i: nat)
    requires open <= i < |text|
  {
    text[i] == '}' && Net(text[open..i + 1]) == 0
  }

  /** The first closing brace at or after i that balances. */
  function CloseFrom(text: string, open: nat, i: nat): (r: Option<nat>)
    requires open <= i <= |text|
    ensures r.Some? ==> i <= r.value < |text| && Balances(text, open, r.value)
    ensures forall k :: i <= k < (if r.Some? then r.value else |text|) ==> !Balances(text, open, k)
    decreases |text| - i
  {
    if i == |text| then None else if Balances(text, open, i) then Some(i) else CloseFrom(text, open, i + 1)
  }

  /** The source's walk. */
  method MatchingBrace(text: string, open: nat) returns (r: Option<nat>)
    requires open <= |text|
    ensures r == CloseFrom(text, open, open)
  {
    hide Net;
    var depth: int, i := 0, open;
    NetNone();
    assert text[open..open] == "";
    while i < |text|
      invariant open <= i <= |text|
      invariant depth == Net(text[open..i])
      invariant CloseFrom(text, open, i) == CloseFrom(text, open, open)
    {
      NetNext(text, open, i);
      if text[i] == '{' {
        depth := depth + 1;
      } else if text[i] == '}' {
        depth := depth - 1;
        if depth == 0 {
          return Some(i);
        }
      }
      i := i + 1;
    }
    return None;
  }

  lemma NetNone()
    ensures Net("") == 0
  {
  }

  lemma NetNext(text: string, open: nat, i: nat)
    requires open <= i < |text|
    ensures Net(text[open..i + 1])
            == Net(text[open..i]) + if text[i] == '{' then 1 else if text[i] == '}' then -1 else 0
  {
    assert text[open..i + 1][..i - open] == text[open..i];
  }

  /** Between a brace and the one that closes it, more are open than closed. */
  lemma {:induction false} InsideIsOpen(text: string, open: nat, k: nat)
    requires open < k <= |text| && text[open] == '{'
    requires forall i :: open <= i < k ==> !Balances(text, open, i)
    ensures Net(text[open..k]) > 0
    decreases k
  {
    hide Net;
    NetNext(text, open, k - 1);
    if k == open + 1 {
      NetNone();
      assert text[open..open] == "";
    } else {
      InsideIsOpen(text, open, k - 1);
      assert !Balances(text, open, k - 1);
    }
  }

  // ---- where a test module begins

  predicate NameChar(c: char) {
    'A' <= c <= 'Z' || 'a' <= c <= 'z' || '0' <= c <= '9' || c == '_'
  }

  function NameRun(s: string): (n: nat)
    ensures n <= |s| && (forall k :: 0 <= k < n ==> NameChar(s[k]))
  {
    if s == "" || !NameChar(s[0]) then 0 else 1 + NameRun(s[1..])
  }

  const ATTRIBUTE := "#[cfg(test)]"

  /** Whether `s` begins with the attribute. */
  predicate HasAttribute(s: string) {
    && |s| >= 12
    && s[0] == '#' && s[1] == '[' && s[2] == 'c' && s[3] == 'f' && s[4] == 'g' && s[5] == '('
    && s[6] == 't' && s[7] == 'e' && s[8] == 's' && s[9] == 't' && s[10] == ')' && s[11] == ']'
  }

  lemma AttributeIs(s: string)
    ensures HasAttribute(s) <==> ATTRIBUTE <= s
  {
    if HasAttribute(s) {
      assert s[..12] == ATTRIBUTE;
    }
  }

  /** White space, a name, white space and a brace: how long they are. */
  function NamePart(s: string): (n: Option<nat>)
    ensures n.Some? ==> 0 < n.value <= |s| && s[n.value - 1] == '{'
  {
    var b := SpaceRun(s);
    var c := b + NameRun(s[b..]);
    var d := c + SpaceRun(s[c..]);
    if b == 0 || c == b || d == |s| || s[d] != '{' then None else Some(d + 1)
  }

  /** White space with a newline in it, `mod`, and its name. */
  function ModPart(s: string): (n: Option<nat>)
    ensures n.Some? ==> 0 < n.value <= |s| && s[n.value - 1] == '{'
  {
    var a := SpaceRun(s);
    if '\n' !in s[..a] || !("mod" <= s[a..]) then None else
    var n := NamePart(s[a + 3..]);
    if n.None? then None else Some(a + 3 + n.value)
  }

  /** The attribute and the module it stands before. */
  function Header(s: string): (n: Option<nat>)
    ensures n.Some? ==> 0 < n.value <= |s| && s[n.value - 1] == '{'
  {
    if !HasAttribute(s) then None else
    var n := ModPart(s[12..]);
    if n.None? then None else Some(12 + n.value)
  }

  ghost predicate NoBraces(s: string, n: nat)
    requires n <= |s|
  {
    forall k :: 0 <= k < n ==> s[k] != '{' && s[k] != '}'
  }

  lemma NoBracesJoin(s: string, n: nat, m: nat)
    requires n <= |s| && m <= |s| - n && NoBraces(s, n) && NoBraces(s[n..], m)
    ensures NoBraces(s, n + m)
  {
    forall k | n <= k < n + m
      ensures s[k] != '{' && s[k] != '}'
    {
      assert s[k] == s[n..][k - n];
    }
  }

  lemma RunsHaveNoBrace(s: string)
    ensures NoBraces(s, SpaceRun(s)) && NoBraces(s, NameRun(s))
  {
  }

  lemma NamePartHasOneBrace(s: string)
    requires NamePart(s).Some?
    ensures NoBraces(s, NamePart(s).value - 1)
  {
    hide NoBraces, SpaceRun, NameRun;
    var b := SpaceRun(s);
    var c := b + NameRun(s[b..]);
    RunsHaveNoBrace(s);
    RunsHaveNoBrace(s[b..]);
    NoBracesJoin(s, b, c - b);
    RunsHaveNoBrace(s[c..]);
    NoBracesJoin(s, c, SpaceRun(s[c..]));
  }

  lemma ModPartHasOneBrace(s: string)
    requires ModPart(s).Some?
    ensures NoBraces(s, ModPart(s).value - 1)
  {
    hide NoBraces, NamePart, SpaceRun;
    var a := SpaceRun(s);
    RunsHaveNoBrace(s);
    ModHasNoBrace(s[a..]);
    NoBracesJoin(s, a, 3);
    NamePartHasOneBrace(s[a + 3..]);
    NoBracesJoin(s, a + 3, NamePart(s[a + 3..]).value - 1);
  }

  lemma ModHasNoBrace(s: string)
    requires "mod" <= s
    ensures NoBraces(s, 3)
  {
    assert s[0] == 'm' && s[1] == 'o' && s[2] == 'd';
  }

  /** Before its brace a header has none. */
  lemma HeaderHasOneBrace(s: string)
    requires Header(s).Some?
    ensures NoBraces(s, Header(s).value - 1)
  {
    hide ModPart;
    ModPartHasOneBrace(s[12..]);
    hide NoBraces;
    AttributeHasNoBrace(s);
    NoBracesJoin(s, 12, ModPart(s[12..]).value - 1);
  }

  lemma AttributeHasNoBrace(s: string)
    requires HasAttribute(s)
    ensures NoBraces(s, 12)
  {
  }

  /** Where the header at i ends. */
  function HeaderAt(text: string, i: nat): (e: Option<nat>)
    requires i <= |text|
    ensures e.Some? ==> i < e.value <= |text| && text[e.value - 1] == '{'
  {
    hide Header;
    var n := Header(text[i..]);
    if n.None? then None else Some(i + n.value)
  }

  /** The first header at or after i: where it begins and ends. */
  function Search(text: string, i: nat): (r: Option<(nat, nat)>)
    requires i <= |text|
    ensures r.Some? ==> i <= r.value.0 < r.value.1 <= |text| && HeaderAt(text, r.value.0) == Some(r.value.1)
    decreases |text| - i
  {
    hide HeaderAt;
    if i == |text| then None
    else if HeaderAt(text, i).Some? then Some((i, HeaderAt(text, i).value))
    else Search(text, i + 1)
  }

  lemma {:induction false} SearchIsFirst(text: string, i: nat, k: nat)
    requires i <= k < |text| && (Search(text, i).Some? ==> k < Search(text, i).value.0)
    ensures HeaderAt(text, k).None?
    decreases |text| - i
  {
    hide HeaderAt;
    if i < k {
      SearchIsFirst(text, i + 1, k);
    }
  }

  function Newlines(n: nat): (s: string)
    ensures |s| == n && forall k :: 0 <= k < n ==> s[k] == '\n'
  {
    seq(n, _ => '\n')
  }

  /** The text with one span left as its newlines. */
  function Cut(text: string, start: nat, end: nat): (r: string)
    requires start <= end <= |text|
  {
    text[..start] + Newlines(Count(text[start..end], '\n')) + text[end..]
  }

  /** A test module of the text, from its attribute to past the brace that closes it. */
  ghost predicate IsModule(text: string, start: nat, end: nat) {
    && start < end <= |text|
    && var after := HeaderAt(text, start);
    && after.Some? && after.value < end && CloseFrom(text, after.value - 1, after.value - 1) == Some(end - 1)
  }

  lemma HeaderHead(text: string, start: nat)
    requires start <= |text| && HeaderAt(text, start).Some?
    ensures var head := text[start..HeaderAt(text, start).value - 1]; '{' !in head && '}' !in head
  {
    hide Header;
    HeaderHasOneBrace(text[start..]);
    assert text[start..HeaderAt(text, start).value - 1] == text[start..][..Header(text[start..]).value - 1];
  }

  /** A module takes as many opening braces as closing ones with it, and one at least. */
  lemma ModuleBalances(text: string, start: nat, end: nat)
    requires IsModule(text, start, end)
    ensures var span := text[start..end]; Net(span) == 0 && Count(span, '{') > 0
  {
    hide HeaderAt, CloseFrom;
    var span := text[start..end];
    var open := HeaderAt(text, start).value - 1;
    HeaderHead(text, start);
    var head, body := text[start..open], text[open..end];
    assert span == head + body;
    CountNone(head, '{');
    CountNone(head, '}');
    CountAppend(head, body, '{');
    CountAppend(head, body, '}');
    assert Balances(text, open, end - 1);
    assert body == "{" + body[1..];
    CountAppend("{", body[1..], '{');
    assert Count("{", '{') == 1;
  }

  lemma CutCounts(text: string, start: nat, end: nat, c: char)
    requires start <= end <= |text|
    ensures c != '\n' ==> Count(Cut(text, start, end), c) == Count(text, c) - Count(text[start..end], c)
    ensures c == '\n' ==> Count(Cut(text, start, end), c) == Count(text, c)
  {
    hide Count;
    var span := text[start..end];
    var lines := Newlines(Count(span, '\n'));
    assert text == text[..start] + span + text[end..];
    CountAppend(text[..start] + span, text[end..], c);
    CountAppend(text[..start], span, c);
    CountAppend(text[..start] + lines, text[end..], c);
    CountAppend(text[..start], lines, c);
    if c == '\n' {
      CountNewlines(|lines|);
    } else {
      CountNone(lines, c);
    }
  }

  lemma {:induction false} CountNewlines(n: nat)
    ensures Count(Newlines(n), '\n') == n
  {
    if n > 0 {
      assert Newlines(n)[..n - 1] == Newlines(n - 1);
      CountNewlines(n - 1);
    }
  }

  lemma OpensWithBrace(text: string, start: nat, after: nat)
    requires start < after <= |text| && HeaderAt(text, start) == Some(after)
    ensures text[after - 1] == '{' && CloseFrom(text, after - 1, after - 1) != Some(after - 1)
  {
    hide HeaderAt;
  }

  /** A header whose brace closes is a module, and cutting it leaves fewer braces. */
  lemma ModuleShrinks(text: string, start: nat, after: nat)
    requires start < after <= |text| && HeaderAt(text, start) == Some(after)
    ensures text[after - 1] == '{'
    ensures var close := CloseFrom(text, after - 1, after - 1);
            close.Some? ==>
              IsModule(text, start, close.value + 1)
              && Count(Cut(text, start, close.value + 1), '{') < Count(text, '{')
  {
    hide HeaderAt, Cut, Count;
    OpensWithBrace(text, start, after);
    var close := CloseFrom(text, after - 1, after - 1);
    if close.Some? {
      ModuleBalances(text, start, close.value + 1);
      CutCounts(text, start, close.value + 1, '{');
    }
  }

  // ---- removing them all

  /** What is left of the text once no header is found in it. */
  function Removed(text: string): (r: Result<string, Refusal>)
    decreases Count(text, '{')
  {
    hide HeaderAt, CloseFrom, IsModule, Count, Cut, Search;
    var found := Search(text, 0);
    if found.None? then Ok(text) else
    var (start, after) := found.value;
    var close := CloseFrom(text, after - 1, after - 1);
    if close.None? then Err(NeverCloses(start)) else
    ModuleShrinks(text, start, after);
    Removed(Cut(text, start, close.value + 1))
  }

  function Blanked(text: string): (r: Result<string, Refusal>) {
    if Count(text, '{') != Count(text, '}') then Err(Unbalanced) else Removed(text)
  }

  /** The source's loop. */
  method BlankTestModules(source: string) returns (r: Result<string, Refusal>)
    ensures r == Blanked(source)
  {
    hide Removed, Search, CloseFrom, Cut, Count, HeaderAt, IsModule;
    if Count(source, '{') != Count(source, '}') {
      return Err(Unbalanced);
    }
    var text := source;
    while true
      invariant Removed(text) == Removed(source)
      decreases Count(text, '{')
    {
      RemovedNext(text);
      var found := Search(text, 0);
      if found.None? {
        return Ok(text);
      }
      var (start, after) := found.value;
      var close := MatchingBrace(text, after - 1);
      if close.None? {
        return Err(NeverCloses(start));
      }
      text := Cut(text, start, close.value + 1);
    }
  }

  lemma RemovedNext(text: string)
    ensures var found := Search(text, 0);
            if found.None? then Removed(text) == Ok(text) else
            var close := CloseFrom(text, found.value.1 - 1, found.value.1 - 1);
            if close.None? then Removed(text) == Err(NeverCloses(found.value.0)) else
            && IsModule(text, found.value.0, close.value + 1)
            && Count(Cut(text, found.value.0, close.value + 1), '{') < Count(text, '{')
            && Removed(text) == Removed(Cut(text, found.value.0, close.value + 1))
  {
    hide Search, CloseFrom, Cut, Count, HeaderAt, IsModule;
    var found := Search(text, 0);
    if found.Some? {
      ModuleShrinks(text, found.value.0, found.value.1);
    }
  }
}
