/** What begins a test module, told by its characters. */
module HeaderLaws {
  import opened Results
  import opened Text
  import opened TestModules

  ghost predicate Name(c: char) {
    'A' <= c <= 'Z' || 'a' <= c <= 'z' || '0' <= c <= '9' || c == '_'
  }

  ghost predicate Spaces(text: string, i: nat, j: nat) {
    i <= j <= |text| && forall k :: i <= k < j ==> IsSpace(text[k])
  }

  ghost predicate AttributeAt(text: string, i: nat) {
    i + 12 <= |text| && text[i..i + 12] == "#[cfg(test)]"
  }

  ghost predicate NewlineIn(text: string, i: nat, j: nat) {
    exists k :: i <= k < j <= |text| && text[k] == '\n'
  }

  ghost predicate ModAt(text: string, a: nat) {
    a + 3 <= |text| && text[a] == 'm' && text[a + 1] == 'o' && text[a + 2] == 'd'
  }

  ghost predicate NameText(text: string, i: nat, j: nat) {
    i <= j <= |text| && forall k :: i <= k < j ==> Name(text[k])
  }

  /** From `i` the attribute, white space with a newline in it up to `a`, `mod`, white space up to `b`, a name up to
      `c`, and a brace at `d` after more white space, if any. */
  ghost predicate HeaderParts(text: string, i: nat, a: nat, b: nat, c: nat, d: nat) {
    && AttributeAt(text, i) && Spaces(text, i + 12, a) && NewlineIn(text, i + 12, a) && ModAt(text, a)
    && a + 3 < b && Spaces(text, a + 3, b)
    && b < c && NameText(text, b, c)
    && Spaces(text, c, d) && d < |text| && text[d] == '{'
  }

  /** A header is found at `i`, and ends after `d`, exactly when its parts stand there. */
  lemma HeaderMeans(text: string, i: nat, d: nat)
    requires i <= |text|
    ensures HeaderAt(text, i) == Some(d + 1) <==> exists a: nat, b: nat, c: nat :: HeaderParts(text, i, a, b, c, d)
  {
    hide HeaderAt, HeaderParts;
    if HeaderAt(text, i) == Some(d + 1) {
      var a, b, c, e := PartsOf(text, i);
    }
    forall a: nat, b: nat, c: nat | HeaderParts(text, i, a, b, c, d)
      ensures HeaderAt(text, i) == Some(d + 1)
    {
      PartsMake(text, i, a, b, c, d);
    }
  }

  // ---- where each part ends

  function SpaceEnd(text: string, i: nat): (j: nat)
    requires i <= |text|
    ensures i <= j <= |text|
  {
    i + SpaceRun(text[i..])
  }

  function NameEnd(text: string, i: nat): (j: nat)
    requires i <= |text|
    ensures i <= j <= |text|
  {
    i + NameRun(text[i..])
  }

  function BraceAt(text: string, i: nat): (d: Option<nat>)
    requires i <= |text|
    ensures d.Some? ==> i <= d.value < |text|
  {
    var n := NamePart(text[i..]);
    if n.None? then None else Some(i + n.value - 1)
  }

  function ModBraceAt(text: string, i: nat): (d: Option<nat>)
    requires i <= |text|
  {
    var n := ModPart(text[i..]);
    if n.None? then None else Some(i + n.value - 1)
  }

  lemma SpaceEndMeans(text: string, i: nat, j: nat)
    requires i <= |text|
    ensures SpaceEnd(text, i) == j <==> Spaces(text, i, j) && (j < |text| ==> !IsSpace(text[j]))
  {
    var s := text[i..];
    var n := SpaceRun(s);
    hide IsSpace, SpaceRun;
    assert forall k :: 0 <= k < |s| ==> s[k] == text[i + k];
    forall k | i <= k < i + n
      ensures IsSpace(text[k])
    {
      assert text[k] == s[..n][k - i];
    }
    if Spaces(text, i, j) && (j < |text| ==> !IsSpace(text[j])) {
      OneSpacesEnd(text, i, j, i + n);
    }
  }

  lemma OneSpacesEnd(text: string, i: nat, j: nat, n: nat)
    requires Spaces(text, i, j) && (j < |text| ==> !IsSpace(text[j]))
    requires Spaces(text, i, n) && (n < |text| ==> !IsSpace(text[n]))
    ensures j == n
  {
    hide IsSpace;
  }

  lemma {:induction false} NameRunMost(s: string)
    ensures NameRun(s) < |s| ==> !NameChar(s[NameRun(s)])
  {
    if s != "" && NameChar(s[0]) {
      NameRunMost(s[1..]);
    }
  }

  lemma NameEndMeans(text: string, i: nat, j: nat)
    requires i <= |text|
    ensures NameEnd(text, i) == j <==> NameText(text, i, j) && (j < |text| ==> !Name(text[j]))
  {
    var s := text[i..];
    NameRunMost(s);
    hide NameRun;
    assert forall k :: 0 <= k < |s| ==> s[k] == text[i + k];
    if NameText(text, i, j) && (j < |text| ==> !Name(text[j])) {
      OneNameEnd(text, i, j, NameEnd(text, i));
    }
  }

  lemma OneNameEnd(text: string, i: nat, j: nat, n: nat)
    requires NameText(text, i, j) && (j < |text| ==> !Name(text[j]))
    requires NameText(text, i, n) && (n < |text| ==> !Name(text[n]))
    ensures j == n
  {
    hide Name;
  }

  lemma BraceAtIs(text: string, i: nat, b: nat, c: nat, d: nat)
    requires i <= |text| && SpaceEnd(text, i) == b && NameEnd(text, b) == c && SpaceEnd(text, c) == d
    ensures BraceAt(text, i) == if b == i || c == b || d == |text| || text[d] != '{' then None else Some(d)
  {
    hide SpaceRun, NameRun;
    var s := text[i..];
    assert s[b - i..] == text[b..] && s[c - i..] == text[c..];
    assert d < |text| ==> s[d - i] == text[d];
  }

  lemma ModBraceAtIs(text: string, i: nat, a: nat)
    requires i <= |text| && SpaceEnd(text, i) == a
    ensures ModBraceAt(text, i)
            == if !NewlineIn(text, i, a) || !ModAt(text, a) then None else assert a + 3 <= |text|; BraceAt(text, a + 3)
  {
    hide SpaceRun, NamePart, NewlineIn, ModAt;
    var s := text[i..];
    NewlineIs(text, i, a);
    ModWordIs(text, a);
    assert s[a - i..] == text[a..];
    assert a + 3 <= |text| ==> s[a - i + 3..] == text[a + 3..];
  }

  lemma NewlineIs(text: string, i: nat, a: nat)
    requires i <= a <= |text|
    ensures '\n' in text[i..][..a - i] <==> NewlineIn(text, i, a)
  {
    var s := text[i..][..a - i];
    assert forall k :: i <= k < a ==> s[k - i] == text[k];
    if '\n' in s {
      var k :| 0 <= k < |s| && s[k] == '\n';
      assert text[i + k] == '\n';
    }
  }

  lemma ModWordIs(text: string, a: nat)
    requires a <= |text|
    ensures "mod" <= text[a..] <==> ModAt(text, a)
  {
    var t := text[a..];
    if |t| >= 3 {
      assert t[..3] == [text[a], text[a + 1], text[a + 2]];
    }
  }

  lemma HeaderAtIs(text: string, i: nat)
    requires i <= |text|
    ensures HeaderAt(text, i)
            == if !AttributeAt(text, i) then None
               else
                 assert i + 12 <= |text|;
                 var d := ModBraceAt(text, i + 12); if d.None? then None else Some(d.value + 1)
  {
    hide ModPart, AttributeAt, HasAttribute;
    if i + 12 <= |text| {
      AttributeAtIs(text, i);
      assert text[i..][12..] == text[i + 12..];
    } else {
      TooShort(text, i);
    }
  }

  lemma TooShort(text: string, i: nat)
    requires i <= |text| < i + 12
    ensures !AttributeAt(text, i) && !HasAttribute(text[i..])
  {
  }

  lemma AttributeAtIs(text: string, i: nat)
    requires i + 12 <= |text|
    ensures HasAttribute(text[i..]) <==> AttributeAt(text, i)
  {
    var s := text[i..];
    AttributeIs(s);
    hide HasAttribute;
    assert s[..12] == text[i..i + 12];
  }

  // ---- the parts and the header

  lemma NoSpaceInName()
    ensures forall x: char :: Name(x) ==> !IsSpace(x)
    ensures !IsSpace('{') && !Name('{') && !IsSpace('m')
  {
  }

  /** Where one kind of character ends the next begins. */
  lemma Boundaries(text: string, b: nat, c: nat, d: nat)
    requires b < c && NameText(text, b, c) && Spaces(text, c, d) && d < |text| && text[d] == '{'
    ensures !IsSpace(text[b]) && !Name(text[c]) && !IsSpace(text[d])
  {
    NoSpaceInName();
    hide IsSpace, Name;
    assert Name(text[b]) && (c < d ==> IsSpace(text[c]));
  }

  lemma PartsMake(text: string, i: nat, a: nat, b: nat, c: nat, d: nat)
    requires HeaderParts(text, i, a, b, c, d)
    ensures HeaderAt(text, i) == Some(d + 1)
  {
    hide *;
    EndsOf(text, i, a, b, c, d);
    FirstParts(text, i, a, b, c, d);
    BraceAtIs(text, a + 3, b, c, d);
    ModBraceAtIs(text, i + 12, a);
    HeaderAtIs(text, i);
  }

  lemma FirstParts(text: string, i: nat, a: nat, b: nat, c: nat, d: nat)
    requires HeaderParts(text, i, a, b, c, d)
    ensures AttributeAt(text, i) && NewlineIn(text, i + 12, a) && ModAt(text, a)
    ensures i + 12 <= a && a + 3 < b < c <= d < |text| && text[d] == '{'
  {
    hide AttributeAt, NewlineIn, ModAt, IsSpace, Name;
  }

  lemma EndsOf(text: string, i: nat, a: nat, b: nat, c: nat, d: nat)
    requires HeaderParts(text, i, a, b, c, d)
    ensures i + 12 <= a && a + 3 < b < c <= d < |text|
    ensures SpaceEnd(text, i + 12) == a && SpaceEnd(text, a + 3) == b
    ensures NameEnd(text, b) == c && SpaceEnd(text, c) == d
  {
    hide AttributeAt, NewlineIn, SpaceEnd, NameEnd, IsSpace, Name;
    ModBegins(text, a);
    Boundaries(text, b, c, d);
    SpaceEndMeans(text, i + 12, a);
    SpaceEndMeans(text, a + 3, b);
    NameEndMeans(text, b, c);
    SpaceEndMeans(text, c, d);
  }

  lemma ModBegins(text: string, a: nat)
    requires ModAt(text, a)
    ensures a + 3 <= |text| && !IsSpace(text[a])
  {
    NoSpaceInName();
    hide IsSpace;
  }

  lemma PartsOf(text: string, i: nat) returns (a: nat, b: nat, c: nat, d: nat)
    requires i <= |text| && HeaderAt(text, i).Some?
    ensures HeaderParts(text, i, a, b, c, d) && HeaderAt(text, i) == Some(d + 1)
  {
    hide *;
    Longer(text, i);
    HeaderAtIs(text, i);
    a := SpaceEnd(text, i + 12);
    ModBraceAtIs(text, i + 12, a);
    b, c, d := EndsAfter(text, a);
    PartsFrom(text, i, a, b, c, d);
  }

  lemma Longer(text: string, i: nat)
    requires i <= |text| && HeaderAt(text, i).Some?
    ensures i + 12 <= |text|
  {
    hide ModPart;
  }

  lemma EndsAfter(text: string, a: nat) returns (b: nat, c: nat, d: nat)
    requires ModAt(text, a) && a + 3 <= |text| && BraceAt(text, a + 3).Some?
    ensures SpaceEnd(text, a + 3) == b && NameEnd(text, b) == c && SpaceEnd(text, c) == d
    ensures a + 3 < b < c <= d < |text| && text[d] == '{' && BraceAt(text, a + 3) == Some(d)
  {
    hide *;
    b := SpaceEnd(text, a + 3);
    c := NameEnd(text, b);
    d := SpaceEnd(text, c);
    BraceAtIs(text, a + 3, b, c, d);
  }

  lemma PartsFrom(text: string, i: nat, a: nat, b: nat, c: nat, d: nat)
    requires AttributeAt(text, i) && i + 12 <= |text| && SpaceEnd(text, i + 12) == a
    requires NewlineIn(text, i + 12, a) && ModAt(text, a) && a + 3 < b < c <= d < |text| && text[d] == '{'
    requires SpaceEnd(text, a + 3) == b && NameEnd(text, b) == c && SpaceEnd(text, c) == d
    ensures HeaderParts(text, i, a, b, c, d)
  {
    hide AttributeAt, NewlineIn, ModAt, SpaceEnd, NameEnd, IsSpace, Name;
    SpaceEndMeans(text, i + 12, a);
    SpaceEndMeans(text, a + 3, b);
    NameEndMeans(text, b, c);
    SpaceEndMeans(text, c, d);
  }
}
