/** Text as Python's string methods see it: white space, stripping and joining. */
module Text {

  /** The characters `str.isspace`, `str.strip` and the pattern `\s` take as white space. */
  predicate IsSpace(c: char) {
    var n := c as int;
    || 0x09 <= n <= 0x0D || 0x1C <= n <= 0x20 || n == 0x85 || n == 0xA0 || n == 0x1680
    || 0x2000 <= n <= 0x200A || n == 0x2028 || n == 0x2029 || n == 0x202F || n == 0x205F || n == 0x3000
  }

  /** All of them, by number. */
  lemma SpacesAre(c: char)
    ensures IsSpace(c) <==>
            c as int in {0x09, 0x0A, 0x0B, 0x0C, 0x0D, 0x1C, 0x1D, 0x1E, 0x1F, 0x20, 0x85, 0xA0, 0x1680, 0x2000, 0x2001,
                         0x2002, 0x2003, 0x2004, 0x2005, 0x2006, 0x2007, 0x2008, 0x2009, 0x200A, 0x2028, 0x2029, 0x202F,
                         0x205F, 0x3000}
  {
  }

  predicate AllSpace(s: string) {
    forall i :: 0 <= i < |s| ==> IsSpace(s[i])
  }

  /** How much white space `s` begins with. */
  function SpaceRun(s: string): (n: nat)
    ensures n <= |s| && AllSpace(s[..n]) && (n < |s| ==> !IsSpace(s[n]))
  {
    if s == "" || !IsSpace(s[0]) then 0 else 1 + SpaceRun(s[1..])
  }

  function LStrip(s: string): (r: string)
    ensures |r| <= |s| && r == s[|s| - |r|..]
    ensures AllSpace(s[..|s| - |r|]) && (r != "" ==> !IsSpace(r[0]))
  {
    if s == "" || !IsSpace(s[0]) then s else LStrip(s[1..])
  }

  function RStrip(s: string): (r: string)
    ensures r <= s
    ensures AllSpace(s[|r|..]) && (r != "" ==> !IsSpace(r[|r| - 1]))
  {
    if s == "" || !IsSpace(s[|s| - 1]) then s else
    var r := RStrip(s[..|s| - 1]);
    assert s[|r|..] == s[..|s| - 1][|r|..] + [s[|s| - 1]];
    r
  }

  function Strip(s: string): (r: string) {
    RStrip(LStrip(s))
  }

  /** No white space at either end. */
  predicate Trimmed(s: string) {
    s == "" || (!IsSpace(s[0]) && !IsSpace(s[|s| - 1]))
  }

  function Join(sep: string, lines: seq<string>): (s: string) {
    if lines == [] then "" else if |lines| == 1 then lines[0] else lines[0] + sep + Join(sep, lines[1..])
  }

  /** Stripping takes the white space around what is left, and leaves something trimmed. */
  lemma StripAround(s: string) returns (before: string, after: string)
    ensures s == before + Strip(s) + after && AllSpace(before) && AllSpace(after) && Trimmed(Strip(s))
  {
    hide IsSpace, AllSpace, LStrip, RStrip;
    var l := LStrip(s);
    var r := RStrip(l);
    before, after := s[..|s| - |l|], l[|r|..];
    assert s == before + l;
    assert l == r + after;
    Assoc(before, r, after);
  }

  lemma {:induction false} LStripPast(before: string, rest: string)
    requires AllSpace(before)
    ensures LStrip(before + rest) == LStrip(rest)
    decreases |before|
  {
    if before == "" {
      assert before + rest == rest;
    } else {
      assert (before + rest)[1..] == before[1..] + rest;
      LStripPast(before[1..], rest);
    }
  }

  /** What is left is determined by what it is surrounded by. */
  lemma StripOf(before: string, s: string, after: string)
    requires AllSpace(before) && AllSpace(after) && Trimmed(s)
    ensures Strip(before + s + after) == s
  {
    hide IsSpace, LStrip, RStrip, AllSpace;
    assert before + s + after == before + (s + after);
    LStripPast(before, s + after);
    if s == "" {
      assert s + after == after;
      AllSpaceStrips(after);
    } else {
      assert (s + after)[0] == s[0];
      NothingToLStrip(s + after);
      RStripOf(s, after);
    }
  }

  lemma NothingToLStrip(s: string)
    requires s != "" && !IsSpace(s[0])
    ensures LStrip(s) == s
  {
  }

  lemma {:induction false} AllSpaceStrips(s: string)
    requires AllSpace(s)
    ensures LStrip(s) == "" && Strip(s) == ""
  {
    if s != "" {
      AllSpaceStrips(s[1..]);
    }
  }

  lemma {:induction false} RStripOf(s: string, after: string)
    requires AllSpace(after) && s != "" && !IsSpace(s[|s| - 1])
    ensures RStrip(s + after) == s
    decreases |after|
  {
    if after == "" {
      assert s + after == s;
    } else {
      assert (s + after)[..|s + after| - 1] == s + after[..|after| - 1];
      RStripOf(s, after[..|after| - 1]);
    }
  }

  lemma TrimmedStrips(s: string)
    requires Trimmed(s)
    ensures Strip(s) == s
  {
    StripOf("", s, "");
    assert "" + s + "" == s;
  }

  lemma Assoc<T>(a: seq<T>, b: seq<T>, c: seq<T>)
    ensures a + (b + c) == a + b + c
  {
  }

  lemma {:induction false} JoinAppend(sep: string, a: seq<string>, b: seq<string>)
    requires a != [] && b != []
    ensures Join(sep, a + b) == Join(sep, a) + sep + Join(sep, b)
    decreases |a|
  {
    if |a| == 1 {
      assert (a + b)[1..] == b;
    } else {
      assert (a + b)[1..] == a[1..] + b;
      JoinAppend(sep, a[1..], b);
    }
  }
}
