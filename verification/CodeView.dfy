/** A Rust source with its comments and literals blanked. */
module CodeView {
  import opened Results
  import opened Text

  /** Whether a character is a letter or a digit, as `str.isalnum` has it. */
  type Alnum = char -> bool

  // ---- the pieces that are not code, each as its length

  predicate StartsAt(text: string, p: string, j: nat) {
    j + |p| <= |text| && text[j..j + |p|] == p
  }

  predicate Opens(text: string, j: nat) {
    StartsAt(text, "/*", j)
  }

  predicate Shuts(text: string, j: nat) {
    StartsAt(text, "*/", j)
  }

  /** A line comment runs to the end of its line. */
  function LineEnd(text: string, j: nat): (e: nat)
    requires j <= |text|
    ensures j <= e <= |text| && (e < |text| ==> text[e] == '\n') && (forall k :: j <= k < e ==> text[k] != '\n')
    decreases |text| - j
  {
    if j == |text| || text[j] == '\n' then j else LineEnd(text, j + 1)
  }

  /** A block comment, `depth` of them open at `j`, runs to where the last closes. */
  function CommentEnd(text: string, j: nat, depth: nat): (e: nat)
    requires j <= |text|
    ensures j <= e <= |text| && (j < |text| ==> j < e)
    decreases |text| - j
  {
    if j == |text| then j
    else if Opens(text, j) then CommentEnd(text, j + 2, depth + 1)
    else if Shuts(text, j) then if depth <= 1 then j + 2 else CommentEnd(text, j + 2, depth - 1)
    else CommentEnd(text, j + 1, depth)
  }

  predicate HexOrUnderscore(c: char) {
    '0' <= c <= '9' || 'a' <= c <= 'f' || 'A' <= c <= 'F' || c == '_'
  }

  function HexRun(s: string): (n: nat)
    ensures n <= |s|
  {
    if s == "" || !HexOrUnderscore(s[0]) then 0 else 1 + HexRun(s[1..])
  }

  /** The length of the character literal `s` begins with. */
  function CharLength(s: string): (n: Option<nat>)
    ensures n.Some? ==> 3 <= n.value <= |s|
  {
    if |s| < 3 || s[0] != '\'' then None
    else if s[1] != '\\' then (if s[1] !in "'\n" && s[2] == '\'' then Some(3) else None)
    else if s[2] != 'u' then (if |s| > 3 && s[3] == '\'' then Some(4) else None)
    else if |s| < 4 || s[3] != '{' then None
    else
      var h := HexRun(s[4..]);
      if 1 <= h <= 6 && StartsAt(s, "}'", 4 + h) then Some(6 + h) else None
  }

  /** The same, with or without its `b`. */
  function ByteCharLength(s: string): (n: Option<nat>)
    ensures n.Some? ==> 3 <= n.value <= |s|
  {
    if s != "" && s[0] == 'b' then
      var n := CharLength(s[1..]);
      if n.Some? then Some(1 + n.value) else None
    else CharLength(s)
  }

  /** How far the closing quote of a string is. */
  function QuoteEnd(s: string): (n: Option<nat>)
    ensures n.Some? ==> 1 <= n.value <= |s|
  {
    if s == "" then None
    else if s[0] == '"' then Some(1)
    else
      var step := if s[0] == '\\' then 2 else 1;
      if |s| < step then None else
      var n := QuoteEnd(s[step..]);
      if n.Some? then Some(step + n.value) else None
  }

  function StringLength(s: string): (n: Option<nat>)
    ensures n.Some? ==> 2 <= n.value <= |s|
  {
    var prefix := if s != "" && s[0] in {'b', 'c'} then 1 else 0;
    if |s| == prefix || s[prefix] != '"' then None else
    var n := QuoteEnd(s[prefix + 1..]);
    if n.Some? then Some(prefix + 1 + n.value) else None
  }

  function HashRun(s: string): (n: nat)
    ensures n <= |s| && forall k :: 0 <= k < n ==> s[k] == '#'
  {
    if s == "" || s[0] != '#' then 0 else 1 + HashRun(s[1..])
  }

  /** The start of a raw string: where it ends, and its number of hashes. */
  function RawStart(s: string): (r: Option<(nat, nat)>)
    ensures r.Some? ==> r.value.1 + 2 <= r.value.0 <= |s|
  {
    var prefix := if s != "" && s[0] in {'b', 'c'} then 1 else 0;
    if |s| == prefix || s[prefix] != 'r' then None else
    var hashes := HashRun(s[prefix + 1..]);
    var at := prefix + 1 + hashes;
    if at < |s| && s[at] == '"' then Some((at + 1, hashes)) else None
  }

  function Hashes(n: nat): (s: string)
    ensures |s| == n && forall k :: 0 <= k < n ==> s[k] == '#'
  {
    seq(n, _ => '#')
  }

  /** Where the first `p` at or after `j` ends, or the end of the text. */
  function EndOf(text: string, p: string, j: nat): (e: nat)
    requires j <= |text|
    ensures j <= e <= |text|
    decreases |text| - j
  {
    if StartsAt(text, p, j) then j + |p| else if j == |text| then j else EndOf(text, p, j + 1)
  }

  /** Whether a letter at `i` may begin a literal: it does not go on an identifier. */
  predicate MayBegin(text: string, i: nat, alnum: Alnum)
    requires i < |text|
  {
    text[i] == '"' || (text[i] in {'r', 'b', 'c'} && (i == 0 || !(alnum(text[i - 1]) || text[i - 1] == '_')))
  }

  /** Where the comment or literal at `i` ends, or `i` when there is none. */
  function BlankTo(text: string, i: nat, alnum: Alnum): (e: nat)
    requires i < |text|
    ensures i <= e <= |text|
  {
    var rest := text[i..];
    if StartsAt(text, "//", i) then LineEnd(text, i)
    else if Opens(text, i) then CommentEnd(text, i, 0)
    else if text[i] == '\'' then
      var n := ByteCharLength(rest);
      if n.Some? then i + n.value else i
    else if MayBegin(text, i, alnum) then
      var raw := RawStart(rest);
      if raw.Some? then EndOf(text, "\"" + Hashes(raw.value.1), i + raw.value.0)
      else
        var n := if text[i] == 'b' && ByteCharLength(rest).Some? then ByteCharLength(rest) else StringLength(rest);
        if n.Some? then i + n.value else i
    else i
  }

  function BlankChar(c: char): (blank: char) {
    if c == '\n' then '\n' else ' '
  }

  function Blank(s: string): (r: string)
    ensures |r| == |s| && forall k :: 0 <= k < |s| ==> r[k] == BlankChar(s[k])
  {
    if s == "" then "" else [BlankChar(s[0])] + Blank(s[1..])
  }

  /** The view of the text from `i` on. */
  function View(text: string, i: nat, alnum: Alnum): (r: string)
    requires i <= |text|
    ensures |r| == |text| - i
    decreases |text| - i
  {
    if i == |text| then "" else
    var e := BlankTo(text, i, alnum);
    if e > i then Blank(text[i..e]) + View(text, e, alnum) else [text[i]] + View(text, i + 1, alnum)
  }

  lemma CommentBegins(text: string, i: nat, alnum: Alnum)
    requires Opens(text, i) || StartsAt(text, "//", i)
    ensures BlankTo(text, i, alnum) > i
  {
    if StartsAt(text, "//", i) {
      assert text[i..i + 2][0] == '/';
    }
  }

  /** The source's scan. */
  method CodeView(text: string, alnum: Alnum) returns (out: string)
    ensures out == View(text, 0, alnum)
  {
    hide View, LineEnd, CommentEnd, ByteCharLength, RawStart, StringLength, EndOf, Hashes, Blank, MayBegin;
    var i := 0;
    out := "";
    ghost var all := View(text, 0, alnum);
    assert "" + all == all;
    while i < |text|
      invariant i <= |text|
      invariant out + View(text, i, alnum) == all
    {
      var c := text[i];
      ghost var e := BlankTo(text, i, alnum);
      ghost var before, start := out, i;
      if StartsAt(text, "//", i) {
        CommentBegins(text, i, alnum);
        var j := LineEnd(text, i);
        out := out + Blank(text[i..j]);
        i := j;
      } else if Opens(text, i) {
        CommentBegins(text, i, alnum);
        var j := BlockComment(text, i);
        out := out + Blank(text[i..j]);
        i := j;
      } else if c == '\'' {
        var n := ByteCharLength(text[i..]);
        if n.Some? {
          out := out + Blank(text[i..i + n.value]);
          i := i + n.value;
        } else {
          out := out + [c];
          i := i + 1;
        }
      } else if MayBegin(text, i, alnum) {
        var raw := RawStart(text[i..]);
        if raw.Some? {
          var j := EndOf(text, "\"" + Hashes(raw.value.1), i + raw.value.0);
          out := out + Blank(text[i..j]);
          i := j;
        } else {
          var n := if c == 'b' then ByteCharLength(text[i..]) else None;
          if n.None? {
            n := StringLength(text[i..]);
          }
          if n.Some? {
            out := out + Blank(text[i..i + n.value]);
            i := i + n.value;
          } else {
            out := out + [c];
            i := i + 1;
          }
        }
      } else {
        out := out + [c];
        i := i + 1;
      }
      assert i == if e > start then e else start + 1;
      assert out == before + if e > start then Blank(text[start..e]) else [text[start]];
      ViewNext(text, start, alnum, before);
    }
    assert View(text, i, alnum) == "" by {
      ViewEnds(text, alnum);
    }
    assert out + "" == out;
  }

  lemma ViewEnds(text: string, alnum: Alnum)
    ensures View(text, |text|, alnum) == ""
  {
  }

  lemma ViewNext(text: string, i: nat, alnum: Alnum, out: string)
    requires i < |text|
    ensures var e := BlankTo(text, i, alnum);
            out + View(text, i, alnum) ==
            if e > i then out + Blank(text[i..e]) + View(text, e, alnum) else out + [text[i]] + View(text, i + 1, alnum)
  {
    hide BlankTo, Blank;
    var e := BlankTo(text, i, alnum);
    if e > i {
      Assoc(out, Blank(text[i..e]), View(text, e, alnum));
    } else {
      Assoc(out, [text[i]], View(text, i + 1, alnum));
    }
  }

  lemma Fits(text: string, j: nat)
    requires Opens(text, j)
    ensures j + 2 <= |text|
  {
  }

  /** Where the loop stands after one step, and how deep; at depth 0 it is done. */
  function CommentStep(text: string, j: nat, depth: nat): (r: (nat, int))
    requires j < |text|
  {
    if Opens(text, j) then (j + 2, depth + 1) else if Shuts(text, j) then (j + 2, depth - 1) else (j + 1, depth)
  }

  lemma CommentNext(text: string, j: nat, depth: nat)
    requires j < |text| && (depth == 0 ==> Opens(text, j))
    ensures var (j', depth') := CommentStep(text, j, depth);
            && j < j' <= |text| && depth' >= 0
            && CommentEnd(text, j, depth) == if depth' == 0 then j' else CommentEnd(text, j', depth')
  {
  }

  lemma CommentStepIs(text: string, j: nat, depth: nat)
    requires j < |text|
    ensures CommentStep(text, j, depth)
            == if Opens(text, j) then (j + 2, depth + 1)
            else if Shuts(text, j) then (j + 2, depth - 1) else (j + 1, depth)
  {
  }

  lemma CommentStops(text: string, depth: nat)
    ensures CommentEnd(text, |text|, depth) == |text|
  {
  }

  /** The source's loop over nested comments. */
  method BlockComment(text: string, i: nat) returns (j: nat)
    requires Opens(text, i)
    ensures j == CommentEnd(text, i, 0)
  {
    Fits(text, i);
    hide CommentStep, CommentEnd;
    var depth := 0;
    j := i;
    while j < |text|
      invariant i <= j <= |text|
      invariant if j == i then depth == 0 else depth >= 1
      invariant CommentEnd(text, j, depth) == CommentEnd(text, i, 0)
    {
      CommentNext(text, j, depth);
      CommentStepIs(text, j, depth);
      ghost var next := CommentStep(text, j, depth);
      if Opens(text, j) {
        depth := depth + 1;
        j := j + 2;
      } else if Shuts(text, j) {
        depth := depth - 1;
        j := j + 2;
        if depth == 0 {
          return;
        }
      } else {
        j := j + 1;
      }
      assert (j, depth) == next;
    }
    CommentStops(text, depth);
  }

  // ---- what the view keeps

  /** The position is inside a comment or a literal, for a scan that begins at `i`. */
  predicate Hidden(text: string, i: nat, alnum: Alnum, k: nat)
    requires i <= |text|
    decreases |text| - i
  {
    i < |text| &&
    var e := BlankTo(text, i, alnum);
    if e > i then i <= k < e || Hidden(text, e, alnum, k) else Hidden(text, i + 1, alnum, k)
  }

  lemma {:induction false} HiddenAhead(text: string, i: nat, alnum: Alnum, k: nat)
    requires i <= |text| && Hidden(text, i, alnum, k)
    ensures i <= k < |text|
    decreases |text| - i
  {
    hide BlankTo;
    var e := BlankTo(text, i, alnum);
    if e > i {
      if !(i <= k < e) {
        HiddenAhead(text, e, alnum, k);
      }
    } else {
      HiddenAhead(text, i + 1, alnum, k);
    }
  }

  lemma ViewHere(text: string, i: nat, alnum: Alnum, k: nat)
    requires i <= k < |text| && (k == i || k < BlankTo(text, i, alnum))
    ensures View(text, i, alnum)[k - i] == if k < BlankTo(text, i, alnum) then BlankChar(text[k]) else text[k]
  {
    hide BlankTo, BlankChar, Blank;
    var e := BlankTo(text, i, alnum);
    if e > i {
      assert Blank(text[i..e])[k - i] == BlankChar(text[i..e][k - i]);
    }
  }

  lemma ViewLater(text: string, i: nat, alnum: Alnum, k: nat)
    requires i < |text|
    requires var e := BlankTo(text, i, alnum); (if e > i then e else i + 1) <= k < |text|
    ensures var e := BlankTo(text, i, alnum);
            var next := if e > i then e else i + 1;
            && View(text, i, alnum)[k - i] == View(text, next, alnum)[k - next]
            && (Hidden(text, i, alnum, k) <==> Hidden(text, next, alnum, k))
  {
    hide BlankTo, BlankChar, Blank;
  }

  lemma HiddenHere(text: string, i: nat, alnum: Alnum, k: nat)
    requires i <= k < |text| && (k == i || k < BlankTo(text, i, alnum))
    ensures Hidden(text, i, alnum, k) <==> k < BlankTo(text, i, alnum)
  {
    hide BlankTo;
    var e := BlankTo(text, i, alnum);
    if e == i && Hidden(text, i + 1, alnum, k) {
      HiddenAhead(text, i + 1, alnum, k);
    }
  }

  lemma {:induction false} ViewAt(text: string, i: nat, alnum: Alnum, k: nat)
    requires i <= k < |text|
    ensures View(text, i, alnum)[k - i] == if Hidden(text, i, alnum, k) then BlankChar(text[k]) else text[k]
    decreases |text| - i
  {
    hide BlankTo, BlankChar, View, Hidden;
    var e := BlankTo(text, i, alnum);
    var next := if e > i then e else i + 1;
    if k >= next {
      ViewLater(text, i, alnum, k);
      ViewAt(text, next, alnum, k);
    } else {
      ViewHere(text, i, alnum, k);
      HiddenHere(text, i, alnum, k);
    }
  }

  /** The view has the text's length and its newlines; what is hidden becomes spaces, and the rest stays. */
  lemma ViewKeeps(text: string, alnum: Alnum)
    ensures var view := View(text, 0, alnum);
            && |view| == |text|
            && (forall k :: 0 <= k < |text| ==> (view[k] == '\n' <==> text[k] == '\n'))
            && (forall k :: 0 <= k < |text| ==>
                  view[k] == if Hidden(text, 0, alnum, k) && text[k] != '\n' then ' ' else text[k])
  {
    hide View, Hidden;
    var view := View(text, 0, alnum);
    if text == "" {
      ViewEnds(text, alnum);
    } else {
      ViewAt(text, 0, alnum, 0);
      forall k | 0 <= k < |text|
        ensures view[k] == if Hidden(text, 0, alnum, k) then BlankChar(text[k]) else text[k]
      {
        ViewAt(text, 0, alnum, k);
      }
    }
  }

  // ---- where a string ends

  /** The number of backslashes right before position k. */
  function Slashes(s: string, k: nat): (n: nat)
    requires k <= |s|
    ensures n <= k
  {
    if k == 0 || s[k - 1] != '\\' then 0 else 1 + Slashes(s, k - 1)
  }

  lemma {:induction false} SlashesAfter(a: string, s: string, k: nat)
    requires k <= |s|
    ensures Slashes(a + s, |a| + k) == Slashes(s, k) + if Slashes(s, k) == k then Slashes(a, |a|) else 0
    decreases k
  {
    if k == 0 {
      SlashesWithin(a, s, |a|);
    } else {
      assert (a + s)[|a| + k - 1] == s[k - 1];
      SlashesAfter(a, s, k - 1);
    }
  }

  lemma {:induction false} SlashesWithin(a: string, s: string, k: nat)
    requires k <= |a|
    ensures Slashes(a + s, k) == Slashes(a, k)
  {
    if k > 0 {
      SlashesWithin(a, s, k - 1);
    }
  }

  predicate Closes(s: string, k: nat)
    requires k < |s|
  {
    s[k] == '"' && Slashes(s, k) % 2 == 0
  }

  /** A string ends at the first quote with an even number of backslashes before it. */
  lemma {:induction false} QuoteEndMeans(s: string)
    ensures QuoteEnd(s).Some? ==>
              var e := QuoteEnd(s).value - 1; Closes(s, e) && forall k :: 0 <= k < e ==> !Closes(s, k)
    ensures QuoteEnd(s).None? ==> forall k :: 0 <= k < |s| ==> !Closes(s, k)
    decreases |s|
  {
    hide Closes, Slashes;
    if s != "" && s[0] != '"' {
      var step := if s[0] == '\\' then 2 else 1;
      FirstDoesNotClose(s);
      if |s| >= step {
        QuoteEndMeans(s[step..]);
        forall k | step <= k < |s|
          ensures Closes(s, k) <==> Closes(s[step..], k - step)
        {
          ClosesLater(s, step, k);
        }
      }
    } else if s != "" {
      QuoteFirst(s);
    }
  }

  lemma QuoteFirst(s: string)
    requires s != "" && s[0] == '"'
    ensures Closes(s, 0)
  {
  }

  lemma FirstDoesNotClose(s: string)
    requires s != "" && s[0] != '"'
    ensures !Closes(s, 0) && (s[0] == '\\' && |s| > 1 ==> !Closes(s, 1))
  {
    if |s| > 1 && s[0] == '\\' {
      assert Slashes(s, 1) == 1 + Slashes(s, 0);
    }
  }

  lemma ClosesLater(s: string, step: nat, k: nat)
    requires s != "" && step == (if s[0] == '\\' then 2 else 1) && step <= k < |s|
    ensures Closes(s, k) <==> Closes(s[step..], k - step)
  {
    var a, t := s[..step], s[step..];
    assert s == a + t;
    SlashesAfter(a, t, k - step);
    if step == 2 {
      assert Slashes(a, 1) == 1 + Slashes(a, 0);
      assert Slashes(a, 2) == if a[1] == '\\' then 2 else 0;
    } else {
      assert Slashes(a, 1) == 0;
    }
  }

  // ---- where a block comment ends

  /** Where the last of `depth` open comments closes. */
  function Closing(s: string, j: nat, depth: nat): (e: Option<nat>)
    requires j <= |s|
    ensures e.Some? ==> j + 2 <= e.value <= |s|
    decreases |s| - j
  {
    if j == |s| then None
    else if Opens(s, j) then Closing(s, j + 2, depth + 1)
    else if Shuts(s, j) then if depth <= 1 then Some(j + 2) else Closing(s, j + 2, depth - 1)
    else Closing(s, j + 1, depth)
  }

  /** A whole comment: what opens first closes at the end. */
  predicate IsComment(c: string) {
    Opens(c, 0) && Closing(c, 2, 1) == Some(|c|)
  }

  lemma PairsWithin(p: string, s: string, t: string, j: nat)
    requires j + 2 <= |s|
    ensures Opens(p + s + t, |p| + j) <==> Opens(s, j)
    ensures Shuts(p + s + t, |p| + j) <==> Shuts(s, j)
  {
    assert (p + s + t)[|p| + j..|p| + j + 2] == s[j..j + 2];
  }

  /** Comments within a comment are passed over. */
  lemma {:induction false} CommentSkips(text: string, p: string, s: string, t: string, j: nat, depth: nat)
    requires text == p + s + t && depth >= 1 && j <= |s| && Closing(s, j, depth).Some?
    ensures CommentEnd(text, |p| + j, depth + 1) == CommentEnd(text, |p| + Closing(s, j, depth).value, 1)
    decreases |s| - j
  {
    hide Opens, Shuts, CommentEnd;
    if j + 2 <= |s| {
      PairsWithin(p, s, t, j);
    }
    if j < |s| {
      CommentNext(text, |p| + j, depth + 1);
    }
    if Opens(s, j) {
      CommentSkips(text, p, s, t, j + 2, depth + 1);
    } else if Shuts(s, j) {
      if depth > 1 {
        CommentSkips(text, p, s, t, j + 2, depth - 1);
      }
    } else {
      CommentSkips(text, p, s, t, j + 1, depth);
    }
  }

  lemma {:induction false} PlainSkips(text: string, i: nat, j: nat, depth: nat)
    requires i <= j <= |text| && forall k :: i <= k < j ==> text[k] != '/' && text[k] != '*'
    ensures CommentEnd(text, i, depth) == CommentEnd(text, j, depth)
    decreases j - i
  {
    if i < j {
      NoPairAt(text, i);
      hide Opens, Shuts;
      PlainSkips(text, i + 1, j, depth);
    }
  }

  lemma NoPairAt(text: string, i: nat)
    requires i < |text| && text[i] != '/' && text[i] != '*'
    ensures !Opens(text, i) && !Shuts(text, i)
  {
    if i + 2 <= |text| {
      assert text[i..i + 2][0] == text[i];
    }
  }

  lemma PairAt(a: string, b: string)
    ensures Opens(a + "/*" + b, |a|)
    ensures Shuts(a + "*/" + b, |a|) && !Opens(a + "*/" + b, |a|)
  {
    assert (a + "/*" + b)[|a|..|a| + 2] == "/*";
    assert (a + "*/" + b)[|a|..|a| + 2] == "*/" && "*/"[0] == '*' && "/*"[0] == '/';
  }

  /** Block comments nest: one with another in it runs to its own end, past the end of the inner one. */
  lemma CommentsNest(a: string, c: string, b: string, rest: string)
    requires forall k :: 0 <= k < |a| ==> a[k] != '/' && a[k] != '*'
    requires forall k :: 0 <= k < |b| ==> b[k] != '/' && b[k] != '*'
    requires IsComment(c)
    ensures var whole := "/*" + a + c + b + "*/"; CommentEnd(whole + rest, 0, 0) == |whole|
  {
    hide Opens, Shuts, CommentEnd;
    var open := "/*";
    var whole := open + a + c + b + "*/";
    var text := whole + rest;
    NestParts(open + a, c, b, rest);
    PairAt("", a + c + b + "*/" + rest);
    assert text == "" + open + (a + c + b + "*/" + rest);
    CommentNext(text, 0, 0);
    PlainSkips(text, 2, 2 + |a|, 1);
    PairsWithin(open + a, c, b + "*/" + rest, 0);
    CommentNext(text, 2 + |a|, 1);
    CommentSkips(text, open + a, c, b + "*/" + rest, 2, 1);
    var end := 2 + |a| + |c|;
    PlainSkips(text, end, end + |b|, 1);
    PairAt(open + a + c + b, rest);
    CommentNext(text, end + |b|, 1);
  }

  lemma NestParts(front: string, c: string, b: string, rest: string)
    ensures front + c + b + "*/" + rest == front + c + (b + "*/" + rest)
  {
    Assoc(front + c, b + "*/", rest);
    Assoc(front + c, b, "*/");
  }
}
