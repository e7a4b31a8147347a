/** The places a paragraph is broken at and the blocks it is not broken before, told by their characters. */
module PlaceLaws {
  import opened Text
  import opened CodeSpans
  import opened Markdown
  import opened BreakPlaces
  import opened BlockLaws

  /** After a full stop, a semicolon or a colon, or after a comma and before a backtick; outside brackets. The finer
      places are also after any comma and inside brackets. */
  lemma PlaceMeans(text: string, lo: nat, hi: nat, fine: bool)
    ensures Place(text, lo, hi, fine) <==>
            && 0 < lo < hi < |text| && State(text[..lo], 0) == 0
            && (forall k :: lo <= k < hi ==> text[k] == ' ') && text[hi] != ' '
            && (fine || Depth(text, lo) == 0)
            && (|| text[lo - 1] == '.' || text[lo - 1] == ';' || text[lo - 1] == ':'
                || (text[lo - 1] == ',' && (fine || text[hi] == '`')))
  {
    hide State, Depth;
  }

  /** Brackets count outside code spans: the round and the square ones alike, and none closes below zero. */
  lemma DepthMeans(text: string, i: nat)
    requires i < |text|
    ensures Depth(text, 0) == 0
    ensures var d, c := Depth(text, i), text[i];
            Depth(text, i + 1) ==
            if State(text[..i], 0) != 0 then d
            else if c == '(' || c == '[' then d + 1
            else if (c == ')' || c == ']') && d > 0 then d - 1 else d
  {
    hide State;
  }

  /** A piece of 401 characters or more is broken at the finer places; a shorter one is left. */
  lemma LongPieces(piece: string, block: Block)
    ensures Expand(piece, block) == if |piece| > 400 then Split(piece, true, block) else [piece]
  {
    hide Split;
  }

  ghost predicate SpaceOrEnd(s: string, n: nat) {
    n == |s| || (n < |s| && IsSpace(s[n]))
  }

  ghost predicate Numbered(digit: char -> bool, s: string, n: nat) {
    && 0 < n < |s| && (forall k :: 0 <= k < n ==> digit(s[k])) && (s[n] == '.' || s[n] == ')') && SpaceOrEnd(s, n + 1)
  }

  /** A bullet or a number before white space or the end, or what begins a heading, a quote, a table, an underline,
      HTML, a link definition, a fence or a break. */
  lemma BlockStartMeans(digit: char -> bool, s: string)
    requires !digit('.') && !digit(')')
    ensures BlockStart(digit, s) <==>
            && s != ""
            && (|| ((s[0] == '-' || s[0] == '+' || s[0] == '*') && SpaceOrEnd(s, 1))
                || (exists n: nat :: Numbered(digit, s, n))
                || s[0] == '#' || s[0] == '>' || s[0] == '|' || s[0] == '=' || s[0] == '<' || s[0] == '[' || s[0] == '_'
                || (|s| >= 3 && s[0] == s[1] == s[2] && (s[0] == '`' || s[0] == '~' || s[0] == '*')))
  {
    hide IsSpace;
    Three(s);
    forall n: nat
      ensures Numbered(digit, s, n) ==> DigitRun(digit, s) == n
    {
      if Numbered(digit, s, n) {
        DigitRunIs(digit, s, n);
      }
    }
    DigitsAre(digit, s);
    assert Numbered(digit, s, DigitRun(digit, s)) <==>
           var n := DigitRun(digit, s);
           0 < n < |s| && s[n] in {'.', ')'} && (n + 1 == |s| || IsSpace(s[n + 1]));
    hide DigitRun, Numbered;
  }

  lemma Three(s: string)
    ensures |s| >= 3 ==> s[..3] == [s[0], s[1], s[2]]
    ensures "```" <= s <==> |s| >= 3 && s[0] == s[1] == s[2] == '`'
    ensures "~~~" <= s <==> |s| >= 3 && s[0] == s[1] == s[2] == '~'
    ensures "***" <= s <==> |s| >= 3 && s[0] == s[1] == s[2] == '*'
  {
  }

  lemma {:induction false} DigitsAre(digit: char -> bool, s: string)
    ensures forall k :: 0 <= k < DigitRun(digit, s) ==> digit(s[k])
  {
    if s != "" && digit(s[0]) {
      DigitsAre(digit, s[1..]);
    }
  }

  lemma {:induction false} DigitRunIs(digit: char -> bool, s: string, n: nat)
    requires n < |s| && (forall k :: 0 <= k < n ==> digit(s[k])) && !digit(s[n])
    ensures DigitRun(digit, s) == n
  {
    if n > 0 {
      DigitRunIs(digit, s[1..], n - 1);
    }
  }
}
