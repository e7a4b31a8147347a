/** When a line of a split paragraph begins a Markdown block of its own. */
module BlockLaws {
  import opened BreakPlaces
  import opened Markdown
  import opened MarkdownLaws
  import opened Text

  // ---- beginning a block

  /** A line that begins a block still does with a space and more text after it. */
  ghost predicate StableAt(block: Block, line: string, rest: string) {
    block(line) ==> block(line + " " + rest)
  }

  ghost predicate Stable(block: Block) {
    forall line, rest :: StableAt(block, line, rest)
  }

  /** ... and one that begins none begins none then. */
  ghost predicate SettledAt(block: Block, line: string, rest: string) {
    line != "" && block(line + " " + rest) ==> block(line)
  }

  ghost predicate Settled(block: Block) {
    forall line, rest :: SettledAt(block, line, rest)
  }

  function DigitRun(digit: char -> bool, s: string): (n: nat)
    ensures n <= |s|
  {
    if s == "" || !digit(s[0]) then 0 else 1 + DigitRun(digit, s[1..])
  }

  /** Text that would begin a block of its own: a list item, a heading, a quote, a table, a fence, HTML, a link
      definition, an underline or a break. */
  predicate BlockStart(digit: char -> bool, s: string) {
    var n := DigitRun(digit, s);
    && s != ""
    && (|| (s[0] in {'-', '+', '*'} && (|s| == 1 || IsSpace(s[1])))
        || (0 < n < |s| && s[n] in {'.', ')'} && (n + 1 == |s| || IsSpace(s[n + 1])))
        || s[0] in {'#', '>', '|', '=', '<', '[', '_'}
        || "```" <= s || "~~~" <= s || "***" <= s)
  }

  lemma {:induction false} DigitRunOf(digit: char -> bool, line: string, rest: string)
    requires DigitRun(digit, line) < |line|
    ensures DigitRun(digit, line + rest) == DigitRun(digit, line)
  {
    if digit(line[0]) {
      assert (line + rest)[1..] == line[1..] + rest;
      DigitRunOf(digit, line[1..], rest);
    }
  }

  lemma {:induction false} DigitRunAll(digit: char -> bool, line: string, rest: string)
    requires DigitRun(digit, line) == |line| && !digit(' ')
    ensures DigitRun(digit, line + " " + rest) == |line|
    decreases |line|
  {
    if line != "" {
      assert (line + " " + rest)[1..] == line[1..] + " " + rest;
      DigitRunAll(digit, line[1..], rest);
    }
  }

  lemma BlockStartKeeps(digit: char -> bool, line: string, rest: string)
    ensures BlockStart(digit, line) ==> BlockStart(digit, line + " " + rest)
    ensures !digit(' ') && line != "" && BlockStart(digit, line + " " + rest) ==> BlockStart(digit, line)
  {
    SpaceIsSpace();
    hide IsSpace;
    var s := line + " " + rest;
    assert s == line + (" " + rest) && s[|line|] == ' ';
    if DigitRun(digit, line) < |line| {
      DigitRunOf(digit, line, " " + rest);
    } else if !digit(' ') {
      DigitRunAll(digit, line, rest);
    }
  }

  /** The source's pattern is stable, and settled since a space is no digit. */
  lemma BlockStartStable(digit: char -> bool)
    ensures Stable(s => BlockStart(digit, s))
    ensures !digit(' ') ==> Settled(s => BlockStart(digit, s))
  {
    hide BlockStart;
    var block := s => BlockStart(digit, s);
    forall line, rest
      ensures StableAt(block, line, rest)
      ensures !digit(' ') ==> SettledAt(block, line, rest)
    {
      BlockStartKeeps(digit, line, rest);
    }
  }

  // ---- lines

  /** Every line but perhaps the first begins no block. */
  ghost predicate NoBlocks(block: Block, lines: seq<string>) {
    forall k :: 0 < k < |lines| ==> !block(lines[k])
  }

  /** Every line is trimmed, and every one but perhaps the last ends in a mark. */
  ghost predicate Solid(lines: seq<string>) {
    && (forall k :: 0 <= k < |lines| ==> lines[k] != "" && Trimmed(lines[k]))
    && (forall k :: 0 <= k < |lines| - 1 ==> IsMark(lines[k][|lines[k]| - 1]))
  }

  /** Lines that stand for a text: solid, the last ending as it does, and the first beginning a block as it does,
      its leading white space aside. */
  ghost predicate Stands(block: Block, lines: seq<string>, text: string) {
    && lines != [] && Solid(lines) && text != ""
    && (var last := lines[|lines| - 1]; last[|last| - 1] == text[|text| - 1])
    && (block(lines[0]) ==> block(LStrip(text)))
    && (Settled(block) && block(LStrip(text)) ==> block(lines[0]))
  }

  /** What follows a solid text does not change what stripping its front leaves. */
  lemma {:induction false} LStripInside(a: string, b: string)
    requires EndsSolid(a)
    ensures LStrip(a + b) == LStrip(a) + b && EndsSolid(LStrip(a)) && Trimmed(LStrip(a))
    decreases |a|
  {
    hide IsSpace;
    if IsSpace(a[0]) {
      assert (a + b)[1..] == a[1..] + b;
      LStripInside(a[1..], b);
    }
  }

  lemma SolidStripsLeft(s: string)
    requires EndsSolid(s)
    ensures Strip(s) == LStrip(s) && EndsSolid(Strip(s)) && Trimmed(Strip(s)) && Strip(s)[|Strip(s)| - 1] == s[|s| - 1]
  {
    hide IsSpace, LStrip, RStrip, AllSpace;
    LStripInside(s, "");
    assert s + "" == s;
    RStripSolid(LStrip(s));
  }

  lemma RStripSolid(s: string)
    requires EndsSolid(s)
    ensures RStrip(s) == s
  {
  }

  /** The piece of a text up to a space begins a block as the text does. */
  lemma PieceBegins(block: Block, text: string, n: nat)
    requires Stable(block) && n <= |text| && EndsSolid(text[..n]) && (n == |text| || text[n] == ' ')
    ensures block(Strip(text[..n])) ==> block(LStrip(text))
    ensures Settled(block) && block(LStrip(text)) ==> block(Strip(text[..n]))
  {
    hide IsSpace, Stable, Settled, Strip, LStrip;
    var piece := text[..n];
    SolidStripsLeft(piece);
    LStripInside(piece, text[n..]);
    assert text == piece + text[n..];
    if n == |text| {
      assert LStrip(piece) + "" == LStrip(piece);
    } else {
      assert text[n..] == " " + text[n + 1..];
      assert LStrip(piece) + (" " + text[n + 1..]) == LStrip(piece) + " " + text[n + 1..];
      StableOf(block, LStrip(piece), text[n + 1..]);
    }
  }

  lemma StableOf(block: Block, line: string, rest: string)
    requires Stable(block)
    ensures block(line) ==> block(line + " " + rest)
    ensures Settled(block) && line != "" && block(line + " " + rest) ==> block(line)
  {
    assert StableAt(block, line, rest);
    assert Settled(block) ==> SettledAt(block, line, rest);
  }

  lemma OneLineStands(block: Block, text: string)
    requires Stable(block) && EndsSolid(text)
    ensures Clean([text]) == [Strip(text)] && Stands(block, [Strip(text)], text)
  {
    hide IsSpace, Stable, Settled, Trimmed, Strip, LStrip, EndsSolid;
    SolidStripsLeft(text);
    SolidNotEmpty(text);
    SolidNotEmpty(Strip(text));
    CleanNext([text]);
    CleanNone();
    assert [text][1..] == [] && [Strip(text)] + [] == [Strip(text)];
  }

  lemma SolidNotEmpty(s: string)
    requires EndsSolid(s)
    ensures s != ""
  {
  }

  /** Lines of one text and then lines of the next. */
  lemma StandsJoined(block: Block, a: seq<string>, b: seq<string>, text: string, first: string, rest: string)
    requires Stands(block, a, first) && IsMark(first[|first| - 1]) && Stands(block, b, rest)
    requires text != "" && text[|text| - 1] == rest[|rest| - 1]
    requires block(LStrip(first)) ==> block(LStrip(text))
    requires Settled(block) && block(LStrip(text)) ==> block(LStrip(first))
    ensures Stands(block, a + b, text)
    ensures NoBlocks(block, a + b) <==> NoBlocks(block, a) && !block(b[0]) && NoBlocks(block, b)
  {
    hide Settled, Trimmed, LStrip, IsMark;
    SolidJoined(a, b);
    NoBlocksJoined(block, a, b);
  }

  lemma NoBlocksJoined(block: Block, a: seq<string>, b: seq<string>)
    requires a != [] && b != []
    ensures NoBlocks(block, a + b) <==> NoBlocks(block, a) && !block(b[0]) && NoBlocks(block, b)
  {
    var lines := a + b;
    assert forall k :: 0 <= k < |a| ==> lines[k] == a[k];
    assert forall k :: 0 <= k < |b| ==> b[k] == lines[|a| + k];
  }

  lemma SolidJoined(a: seq<string>, b: seq<string>)
    requires a != [] && Solid(a) && b != [] && Solid(b)
    requires var last := a[|a| - 1]; IsMark(last[|last| - 1])
    ensures Solid(a + b)
  {
    hide Trimmed, IsMark;
    var lines := a + b;
    forall k | 0 <= k < |lines|
      ensures lines[k] != "" && Trimmed(lines[k])
      ensures k < |lines| - 1 ==> IsMark(lines[k][|lines[k]| - 1])
    {
      assert lines[k] == if k < |a| then a[k] else b[k - |a|];
    }
  }

  // ---- one pass

  /** The cuts lie one after another, each a space after a mark and before more text. */
  predicate Cuttable(text: string, start: nat, cuts: seq<(nat, nat)>)
    decreases |cuts|
  {
    cuts == [] ||
    (var (lo, hi) := cuts[0];
     start < lo < hi < |text| && text[lo] == ' ' && IsMark(text[lo - 1]) && Cuttable(text, hi, cuts[1..]))
  }

  /** No cut is followed by white space that hides a block. */
  ghost predicate Clear(block: Block, text: string, cuts: seq<(nat, nat)>) {
    forall p :: p in cuts && p.1 <= |text| ==> !block(LStrip(text[p.1..]))
  }

  lemma ClearFirst(block: Block, text: string, cuts: seq<(nat, nat)>)
    requires cuts != [] && cuts[0].1 <= |text|
    ensures Clear(block, text, cuts) <==> !block(LStrip(text[cuts[0].1..])) && Clear(block, text, cuts[1..])
  {
    hide LStrip;
    assert forall p :: p in cuts <==> p == cuts[0] || p in cuts[1..];
  }

  lemma {:induction false} PlacesCuttable(text: string, start: nat, cuts: seq<(nat, nat)>, fine: bool)
    requires Ahead(text, start, cuts) && (start == 0 || (start < |text| && text[start] != ' '))
    requires forall p :: p in cuts ==> Place(text, p.0, p.1, fine)
    ensures Cuttable(text, start, cuts)
    decreases |cuts|
  {
    hide Depth, CodeSpans.State;
    if cuts != [] {
      assert Place(text, cuts[0].0, cuts[0].1, fine);
      PlacesCuttable(text, cuts[0].1, cuts[1..], fine);
    }
  }

  /** A text cut so: its lines stand for it, and one begins a block exactly when white space after a cut hides one. */
  lemma {:induction false} CutsStand(block: Block, text: string, start: nat, cuts: seq<(nat, nat)>)
    requires Stable(block) && EndsSolid(text) && start < |text|
    requires Ahead(text, start, cuts) && Cuttable(text, start, cuts)
    ensures var lines := Clean(CutAt(text, start, cuts));
            && Stands(block, lines, text[start..])
            && (Clear(block, text, cuts) ==> NoBlocks(block, lines))
            && (Settled(block) && NoBlocks(block, lines) ==> Clear(block, text, cuts))
    decreases |cuts|
  {
    hide IsSpace, Stable, Settled, EndsSolid, Trimmed, Strip, Clean, LStrip, Stands, NoBlocks, Clear, IsMark;
    SolidEnd(text, start);
    if cuts == [] {
      OneLineStands(block, text[start..]);
      NothingHidden(block, text, Strip(text[start..]));
    } else {
      var (lo, hi) := cuts[0];
      var first, rest := text[start..lo], text[hi..];
      var lines := Clean(CutAt(text, hi, cuts[1..]));
      CutsStand(block, text, hi, cuts[1..]);
      SolidMark(text, start, lo);
      OneLineStands(block, first);
      FirstPiece(block, text, start, lo);
      StandsJoined(block, [Strip(first)], lines, text[start..], first, rest);
      CutsCleaned(first, CutAt(text, hi, cuts[1..]));
      StandsBegins(block, lines, rest);
      NothingHidden(block, text, Strip(first));
      ClearFirst(block, text, cuts);
    }
  }

  lemma CutsCleaned(first: string, rest: seq<string>)
    requires Clean([first]) == [Strip(first)]
    ensures Clean([first] + rest) == [Strip(first)] + Clean(rest)
  {
    CleanAppend([first], rest);
  }

  lemma StandsBegins(block: Block, lines: seq<string>, text: string)
    requires Stands(block, lines, text)
    ensures lines != [] && (block(lines[0]) ==> block(LStrip(text)))
    ensures Settled(block) && block(LStrip(text)) ==> block(lines[0])
  {
  }

  lemma NothingHidden(block: Block, text: string, line: string)
    ensures Clear(block, text, []) && NoBlocks(block, [line])
  {
  }

  lemma FirstPiece(block: Block, text: string, start: nat, lo: nat)
    requires Stable(block) && start < lo < |text| && EndsSolid(text[start..lo]) && text[lo] == ' ' && EndsSolid(text)
    ensures var first, all := text[start..lo], text[start..];
            && all != "" && all[|all| - 1] == text[|text| - 1] && first[|first| - 1] == text[lo - 1]
            && (block(LStrip(first)) ==> block(LStrip(all)))
            && (Settled(block) && block(LStrip(all)) ==> block(LStrip(first)))
  {
    hide IsSpace, Stable, Settled, Strip, LStrip, EndsSolid;
    var all := text[start..];
    PartOfPart(text, start, lo);
    SolidNotEmpty(text);
    PieceBegins(block, all, lo - start);
    SolidStripsLeft(text[start..lo]);
  }

  lemma PartOfPart(text: string, start: nat, lo: nat)
    requires start < lo < |text|
    ensures text[start..][..lo - start] == text[start..lo] && text[start..][lo - start] == text[lo]
    ensures text[start..][|text| - start - 1] == text[|text| - 1] && text[start..lo][lo - start - 1] == text[lo - 1]
  {
  }

  /** At no place where the pass would cut does white space hide a block. */
  ghost predicate PassClear(text: string, fine: bool, block: Block) {
    forall lo: nat, hi: nat :: Place(text, lo, hi, fine) && !block(text[hi..]) ==> !block(LStrip(text[hi..]))
  }

  lemma PassStands(text: string, fine: bool, block: Block)
    requires Stable(block) && EndsSolid(text)
    ensures var lines := Clean(Split(text, fine, block));
            && Stands(block, lines, text)
            && (PassClear(text, fine, block) ==> NoBlocks(block, lines))
            && (Settled(block) && NoBlocks(block, lines) ==> PassClear(text, fine, block))
    ensures EachSolid(Split(text, fine, block))
  {
    hide IsSpace, Stable, Settled, EndsSolid, Clean, LStrip, Stands, NoBlocks, Split, Place, CutAt, Ahead, EachSolid;
    SolidNotEmpty(text);
    var cuts := SplitCutsAtPlaces(text, fine, block);
    PlacesCuttable(text, 0, cuts, fine);
    CutsStand(block, text, 0, cuts);
    CutsSolid(text, 0, cuts);
    assert text[0..] == text;
    ClearIsPassClear(text, fine, block, cuts);
  }

  lemma ClearIsPassClear(text: string, fine: bool, block: Block, cuts: seq<(nat, nat)>)
    requires forall p: (nat, nat) :: p in cuts <==> Place(text, p.0, p.1, fine) && !block(text[p.1..])
    ensures Clear(block, text, cuts) <==> PassClear(text, fine, block)
  {
    hide CodeSpans.State, Depth, Breaks, LStrip;
    if Clear(block, text, cuts) {
      forall lo: nat, hi: nat | Place(text, lo, hi, fine) && !block(text[hi..])
        ensures !block(LStrip(text[hi..]))
      {
        assert (lo, hi) in cuts;
      }
    }
  }

  // ---- both passes

  /** Every piece ends solid, and every one but perhaps the last in a mark. */
  ghost predicate EachSolid(pieces: seq<string>) {
    && (forall k :: 0 <= k < |pieces| ==> EndsSolid(pieces[k]))
    && (forall k :: 0 <= k < |pieces| - 1 ==> pieces[k] != "" && IsMark(pieces[k][|pieces[k]| - 1]))
  }

  lemma {:induction false} CutsSolid(text: string, start: nat, cuts: seq<(nat, nat)>)
    requires EndsSolid(text) && start < |text| && Ahead(text, start, cuts) && Cuttable(text, start, cuts)
    ensures EachSolid(CutAt(text, start, cuts))
    decreases |cuts|
  {
    hide IsSpace, EndsSolid, IsMark, EachSolid;
    SolidEnd(text, start);
    if cuts == [] {
      OneIsSolid(text[start..]);
    } else {
      var (lo, hi) := cuts[0];
      CutsSolid(text, hi, cuts[1..]);
      SolidMark(text, start, lo);
      EachSolidMore(text[start..lo], CutAt(text, hi, cuts[1..]));
    }
  }

  lemma OneIsSolid(piece: string)
    requires EndsSolid(piece)
    ensures EachSolid([piece])
  {
  }

  lemma EachSolidMore(first: string, rest: seq<string>)
    requires EndsSolid(first) && first != "" && IsMark(first[|first| - 1]) && EachSolid(rest)
    ensures EachSolid([first] + rest)
  {
    hide IsSpace, EndsSolid, IsMark;
    var all := [first] + rest;
    assert forall k :: 0 < k < |all| ==> all[k] == rest[k - 1];
  }

  /** A piece that is broken again has no hidden block at the finer places either. */
  ghost predicate PieceClear(block: Block, piece: string) {
    |piece| > LINE_LIMIT ==> PassClear(piece, true, block)
  }

  ghost predicate AllClear(block: Block, pieces: seq<string>) {
    forall k :: 0 <= k < |pieces| ==> PieceClear(block, pieces[k])
  }

  lemma ExpandStands(block: Block, piece: string)
    requires Stable(block) && EndsSolid(piece)
    ensures var lines := Clean(Expand(piece, block));
            && Stands(block, lines, piece)
            && (PieceClear(block, piece) ==> NoBlocks(block, lines))
            && (Settled(block) && NoBlocks(block, lines) ==> PieceClear(block, piece))
  {
    hide IsSpace, Stable, Settled, EndsSolid, Strip, Clean, Stands, NoBlocks, Split, PassClear;
    if |piece| > LINE_LIMIT {
      PassStands(piece, true, block);
    } else {
      OneLineStands(block, piece);
      NothingHidden(block, "", Strip(piece));
    }
  }

  lemma AllClearFirst(block: Block, pieces: seq<string>)
    requires pieces != []
    ensures AllClear(block, pieces) <==> PieceClear(block, pieces[0]) && AllClear(block, pieces[1..])
  {
    hide PieceClear;
    assert forall k :: 0 < k < |pieces| ==> pieces[k] == pieces[1..][k - 1];
  }

  lemma EachSolidFirst(pieces: seq<string>)
    requires EachSolid(pieces) && |pieces| > 1
    ensures EndsSolid(pieces[0]) && pieces[0] != "" && IsMark(pieces[0][|pieces[0]| - 1]) && EachSolid(pieces[1..])
  {
    hide EndsSolid, IsMark;
  }

  /** Both end in the same character. */
  predicate EndAlike(a: string, b: string) {
    a != "" && b != "" && a[|a| - 1] == b[|b| - 1]
  }

  /** Lines against the heads of the pieces they come from: the first begins a block when the first head does, and the
      last ends as the last head does. */
  ghost predicate Heads(block: Block, lines: seq<string>, heads: seq<string>) {
    && lines != [] && heads != [] && Solid(lines) && EndAlike(lines[|lines| - 1], heads[|heads| - 1])
    && (block(lines[0]) ==> block(heads[0])) && (Settled(block) && block(heads[0]) ==> block(lines[0]))
  }

  lemma HeadsOfOne(block: Block, lines: seq<string>, piece: string)
    requires Stands(block, lines, piece) && EndsSolid(piece)
    ensures Heads(block, lines, [Strip(piece)])
  {
    hide IsSpace, Settled, Strip, LStrip, Trimmed, IsMark;
    SolidStripsLeft(piece);
  }

  lemma HeadsJoined(block: Block, a: seq<string>, piece: string, b: seq<string>, heads: seq<string>)
    requires Stands(block, a, piece) && EndsSolid(piece) && piece != "" && IsMark(piece[|piece| - 1])
    requires Heads(block, b, heads)
    ensures Heads(block, a + b, [Strip(piece)] + heads)
    ensures NoBlocks(block, a + b) <==> NoBlocks(block, a) && !block(b[0]) && NoBlocks(block, b)
    ensures NoBlocks(block, [Strip(piece)] + heads) <==> !block(heads[0]) && NoBlocks(block, heads)
  {
    hide IsSpace, Settled, Strip, LStrip, Trimmed, IsMark;
    HeadsOfOne(block, a, piece);
    SolidJoined(a, b);
    NoBlocksJoined(block, a, b);
    NoBlocksJoined(block, [Strip(piece)], heads);
    NothingHidden(block, "", Strip(piece));
  }

  lemma HeadsBegin(block: Block, lines: seq<string>, heads: seq<string>)
    requires Heads(block, lines, heads)
    ensures lines != [] && heads != [] && (block(lines[0]) ==> block(heads[0]))
    ensures Settled(block) && block(heads[0]) ==> block(lines[0])
  {
  }

  /** Breaking the long pieces again adds the blocks hidden in them, and no others. */
  lemma {:induction false} ExpandAllStands(block: Block, pieces: seq<string>)
    requires Stable(block) && EachSolid(pieces) && pieces != []
    ensures var lines, heads := Clean(ExpandAll(pieces, piece => Expand(piece, block))), Clean(pieces);
            && Heads(block, lines, heads)
            && (NoBlocks(block, heads) && AllClear(block, pieces) ==> NoBlocks(block, lines))
            && (Settled(block) && NoBlocks(block, lines) ==> NoBlocks(block, heads) && AllClear(block, pieces))
  {
    hide IsSpace, Stable, Settled, EndsSolid, Strip, Clean, Stands, NoBlocks, Expand, EachSolid, Heads, AllClear,
         IsMark;
    hide PieceClear;
    var expand := piece => Expand(piece, block);
    var p, tail := pieces[0], pieces[1..];
    FirstIsSolid(pieces);
    var a := Clean(Expand(p, block));
    ExpandStands(block, p);
    OneLineStands(block, p);
    AllClearFirst(block, pieces);
    assert pieces == [p] + tail;
    if tail == [] {
      assert [p] + [] == [p];
      ExpandOne(p, expand);
      HeadsOfOne(block, a, p);
      NothingHidden(block, "", Strip(p));
      NoneToClear(block);
    } else {
      var b, heads := Clean(ExpandAll(tail, expand)), Clean(tail);
      EachSolidFirst(pieces);
      ExpandAllStands(block, tail);
      ExpandFirst(p, tail, expand);
      CleanAppend(Expand(p, block), ExpandAll(tail, expand));
      CutsCleaned(p, tail);
      HeadsJoined(block, a, p, b, heads);
      HeadsBegin(block, b, heads);
    }
  }

  lemma FirstIsSolid(pieces: seq<string>)
    requires EachSolid(pieces) && pieces != []
    ensures EndsSolid(pieces[0])
  {
  }

  lemma NoneToClear(block: Block)
    ensures AllClear(block, [])
  {
  }

  /** No place either pass breaks at is followed by white space that hides a block: in the text stripped, and in each
      of its pieces that is long enough to be broken again. */
  ghost predicate NoHiddenBlock(text: string, block: Block) {
    PassClear(Strip(text), false, block) && AllClear(block, Split(Strip(text), false, block))
  }

  /** Every line is trimmed, every line but the last ends in a mark and the last as the text does, whatever the text.
      For a block test such as the source's, none but the first begins a block exactly when no white space after a
      break hides one. */
  lemma LaterLinesBeginBlocks(text: string, block: Block)
    requires Stable(block)
    ensures Solid(Lines(text, block))
    ensures var lines, t := Lines(text, block), Strip(text);
            if t == "" then lines == [] else lines != [] && EndAlike(lines[|lines| - 1], t)
    ensures NoHiddenBlock(text, block) ==> NoBlocks(block, Lines(text, block))
    ensures Settled(block) ==> (NoBlocks(block, Lines(text, block)) <==> NoHiddenBlock(text, block))
  {
    hide Strip, Split, Stable, Settled, Expand, IsSpace, Clean, ExpandAll, PassClear, AllClear, NoBlocks, EndsSolid,
         Solid;
    hide EachSolid, Stands;
    var before, after := StripAround(text);
    var t := Strip(text);
    if t == "" {
      BlankLines(block);
      BlankClear(block);
    } else {
      TrimmedIsSolid(t);
      PassStands(t, false, block);
      SplitNotEmpty(t, block);
      ExpandAllStands(block, Split(t, false, block));
      LastEndsAlike(block, Lines(text, block), Clean(Split(t, false, block)), t);
    }
  }

  lemma LastEndsAlike(block: Block, lines: seq<string>, heads: seq<string>, text: string)
    requires Heads(block, lines, heads) && Stands(block, heads, text)
    ensures lines != [] && EndAlike(lines[|lines| - 1], text)
  {
  }

  lemma SplitNotEmpty(text: string, block: Block)
    ensures Split(text, false, block) != []
  {
  }

  lemma TrimmedIsSolid(t: string)
    requires Trimmed(t) && t != ""
    ensures EndsSolid(t)
  {
  }

  lemma BlankClear(block: Block)
    ensures PassClear("", false, block) && AllClear(block, Split("", false, block))
    ensures NoBlocks(block, []) && Solid([])
  {
    assert Points("", START, false) == [];
    assert Split("", false, block) == [""];
  }

  // ---- backslashes

  predicate Slashed(s: string) {
    s != "" && s[|s| - 1] == '\\'
  }

  /** No line is promised to end in a backslash. None does exactly when the text does not, white space at its end
      aside. */
  lemma NoLineEndsSlashedIff(text: string, block: Block)
    requires Stable(block)
    ensures (forall k :: 0 <= k < |Lines(text, block)| ==> !Slashed(Lines(text, block)[k])) <==> !Slashed(Strip(text))
  {
    LaterLinesBeginBlocks(text, block);
    hide Strip, Stable, Lines, Trimmed;
    var lines := Lines(text, block);
    forall k | 0 <= k < |lines| - 1
      ensures !Slashed(lines[k])
    {
      assert IsMark(lines[k][|lines[k]| - 1]);
    }
  }

  const SLASH_TEXT := "a\\"

  /** Such a text: a letter and a backslash is the one line. */
  lemma SlashedLine(block: Block)
    ensures Lines(SLASH_TEXT, block) == [SLASH_TEXT] && Slashed(SLASH_TEXT)
  {
    hide Strip, Split, Pieces, Clean, ExpandAll;
    TrimmedStrips(SLASH_TEXT);
    SlashPoints();
    SplitIs(SLASH_TEXT, false, block, []);
    WholePiece(SLASH_TEXT, block);
    ExpandOne(SLASH_TEXT, piece => Expand(piece, block));
    CleanNext([SLASH_TEXT]);
    CleanNone();
    assert [SLASH_TEXT][1..] == [];
  }

  lemma WholePiece(text: string, block: Block)
    ensures Pieces(text, 0, [], block) == [text]
  {
    assert text[0..] == text;
  }

  lemma SlashPoints()
    ensures Points(SLASH_TEXT, START, false) == []
  {
    hide Points;
    PointsStep(SLASH_TEXT, START, false);
    PointsStep(SLASH_TEXT, Scan(1, 0, 0), false);
    NoMorePoints(SLASH_TEXT, Scan(2, 0, 0), false);
  }

  // ---- texts whose only white space is spaces

  predicate OnlySpaces(s: string) {
    forall i :: 0 <= i < |s| && IsSpace(s[i]) ==> s[i] == ' '
  }

  lemma SpacesHideNothing(text: string, fine: bool, block: Block)
    requires OnlySpaces(text)
    ensures PassClear(text, fine, block)
  {
    hide Depth, CodeSpans.State, Breaks, IsSpace;
    forall lo: nat, hi: nat | Place(text, lo, hi, fine) && !block(text[hi..])
      ensures !block(LStrip(text[hi..]))
    {
      NothingToLStrip(text[hi..]);
    }
  }

  lemma {:induction false} CutsOnlySpaces(text: string, start: nat, cuts: seq<(nat, nat)>)
    requires Ahead(text, start, cuts) && OnlySpaces(text)
    ensures forall k :: 0 <= k < |CutAt(text, start, cuts)| ==> OnlySpaces(CutAt(text, start, cuts)[k])
    decreases |cuts|
  {
    hide IsSpace;
    if cuts != [] {
      CutsOnlySpaces(text, cuts[0].1, cuts[1..]);
    }
  }

  lemma StripOnlySpaces(text: string, before: string, t: string, after: string)
    requires OnlySpaces(text) && text == before + t + after
    ensures OnlySpaces(t)
  {
    hide IsSpace;
    forall i | 0 <= i < |t| && IsSpace(t[i])
      ensures t[i] == ' '
    {
      assert t[i] == text[|before| + i];
    }
  }

  /** In a text whose only white space is spaces, no line after the first begins a block, and every line but the
      last ends in a mark, so none of those in a backslash. */
  lemma NoLineBeginsBlock(text: string, block: Block)
    requires Stable(block) && OnlySpaces(text)
    ensures NoBlocks(block, Lines(text, block)) && Solid(Lines(text, block))
  {
    hide Strip, Split, Stable, Settled, Clean, PassClear, NoBlocks, Solid, OnlySpaces, CutAt, Ahead, Place, Lines;
    var before, after := StripAround(text);
    var t := Strip(text);
    StripOnlySpaces(text, before, t, after);
    SpacesHideNothing(t, false, block);
    var cuts := SplitCutsAtPlaces(t, false, block);
    CutsOnlySpaces(t, 0, cuts);
    forall k | 0 <= k < |Split(t, false, block)|
      ensures PieceClear(block, Split(t, false, block)[k])
    {
      SpacesHideNothing(Split(t, false, block)[k], true, block);
    }
    LaterLinesBeginBlocks(text, block);
  }

  // ---- a text with a tab

  const TAB_TEXT := ". \t#"

  /** With other white space it can happen: a tab after the space hides a heading from the test before the
      break, and stripping the line uncovers it. */
  lemma TabUncoversBlock(digit: char -> bool)
    requires !digit('\t')
    ensures Lines(TAB_TEXT, s => BlockStart(digit, s)) == [".", "#"] && BlockStart(digit, "#")
  {
    hide BlockStart, Split, Strip, Lines;
    var block := s => BlockStart(digit, s);
    TabBlocks(digit);
    TabSplit(block);
    TabStripped();
    TwoLines(TAB_TEXT, ".", "\t#", block);
  }

  lemma TwoLines(text: string, a: string, b: string, block: Block)
    requires Split(Strip(text), false, block) == [a, b] && |a| <= LINE_LIMIT && |b| <= LINE_LIMIT
    requires Strip(a) != "" && Strip(b) != ""
    ensures Lines(text, block) == [Strip(a), Strip(b)]
  {
    hide Strip, Split;
    var expand := piece => Expand(piece, block);
    ExpandFirst(a, [b], expand);
    ExpandOne(b, expand);
    assert ExpandAll([a, b], expand) == [a, b];
    CleanNext([a, b]);
    CleanNext([b]);
    assert [a, b][1..] == [b] && [b][1..] == [];
    assert [Strip(a)] + ([Strip(b)] + []) == [Strip(a), Strip(b)];
  }

  lemma TabBlocks(digit: char -> bool)
    requires !digit('\t')
    ensures BlockStart(digit, "#") && !BlockStart(digit, "\t#")
  {
  }

  lemma TabStripped()
    ensures Strip(TAB_TEXT) == TAB_TEXT && Strip("\t#") == "#" && Strip(".") == "."
  {
    hide Strip;
    TrimmedStrips(TAB_TEXT);
    StripOf("\t", "#", "");
    TrimmedStrips(".");
    assert "\t" + "#" + "" == "\t#";
  }

  lemma TabSplit(block: Block)
    requires !block("\t#")
    ensures Split(TAB_TEXT, false, block) == [".", "\t#"]
  {
    hide Points, Split, Pieces, Ahead, PassedOver;
    TabPoints();
    SplitIs(TAB_TEXT, false, block, [(1, 2)]);
    TabKept(block);
    OneBreak(TAB_TEXT, 1, 2, block);
  }

  lemma TabKept(block: Block)
    requires !block("\t#")
    ensures !PassedOver(TAB_TEXT, 0, 1, 2, block) && TAB_TEXT[0..1] == "." && TAB_TEXT[2..] == "\t#"
  {
    SpaceIsSpace();
    hide IsSpace;
    assert TAB_TEXT[0..1][0] == '.' && TAB_TEXT[2..] == "\t#";
  }

  lemma SplitIs(text: string, fine: bool, block: Block, ps: seq<(nat, nat)>)
    requires Points(text, START, fine) == ps
    ensures Ahead(text, 0, ps) && Split(text, fine, block) == Pieces(text, 0, ps, block)
  {
    PointsAhead(text, START, fine);
  }

  lemma OneBreak(text: string, lo: nat, hi: nat, block: Block)
    requires lo <= hi <= |text| && !PassedOver(text, 0, lo, hi, block) && Ahead(text, 0, [(lo, hi)])
    ensures Pieces(text, 0, [(lo, hi)], block) == [text[0..lo], text[hi..]]
  {
    hide PassedOver;
    assert [(lo, hi)][1..] == [];
    assert Pieces(text, hi, [], block) == [text[hi..]];
  }

  lemma TabPoints()
    ensures Points(TAB_TEXT, START, false) == [(1, 2)]
  {
    hide Points, Next;
    var text := TAB_TEXT;
    TabNext();
    PointsStep(text, START, false);
    PointsStep(text, Scan(1, 0, 0), false);
    PointsStep(text, Scan(2, 0, 0), false);
    PointsStep(text, Scan(3, 0, 0), false);
    NoMorePoints(text, Scan(4, 0, 0), false);
    assert Emitted(text, Scan(2, 0, 0), false) == Emitted(text, Scan(3, 0, 0), false) == [];
    assert Emitted(text, START, false) == [];
    assert Emitted(text, Scan(1, 0, 0), false) == [(1, 2)];
    assert [(1, 2)] + ([] + ([] + [])) == [(1, 2)];
    assert [] + [(1, 2)] == [(1, 2)];
  }

  lemma PointsStep(text: string, s: Scan, fine: bool)
    requires s.i < |text|
    ensures Points(text, s, fine) == Emitted(text, s, fine) + Points(text, Next(text, s), fine)
  {
  }

  lemma TabNext()
    ensures Next(TAB_TEXT, START) == Scan(1, 0, 0)
    ensures Next(TAB_TEXT, Scan(1, 0, 0)) == Scan(2, 0, 0)
    ensures Next(TAB_TEXT, Scan(2, 0, 0)) == Scan(3, 0, 0)
    ensures Next(TAB_TEXT, Scan(3, 0, 0)) == Scan(4, 0, 0)
  {
    assert BlankRun(TAB_TEXT[1..]) == 1;
  }
}
