/** What splitting a paragraph into lines keeps: its rendering. */
module MarkdownLaws {
  import opened CodeSpans
  import opened Markdown
  import opened Text

  // ---- the breaks found

  /** A break is a run of spaces after a mark, with text after it, where no code span opened since `start`
      is open. */
  ghost predicate GoodAt(text: string, start: nat, p: (nat, nat)) {
    && start < p.0 < p.1 < |text|
    && (forall i :: p.0 <= i < p.1 ==> text[i] == ' ')
    && IsMark(text[p.0 - 1])
    && State(text[start..p.0], 0) == 0
  }

  ghost predicate Good(text: string, start: nat, ps: seq<(nat, nat)>) {
    && (forall k :: 0 <= k < |ps| ==> GoodAt(text, start, ps[k]))
    && (forall k, l :: 0 <= k < l < |ps| ==> ps[k].1 < ps[l].0)
  }

  /** The scan knows the code span open at its position, and never stands inside a run of backticks. */
  ghost predicate Sound(text: string, s: Scan) {
    s.i <= |text| && State(text[..s.i], 0) == s.code && TicksApart(text[..s.i], text[s.i..])
  }

  lemma NextSound(text: string, s: Scan)
    requires Sound(text, s) && s.i < |text|
    ensures Sound(text, Next(text, s))
  {
    hide IsSpace;
    var n := Next(text, s);
    var token := text[s.i..n.i];
    assert text[..n.i] == text[..s.i] + token;
    assert token[0] == text[s.i] == text[s.i..][0];
    assert TicksApart(text[..s.i], token);
    StateSplit(text[..s.i], token, 0);
    assert token + "" == token;
    if text[s.i] == '`' {
      assert text[s.i..] == token + text[n.i..];
      TickRunWhole(token);
      assert token[|token|..] == "";
    } else {
      PlainToken(token, s.code);
    }
  }

  lemma {:induction false} TickRunWhole(s: string)
    requires forall i :: 0 <= i < |s| ==> s[i] == '`'
    ensures TickRun(s) == |s|
  {
    if s != "" {
      TickRunWhole(s[1..]);
    }
  }

  lemma {:induction false} PlainToken(s: string, code: nat)
    requires forall i :: 0 <= i < |s| ==> s[i] != '`'
    ensures State(s, code) == code
  {
    if s != "" {
      PlainToken(s[1..], code);
    }
  }

  lemma {:induction false} PointsGood(text: string, s: Scan, fine: bool)
    requires Sound(text, s)
    ensures var ps := Points(text, s, fine); Good(text, 0, ps) && forall k :: 0 <= k < |ps| ==> s.i <= ps[k].0
    decreases |text| - s.i
  {
    hide State, TicksApart, IsSpace, Next, BreakHere, GoodAt, Good;
    if s.i < |text| {
      var n := Next(text, s);
      var rest := Points(text, n, fine);
      NextSound(text, s);
      PointsGood(text, n, fine);
      if BreakHere(text, s, fine) {
        BreakIsGood(text, s, fine);
        forall k | 0 <= k < |rest|
          ensures n.i < rest[k].0
        {
          GoodGives(text, rest, k);
          BreakIsSpace(text, rest[k]);
        }
        GoodCons(text, (s.i, n.i), rest);
      } else {
        assert [] + rest == rest;
      }
    } else {
      NoBreaksGood(text);
    }
  }

  lemma GoodGives(text: string, ps: seq<(nat, nat)>, k: nat)
    requires Good(text, 0, ps) && k < |ps|
    ensures GoodAt(text, 0, ps[k])
  {
  }

  lemma NoBreaksGood(text: string)
    ensures Good(text, 0, [])
  {
  }

  lemma GoodCons(text: string, p: (nat, nat), rest: seq<(nat, nat)>)
    requires GoodAt(text, 0, p) && Good(text, 0, rest) && forall k :: 0 <= k < |rest| ==> p.1 < rest[k].0
    ensures Good(text, 0, [p] + rest)
  {
    hide GoodAt;
  }

  lemma BreakIsSpace(text: string, p: (nat, nat))
    requires GoodAt(text, 0, p)
    ensures p.0 < |text| && text[p.0] == ' '
  {
  }

  lemma BreakIsGood(text: string, s: Scan, fine: bool)
    requires Sound(text, s) && s.i < |text| && BreakHere(text, s, fine)
    ensures var j := Next(text, s).i; GoodAt(text, 0, (s.i, j)) && text[j] != ' '
  {
    SpacesAhead(text, s);
    hide State, TicksApart;
    assert text[0..s.i] == text[..s.i];
  }

  lemma SpacesAhead(text: string, s: Scan)
    requires s.i < |text| && s.code == 0 && text[s.i] == ' ' && s.i > 0
    ensures var j := Next(text, s).i;
            (forall i :: s.i <= i < j ==> text[i] == ' ') && (j < |text| ==> text[j] != ' ')
  {
    var j := Next(text, s).i;
    forall i | s.i <= i < j
      ensures text[i] == ' '
    {
      assert text[i] == text[s.i..][i - s.i];
    }
    if j < |text| {
      assert text[j] == text[s.i..][j - s.i];
    }
  }

  /** The breaks after one are good for the text that follows it. */
  lemma Restart(text: string, start: nat, ps: seq<(nat, nat)>)
    requires ps != [] && Good(text, start, ps)
    ensures Good(text, ps[0].1, ps[1..])
  {
    hide State, IsSpace;
    var (lo, hi) := ps[0];
    assert GoodAt(text, start, ps[0]);
    forall k | 0 <= k < |ps[1..]|
      ensures GoodAt(text, hi, ps[1..][k])
    {
      var p := ps[k + 1];
      assert GoodAt(text, start, p);
      var a, w, b := text[start..lo], text[lo..hi], text[hi..p.0];
      assert text[start..p.0] == a + (w + b);
      assert (w + b)[0] == text[lo];
      StateSplit(a, w + b, 0);
      SpaceIsSpace();
      SpacesKeepState(w, b, 0);
    }
  }

  lemma SpaceIsSpace()
    ensures IsSpace(' ') && IsSpace('\n')
    ensures !IsSpace('.') && !IsSpace(';') && !IsSpace(':') && !IsSpace(',')
  {
  }

  // ---- rendering

  predicate EndsSolid(s: string) {
    s != "" && !IsSpace(s[|s| - 1])
  }

  /** Breaking a piece further, and cleaning the lines, renders alike. */
  ghost predicate FaithfulAt(expand: string -> seq<string>, piece: string) {
    EndsSolid(piece) ==> Alike(Join("\n", Clean(expand(piece))), Strip(piece))
  }

  lemma {:induction false} CleanAppend(a: seq<string>, b: seq<string>)
    ensures Clean(a + b) == Clean(a) + Clean(b)
  {
    hide Strip;
    if a == [] {
      assert a + b == b;
    } else {
      assert (a + b)[1..] == a[1..] + b;
      CleanAppend(a[1..], b);
      Assoc(if Strip(a[0]) == "" then [] else [Strip(a[0])], Clean(a[1..]), Clean(b));
    }
  }

  /** A text that ends solid is white space and then what stripping leaves, which is not empty. */
  lemma SolidStrip(s: string) returns (before: string)
    requires EndsSolid(s)
    ensures AllSpace(before) && s == before + Strip(s) && Strip(s) != "" && Trimmed(Strip(s))
  {
    var after: string;
    before, after := StripAround(s);
    hide Strip;
    LastOf(before + Strip(s), after);
    assert after == "";
    assert before + Strip(s) + "" == before + Strip(s);
    LastOf("", before);
    assert "" + before == before && before + "" == before;
  }

  lemma LastOf(a: string, b: string)
    ensures b != "" ==> (a + b)[|a + b| - 1] == b[|b| - 1]
  {
  }

  /** Cutting at white space between two parts, both ending solid. */
  lemma CutAlike(a: string, w: string, r: string, first: seq<string>, rest: seq<string>)
    requires EndsSolid(a) && EndsSolid(r) && AllSpace(w) && w != "" && State(a, 0) == 0
    requires Alike(Join("\n", Clean(first)), Strip(a)) && Alike(Join("\n", Clean(rest)), Strip(r))
    ensures Alike(Join("\n", Clean(first + rest)), Strip(a + w + r))
  {
    hide IsSpace, Strip, Clean, State, Render, Join;
    var ba := SolidStrip(a);
    var br := SolidStrip(r);
    var x, y := Join("\n", Clean(first)), Join("\n", Clean(rest));
    CleanAppend(first, rest);
    JoinNone("\n");
    assert Clean(first) != [] && Clean(rest) != [];
    JoinAppend("\n", Clean(first), Clean(rest));
    SpacesKeepState(ba, Strip(a), 0);
    SpaceIsSpace();
    var w' := w + br;
    AlikeJoined(x, Strip(a), "\n", w', y, Strip(r));
    var t := Strip(a) + w' + Strip(r);
    assert a + w + r == ba + t + "";
    StripOf(ba, t, "");
  }

  lemma JoinNone(sep: string)
    ensures Join(sep, []) == ""
  {
  }

  /** Breaking at good breaks, and each piece further, renders alike. */
  lemma {:induction false} PiecesAlike(text: string, start: nat, ps: seq<(nat, nat)>, block: Block,
                                      expand: string -> seq<string>)
    requires start < |text| && EndsSolid(text) && Good(text, start, ps) && Ahead(text, start, ps)
    requires forall piece :: FaithfulAt(expand, piece)
    ensures Alike(Join("\n", Clean(ExpandAll(Pieces(text, start, ps, block), expand))), Strip(text[start..]))
    decreases |ps|
  {
    hide Alike, State, Clean, Join, Strip, EndsSolid, FaithfulAt, GoodAt, PassedOver, IsSpace;
    if ps == [] {
      ExpandOne(text[start..], expand);
      SolidEnd(text, start);
      FaithfulPiece(expand, text[start..]);
    } else {
      var (lo, hi) := ps[0];
      GoodMeans(text, start, ps[0]);
      AheadOfLess(text, hi, start, ps[1..]);
      if PassedOver(text, start, lo, hi, block) {
        PiecesAlike(text, start, ps[1..], block, expand);
      } else {
        var a, rest := text[start..lo], Pieces(text, hi, ps[1..], block);
        Restart(text, start, ps);
        PiecesAlike(text, hi, ps[1..], block, expand);
        SolidEnd(text, hi);
        SolidMark(text, start, lo);
        FaithfulPiece(expand, a);
        ExpandFirst(a, rest, expand);
        CutAlike(a, text[lo..hi], text[hi..], expand(a), ExpandAll(rest, expand));
        assert text[start..] == a + text[lo..hi] + text[hi..];
      }
    }
  }

  lemma FaithfulPiece(expand: string -> seq<string>, piece: string)
    requires FaithfulAt(expand, piece) && EndsSolid(piece)
    ensures Alike(Join("\n", Clean(expand(piece))), Strip(piece))
  {
  }

  lemma GoodMeans(text: string, start: nat, p: (nat, nat))
    requires GoodAt(text, start, p)
    ensures start < p.0 < p.1 < |text| && IsMark(text[p.0 - 1])
    ensures AllSpace(text[p.0..p.1]) && State(text[start..p.0], 0) == 0
  {
    SpaceIsSpace();
    hide State, IsSpace;
  }

  lemma SolidEnd(text: string, start: nat)
    requires start < |text| && EndsSolid(text)
    ensures EndsSolid(text[start..])
  {
  }

  lemma SolidMark(text: string, start: nat, lo: nat)
    requires start < lo <= |text| && IsMark(text[lo - 1])
    ensures EndsSolid(text[start..lo])
  {
  }

  lemma ExpandOne(piece: string, expand: string -> seq<string>)
    ensures ExpandAll([piece], expand) == expand(piece)
  {
    assert expand(piece) + [] == expand(piece);
  }

  lemma ExpandFirst(piece: string, rest: seq<string>, expand: string -> seq<string>)
    ensures ExpandAll([piece] + rest, expand) == expand(piece) + ExpandAll(rest, expand)
  {
    assert ([piece] + rest)[1..] == rest;
  }

  lemma {:induction false} KeepAll(pieces: seq<string>)
    ensures ExpandAll(pieces, piece => [piece]) == pieces
  {
    if pieces != [] {
      KeepAll(pieces[1..]);
    }
  }

  lemma SplitAlike(text: string, fine: bool, block: Block, expand: string -> seq<string>)
    requires EndsSolid(text) && forall piece :: FaithfulAt(expand, piece)
    ensures Alike(Join("\n", Clean(ExpandAll(Split(text, fine, block), expand))), Strip(text))
  {
    hide Alike, Clean, Join, Strip, EndsSolid, Points, Good, Ahead;
    assert Sound(text, START);
    PointsGood(text, START, fine);
    PointsAhead(text, START, fine);
    SolidLength(text);
    PiecesAlike(text, 0, Points(text, START, fine), block, expand);
    assert text[0..] == text;
  }

  lemma SolidLength(text: string)
    requires EndsSolid(text)
    ensures |text| > 0
  {
  }

  lemma OnePieceAlike(piece: string)
    requires EndsSolid(piece)
    ensures Alike(Join("\n", Clean([piece])), Strip(piece))
  {
    var b := SolidStrip(piece);
    hide Strip;
    assert [Strip(piece)] + [] == [Strip(piece)];
  }

  lemma ExpandFaithful(block: Block, piece: string)
    ensures FaithfulAt(piece => Expand(piece, block), piece)
  {
    hide Alike, Clean, Join, Strip, Split, EndsSolid;
    if EndsSolid(piece) {
      OnePieceAlike(piece);
      if |piece| > LINE_LIMIT {
        var keep := p => [p];
        forall p
          ensures FaithfulAt(keep, p)
        {
          if EndsSolid(p) {
            OnePieceAlike(p);
          }
        }
        SplitAlike(piece, true, block, keep);
        KeepAll(Split(piece, true, block));
      }
    }
  }

  /** The lines, joined, render as the text does: for every text, through both passes and whatever its code
      spans, opened, closed or left open. */
  lemma SplitTextRenders(text: string, block: Block)
    ensures Rendered(Join("\n", Lines(text, block))) == Rendered(text)
  {
    var before, after := StripAround(text);
    var t := Strip(text);
    RenderedIgnoresEnds(text);
    hide Strip, Split, Expand;
    TrimmedStrips(t);
    if t == "" {
      BlankLines(block);
    } else {
      var expand := piece => Expand(piece, block);
      forall piece
        ensures FaithfulAt(expand, piece)
      {
        ExpandFaithful(block, piece);
      }
      SplitAlike(t, false, block, expand);
    }
  }

  lemma BlankLines(block: Block)
    ensures Clean(ExpandAll(Split("", false, block), piece => Expand(piece, block))) == []
  {
    assert Points("", START, false) == [];
    assert Split("", false, block) == [""];
    ExpandOne("", piece => Expand(piece, block));
  }
}
