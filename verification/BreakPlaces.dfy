/** Exactly where a paragraph's text is broken: the places, told without the scan that finds them. */
module BreakPlaces {
  import opened CodeSpans
  import opened Markdown
  import opened MarkdownLaws
  import opened Text

  /** How many brackets are open before position i, outside code spans; a closing one too many closes none. */
  ghost function Depth(text: string, i: nat): (d: nat)
    requires i <= |text|
  {
    if i == 0 then 0 else
    var d, c := Depth(text, i - 1), text[i - 1];
    if State(text[..i - 1], 0) != 0 then d
    else if IsOpening(c) then d + 1
    else if IsClosing(c) then (if d == 0 then 0 else d - 1)
    else d
  }

  /** A run of spaces after a mark and before more text, outside code spans; outside brackets too, and before a code
      span when the mark is a comma, unless the finer places count. */
  ghost predicate Place(text: string, lo: nat, hi: nat, fine: bool) {
    && 0 < lo < hi < |text|
    && (forall k :: lo <= k < hi ==> text[k] == ' ') && text[hi] != ' '
    && State(text[..lo], 0) == 0
    && Breaks(text, lo, hi, Depth(text, lo), fine)
  }

  /** The scan also knows the depth. */
  ghost predicate Knows(text: string, s: Scan) {
    Sound(text, s) && s.depth == Depth(text, s.i)
  }

  lemma {:induction false} DepthFlat(text: string, i: nat, j: nat)
    requires i <= j <= |text| && forall k :: i <= k < j ==> !IsOpening(text[k]) && !IsClosing(text[k])
    ensures Depth(text, j) == Depth(text, i)
    decreases j
  {
    hide State;
    if i < j {
      DepthFlat(text, i, j - 1);
    }
  }

  lemma NextKnows(text: string, s: Scan)
    requires Knows(text, s) && s.i < |text|
    ensures Knows(text, Next(text, s))
  {
    NextSound(text, s);
    NextDepth(text, s);
  }

  lemma NextDepth(text: string, s: Scan)
    requires s.i < |text| && State(text[..s.i], 0) == s.code && s.depth == Depth(text, s.i)
    ensures Next(text, s).depth == Depth(text, Next(text, s).i)
  {
    hide State, Toggle;
    var n := Next(text, s);
    if text[s.i] == '`' || (s.code == 0 && text[s.i] == ' ') {
      NextRun(text, s);
      DepthFlat(text, s.i, n.i);
    }
  }

  /** A move over several characters is over a run of one. */
  lemma NextRun(text: string, s: Scan)
    requires s.i < |text| && (text[s.i] == '`' || (s.code == 0 && text[s.i] == ' '))
    ensures forall k :: s.i <= k < Next(text, s).i ==> text[k] == text[s.i]
    ensures Next(text, s).depth == s.depth
  {
    hide Toggle;
    forall k | s.i <= k < Next(text, s).i
      ensures text[k] == text[s.i]
    {
      assert text[k] == text[s.i..][k - s.i];
    }
  }

  /** No place is stepped over. */
  lemma PlaceAhead(text: string, s: Scan, lo: nat, hi: nat, fine: bool)
    requires Place(text, lo, hi, fine) && s.i < lo
    ensures Next(text, s).i <= lo
  {
    hide State, Depth, Toggle;
    if text[s.i] == '`' || (s.code == 0 && text[s.i] == ' ') {
      NextRun(text, s);
      assert IsMark(text[lo - 1]) && text[lo] == ' ';
    }
  }

  lemma PlaceHere(text: string, s: Scan, hi: nat, fine: bool)
    requires Knows(text, s) && Place(text, s.i, hi, fine)
    ensures BreakHere(text, s, fine) && Next(text, s).i == hi
  {
    SpacesAhead(text, s);
    hide State, Depth, Toggle, Next, TicksApart;
    OneRun(text, s.i, Next(text, s).i, hi);
  }

  /** A run of spaces has one end. */
  lemma OneRun(text: string, i: nat, j: nat, hi: nat)
    requires i < j <= |text| && i < hi < |text|
    requires (forall k :: i <= k < j ==> text[k] == ' ') && (j < |text| ==> text[j] != ' ')
    requires (forall k :: i <= k < hi ==> text[k] == ' ') && text[hi] != ' '
    ensures j == hi
  {
  }

  lemma {:induction false} PlaceFound(text: string, s: Scan, lo: nat, hi: nat, fine: bool)
    requires Knows(text, s) && Place(text, lo, hi, fine) && s.i <= lo
    ensures (lo, hi) in Points(text, s, fine)
    decreases |text| - s.i
  {
    hide Next, BreakHere, Place, Knows;
    PlaceWithin(text, lo, hi, fine);
    if s.i == lo {
      PlaceHere(text, s, hi, fine);
    } else {
      PlaceAhead(text, s, lo, hi, fine);
      KnowsWithin(text, s);
      NextKnows(text, s);
      PlaceFound(text, Next(text, s), lo, hi, fine);
    }
  }

  lemma PlaceWithin(text: string, lo: nat, hi: nat, fine: bool)
    requires Place(text, lo, hi, fine)
    ensures 0 < lo < hi < |text|
  {
  }

  lemma KnowsWithin(text: string, s: Scan)
    requires Knows(text, s)
    ensures s.i <= |text|
  {
  }

  lemma BreakIsPlace(text: string, s: Scan, fine: bool)
    requires Knows(text, s) && s.i < |text| && BreakHere(text, s, fine)
    ensures Place(text, s.i, Next(text, s).i, fine)
  {
    SpacesAhead(text, s);
    hide State, Depth, Toggle, TicksApart;
  }

  lemma {:induction false} FoundArePlaces(text: string, s: Scan, fine: bool)
    requires Knows(text, s)
    ensures forall p :: p in Points(text, s, fine) ==> Place(text, p.0, p.1, fine)
    decreases |text| - s.i
  {
    hide Next, BreakHere, Place, Knows;
    KnowsWithin(text, s);
    if s.i < |text| {
      NextKnows(text, s);
      FoundArePlaces(text, Next(text, s), fine);
      if BreakHere(text, s, fine) {
        BreakIsPlace(text, s, fine);
      }
    }
  }

  /** The scan finds every place, and nothing else. */
  lemma PointsAreThePlaces(text: string, lo: nat, hi: nat, fine: bool)
    ensures (lo, hi) in Points(text, START, fine) <==> Place(text, lo, hi, fine)
  {
    hide Points, Place;
    assert text[..0] == "" && Knows(text, START);
    FoundArePlaces(text, START, fine);
    if Place(text, lo, hi, fine) {
      PlaceFound(text, START, lo, hi, fine);
    }
  }

  // ---- which of the places are used

  /** Of the three reasons to pass over a place only one ever holds: what is before it ends in a mark, so it is
      neither blank nor a backslash. */
  lemma OnlyBlocksPassedOver(text: string, start: nat, p: (nat, nat), block: Block)
    requires GoodAt(text, start, p)
    ensures PassedOver(text, start, p.0, p.1, block) <==> block(text[p.1..])
  {
    SpaceIsSpace();
    hide State, IsSpace;
    assert text[start..p.0][p.0 - 1 - start] == text[p.0 - 1];
  }

  /** The places whose text does not begin a block. */
  function Kept(text: string, ps: seq<(nat, nat)>, block: Block): (r: seq<(nat, nat)>) {
    if ps == [] then [] else
    (if ps[0].1 <= |text| && block(text[ps[0].1..]) then [] else [ps[0]]) + Kept(text, ps[1..], block)
  }

  /** The text cut at each of these. */
  function CutAt(text: string, start: nat, ps: seq<(nat, nat)>): (lines: seq<string>)
    requires Ahead(text, start, ps)
    decreases |ps|
  {
    if ps == [] then [text[start..]] else [text[start..ps[0].0]] + CutAt(text, ps[0].1, ps[1..])
  }

  lemma {:induction false} KeptAhead(text: string, start: nat, ps: seq<(nat, nat)>, block: Block)
    requires Ahead(text, start, ps)
    ensures Ahead(text, start, Kept(text, ps, block))
    decreases |ps|
  {
    if ps != [] {
      KeptAhead(text, ps[0].1, ps[1..], block);
      var rest := Kept(text, ps[1..], block);
      if block(text[ps[0].1..]) {
        AheadOfLess(text, ps[0].1, start, rest);
        assert [] + rest == rest;
      } else {
        assert ([ps[0]] + rest)[1..] == rest;
      }
    }
  }

  lemma {:induction false} PiecesAreCuts(text: string, start: nat, ps: seq<(nat, nat)>, block: Block)
    requires Ahead(text, start, ps) && Good(text, start, ps)
    ensures Ahead(text, start, Kept(text, ps, block))
    ensures Pieces(text, start, ps, block) == CutAt(text, start, Kept(text, ps, block))
    decreases |ps|
  {
    hide PassedOver, GoodAt, State;
    KeptAhead(text, start, ps, block);
    if ps != [] {
      var (lo, hi) := ps[0];
      AheadOfLess(text, hi, start, ps[1..]);
      var rest := Kept(text, ps[1..], block);
      assert GoodAt(text, start, ps[0]);
      OnlyBlocksPassedOver(text, start, ps[0], block);
      if block(text[hi..]) {
        assert [] + rest == rest;
        PiecesAreCuts(text, start, ps[1..], block);
      } else {
        assert ([ps[0]] + rest)[1..] == rest;
        Restart(text, start, ps);
        PiecesAreCuts(text, hi, ps[1..], block);
      }
    }
  }

  lemma {:induction false} KeptMeans(text: string, ps: seq<(nat, nat)>, block: Block)
    requires forall k :: 0 <= k < |ps| ==> ps[k].1 <= |text|
    ensures forall p :: p in Kept(text, ps, block) <==> p in ps && p.1 <= |text| && !block(text[p.1..])
  {
    if ps != [] {
      KeptMeans(text, ps[1..], block);
      assert forall p :: p in ps <==> p == ps[0] || p in ps[1..];
    }
  }

  /** One pass cuts the text at every place where what follows begins no block, and nowhere else. */
  lemma SplitCutsAtPlaces(text: string, fine: bool, block: Block) returns (cuts: seq<(nat, nat)>)
    ensures Ahead(text, 0, cuts) && Split(text, fine, block) == CutAt(text, 0, cuts)
    ensures forall p :: p in cuts <==> Place(text, p.0, p.1, fine) && !block(text[p.1..])
  {
    hide Points, Place, Good, Pieces, CutAt, Kept;
    var ps := Points(text, START, fine);
    assert text[..0] == "" && Sound(text, START);
    PointsGood(text, START, fine);
    PointsAhead(text, START, fine);
    PiecesAreCuts(text, 0, ps, block);
    cuts := Kept(text, ps, block);
    forall p: (nat, nat)
      ensures p in ps <==> Place(text, p.0, p.1, fine)
      ensures Place(text, p.0, p.1, fine) ==> p.1 <= |text|
    {
      PointsAreThePlaces(text, p.0, p.1, fine);
      if Place(text, p.0, p.1, fine) {
        PlaceWithin(text, p.0, p.1, fine);
      }
    }
    KeptMeans(text, ps, block);
  }
}
