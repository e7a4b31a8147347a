/** Splitting a paragraph's text into lines that render as it did. */
module Markdown {
  import opened CodeSpans
  import opened Text

  const LINE_LIMIT := 400

  /** Whether a text begins a Markdown block. */
  type Block = string -> bool

  // ---- where a line may be broken

  /** How many spaces `s` begins with. */
  function BlankRun(s: string): (n: nat)
    ensures n <= |s| && (forall i :: 0 <= i < n ==> s[i] == ' ') && (n < |s| ==> s[n] != ' ')
  {
    if s == "" || s[0] != ' ' then 0 else 1 + BlankRun(s[1..])
  }

  /** The marks a line may end with. */
  predicate IsMark(c: char) {
    c == '.' || c == ';' || c == ':' || c == ','
  }

  predicate IsOpening(c: char) {
    c == '(' || c == '['
  }

  predicate IsClosing(c: char) {
    c == ')' || c == ']'
  }

  /** Whether a run of spaces from i to j, at this depth of brackets, is a place to break. */
  predicate Breaks(text: string, i: nat, j: nat, depth: nat, fine: bool)
    requires 0 < i <= j <= |text|
  {
    && j < |text| && (depth == 0 || fine)
    && IsMark(text[i - 1]) && (text[i - 1] == ',' ==> text[j] == '`' || fine)
  }

  /** The scan's position, the depth of brackets there, and the code span open. */
  datatype Scan = Scan(i: nat, depth: nat, code: nat)

  function Next(text: string, s: Scan): (r: Scan)
    requires s.i < |text|
    ensures s.i < r.i <= |text|
  {
    var c := text[s.i];
    if c == '`' then
      var run := TickRun(text[s.i..]);
      Scan(s.i + run, s.depth, Toggle(s.code, run))
    else if s.code != 0 then s.(i := s.i + 1)
    else if IsOpening(c) then Scan(s.i + 1, s.depth + 1, 0)
    else if IsClosing(c) then Scan(s.i + 1, if s.depth == 0 then 0 else s.depth - 1, 0)
    else if c == ' ' && s.i > 0 then s.(i := s.i + BlankRun(text[s.i..]))
    else s.(i := s.i + 1)
  }

  /** Whether the scan's next move is over spaces that are a place to break. */
  predicate BreakHere(text: string, s: Scan, fine: bool)
    requires s.i < |text|
  {
    s.code == 0 && text[s.i] == ' ' && s.i > 0 && Breaks(text, s.i, Next(text, s).i, s.depth, fine)
  }

  function Points(text: string, s: Scan, fine: bool): (ps: seq<(nat, nat)>)
    requires s.i <= |text|
    decreases |text| - s.i
  {
    if s.i == |text| then [] else
    Emitted(text, s, fine) + Points(text, Next(text, s), fine)
  }

  const START := Scan(0, 0, 0)

  function Emitted(text: string, s: Scan, fine: bool): (ps: seq<(nat, nat)>)
    requires s.i < |text|
  {
    if BreakHere(text, s, fine) then [(s.i, Next(text, s).i)] else []
  }

  /** Moving the scan moves its break, if any, from those to come to those found. */
  lemma PointsNext(text: string, s: Scan, fine: bool, points: seq<(nat, nat)>)
    requires s.i < |text|
    ensures points + Points(text, s, fine) == points + Emitted(text, s, fine) + Points(text, Next(text, s), fine)
  {
    Assoc(points, Emitted(text, s, fine), Points(text, Next(text, s), fine));
  }

  /** The source's scan for them. */
  method SplitPoints(text: string, fine: bool) returns (points: seq<(nat, nat)>)
    ensures points == Points(text, START, fine)
  {
    hide Points, Breaks;
    points := [];
    var depth: nat, i, code: nat := 0, 0, 0;
    assert [] + Points(text, START, fine) == Points(text, START, fine);
    while i < |text|
      invariant i <= |text|
      invariant points + Points(text, Scan(i, depth, code), fine) == Points(text, START, fine)
    {
      var c := text[i];
      ghost var s, before := Scan(i, depth, code), points;
      PointsNext(text, s, fine, points);
      if c == '`' {
        var run := TickRun(text[i..]);
        code := Toggle(code, run);
        i := i + run;
      } else if code != 0 {
        i := i + 1;
      } else if IsOpening(c) {
        depth := depth + 1;
        i := i + 1;
      } else if IsClosing(c) {
        depth := if depth == 0 then 0 else depth - 1;
        i := i + 1;
      } else if c == ' ' && i > 0 {
        var j := i + BlankRun(text[i..]);
        if Breaks(text, i, j, depth, fine) {
          points := points + [(i, j)];
        }
        i := j;
      } else {
        i := i + 1;
      }
      assert Next(text, s) == Scan(i, depth, code);
      assert points == before + Emitted(text, s, fine);
    }
    NoMorePoints(text, Scan(i, depth, code), fine);
    assert points + [] == points;
  }

  lemma NoMorePoints(text: string, s: Scan, fine: bool)
    requires s.i == |text|
    ensures Points(text, s, fine) == []
  {
  }

  // ---- breaking there

  /** A break at (lo, hi) is passed over when what follows begins a block, or the piece before it is blank or ends
      in a backslash. */
  predicate PassedOver(text: string, start: nat, lo: nat, hi: nat, block: Block)
    requires start <= lo <= hi <= |text|
  {
    block(text[hi..]) || (lo > start && text[lo - 1] == '\\') || AllSpace(text[start..lo])
  }

  /** The breaks lie ahead of `start`, one after another. */
  ghost predicate Ahead(text: string, start: nat, ps: seq<(nat, nat)>)
    decreases |ps|
  {
    start <= |text| && (ps != [] ==> start <= ps[0].0 <= ps[0].1 <= |text| && Ahead(text, ps[0].1, ps[1..]))
  }

  lemma AheadOfLess(text: string, start: nat, start': nat, ps: seq<(nat, nat)>)
    requires Ahead(text, start, ps) && start' <= start
    ensures Ahead(text, start', ps)
  {
  }

  function Pieces(text: string, start: nat, ps: seq<(nat, nat)>, block: Block): (lines: seq<string>)
    requires Ahead(text, start, ps)
    ensures lines != []
    decreases |ps|
  {
    if ps == [] then [text[start..]] else
    var (lo, hi) := ps[0];
    AheadOfLess(text, hi, start, ps[1..]);
    if PassedOver(text, start, lo, hi, block) then Pieces(text, start, ps[1..], block)
    else [text[start..lo]] + Pieces(text, hi, ps[1..], block)
  }

  lemma {:induction false} PointsAhead(text: string, s: Scan, fine: bool)
    requires s.i <= |text|
    ensures Ahead(text, s.i, Points(text, s, fine))
    decreases |text| - s.i
  {
    hide Next, BreakHere;
    if s.i < |text| {
      var next := Next(text, s);
      var rest := Points(text, next, fine);
      PointsAhead(text, next, fine);
      AheadOfLess(text, next.i, s.i, rest);
      assert ([(s.i, next.i)] + rest)[1..] == rest && [] + rest == rest;
    }
  }

  function Split(text: string, fine: bool, block: Block): (lines: seq<string>)
    ensures lines != []
  {
    PointsAhead(text, START, fine);
    Pieces(text, 0, Points(text, START, fine), block)
  }

  method SplitOnce(text: string, fine: bool, block: Block) returns (lines: seq<string>)
    ensures lines == Split(text, fine, block)
  {
    hide PassedOver, Points;
    var points := SplitPoints(text, fine);
    PointsAhead(text, START, fine);
    lines := [];
    var start := 0;
    ghost var all := Pieces(text, 0, points, block);
    assert [] + all == all && points[0..] == points;
    for k := 0 to |points|
      invariant start <= |text|
      invariant Ahead(text, start, points[k..])
      invariant lines + Pieces(text, start, points[k..], block) == all
    {
      var (lo, hi) := points[k];
      assert points[k..][1..] == points[k + 1..];
      AheadOfLess(text, hi, start, points[k + 1..]);
      if !PassedOver(text, start, lo, hi, block) {
        Assoc(lines, [text[start..lo]], Pieces(text, hi, points[k + 1..], block));
        lines := lines + [text[start..lo]];
        start := hi;
      }
    }
    lines := lines + [text[start..]];
  }

  /** The lines with something on them, stripped. */
  function Clean(lines: seq<string>): (r: seq<string>) {
    if lines == [] then []
    else (if Strip(lines[0]) == "" then [] else [Strip(lines[0])]) + Clean(lines[1..])
  }

  /** A piece over the limit is broken again at the finer breaks. */
  function Expand(piece: string, block: Block): (lines: seq<string>) {
    if |piece| > LINE_LIMIT then Split(piece, true, block) else [piece]
  }

  function ExpandAll(pieces: seq<string>, expand: string -> seq<string>): (lines: seq<string>) {
    if pieces == [] then [] else expand(pieces[0]) + ExpandAll(pieces[1..], expand)
  }

  function Lines(text: string, block: Block): (lines: seq<string>) {
    Clean(ExpandAll(Split(Strip(text), false, block), piece => Expand(piece, block)))
  }

  method ExpandPieces(pieces: seq<string>, block: Block) returns (out: seq<string>)
    ensures out == ExpandAll(pieces, piece => Expand(piece, block))
  {
    hide Split;
    ghost var expand := piece => Expand(piece, block);
    out := [];
    for k := 0 to |pieces|
      invariant out + ExpandAll(pieces[k..], expand) == ExpandAll(pieces, expand)
    {
      ExpandNext(pieces[k..], expand);
      assert pieces[k..][1..] == pieces[k + 1..];
      var more := [pieces[k]];
      if |pieces[k]| > LINE_LIMIT {
        more := SplitOnce(pieces[k], true, block);
      }
      Assoc(out, more, ExpandAll(pieces[k + 1..], expand));
      out := out + more;
    }
    assert out + [] == out;
  }

  lemma ExpandNext(pieces: seq<string>, expand: string -> seq<string>)
    requires pieces != []
    ensures ExpandAll(pieces, expand) == expand(pieces[0]) + ExpandAll(pieces[1..], expand)
  {
  }

  method CleanLines(all: seq<string>) returns (lines: seq<string>)
    ensures lines == Clean(all)
  {
    hide Strip, Clean;
    lines := [];
    CleanNone();
    for k := 0 to |all|
      invariant lines + Clean(all[k..]) == Clean(all)
    {
      CleanNext(all[k..]);
      assert all[k..][1..] == all[k + 1..];
      var kept := if Strip(all[k]) == "" then [] else [Strip(all[k])];
      Assoc(lines, kept, Clean(all[k + 1..]));
      lines := lines + kept;
    }
    assert lines + [] == lines;
  }

  lemma CleanNone()
    ensures Clean([]) == []
  {
  }

  lemma CleanNext(all: seq<string>)
    requires all != []
    ensures Clean(all) == (if Strip(all[0]) == "" then [] else [Strip(all[0])]) + Clean(all[1..])
  {
  }

  /** The coarse breaks, the finer ones in a long piece, and the lines stripped. */
  method SplitText(text: string, block: Block) returns (lines: seq<string>)
    ensures lines == Lines(text, block)
  {
    var pieces := SplitOnce(Strip(text), false, block);
    var all := ExpandPieces(pieces, block);
    lines := CleanLines(all);
  }
}
