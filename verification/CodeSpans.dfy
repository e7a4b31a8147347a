/** Text with Markdown code spans, and what of it survives rendering. */
module CodeSpans {
  import opened Text

  /** How many backticks `s` begins with. */
  function TickRun(s: string): (n: nat)
    ensures n <= |s| && (forall i :: 0 <= i < n ==> s[i] == '`') && (n < |s| ==> s[n] != '`')
  {
    if s == "" || s[0] != '`' then 0 else 1 + TickRun(s[1..])
  }

  /** A run of backticks opens a code span, and the next run as long closes it; `code` is the length that
      closes the open span, 0 outside. */
  function Toggle(code: nat, run: nat): (r: nat) {
    if code == 0 then run else if code == run then 0 else code
  }

  /** `s` with each run of white space outside code spans made one space, `code` being the span open before it. */
  function Render(s: string, code: nat): (r: string)
    decreases |s|
  {
    if s == "" then ""
    else if s[0] == '`' then s[..TickRun(s)] + Render(s[TickRun(s)..], Toggle(code, TickRun(s)))
    else if code == 0 && IsSpace(s[0]) then " " + Render(s[SpaceRun(s)..], 0)
    else [s[0]] + Render(s[1..], code)
  }

  /** The span open after `s`. */
  function State(s: string, code: nat): (r: nat)
    decreases |s|
  {
    if s == "" then code
    else if s[0] == '`' then State(s[TickRun(s)..], Toggle(code, TickRun(s)))
    else State(s[1..], code)
  }

  function Rendered(s: string): (r: string) {
    Strip(Render(s, 0))
  }

  /** One step of the scan: what it writes, where it goes on, and the span then open. */
  lemma RenderNext(text: string, i: nat, code: nat, out: string)
    requires i < |text|
    ensures out + Render(text[i..], code) ==
            (if text[i] == '`' then
               var run := TickRun(text[i..]);
               out + text[i..i + run] + Render(text[i + run..], Toggle(code, run))
             else if code == 0 && IsSpace(text[i]) then
               out + " " + Render(text[i + SpaceRun(text[i..])..], 0)
             else out + [text[i]] + Render(text[i + 1..], code))
  {
    hide IsSpace, TickRun, SpaceRun, Toggle;
    var s := text[i..];
    if text[i] == '`' {
      var run := TickRun(s);
      assert s[run..] == text[i + run..] && s[..run] == text[i..i + run];
      Assoc(out, s[..run], Render(s[run..], Toggle(code, run)));
    } else if code == 0 && IsSpace(text[i]) {
      var n := SpaceRun(s);
      assert s[n..] == text[i + n..];
      Assoc(out, " ", Render(s[n..], 0));
    } else {
      assert s[1..] == text[i + 1..];
      Assoc(out, [s[0]], Render(s[1..], code));
    }
  }

  /** The source's scan. */
  method RenderText(text: string) returns (r: string)
    ensures r == Rendered(text)
  {
    hide Render, IsSpace, Toggle, Strip, TickRun, SpaceRun;
    var out, i, code := "", 0, 0;
    assert text[0..] == text;
    assert "" + Render(text, 0) == Render(text, 0);
    while i < |text|
      invariant i <= |text|
      invariant out + Render(text[i..], code) == Render(text, 0)
    {
      RenderNext(text, i, code, out);
      if text[i] == '`' {
        var run := TickRun(text[i..]);
        code := Toggle(code, run);
        out := out + text[i..i + run];
        i := i + run;
      } else if code == 0 && IsSpace(text[i]) {
        out := out + " ";
        i := i + SpaceRun(text[i..]);
      } else {
        out := out + [text[i]];
        i := i + 1;
      }
    }
    RenderEnds(code);
    assert text[i..] == "" && out + "" == out;
    return Strip(out);
  }

  lemma RenderEnds(code: nat)
    ensures Render("", code) == ""
  {
  }

  // ---- rendering and the open span, part by part

  /** Where two texts meet, no run of backticks is cut in two. */
  predicate TicksApart(a: string, b: string) {
    a == "" || b == "" || a[|a| - 1] != '`' || b[0] != '`'
  }

  /** ... nor any run of white space. */
  predicate Apart(a: string, b: string) {
    TicksApart(a, b) && (a == "" || b == "" || !IsSpace(a[|a| - 1]) || !IsSpace(b[0]))
  }

  lemma {:induction false} TickRunOf(a: string, b: string)
    requires a != "" && TicksApart(a, b)
    ensures TickRun(a + b) == TickRun(a)
  {
    if a[0] == '`' {
      assert (a + b)[1..] == a[1..] + b;
      if |a| == 1 {
        assert a[1..] + b == b && a[1..] == "";
      } else {
        TickRunOf(a[1..], b);
      }
    }
  }

  lemma {:induction false} SpaceRunOf(a: string, b: string)
    requires a != "" && b != "" && (!IsSpace(a[|a| - 1]) || !IsSpace(b[0]))
    ensures SpaceRun(a + b) == SpaceRun(a)
  {
    hide IsSpace;
    if IsSpace(a[0]) {
      assert (a + b)[1..] == a[1..] + b;
      if |a| == 1 {
        assert a[1..] + b == b && a[1..] == "";
      } else {
        SpaceRunOf(a[1..], b);
      }
    }
  }

  lemma {:induction false} StateSplit(a: string, b: string, code: nat)
    requires TicksApart(a, b)
    ensures State(a + b, code) == State(b, State(a, code))
    decreases |a|
  {
    if a == "" {
      assert a + b == b;
    } else {
      var n := if a[0] == '`' then TickRun(a) else 1;
      TickRunOf(a, b);
      assert (a + b)[n..] == a[n..] + b;
      StateSplit(a[n..], b, if a[0] == '`' then Toggle(code, n) else code);
    }
  }

  /** What the scan reads in one move: its length, what it renders as, and the span open after it. */
  datatype Token = Token(len: nat, shown: string, code: nat)

  function First(s: string, code: nat): (t: Token)
    requires s != ""
    ensures 0 < t.len <= |s|
  {
    if s[0] == '`' then Token(TickRun(s), s[..TickRun(s)], Toggle(code, TickRun(s)))
    else if code == 0 && IsSpace(s[0]) then Token(SpaceRun(s), " ", 0)
    else Token(1, [s[0]], code)
  }

  lemma FirstThenRest(s: string, code: nat)
    requires s != ""
    ensures var t := First(s, code);
            Render(s, code) == t.shown + Render(s[t.len..], t.code) && State(s, code) == State(s[t.len..], t.code)
  {
    hide IsSpace;
    if s[0] != '`' && code == 0 && IsSpace(s[0]) {
      var n := SpaceRun(s);
      assert s == s[..n] + s[n..];
      SpacesKeepState(s[..n], s[n..], 0);
    }
  }

  lemma FirstOf(a: string, b: string, code: nat)
    requires a != "" && b != "" && Apart(a, b)
    ensures First(a + b, code) == First(a, code)
  {
    TickRunOf(a, b);
    SpaceRunOf(a, b);
    hide IsSpace;
    assert (a + b)[..TickRun(a)] == a[..TickRun(a)];
  }

  lemma NothingLeft(code: nat)
    ensures Render("", code) == "" && State("", code) == code
  {
  }

  lemma {:induction false} RenderSplit(a: string, b: string, code: nat)
    requires Apart(a, b)
    ensures Render(a + b, code) == Render(a, code) + Render(b, State(a, code))
    decreases |a|
  {
    hide IsSpace, Render, State, First, Apart;
    var c := State(a, code);
    NothingLeft(c);
    NothingLeft(code);
    if a == "" {
      assert a + b == b && "" + Render(b, code) == Render(b, code);
    } else if b == "" {
      assert a + b == a && Render(a, code) + "" == Render(a, code);
    } else {
      var t := First(a, code);
      FirstOf(a, b, code);
      FirstThenRest(a, code);
      FirstThenRest(a + b, code);
      assert (a + b)[t.len..] == a[t.len..] + b;
      ApartLater(a, b, t.len);
      RenderSplit(a[t.len..], b, t.code);
      Assoc(t.shown, Render(a[t.len..], t.code), Render(b, c));
    }
  }

  lemma ApartLater(a: string, b: string, n: nat)
    requires n <= |a| && Apart(a, b)
    ensures Apart(a[n..], b)
  {
  }

  lemma SpaceIsNoTick(c: char)
    requires IsSpace(c)
    ensures c != '`'
  {
  }

  lemma {:induction false} SpacesKeepState(w: string, b: string, code: nat)
    requires AllSpace(w)
    ensures State(w + b, code) == State(b, code)
    decreases |w|
  {
    hide IsSpace;
    if w == "" {
      assert w + b == b;
    } else {
      SpaceIsNoTick(w[0]);
      assert (w + b)[1..] == w[1..] + b;
      SpacesKeepState(w[1..], b, code);
    }
  }

  lemma {:induction false} SpaceRunPast(w: string, b: string)
    requires AllSpace(w) && (b == "" || !IsSpace(b[0]))
    ensures SpaceRun(w + b) == |w|
    decreases |w|
  {
    hide IsSpace;
    if w == "" {
      assert w + b == b;
    } else {
      assert (w + b)[1..] == w[1..] + b;
      SpaceRunPast(w[1..], b);
    }
  }

  /** White space outside a span, however much, is rendered as one space. */
  lemma SpacesRender(w: string, b: string)
    requires AllSpace(w) && w != "" && (b == "" || !IsSpace(b[0]))
    ensures Render(w + b, 0) == " " + Render(b, 0)
  {
    hide IsSpace;
    SpaceIsNoTick(w[0]);
    SpaceRunPast(w, b);
    assert (w + b)[|w|..] == b;
  }

  /** Two trimmed texts, the first with no span left open, render with one space for whatever white space is
      between them. */
  lemma RenderAround(a: string, w: string, b: string)
    requires Trimmed(a) && Trimmed(b) && a != "" && b != "" && AllSpace(w) && w != "" && State(a, 0) == 0
    ensures Render(a + w + b, 0) == Render(a, 0) + " " + Render(b, 0)
    ensures State(a + w + b, 0) == State(b, 0)
  {
    hide IsSpace, Render, State;
    SpaceIsNoTick(w[0]);
    assert a + w + b == a + (w + b);
    RenderSplit(a, w + b, 0);
    StateSplit(a, w + b, 0);
    SpacesRender(w, b);
    SpacesKeepState(w, b, 0);
    assert Render(a, 0) + (" " + Render(b, 0)) == Render(a, 0) + " " + Render(b, 0);
  }

  /** The two texts render alike and leave the same span open, both being trimmed. */
  ghost predicate Alike(x: string, y: string) {
    Trimmed(x) && Trimmed(y) && (x == "" <==> y == "") && Render(x, 0) == Render(y, 0) && State(x, 0) == State(y, 0)
  }

  /** Alike parts, joined by white space, are alike. */
  lemma AlikeJoined(x: string, x': string, w: string, w': string, y: string, y': string)
    requires Alike(x, x') && Alike(y, y') && x != "" && y != "" && State(x, 0) == 0
    requires AllSpace(w) && AllSpace(w') && w != "" && w' != ""
    ensures Alike(x + w + y, x' + w' + y')
  {
    RenderAround(x, w, y);
    RenderAround(x', w', y');
    hide IsSpace, Render, State;
    assert (x + w + y)[0] == x[0] && (x' + w' + y')[0] == x'[0];
    assert (x + w + y)[|x + w + y| - 1] == y[|y| - 1] && (x' + w' + y')[|x' + w' + y'| - 1] == y'[|y'| - 1];
  }

  /** White space around a text is rendered as white space, even at the end of a span never closed. */
  lemma RenderedIgnoresEnds(text: string)
    ensures Rendered(text) == Strip(Render(Strip(text), 0))
  {
    var before, after := StripAround(text);
    var t := Strip(text);
    hide IsSpace, Strip;
    if t == "" {
      BlankRenders(text, 0);
      assert text == before + after;
      AllSpaceStrips(Render(text, 0));
      AllSpaceStrips("");
    } else {
      EndRenders(t, after);
      FrontRenders(before, t + after);
      assert text == before + (t + after);
      var u := Render(t, 0);
      var b, a :| AllSpace(b) && AllSpace(a) && Render(text, 0) == b + u + a;
      StripSame(b, u, a);
    }
  }

  lemma {:induction false} BlankRenders(s: string, code: nat)
    requires AllSpace(s)
    ensures AllSpace(Render(s, code))
    decreases |s|
  {
    if s != "" {
      if code == 0 {
        SpaceRunPast(s, "");
        assert s + "" == s;
      } else {
        BlankRenders(s[1..], code);
      }
    }
  }

  lemma EndRenders(t: string, after: string)
    requires Trimmed(t) && t != "" && AllSpace(after)
    ensures exists a :: AllSpace(a) && Render(t + after, 0) == Render(t, 0) + a
  {
    if after != "" {
      SpaceIsNoTick(after[0]);
    }
    RenderSplit(t, after, 0);
    BlankRenders(after, State(t, 0));
  }

  lemma FrontRenders(before: string, rest: string)
    requires AllSpace(before) && rest != "" && !IsSpace(rest[0])
    ensures exists b :: AllSpace(b) && Render(before + rest, 0) == b + Render(rest, 0)
  {
    if before == "" {
      assert before + rest == rest && "" + Render(rest, 0) == Render(rest, 0) && AllSpace("");
    } else {
      SpacesRender(before, rest);
      assert AllSpace(" ");
    }
  }

  /** Stripping sees through more white space at the ends. */
  lemma StripSame(b: string, u: string, a: string)
    requires AllSpace(b) && AllSpace(a)
    ensures Strip(b + u + a) == Strip(u)
  {
    var x, y := StripAround(u);
    hide IsSpace, Strip;
    var s := Strip(u);
    assert b + u + a == (b + x) + s + (y + a);
    StripOf(b + x, s, y + a);
  }
}
