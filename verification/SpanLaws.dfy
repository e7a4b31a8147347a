/** What a code span is: told by runs of backticks, without the scan that tracks them. */
module SpanLaws {
  import opened Text
  import opened CodeSpans

  /** `n` backticks. */
  function Ticks(n: nat): (s: string)
    ensures |s| == n
  {
    seq(n, _ => '`')
  }

  /** A run of exactly `n` backticks stands at `i`. */
  ghost predicate RunAt(s: string, i: nat, n: nat) {
    && n > 0 && i + n <= |s| && (forall k :: i <= k < i + n ==> s[k] == '`')
    && (i > 0 ==> s[i - 1] != '`') && (i + n < |s| ==> s[i + n] != '`')
  }

  ghost predicate NoRun(s: string, n: nat) {
    forall i: nat :: !RunAt(s, i, n)
  }

  /** Inside an open span of `n` backticks a text without a run of `n` changes nothing. */
  lemma {:induction false} NoRunStays(body: string, rest: string, n: nat)
    requires n > 0 && NoRun(body, n) && TicksApart(body, rest)
    ensures Render(body + rest, n) == body + Render(rest, n)
    ensures State(body + rest, n) == State(rest, n)
    decreases |body|
  {
    if body == "" {
      assert body + rest == rest && body + Render(rest, n) == Render(rest, n);
    } else {
      var m := if body[0] == '`' then TickRun(body) else 1;
      if body[0] == '`' {
        assert RunAt(body, 0, m);
      }
      LaterRuns(body, m, n);
      NoRunStays(body[m..], rest, n);
      FirstStays(body, rest, n, m);
      hide Render, State, NoRun, TickRun;
      assert body == body[..m] + body[m..];
      Assoc(body[..m], body[m..], Render(rest, n));
    }
  }

  lemma FirstStays(body: string, rest: string, n: nat, m: nat)
    requires body != "" && TicksApart(body, rest) && m == if body[0] == '`' then TickRun(body) else 1
    requires n > 0 && (body[0] == '`' ==> m != n)
    ensures Render(body + rest, n) == body[..m] + Render(body[m..] + rest, n)
    ensures State(body + rest, n) == State(body[m..] + rest, n)
  {
    var s := body + rest;
    assert s[m..] == body[m..] + rest && s[..m] == body[..m] && s[0] == body[0];
    if body[0] == '`' {
      TickRunOf(body, rest);
    } else {
      assert body[..1] == [body[0]];
    }
  }

  lemma LaterRuns(s: string, m: nat, n: nat)
    requires NoRun(s, n) && 0 < m <= |s| && (s[m - 1] != '`' || m == |s| || s[m] != '`')
    ensures NoRun(s[m..], n)
  {
    forall i: nat
      ensures !RunAt(s[m..], i, n)
    {
      RunMoves(s, m, i, n);
    }
  }

  lemma RunMoves(s: string, m: nat, i: nat, n: nat)
    requires 0 < m <= |s| && (s[m - 1] != '`' || m == |s| || s[m] != '`')
    ensures RunAt(s[m..], i, n) ==> RunAt(s, m + i, n)
  {
    assert forall k :: 0 <= k < |s| - m ==> s[m..][k] == s[m + k];
    if RunAt(s[m..], i, n) {
      assert forall k :: m + i <= k < m + i + n ==> s[k] == s[m..][k - m];
      assert i == 0 ==> s[m] == '`';
    }
  }

  lemma TicksThen(n: nat, rest: string)
    requires n > 0 && (rest != "" ==> rest[0] != '`')
    ensures var s := Ticks(n) + rest;
            && TickRun(s) == n && s[..n] == Ticks(n) && s[n..] == rest && s[0] == '`'
  {
    var s := Ticks(n) + rest;
    assert forall k :: 0 <= k < n ==> s[k] == '`';
    assert rest != "" ==> s[n] == rest[0];
  }

  lemma TicksRender(n: nat, rest: string, code: nat)
    requires n > 0 && (rest != "" ==> rest[0] != '`') && (code == 0 || code == n)
    ensures Render(Ticks(n) + rest, code) == Ticks(n) + Render(rest, n - code)
    ensures State(Ticks(n) + rest, code) == State(rest, n - code)
  {
    TicksThen(n, rest);
  }

  /** A span runs from a run of backticks to the next run as long, and is kept as it is, white space and shorter or
      longer runs included. */
  lemma SpanKept(n: nat, body: string, rest: string)
    requires n > 0 && body != "" && body[0] != '`' && body[|body| - 1] != '`' && NoRun(body, n)
    requires rest != "" ==> rest[0] != '`'
    ensures var span := Ticks(n) + body + Ticks(n);
            && Render(span + rest, 0) == span + Render(rest, 0)
            && State(span + rest, 0) == State(rest, 0)
  {
    hide Render, State, NoRun;
    var ticks := Ticks(n);
    TicksRender(n, body + (ticks + rest), 0);
    NoRunStays(body, ticks + rest, n);
    TicksRender(n, rest, n);
    Regrouped(ticks, body, ticks, rest);
    Regrouped(ticks, body, ticks, Render(rest, 0));
  }

  lemma Regrouped(a: string, b: string, c: string, d: string)
    ensures a + b + c + d == a + (b + (c + d))
  {
  }

  /** A run that no run as long follows opens a span to the end. */
  lemma OpenSpanKept(n: nat, body: string)
    requires n > 0 && (body != "" ==> body[0] != '`') && NoRun(body, n)
    ensures Render(Ticks(n) + body, 0) == Ticks(n) + body && State(Ticks(n) + body, 0) == n
  {
    hide Render, State, NoRun;
    TicksRender(n, body, 0);
    NoRunStays(body, "", n);
    NothingLeft(n);
    assert body + "" == body;
  }

  /** Outside spans white space becomes one space and any other character stays. */
  lemma OutsideSpans(w: string, rest: string)
    requires w != "" && '`' !in w && (AllSpace(w) || |w| == 1) && (rest != "" && AllSpace(w) ==> !IsSpace(rest[0]))
    ensures Render(w + rest, 0) == (if AllSpace(w) then " " else w) + Render(rest, 0)
    ensures State(w + rest, 0) == State(rest, 0)
  {
    if AllSpace(w) {
      SpaceRunPast(w, rest);
      SpacesKeepState(w, rest, 0);
      assert (w + rest)[|w|..] == rest;
    } else {
      assert (w + rest)[1..] == rest && (w + rest)[0] == w[0] && w == [w[0]];
    }
  }
}
