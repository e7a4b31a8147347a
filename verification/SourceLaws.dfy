/** What is left of a source: every character on its line, braces in balance, and no test module. */
module SourceLaws {
  import opened Results
  import opened Text
  import opened TestModules
  import CV = CodeView

  // ---- deleting all but newlines

  /** `b` is `a` with some characters taken out, none of them a newline. */
  predicate Thinned(a: string, b: string) {
    if a == "" then b == ""
    else
      var n, m := |a| - 1, |b| - 1;
      || (b != "" && a[n] == b[m] && Thinned(a[..n], b[..m]))
      || (a[n] != '\n' && Thinned(a[..n], b))
  }

  lemma {:induction false} ThinnedSelf(a: string)
    ensures Thinned(a, a)
  {
    if a != "" {
      ThinnedSelf(a[..|a| - 1]);
    }
  }

  lemma {:induction false} ThinnedJoin(a: string, b: string, c: string, d: string)
    requires Thinned(a, b) && Thinned(c, d)
    ensures Thinned(a + c, b + d)
    decreases |c|
  {
    if c == "" {
      assert a + c == a && b + d == b;
    } else {
      var n, m := |c| - 1, |d| - 1;
      assert (a + c)[..|a| + n] == a + c[..n];
      if d != "" && c[n] == d[m] && Thinned(c[..n], d[..m]) {
        assert (b + d)[..|b| + m] == b + d[..m];
        ThinnedJoin(a, b, c[..n], d[..m]);
      } else {
        ThinnedJoin(a, b, c[..n], d);
      }
    }
  }

  lemma {:induction false} ThinnedTwice(a: string, b: string, c: string)
    requires Thinned(a, b) && Thinned(b, c)
    ensures Thinned(a, c)
    decreases |a|
  {
    if a != "" {
      var n, m, l := |a| - 1, |b| - 1, |c| - 1;
      if b != "" && a[n] == b[m] && Thinned(a[..n], b[..m]) {
        if c != "" && b[m] == c[l] && Thinned(b[..m], c[..l]) {
          ThinnedTwice(a[..n], b[..m], c[..l]);
        } else {
          ThinnedTwice(a[..n], b[..m], c);
        }
      } else {
        ThinnedTwice(a[..n], b, c);
      }
    }
  }

  lemma {:induction false} ThinnedToNewlines(span: string)
    ensures Thinned(span, Newlines(Count(span, '\n')))
  {
    if span != "" {
      var front := span[..|span| - 1];
      ThinnedToNewlines(front);
      if span[|span| - 1] == '\n' {
        var k := Count(front, '\n');
        assert Newlines(k + 1)[..k] == Newlines(k);
      }
    }
  }

  lemma Parts(text: string, start: nat, end: nat)
    requires start <= end <= |text|
    ensures text == text[..start] + text[start..end] + text[end..]
  {
  }

  lemma CutThins(text: string, start: nat, end: nat)
    requires start <= end <= |text|
    ensures Thinned(text, Cut(text, start, end))
  {
    hide Thinned, Count, Newlines;
    var front, span, back := text[..start], text[start..end], text[end..];
    var lines := Newlines(Count(span, '\n'));
    Parts(text, start, end);
    ThinnedSelf(front);
    ThinnedSelf(back);
    ThinnedToNewlines(span);
    ThinnedJoin(front, front, span, lines);
    ThinnedJoin(front + span, front + lines, back, back);
  }

  /** The line, from zero, that position k is on. */
  function LineOf(text: string, k: nat): (n: nat)
    requires k <= |text|
  {
    Count(text[..k], '\n')
  }

  /** Each character of `b` has its place in `a`, in order and on the same line. */
  ghost predicate OnLines(a: string, b: string, at: seq<nat>) {
    && |at| == |b|
    && (forall k :: 0 <= k < |b| ==> at[k] < |a| && a[at[k]] == b[k] && LineOf(a, at[k]) == LineOf(b, k))
    && (forall j, k :: 0 <= j < k < |b| ==> at[j] < at[k])
  }

  lemma {:induction false} ThinnedCounts(a: string, b: string)
    requires Thinned(a, b)
    ensures Count(a, '\n') == Count(b, '\n')
    decreases |a|
  {
    if a != "" {
      var n, m := |a| - 1, |b| - 1;
      if b != "" && a[n] == b[m] && Thinned(a[..n], b[..m]) {
        ThinnedCounts(a[..n], b[..m]);
      } else {
        ThinnedCounts(a[..n], b);
      }
    }
  }

  lemma LineWithin(a: string, n: nat, k: nat)
    requires k <= n <= |a|
    ensures LineOf(a[..n], k) == LineOf(a, k)
  {
    assert a[..n][..k] == a[..k];
  }

  lemma LineOfLast(a: string)
    requires a != ""
    ensures LineOf(a, |a| - 1) == Count(a[..|a| - 1], '\n')
  {
  }

  /** The same character at both ends, after texts with as many newlines. */
  lemma OneKept(a: string, b: string, at: seq<nat>)
    requires a != "" && b != "" && a[|a| - 1] == b[|b| - 1]
    requires OnLines(a[..|a| - 1], b[..|b| - 1], at) && Count(a[..|a| - 1], '\n') == Count(b[..|b| - 1], '\n')
    ensures OnLines(a, b, at + [|a| - 1])
  {
    hide LineOf, Count;
    var n, m := |a| - 1, |b| - 1;
    LineOfLast(a);
    LineOfLast(b);
    forall k | 0 <= k < m
      ensures at[k] < n && a[at[k]] == b[k] && LineOf(a, at[k]) == LineOf(b, k)
    {
      assert at[k] < |a[..n]| && a[..n][at[k]] == b[..m][k];
      LineWithin(a, n, at[k]);
      LineWithin(b, m, k);
    }
  }

  lemma OneGone(a: string, b: string, at: seq<nat>)
    requires a != "" && OnLines(a[..|a| - 1], b, at)
    ensures OnLines(a, b, at)
  {
    hide LineOf;
    var n := |a| - 1;
    forall k | 0 <= k < |b|
      ensures a[at[k]] == b[k] && LineOf(a, at[k]) == LineOf(b, k)
    {
      LineWithin(a, n, at[k]);
    }
  }

  lemma {:induction false} ThinnedKeepsLines(a: string, b: string) returns (at: seq<nat>)
    requires Thinned(a, b)
    ensures OnLines(a, b, at)
    decreases |a|
  {
    hide Count, LineOf;
    if a == "" {
      at := [];
    } else {
      hide OnLines;
      var n, m := |a| - 1, |b| - 1;
      if b != "" && a[n] == b[m] && Thinned(a[..n], b[..m]) {
        at := ThinnedKeepsLines(a[..n], b[..m]);
        ThinnedCounts(a[..n], b[..m]);
        OneKept(a, b, at);
        at := at + [n];
      } else {
        at := ThinnedKeepsLines(a[..n], b);
        OneGone(a, b, at);
      }
    }
  }

  // ---- the test modules gone

  ghost predicate NoHeader(text: string) {
    forall k :: 0 <= k < |text| ==> HeaderAt(text, k).None?
  }

  /** However many modules are cut, the braces stay in balance and nothing moves to another line; and in the end
      no module is left. */
  lemma {:induction false} RemovedKeeps(text: string)
    ensures var r := Removed(text);
            r.Ok? ==> Net(r.value) == Net(text) && Thinned(text, r.value) && NoHeader(r.value)
    decreases Count(text, '{')
  {
    hide Search, CloseFrom, Cut, Count, HeaderAt, IsModule, Thinned, Removed;
    RemovedNext(text);
    var found := Search(text, 0);
    if found.None? {
      ThinnedSelf(text);
      forall k | 0 <= k < |text|
        ensures HeaderAt(text, k).None?
      {
        SearchIsFirst(text, 0, k);
      }
    } else {
      var start := found.value.0;
      var close := CloseFrom(text, found.value.1 - 1, found.value.1 - 1);
      if close.Some? {
        var end := close.value + 1;
        var next := Cut(text, start, end);
        RemovedKeeps(next);
        ModuleBalances(text, start, end);
        CutCounts(text, start, end, '{');
        CutCounts(text, start, end, '}');
        CutThins(text, start, end);
        if Removed(next).Ok? {
          ThinnedTwice(text, next, Removed(next).value);
        }
      }
    }
  }

  /** What is left has its braces in balance and no test module, and each character is on the line it was on. */
  lemma BlankedKeeps(text: string) returns (at: seq<nat>)
    requires Blanked(text).Ok?
    ensures var out := Blanked(text).value;
            && Count(out, '{') == Count(out, '}')
            && Count(out, '\n') == Count(text, '\n')
            && NoHeader(out)
            && OnLines(text, out, at)
  {
    hide Count, Removed, NoHeader, Thinned, OnLines;
    RemovedKeeps(text);
    var out := Blanked(text).value;
    ThinnedCounts(text, out);
    at := ThinnedKeepsLines(text, out);
  }

  lemma {:induction false} ViewLines(text: string, view: string, k: nat)
    requires |view| == |text| && k <= |text| && forall i :: 0 <= i < |text| ==> (view[i] == '\n' <==> text[i] == '\n')
    ensures LineOf(view, k) == LineOf(text, k)
  {
    if k == 0 {
      assert view[..0] == text[..0];
    } else {
      ViewLines(text, view, k - 1);
      hide Count;
      CountNext(view, k - 1, '\n');
      CountNext(text, k - 1, '\n');
    }
  }

  /** The view of a source with its test modules gone: each character left is the source's own, or a space where a
      comment or a literal was, on the line it has in the source. */
  lemma SourceLinesKept(source: string, alnum: CV.Alnum) returns (at: seq<nat>)
    requires Blanked(CV.View(source, 0, alnum)).Ok?
    ensures var out := Blanked(CV.View(source, 0, alnum)).value;
            && |at| == |out|
            && (forall j, k :: 0 <= j < k < |out| ==> at[j] < at[k])
            && forall k :: 0 <= k < |out| ==>
                 && at[k] < |source| && LineOf(source, at[k]) == LineOf(out, k)
                 && (out[k] == source[at[k]] || (out[k] == ' ' && CV.Hidden(source, 0, alnum, at[k])))
  {
    hide Blanked, CV.View, CV.Hidden, LineOf, NoHeader;
    var view := CV.View(source, 0, alnum);
    CV.ViewKeeps(source, alnum);
    at := BlankedKeeps(view);
    forall k | 0 <= k < |at|
      ensures at[k] < |source| && LineOf(view, at[k]) == LineOf(source, at[k])
    {
      ViewLines(source, view, at[k]);
    }
  }
}
