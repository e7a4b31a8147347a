/** Splitting shell text into words, and writing the words back one to a line. */
module ShellWords {
  import opened Results
  import opened Text

  datatype Refusal = UnterminatedQuote | EmptyList

  type Words = Result<seq<string>, Refusal>

  predicate IsQuote(c: char) {
    c == '\'' || c == '"'
  }

  /** The quote open after `c`, when `quote` was open before it. */
  function Step(quote: Option<char>, c: char): (next: Option<char>) {
    if quote.Some? then (if c == quote.value then None else quote)
    else if IsQuote(c) then Some(c) else None
  }

  function Prepend(words: seq<string>, r: Words): (w: Words) {
    if r.Ok? then Ok(words + r.value) else r
  }

  function Finished(word: string): (words: seq<string>) {
    if word == "" then [] else [word]
  }

  /** The words of the rest of a text, `word` being the one begun and `quote` the quote open in it. */
  function Scan(text: string, word: string, quote: Option<char>): (words: Words) {
    if text == "" then
      if quote.Some? then Err(UnterminatedQuote) else Ok(Finished(word))
    else if quote.Some? then Scan(text[1..], word + [text[0]], Step(quote, text[0]))
    else if "\\\n" <= text then Prepend(Finished(word), Scan(text[2..], "", None))
    else if IsSpace(text[0]) then Prepend(Finished(word), Scan(text[1..], "", None))
    else Scan(text[1..], word + [text[0]], Step(None, text[0]))
  }

  function WordsOf(text: string): (words: Words) {
    Scan(text, "", None)
  }

  /** The source's scan, in one pass. */
  method SplitWords(text: string) returns (r: Words)
    ensures r == WordsOf(text)
  {
    hide IsSpace;
    var words, word, i := [], "", 0;
    var quote: Option<char> := None;
    assert text[0..] == text;
    PrependNone(WordsOf(text));
    while i < |text|
      invariant i <= |text|
      invariant Prepend(words, Scan(text[i..], word, quote)) == WordsOf(text)
    {
      var c := text[i];
      ghost var rest := text[i..];
      assert rest[1..] == text[i + 1..];
      assert rest[0] == c && ("\\\n" <= rest <==> c == '\\' && i + 1 < |text| && text[i + 1] == '\n');
      if quote.Some? {
        word := word + [c];
        if c == quote.value {
          quote := None;
        }
      } else if c == '\\' && i + 1 < |text| && text[i + 1] == '\n' {
        assert rest[2..] == text[i + 2..];
        PrependTwice(words, Finished(word), Scan(text[i + 2..], "", None));
        words := words + Finished(word);
        word := "";
        i := i + 1;
      } else if IsQuote(c) {
        QuoteIsNoSpace(c);
        quote := Some(c);
        word := word + [c];
      } else if IsSpace(c) {
        PrependTwice(words, Finished(word), Scan(text[i + 1..], "", None));
        words := words + Finished(word);
        word := "";
      } else {
        word := word + [c];
      }
      i := i + 1;
    }
    assert text[i..] == "";
    if quote.Some? {
      return Err(UnterminatedQuote);
    }
    return Ok(words + Finished(word));
  }

  lemma PrependTwice(a: seq<string>, b: seq<string>, r: Words)
    ensures Prepend(a, Prepend(b, r)) == Prepend(a + b, r)
  {
    if r.Ok? {
      Assoc(a, b, r.value);
    }
  }

  lemma QuoteIsNoSpace(c: char)
    requires IsQuote(c)
    ensures !IsSpace(c)
  {
  }

  // ---- the words it can give

  /** The quote open after `s`. */
  function QuoteAfter(s: string, quote: Option<char>): (q: Option<char>) {
    if s == "" then quote else QuoteAfter(s[1..], Step(quote, s[0]))
  }

  /** No white space outside quotes. */
  predicate Unbroken(s: string, quote: Option<char>) {
    s == "" || ((quote.None? ==> !IsSpace(s[0])) && Unbroken(s[1..], Step(quote, s[0])))
  }

  /** What a word may be: not empty, unbroken, its quotes closed. */
  predicate IsWord(w: string) {
    w != "" && Unbroken(w, None) && QuoteAfter(w, None).None?
  }

  ghost predicate AllWords(words: seq<string>) {
    forall k :: 0 <= k < |words| ==> IsWord(words[k])
  }

  lemma {:induction false} Appended(a: string, b: string, quote: Option<char>)
    ensures QuoteAfter(a + b, quote) == QuoteAfter(b, QuoteAfter(a, quote))
    ensures Unbroken(a + b, quote) <==> Unbroken(a, quote) && Unbroken(b, QuoteAfter(a, quote))
    decreases |a|
  {
    hide IsSpace;
    if a == "" {
      assert a + b == b;
    } else {
      assert (a + b)[1..] == a[1..] + b;
      Appended(a[1..], b, Step(quote, a[0]));
    }
  }

  lemma {:induction false} ScanGivesWords(text: string, word: string, quote: Option<char>)
    requires Unbroken(word, None) && QuoteAfter(word, None) == quote
    ensures var r := Scan(text, word, quote); r.Ok? ==> AllWords(r.value)
    decreases |text|
  {
    hide IsSpace, Unbroken, QuoteAfter;
    NothingIsUnbroken();
    if text != "" {
      if quote.None? && "\\\n" <= text {
        ScanGivesWords(text[2..], "", None);
      } else if quote.None? && IsSpace(text[0]) {
        ScanGivesWords(text[1..], "", None);
      } else {
        Appended(word, [text[0]], None);
        OneUnbroken(text[0], quote);
        ScanGivesWords(text[1..], word + [text[0]], Step(quote, text[0]));
      }
    }
  }

  lemma NothingIsUnbroken()
    ensures Unbroken("", None) && QuoteAfter("", None) == None
  {
  }

  lemma OneUnbroken(c: char, quote: Option<char>)
    ensures QuoteAfter([c], quote) == Step(quote, c)
    ensures Unbroken([c], quote) <==> (quote.None? ==> !IsSpace(c))
  {
    hide IsSpace;
    assert [c][1..] == "";
  }

  /** A word is read whole when what follows does not make its last backslash a line continuation. */
  lemma {:induction false} ScanWord(w: string, rest: string, word: string, quote: Option<char>)
    requires Unbroken(w, quote)
    requires w != "" && w[|w| - 1] == '\\' && rest != "" ==> rest[0] != '\n'
    ensures Scan(w + rest, word, quote) == Scan(rest, word + w, QuoteAfter(w, quote))
    decreases |w|
  {
    hide IsSpace;
    var text := w + rest;
    if w == "" {
      assert text == rest && word + w == word;
    } else {
      assert text[1..] == w[1..] + rest && text[0] == w[0];
      assert word + [w[0]] + w[1..] == word + w;
      NoContinuation(w, rest, quote);
      ScanWord(w[1..], rest, word + [w[0]], Step(quote, w[0]));
    }
  }

  lemma NoContinuation(w: string, rest: string, quote: Option<char>)
    requires Unbroken(w, quote) && w != ""
    requires w[|w| - 1] == '\\' && rest != "" ==> rest[0] != '\n'
    ensures quote.None? ==> !("\\\n" <= w + rest)
  {
    NewlineIsSpace();
    hide IsSpace;
    var text := w + rest;
    assert text[0] == w[0] && (|text| > 1 ==> text[1] == if |w| > 1 then w[1] else rest[0]);
  }

  lemma NewlineIsSpace()
    ensures IsSpace('\n') && IsSpace(' ') && !IsSpace('\\')
  {
  }

  lemma ScanSpace(c: char, rest: string, word: string)
    requires IsSpace(c) && c != '\\'
    ensures Scan([c] + rest, word, None) == Prepend(Finished(word), Scan(rest, "", None))
  {
    hide IsSpace;
    var text := [c] + rest;
    assert text[1..] == rest && text[0] == c;
  }

  lemma ScanContinuation(rest: string, word: string)
    ensures Scan("\\\n" + rest, word, None) == Prepend(Finished(word), Scan(rest, "", None))
  {
    hide IsSpace;
    var text := "\\\n" + rest;
    assert text[2..] == rest && "\\\n" <= text;
  }

  /** Every word it gives is one, and one is what it gives of itself. */
  lemma WordsAreWords(text: string)
    ensures var r := WordsOf(text);
            r.Ok? ==>
              AllWords(r.value) && forall k :: 0 <= k < |r.value| ==> WordsOf(r.value[k]) == Ok([r.value[k]])
  {
    hide IsSpace, Scan;
    NothingIsUnbroken();
    ScanGivesWords(text, "", None);
    var r := WordsOf(text);
    if r.Ok? {
      forall k | 0 <= k < |r.value|
        ensures WordsOf(r.value[k]) == Ok([r.value[k]])
      {
        WordAlone(r.value[k]);
      }
    }
  }

  lemma WordAlone(w: string)
    requires IsWord(w)
    ensures WordsOf(w) == Ok([w])
  {
    hide IsSpace, Unbroken, QuoteAfter;
    ScanWord(w, "", "", None);
    assert w + "" == w && "" + w == w;
  }

  // ---- one word to a line

  /** How a shell array is written: each word on its own line, indented. */
  function ArrayLines(words: seq<string>): (s: string) {
    if words == [] then "" else "  " + words[0] + "\n" + ArrayLines(words[1..])
  }

  function ArrayBody(words: seq<string>): (s: string) {
    "\n" + ArrayLines(words)
  }

  function Indented(words: seq<string>): (lines: seq<string>)
    ensures |lines| == |words|
  {
    if words == [] then [] else ["  " + words[0]] + Indented(words[1..])
  }

  /** How the list of a `for` is written: its lines end in a backslash. */
  function LoopBody(words: seq<string>): (s: string) {
    "\\\n" + Join(" \\\n", Indented(words))
  }

  predicate EndsInBackslash(w: string) {
    w != "" && w[|w| - 1] == '\\'
  }

  /** A word before a newline, which takes a backslash at its end with it. */
  function Cut(w: string): (r: string) {
    if EndsInBackslash(w) then w[..|w| - 1] else w
  }

  /** The words an array's lines read back as. */
  function CutAll(words: seq<string>): (r: seq<string>) {
    if words == [] then [] else Finished(Cut(words[0])) + CutAll(words[1..])
  }

  function Letters(words: seq<string>): (n: nat) {
    if words == [] then 0 else |words[0]| + Letters(words[1..])
  }

  /** A word indented is read as it stands, up to what follows it. */
  lemma ScanIndented(w: string, rest: string)
    requires IsWord(w) && (EndsInBackslash(w) && rest != "" ==> rest[0] != '\n')
    ensures Scan("  " + w + rest, "", None) == Scan(rest, w, None)
  {
    NewlineIsSpace();
    hide IsSpace, Unbroken, QuoteAfter, Scan;
    assert "  " + w + rest == [' '] + ([' '] + (w + rest));
    ScanSpace(' ', [' '] + (w + rest), "");
    ScanSpace(' ', w + rest, "");
    PrependNone(Scan(w + rest, "", None));
    ScanWord(w, rest, "", None);
    assert "" + w == w;
  }

  lemma PrependNone(r: Words)
    ensures Prepend(Finished(""), r) == r
  {
    if r.Ok? {
      assert [] + r.value == r.value;
    }
  }

  /** An indented word and its newline: the newline ends the word, or takes its last backslash. */
  lemma ScanLine(w: string, rest: string)
    requires IsWord(w)
    ensures Scan("  " + w + "\n" + rest, "", None) == Prepend(Finished(Cut(w)), Scan(rest, "", None))
  {
    NewlineIsSpace();
    hide IsSpace, Scan;
    if EndsInBackslash(w) {
      var v := Cut(w);
      assert w == v + "\\";
      CutUnbroken(v);
      assert "  " + w + "\n" + rest == [' '] + ([' '] + (v + ("\\\n" + rest)));
      ScanSpace(' ', [' '] + (v + ("\\\n" + rest)), "");
      ScanSpace(' ', v + ("\\\n" + rest), "");
      PrependNone(Scan(v + ("\\\n" + rest), "", None));
      ScanWord(v, "\\\n" + rest, "", None);
      assert "" + v == v;
      ScanContinuation(rest, v);
    } else {
      assert "  " + w + "\n" + rest == "  " + w + (['\n'] + rest);
      ScanIndented(w, ['\n'] + rest);
      ScanSpace('\n', rest, w);
    }
  }

  lemma {:induction false} QuoteIsMark(s: string, quote: Option<char>)
    requires quote.Some? ==> IsQuote(quote.value)
    ensures var q := QuoteAfter(s, quote); q.Some? ==> IsQuote(q.value)
    decreases |s|
  {
    if s != "" {
      QuoteIsMark(s[1..], Step(quote, s[0]));
    }
  }

  lemma CutUnbroken(v: string)
    requires IsWord(v + "\\")
    ensures Unbroken(v, None) && QuoteAfter(v, None) == None
  {
    hide IsSpace;
    Appended(v, "\\", None);
    QuoteIsMark(v, None);
    OneUnbroken('\\', QuoteAfter(v, None));
  }

  lemma {:induction false} ArrayReadsBack(words: seq<string>)
    requires AllWords(words)
    ensures Scan(ArrayLines(words), "", None) == Ok(CutAll(words))
  {
    hide IsSpace, Cut, IsWord;
    if words != [] {
      hide Scan;
      var rest := ArrayLines(words[1..]);
      ArrayReadsBack(words[1..]);
      ScanLine(words[0], rest);
      assert "  " + words[0] + "\n" + rest == ArrayLines(words);
    }
  }

  lemma {:induction false} NoneCut(words: seq<string>)
    requires AllWords(words) && forall k :: 0 <= k < |words| ==> !EndsInBackslash(words[k])
    ensures CutAll(words) == words
  {
    hide IsWord, EndsInBackslash;
    if words != [] {
      NoneCut(words[1..]);
      WordNotEmpty(words[0]);
      assert words == [words[0]] + words[1..];
    }
  }

  lemma {:induction false} CutIsShorter(words: seq<string>)
    ensures Letters(CutAll(words)) <= Letters(words)
    ensures (exists k :: 0 <= k < |words| && EndsInBackslash(words[k])) ==> Letters(CutAll(words)) < Letters(words)
  {
    hide EndsInBackslash;
    if words != [] {
      var tail := words[1..];
      CutIsShorter(tail);
      LettersFirst(Cut(words[0]), CutAll(tail));
      CutLength(words[0]);
      if k :| 0 < k < |words| && EndsInBackslash(words[k]) {
        assert tail[k - 1] == words[k];
      }
    }
  }

  lemma CutLength(w: string)
    ensures |Cut(w)| <= |w| && (EndsInBackslash(w) ==> |Cut(w)| < |w|)
  {
  }

  lemma LettersFirst(word: string, rest: seq<string>)
    ensures Letters(Finished(word) + rest) == |word| + Letters(rest)
  {
    if word == "" {
      assert [] + rest == rest;
    } else {
      assert ([word] + rest)[1..] == rest;
    }
  }

  function RewrittenArray(body: string): (rewritten: Result<string, Refusal>) {
    var words :- WordsOf(body);
    Ok(ArrayBody(words))
  }

  function RewrittenLoop(body: string): (rewritten: Result<string, Refusal>) {
    var words :- WordsOf(body);
    if words == [] then Err(EmptyList) else Ok(LoopBody(words))
  }

  /** An array rewritten one word to a line reads back without the backslashes its words end in, so it holds the
      same words exactly when there are none. */
  lemma ArrayRoundTripsIff(body: string)
    requires WordsOf(body).Ok?
    ensures var words := WordsOf(body).value;
            && RewrittenArray(body).Ok?
            && WordsOf(RewrittenArray(body).value) == Ok(CutAll(words))
            && (CutAll(words) == words <==> forall k :: 0 <= k < |words| ==> !EndsInBackslash(words[k]))
  {
    NewlineIsSpace();
    hide IsSpace, Scan, IsWord, CutAll, EndsInBackslash;
    var words := WordsOf(body).value;
    WordsAreWords(body);
    ScanSpace('\n', ArrayLines(words), "");
    PrependNone(Scan(ArrayLines(words), "", None));
    ArrayReadsBack(words);
    CutIsShorter(words);
    if forall k :: 0 <= k < |words| ==> !EndsInBackslash(words[k]) {
      NoneCut(words);
    }
  }

  lemma {:induction false} LoopReadsBack(words: seq<string>)
    requires AllWords(words) && words != []
    ensures Scan(Join(" \\\n", Indented(words)), "", None) == Ok(words)
  {
    NewlineIsSpace();
    hide IsSpace, IsWord;
    var w := words[0];
    if |words| == 1 {
      assert "  " + w + "" == "  " + w == Join(" \\\n", Indented(words));
      ScanIndented(w, "");
      assert IsWord(w) && words == [w];
      WordNotEmpty(w);
    } else {
      hide Scan;
      var rest := Join(" \\\n", Indented(words[1..]));
      LoopReadsBack(words[1..]);
      assert Indented(words)[1..] == Indented(words[1..]);
      assert Join(" \\\n", Indented(words)) == "  " + w + " \\\n" + rest;
      assert "  " + w + " \\\n" + rest == "  " + w + ([' '] + ("\\\n" + rest));
      ScanIndented(w, [' '] + ("\\\n" + rest));
      ScanSpace(' ', "\\\n" + rest, w);
      ScanContinuation(rest, "");
      PrependNone(Scan(rest, "", None));
      WordNotEmpty(w);
      assert [w] + words[1..] == words;
    }
  }

  lemma WordNotEmpty(w: string)
    requires IsWord(w)
    ensures Finished(w) == [w]
  {
  }

  /** The list of a `for`, rewritten so, always holds the same words. */
  lemma LoopRoundTrips(body: string)
    ensures RewrittenLoop(body).Ok? <==> WordsOf(body).Ok? && WordsOf(body).value != []
    ensures RewrittenLoop(body).Ok? ==> WordsOf(RewrittenLoop(body).value) == WordsOf(body)
  {
    hide IsSpace, Scan, IsWord, Join;
    if RewrittenLoop(body).Ok? {
      var words := WordsOf(body).value;
      WordsAreWords(body);
      LoopReadsBack(words);
      ScanContinuation(Join(" \\\n", Indented(words)), "");
      PrependNone(Scan(Join(" \\\n", Indented(words)), "", None));
    }
  }

  // ---- an array that reads back as other words

  const SLASHED_BODY := "a\\ b"

  /** Its first word ends in a backslash, which the rewritten array reads as a continued line. */
  lemma SlashedArray()
    ensures WordsOf(SLASHED_BODY) == Ok(["a\\", "b"])
    ensures RewrittenArray(SLASHED_BODY).Ok? && WordsOf(RewrittenArray(SLASHED_BODY).value) == Ok(["a", "b"])
  {
    hide *;
    SlashedWords();
    SlashedCut();
    ArrayRoundTripsIff(SLASHED_BODY);
  }

  lemma SlashedCut()
    ensures CutAll(["a\\", "b"]) == ["a", "b"]
  {
    hide CutAll;
    CutNext("a\\", ["b"]);
    CutNext("b", []);
    CutNone();
    assert ["b"] + [] == ["b"] && ["a\\"] + ["b"] == ["a\\", "b"];
    assert Cut("a\\") == "a" && Cut("b") == "b";
    assert ["a"] + (["b"] + []) == ["a", "b"];
  }

  lemma CutNone()
    ensures CutAll([]) == []
  {
  }

  lemma CutNext(word: string, words: seq<string>)
    requires Cut(word) != ""
    ensures CutAll([word] + words) == [Cut(word)] + CutAll(words)
  {
    assert ([word] + words)[1..] == words;
  }

  lemma SlashedWords()
    ensures WordsOf(SLASHED_BODY) == Ok(["a\\", "b"])
  {
    hide IsSpace, Scan;
    PlainLetters();
    ScanPlain('a', "\\ b", "");
    ScanPlain('\\', " b", "a");
    ScanSpace(' ', "b", "a\\");
    ScanPlain('b', "", "");
    ScanDone("b");
    assert ['a'] + "\\ b" == SLASHED_BODY && ['\\'] + " b" == "\\ b" && [' '] + "b" == " b" && ['b'] + "" == "b";
    assert "" + ['a'] == "a" && "a" + ['\\'] == "a\\" && "" + ['b'] == "b";
    assert ["a\\"] + ["b"] == ["a\\", "b"];
  }

  lemma PlainLetters()
    ensures !IsSpace('a') && !IsSpace('b') && !IsSpace('\\') && IsSpace(' ')
  {
  }

  lemma ScanDone(word: string)
    requires word != ""
    ensures Scan("", word, None) == Ok([word])
  {
  }

  lemma ScanPlain(c: char, rest: string, word: string)
    requires !IsSpace(c) && !IsQuote(c) && (c == '\\' && rest != "" ==> rest[0] != '\n')
    ensures Scan([c] + rest, word, None) == Scan(rest, word + [c], None)
  {
    hide IsSpace;
    var text := [c] + rest;
    assert text[1..] == rest && text[0] == c;
  }
}
