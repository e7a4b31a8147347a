/** How shell text falls into words, one kind of character at a time, and how words are written back. */
module WordLaws {
  import opened Results
  import opened Text
  import opened ShellWords

  /** A word that was begun, if it was, and then the words of the rest. */
  ghost predicate Then(word: string, rest: Words, all: Words) {
    all == if rest.Ok? then Ok((if word == "" then [] else [word]) + rest.value) else rest
  }

  /** Between two equal quotes, single or double, anything stays in the word, and the quotes with it. */
  lemma QuotedStays(q: char, inner: string, rest: string, word: string)
    requires (q == '"' || q == '\'') && q !in inner
    ensures Scan([q] + inner + [q] + rest, word, None) == Scan(rest, word + [q] + inner + [q], None)
  {
    var text := [q] + inner + [q] + rest;
    assert text[1..] == inner + ([q] + rest) && text[0] == q;
    QuoteIsNoSpace(q);
    InnerStays(q, inner, rest, word + [q]);
    hide IsSpace;
    assert Scan(text, word, None) == Scan(text[1..], word + [q], Some(q));
  }

  lemma {:induction false} InnerStays(q: char, inner: string, rest: string, word: string)
    requires q !in inner
    ensures Scan(inner + ([q] + rest), word, Some(q)) == Scan(rest, word + inner + [q], None)
    decreases |inner|
  {
    var text := inner + ([q] + rest);
    if inner == "" {
      assert text[1..] == rest && text[0] == q && word + inner == word;
    } else {
      assert text[1..] == inner[1..] + ([q] + rest) && text[0] == inner[0];
      InnerStays(q, inner[1..], rest, word + [inner[0]]);
      assert word + [inner[0]] + inner[1..] == word + inner;
    }
  }

  /** A quote that is not closed refuses the whole text. */
  lemma OpenQuoteRefuses(q: char, inner: string, word: string)
    requires (q == '"' || q == '\'') && q !in inner
    ensures Scan([q] + inner, word, None) == Err(UnterminatedQuote)
  {
    var text := [q] + inner;
    assert text[1..] == inner && text[0] == q;
    QuoteIsNoSpace(q);
    InnerRefuses(q, inner, word + [q]);
    hide IsSpace;
    assert Scan(text, word, None) == Scan(text[1..], word + [q], Some(q));
  }

  lemma {:induction false} InnerRefuses(q: char, inner: string, word: string)
    requires q !in inner
    ensures Scan(inner, word, Some(q)) == Err(UnterminatedQuote)
    decreases |inner|
  {
    if inner != "" {
      InnerRefuses(q, inner[1..], word + [inner[0]]);
    }
  }

  /** White space outside quotes ends a word, and so does a backslash before a newline; the words that follow do not
      depend on it. */
  lemma SpaceSplits(c: char, rest: string, word: string)
    requires IsSpace(c)
    ensures Then(word, WordsOf(rest), Scan([c] + rest, word, None))
    ensures Then(word, WordsOf(rest), Scan("\\\n" + rest, word, None))
  {
    NewlineIsSpace();
    ScanSpace(c, rest, word);
    ScanContinuation(rest, word);
    hide IsSpace, Scan;
  }

  /** Any other character goes into the word. */
  lemma OtherStays(c: char, rest: string, word: string)
    requires !IsSpace(c) && c != '"' && c != '\'' && (c == '\\' && rest != "" ==> rest[0] != '\n')
    ensures Scan([c] + rest, word, None) == Scan(rest, word + [c], None)
  {
    ScanPlain(c, rest, word);
  }

  lemma TextEnds(word: string)
    ensures Scan("", word, None) == Ok(if word == "" then [] else [word])
  {
  }

  // ---- writing words back

  /** An array's text: a newline, and each word behind two spaces and before a newline. */
  lemma ArrayWritten(words: seq<string>, w: string)
    ensures ArrayBody([]) == "\n"
    ensures ArrayBody(words + [w]) == ArrayBody(words) + ("  " + w + "\n")
  {
    LinesWritten(words, w);
    Assoc("\n", ArrayLines(words), "  " + w + "\n");
  }

  lemma {:induction false} LinesWritten(words: seq<string>, w: string)
    ensures ArrayLines(words + [w]) == ArrayLines(words) + ("  " + w + "\n")
    decreases |words|
  {
    var line := "  " + w + "\n";
    if words == [] {
      assert words + [w] == [w] && [w][1..] == [];
      assert line + "" == line && "" + line == line;
    } else {
      LinesWritten(words[1..], w);
      assert (words + [w])[1..] == words[1..] + [w];
      Assoc("  " + words[0] + "\n", ArrayLines(words[1..]), line);
    }
  }

  /** The list of a `for`: each word on a line of its own behind two spaces, each line before one continued. */
  lemma LoopWritten(words: seq<string>, w: string)
    ensures LoopBody([w]) == "\\\n" + ("  " + w)
    ensures words != [] ==> LoopBody(words + [w]) == LoopBody(words) + " \\\n" + ("  " + w)
  {
    assert [w][1..] == [] && Indented([w]) == ["  " + w];
    if words != [] {
      IndentedMore(words, w);
      JoinAppend(" \\\n", Indented(words), ["  " + w]);
      hide Join, Indented;
      JoinOne(" \\\n", "  " + w);
      LoopParts(Join(" \\\n", Indented(words)), " \\\n", "  " + w);
    }
  }

  lemma JoinOne(sep: string, line: string)
    ensures Join(sep, [line]) == line
  {
  }

  lemma LoopParts(front: string, sep: string, line: string)
    ensures "\\\n" + (front + sep + line) == "\\\n" + front + sep + line
  {
  }

  lemma {:induction false} IndentedMore(words: seq<string>, w: string)
    ensures Indented(words + [w]) == Indented(words) + ["  " + w]
    decreases |words|
  {
    if words == [] {
      assert words + [w] == [w] && [w][1..] == [];
    } else {
      assert (words + [w])[1..] == words[1..] + [w];
      IndentedMore(words[1..], w);
    }
  }
}
