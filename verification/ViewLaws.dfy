/** What the view of a Rust source hides, told by the characters of each comment and literal. */
module ViewLaws {
  import opened Results
  import opened CodeView

  // ---- the pieces that are not code, from `i` up to `e`

  /** Two slashes and the rest of the line. */
  ghost predicate LineComment(text: string, i: nat, e: nat) {
    && i + 2 <= e <= |text| && text[i] == '/' && text[i + 1] == '/'
    && (forall k :: i <= k < e ==> text[k] != '\n') && (e < |text| ==> text[e] == '\n')
  }

  /** A slash and a star, up to where it closes, comments inside counted; or all the text when it does not. */
  ghost predicate NestedComment(text: string, i: nat, e: nat) {
    && i + 2 <= e <= |text| && text[i] == '/' && text[i + 1] == '*'
    && match Closing(text, i + 2, 1)
       case Some(end) => e == end
       case None => e == |text|
  }

  ghost predicate Hex(c: char) {
    '0' <= c <= '9' || 'a' <= c <= 'f' || 'A' <= c <= 'F' || c == '_'
  }

  /** A character between single quotes: one that is no quote, backslash or newline; a backslash and one that is no u;
      or a backslash, u and one to six hex digits in braces. */
  ghost predicate CharLiteral(text: string, i: nat, e: nat) {
    && i + 3 <= e <= |text| && text[i] == '\'' && text[e - 1] == '\''
    && if e == i + 3 then text[i + 1] != '\'' && text[i + 1] != '\\' && text[i + 1] != '\n'
       else if e == i + 4 then text[i + 1] == '\\' && text[i + 2] != 'u'
       else
         && 7 <= e - i <= 12 && text[i + 1] == '\\' && text[i + 2] == 'u' && text[i + 3] == '{' && text[e - 2] == '}'
         && forall k :: i + 4 <= k < e - 2 ==> Hex(text[k])
  }

  /** An optional b or c and a quote, up to the first quote with an even number of backslashes before it. */
  ghost predicate StringLiteral(text: string, i: nat, e: nat) {
    exists q: nat :: i <= q <= i + 1 && QuotedFrom(text, i, q, e)
  }

  ghost predicate QuotedFrom(text: string, i: nat, q: nat, e: nat) {
    && i <= q < e - 1 < |text| && text[q] == '"' && (q == i + 1 ==> text[i] == 'b' || text[i] == 'c')
    && FirstCloses(text[q + 1..], e - q - 2)
  }

  ghost predicate FirstCloses(s: string, m: nat) {
    m < |s| && Closes(s, m) && forall k :: 0 <= k < m ==> !Closes(s, k)
  }

  /** An r, with an optional b or c before it, n hashes and a quote: the text after the quote begins at `at`. */
  ghost predicate RawOpens(text: string, i: nat, n: nat, at: nat) {
    var r := at - n - 2;
    && i <= r <= i + 1 && at <= |text| && text[r] == 'r' && (r == i + 1 ==> text[i] == 'b' || text[i] == 'c')
    && (forall k :: r < k < at - 1 ==> text[k] == '#') && text[at - 1] == '"'
  }

  /** A quote and n hashes. */
  ghost predicate RawCloses(text: string, k: nat, n: nat) {
    k + 1 + n <= |text| && text[k] == '"' && forall j :: k < j <= k + n ==> text[j] == '#'
  }

  /** Up to the first quote with as many hashes, or all the text when there is none. */
  ghost predicate RawString(text: string, i: nat, e: nat) {
    exists n: nat, at: nat :: RawOpens(text, i, n, at) && RawEnds(text, n, at, e)
  }

  ghost predicate RawEnds(text: string, n: nat, at: nat, e: nat) {
    || (at + 1 + n <= e && RawCloses(text, e - n - 1, n) && forall k :: at <= k < e - n - 1 ==> !RawCloses(text, k, n))
    || (e == |text| && forall k :: at <= k <= |text| ==> !RawCloses(text, k, n))
  }

  /** A quote, or a letter that may come before one and does not go on an identifier. */
  ghost predicate LiteralMayBegin(text: string, i: nat, alnum: Alnum)
    requires i < |text|
  {
    || text[i] == '"'
    || ((text[i] == 'r' || text[i] == 'b' || text[i] == 'c') &&
        (i > 0 ==> !alnum(text[i - 1]) && text[i - 1] != '_'))
  }

  /** What begins at `i` and is hidden up to `e`. */
  ghost predicate Piece(text: string, i: nat, e: nat, alnum: Alnum)
    requires i < |text|
  {
    || LineComment(text, i, e)
    || NestedComment(text, i, e)
    || CharLiteral(text, i, e)
    || (LiteralMayBegin(text, i, alnum) &&
        (|| RawString(text, i, e)
         || (text[i] == 'b' && i + 1 < |text| && CharLiteral(text, i + 1, e))
         || StringLiteral(text, i, e)))
  }

  // ---- each kind is what the scan takes it for

  lemma TwoAt(text: string, i: nat, a: char, b: char)
    ensures StartsAt(text, [a, b], i) <==> i + 2 <= |text| && text[i] == a && text[i + 1] == b
  {
    if i + 2 <= |text| {
      assert text[i..i + 2] == [text[i], text[i + 1]];
    }
  }

  lemma LineIs(text: string, i: nat, e: nat)
    requires i < |text|
    ensures LineComment(text, i, e) <==> StartsAt(text, "//", i) && e == LineEnd(text, i)
  {
    TwoAt(text, i, '/', '/');
    hide StartsAt;
    if StartsAt(text, "//", i) {
      assert text[i] != '\n' && text[i + 1] != '\n';
    }
  }

  lemma {:induction false} CommentEndIs(text: string, j: nat, depth: nat)
    requires j <= |text| && depth >= 1
    ensures CommentEnd(text, j, depth) == match Closing(text, j, depth) case Some(end) => end case None => |text|
    decreases |text| - j
  {
    if j < |text| {
      hide Opens, Shuts;
      CommentNext(text, j, depth);
      if Opens(text, j) {
        CommentEndIs(text, j + 2, depth + 1);
      } else if Shuts(text, j) {
        if depth > 1 {
          CommentEndIs(text, j + 2, depth - 1);
        }
      } else {
        CommentEndIs(text, j + 1, depth);
      }
    }
  }

  lemma CommentIs(text: string, i: nat, e: nat)
    requires i < |text|
    ensures NestedComment(text, i, e) <==> Opens(text, i) && e == CommentEnd(text, i, 0)
  {
    TwoAt(text, i, '/', '*');
    if Opens(text, i) {
      CommentNext(text, i, 0);
      CommentEndIs(text, i + 2, 1);
    }
    hide CommentEnd, Closing;
  }

  lemma {:induction false} HexRunIs(s: string, h: nat)
    requires h < |s| && s[h] == '}'
    ensures HexRun(s) == h <==> forall k :: 0 <= k < h ==> Hex(s[k])
  {
    if h > 0 && HexOrUnderscore(s[0]) {
      HexRunIs(s[1..], h - 1);
      assert forall k :: 1 <= k < h ==> s[k] == s[1..][k - 1];
    }
  }

  lemma CharIs(text: string, i: nat, e: nat)
    requires i <= |text|
    ensures CharLiteral(text, i, e) <==> e >= i && CharLength(text[i..]) == Some(e - i)
  {
    var s := text[i..];
    assert forall k :: 0 <= k < |s| ==> s[k] == text[i + k];
    if |s| >= 4 && s[0] == '\'' && s[1] == '\\' && s[2] == 'u' && s[3] == '{' {
      var t := s[4..];
      var h := HexRun(t);
      assert forall k :: 0 <= k < |t| ==> t[k] == text[i + 4 + k];
      TwoAt(s, 4 + h, '}', '\'');
      if h < |t| && t[h] == '}' {
        HexRunIs(t, h);
      }
      if 7 <= e - i && e <= |text| && text[e - 2] == '}' {
        HexRunIs(t, e - i - 6);
      }
      hide StartsAt, HexRun, HexOrUnderscore;
    }
  }

  lemma FirstClosesIs(s: string, m: nat)
    ensures FirstCloses(s, m) <==> QuoteEnd(s) == Some(m + 1)
  {
    QuoteEndMeans(s);
    hide Closes;
  }

  lemma StringIs(text: string, i: nat, e: nat)
    requires i < |text|
    ensures StringLiteral(text, i, e) <==> e >= i && StringLength(text[i..]) == Some(e - i)
  {
    var s := text[i..];
    assert forall k :: 0 <= k < |s| ==> s[k] == text[i + k];
    var q := if s[0] == 'b' || s[0] == 'c' then i + 1 else i;
    QuotedOnlyFrom(text, i, e, q);
    QuotedIs(text, i, q, e);
    assert q < |text| ==> s[q - i + 1..] == text[q + 1..];
    hide QuoteEnd, QuotedFrom, StringLiteral;
  }

  lemma QuotedOnlyFrom(text: string, i: nat, e: nat, q: nat)
    requires i < |text| && q == if text[i] == 'b' || text[i] == 'c' then i + 1 else i
    ensures StringLiteral(text, i, e) <==> QuotedFrom(text, i, q, e)
  {
    hide FirstCloses;
  }

  lemma QuotedIs(text: string, i: nat, q: nat, e: nat)
    requires i < |text| && q == if text[i] == 'b' || text[i] == 'c' then i + 1 else i
    ensures QuotedFrom(text, i, q, e) <==>
            && q < |text| && text[q] == '"' && e >= q + 2 && QuoteEnd(text[q + 1..]) == Some(e - q - 1)
  {
    if q < |text| && e >= q + 2 {
      FirstClosesIs(text[q + 1..], e - q - 2);
    }
    hide Closes;
  }

  lemma {:induction false} HashRunIs(s: string, n: nat)
    requires n < |s| && s[n] != '#'
    ensures HashRun(s) == n <==> forall k :: 0 <= k < n ==> s[k] == '#'
  {
    if n > 0 && s[0] == '#' {
      HashRunIs(s[1..], n - 1);
      assert forall k :: 1 <= k < n ==> s[k] == s[1..][k - 1];
    }
  }

  lemma RawIs(text: string, i: nat, n: nat, at: nat)
    requires i < |text|
    ensures RawOpens(text, i, n, at) <==> at >= i && RawStart(text[i..]) == Some((at - i, n))
  {
    var s := text[i..];
    assert forall k :: 0 <= k < |s| ==> s[k] == text[i + k];
    var r := if s[0] == 'b' || s[0] == 'c' then 1 else 0;
    if r < |s| && s[r] == 'r' {
      HashesIs(text, i + r + 1, n);
      assert s[r + 1..] == text[i + r + 1..];
    }
    hide HashRun, HashesTo;
    assert RawOpens(text, i, n, at) <==>
           r < |s| && s[r] == 'r' && at == i + r + n + 2 && HashesTo(text, i + r + 1, n) by {
      hide *;
      RawOpensIs(text, i, n, at, r);
    }
  }

  /** `n` hashes from `j`, and then a quote. */
  ghost predicate HashesTo(text: string, j: nat, n: nat) {
    j + n < |text| && text[j + n] == '"' && forall k :: j <= k < j + n ==> text[k] == '#'
  }

  lemma RawOpensIs(text: string, i: nat, n: nat, at: nat, r: nat)
    requires i < |text| && r == if text[i] == 'b' || text[i] == 'c' then 1 else 0
    ensures RawOpens(text, i, n, at) <==>
            i + r < |text| && text[i + r] == 'r' && at == i + r + n + 2 && HashesTo(text, i + r + 1, n)
  {
  }

  lemma HashesIs(text: string, j: nat, n: nat)
    requires j <= |text|
    ensures HashesTo(text, j, n) <==>
            var t := text[j..]; HashRun(t) == n && n < |t| && t[n] == '"'
  {
    var t := text[j..];
    assert forall k :: 0 <= k < |t| ==> t[k] == text[j + k];
    if n < |t| && t[n] == '"' {
      HashRunIs(t, n);
    }
  }

  lemma ClosesAt(text: string, k: nat, n: nat)
    ensures StartsAt(text, "\"" + Hashes(n), k) <==> RawCloses(text, k, n)
  {
    var p := "\"" + Hashes(n);
    if k + 1 + n <= |text| {
      var t := text[k..k + 1 + n];
      assert forall j :: 0 <= j < 1 + n ==> t[j] == text[k + j];
      assert p[0] == '"' && forall j :: 1 <= j < 1 + n ==> p[j] == '#';
      if RawCloses(text, k, n) {
        assert t == p;
      }
      if t == p {
        assert forall j :: k < j <= k + n ==> text[j] == t[j - k];
      }
    }
  }

  lemma {:induction false} EndIs(text: string, n: nat, at: nat, e: nat)
    requires at <= |text|
    ensures RawEnds(text, n, at, e) <==> e == EndOf(text, "\"" + Hashes(n), at)
    decreases |text| - at
  {
    hide StartsAt, RawCloses, Hashes;
    ClosesAt(text, at, n);
    if RawCloses(text, at, n) {
      ClosedHere(text, at, n);
    } else if at < |text| {
      EndIs(text, n, at + 1, e);
    } else {
      NoneAtEnd(text, n);
    }
  }

  lemma ClosedHere(text: string, at: nat, n: nat)
    requires RawCloses(text, at, n)
    ensures at + 1 + n <= |text|
  {
  }

  lemma NoneAtEnd(text: string, n: nat)
    ensures forall k: nat :: |text| <= k ==> !RawCloses(text, k, n)
  {
  }

  // ---- the view

  /** What is hidden from `i` on is exactly such a piece. */
  lemma PieceIs(text: string, i: nat, e: nat, alnum: Alnum)
    requires i < |text|
    ensures Piece(text, i, e, alnum) <==> e > i && e == BlankTo(text, i, alnum)
  {
    LineIs(text, i, e);
    CommentIs(text, i, e);
    CharIs(text, i, e);
    if text[i] != '\'' && text[i] != '/' {
      LiteralIs(text, i, e);
    }
    TwoAt(text, i, '/', '/');
    TwoAt(text, i, '/', '*');
    ByteCharIs(text[i..]);
    hide StartsAt, LineEnd, CommentEnd, CharLength, ByteCharLength, StringLength, RawStart, EndOf, Hashes;
    hide LineComment, NestedComment, CharLiteral, StringLiteral, RawString;
  }

  lemma ByteCharIs(s: string)
    requires s != ""
    ensures s[0] != 'b' ==> ByteCharLength(s) == CharLength(s)
    ensures s[0] == 'b' ==>
              var n := CharLength(s[1..]); ByteCharLength(s) == if n.Some? then Some(1 + n.value) else None
    ensures CharLength(s).Some? ==> s[0] == '\''
  {
    hide HexRun;
  }

  /** How far the literal at `i` goes that a letter or a double quote begins. */
  function LiteralLength(text: string, i: nat): (e: Option<nat>)
    requires i < |text|
  {
    var rest := text[i..];
    var raw := RawStart(rest);
    if raw.Some? then Some(EndOf(text, "\"" + Hashes(raw.value.1), i + raw.value.0))
    else
      var n := if text[i] == 'b' && ByteCharLength(rest).Some? then ByteCharLength(rest) else StringLength(rest);
      if n.Some? then Some(i + n.value) else None
  }

  lemma LiteralIs(text: string, i: nat, e: nat)
    requires i < |text| && text[i] != '\'' && text[i] != '/'
    ensures LiteralLength(text, i) == Some(e) <==>
            || RawString(text, i, e)
            || (text[i] == 'b' && i + 1 < |text| && CharLiteral(text, i + 1, e))
            || StringLiteral(text, i, e)
  {
    var rest := text[i..];
    StringIs(text, i, e);
    RawStringIs(text, i, e);
    CharIs(text, i + 1, e);
    assert rest[1..] == text[i + 1..];
    ByteCharIs(rest);
    FirstCharacters(rest);
    if i + 1 < |text| {
      ByteCharIs(text[i + 1..]);
    }
    hide CharLength, ByteCharLength, StringLength, RawStart, EndOf, Hashes, CharLiteral, StringLiteral, RawString;
  }

  /** No two kinds of literal begin alike. */
  lemma FirstCharacters(s: string)
    requires s != ""
    ensures RawStart(s).Some? ==> s[0] == 'r' || (|s| > 1 && s[1] == 'r')
    ensures StringLength(s).Some? ==> s[0] == '"' || (|s| > 1 && s[1] == '"')
    ensures s[0] == 'b' && StringLength(s).Some? ==> |s| > 1 && s[1] == '"'
    ensures s[0] == 'b' && RawStart(s).Some? ==> |s| > 1 && s[1] == 'r'
  {
    hide HashRun, QuoteEnd;
  }

  lemma RawStringIs(text: string, i: nat, e: nat)
    requires i < |text|
    ensures RawString(text, i, e) <==>
            match RawStart(text[i..])
            case None => false
            case Some((at, n)) => e == EndOf(text, "\"" + Hashes(n), i + at)
  {
    hide RawOpens, RawEnds, EndOf, Hashes, RawStart;
    forall n: nat, at: nat
      ensures RawOpens(text, i, n, at) <==> at >= i && RawStart(text[i..]) == Some((at - i, n))
    {
      RawIs(text, i, n, at);
    }
    match RawStart(text[i..])
    case None =>
    case Some((at, n)) =>
      EndIs(text, n, i + at, e);
      assert RawOpens(text, i, n, i + at);
  }

  /** The view from `i` on: a piece is blanked, its newlines kept, and where none begins the character stands. */
  lemma ViewFrom(text: string, i: nat, alnum: Alnum)
    requires i < |text|
    ensures forall e: nat :: Piece(text, i, e, alnum) ==>
              && i < e <= |text|
              && View(text, i, alnum) == Blanked(text[i..e]) + View(text, e, alnum)
    ensures (forall e: nat :: !Piece(text, i, e, alnum)) ==>
              View(text, i, alnum) == [text[i]] + View(text, i + 1, alnum)
  {
    var e := BlankTo(text, i, alnum);
    PieceIs(text, i, e, alnum);
    BlankedIs(text[i..e]);
    forall e': nat | Piece(text, i, e', alnum)
      ensures e' == e && e' > i
    {
      PieceIs(text, i, e', alnum);
    }
    hide Piece, BlankTo, Blanked, Blank;
  }

  function Blanked(s: string): (r: string)
    ensures |r| == |s|
  {
    seq(|s|, k requires 0 <= k < |s| => if s[k] == '\n' then '\n' else ' ')
  }

  lemma BlankedIs(s: string)
    ensures Blank(s) == Blanked(s)
  {
  }

  /** A quote that closes no character, and a letter that goes on an identifier, begin nothing. */
  lemma NothingBegins(text: string, i: nat, alnum: Alnum)
    requires i < |text| && text[i] in {'\'', 'r', 'b', 'c'}
    requires text[i] == '\'' ==> forall e: nat :: !CharLiteral(text, i, e)
    requires text[i] != '\'' ==> i > 0 && (alnum(text[i - 1]) || text[i - 1] == '_')
    ensures View(text, i, alnum) == [text[i]] + View(text, i + 1, alnum)
  {
    ViewFrom(text, i, alnum);
    hide View, Closing, RawString, StringLiteral;
  }
}
