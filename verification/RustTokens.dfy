/** The token scanner behind the Rust outline. */
module RustTokens {
  import opened Basics

  datatype Token = Token(text: string, start: nat, end: nat)

  const QUOTE: byte := 34
  const POUND: byte := 35
  const STAR: byte := 42
  const SLASH: byte := 47
  const BACKSLASH: byte := 92
  const LETTER_R: byte := 114
  const LINE_FEED: byte := 10

  predicate IsBlank(b: byte) { b == 9 || b == 10 || b == 12 || b == 13 || b == 32 }

  /** Letters, digits and the underscore. */
  predicate IsWord(b: byte) {
    48 <= b <= 57 || 65 <= b <= 90 || 97 <= b <= 122 || b == 95
  }

  /** One of `{ } ( ) [ ] ; : , < >`. */
  predicate IsPunctuation(b: byte) {
    b in {123, 125, 40, 41, 91, 93, 59, 58, 44, 60, 62}
  }

  /** Words are made of letters, digits and the underscore. */
  lemma WordCharacters(b: byte)
    ensures IsWord(b) <==>
      var c := b as int as char;
      || c in {'a', 'b', 'c', 'd', 'e', 'f', 'g', 'h', 'i', 'j', 'k', 'l', 'm',
                'n', 'o', 'p', 'q', 'r', 's', 't', 'u', 'v', 'w', 'x', 'y', 'z'}
      || c in {'A', 'B', 'C', 'D', 'E', 'F', 'G', 'H', 'I', 'J', 'K', 'L', 'M',
                'N', 'O', 'P', 'Q', 'R', 'S', 'T', 'U', 'V', 'W', 'X', 'Y', 'Z'}
      || c in {'0', '1', '2', '3', '4', '5', '6', '7', '8', '9', '_'}
  {
  }

  /** Eleven marks are tokens by themselves; five characters are blank. */
  lemma MarkCharacters(b: byte)
    ensures IsPunctuation(b) <==> b as int as char in "{}()[];:,<>"
    ensures IsBlank(b) <==> b as int as char in " \t\n\r\U{C}"
  {
  }

  ghost predicate At(source: seq<byte>, i: nat, c: char) { i < |source| && source[i] as int == c as int }

  ghost predicate OpensLineComment(source: seq<byte>, i: nat) { At(source, i, '/') && At(source, i + 1, '/') }

  ghost predicate OpensBlockComment(source: seq<byte>, i: nat) { At(source, i, '/') && At(source, i + 1, '*') }

  ghost predicate ClosesBlockComment(source: seq<byte>, i: nat) { At(source, i, '*') && At(source, i + 1, '/') }

  ghost predicate OpensRaw(source: seq<byte>, i: nat) {
    At(source, i, 'r') && (At(source, i + 1, '#') || At(source, i + 1, '"'))
  }

  // ----- What each skipped piece covers -----

  ghost predicate IsLineComment(source: seq<byte>, i: nat, j: nat) {
    && OpensLineComment(source, i) && i + 2 <= j <= |source|
    && (forall k: nat :: i + 2 <= k < j ==> !At(source, k, '\n'))
    && (j < |source| ==> At(source, j, '\n'))
  }

  /** Where a comment opened to this depth ends; nesting counts, and one left open
      stops before the last byte. */
  ghost function CommentEnd(source: seq<byte>, i: nat, depth: nat): nat
    decreases |source| - i
  {
    if i + 1 >= |source| || depth == 0 then i
    else if OpensBlockComment(source, i) then CommentEnd(source, i + 2, depth + 1)
    else if ClosesBlockComment(source, i) then CommentEnd(source, i + 2, depth - 1)
    else CommentEnd(source, i + 1, depth)
  }

  ghost predicate IsBlockComment(source: seq<byte>, i: nat, j: nat) {
    OpensBlockComment(source, i) && i + 2 <= j <= |source| && j == CommentEnd(source, i + 2, 1)
  }

  /** Backslashes immediately before k, back to lo. */
  ghost function BackslashRun(source: seq<byte>, lo: nat, k: nat): nat
    requires lo <= k <= |source|
    decreases k
  {
    if lo < k && At(source, k - 1, '\\') then 1 + BackslashRun(source, lo, k - 1) else 0
  }

  /** A quote that an even run of backslashes leaves unescaped. */
  ghost predicate ClosesQuoted(source: seq<byte>, open: nat, k: nat) {
    open < k && At(source, k, '"') && BackslashRun(source, open + 1, k) % 2 == 0
  }

  /** A quoted literal up to its first unescaped quote, or to the end of the source. */
  ghost predicate IsQuoted(source: seq<byte>, i: nat, j: nat) {
    && At(source, i, '"') && i < j <= |source|
    && ((j == |source| && forall k: nat :: k < j ==> !ClosesQuoted(source, i, k)) ||
        (ClosesQuoted(source, i, j - 1) && forall k: nat :: k < j - 1 ==> !ClosesQuoted(source, i, k)))
  }

  ghost predicate PoundsFrom(source: seq<byte>, i: nat, n: nat) {
    i + n <= |source| && forall k: nat :: i <= k < i + n ==> At(source, k, '#')
  }

  /** A quote followed by enough pounds to close the raw literal. */
  ghost predicate ClosesRaw(source: seq<byte>, i: nat, pounds: nat) {
    At(source, i, '"') && PoundsFrom(source, i + 1, pounds)
  }

  ghost predicate IsRawBody(source: seq<byte>, body: nat, j: nat, pounds: nat) {
    body <= j <= |source| &&
    ((j == |source| && forall k :: body <= k < j ==> !ClosesRaw(source, k, pounds)) ||
     (body + 1 + pounds <= j && ClosesRaw(source, j - 1 - pounds, pounds) &&
      forall k :: body <= k < j - 1 - pounds ==> !ClosesRaw(source, k, pounds)))
  }

  /** A raw literal up to its first closing quote, or just the marks when none opens. */
  ghost predicate IsRaw(source: seq<byte>, i: nat, j: nat) {
    OpensRaw(source, i) && exists pounds: nat :: RawWith(source, i, j, pounds)
  }

  ghost predicate RawWith(source: seq<byte>, i: nat, j: nat, pounds: nat) {
    && PoundsFrom(source, i + 1, pounds) && !At(source, i + 1 + pounds, '#')
    && if At(source, i + 1 + pounds, '"') then IsRawBody(source, i + 2 + pounds, j, pounds)
       else j == i + 1 + pounds
  }

  ghost predicate IsOther(source: seq<byte>, i: nat, j: nat) {
    && i < |source| && j == i + 1 && !IsWord(source[i]) && !IsPunctuation(source[i]) && !At(source, i, '"')
    && !OpensLineComment(source, i) && !OpensBlockComment(source, i)
  }

  ghost predicate IsSkipped(source: seq<byte>, i: nat, j: nat) {
    || IsLineComment(source, i, j) || IsBlockComment(source, i, j) || IsQuoted(source, i, j)
    || IsRaw(source, i, j) || IsOther(source, i, j)
  }

  // ----- What a token is -----

  ghost predicate IsToken(source: seq<byte>, token: Token) {
    && token.start < token.end <= |source| && token.text == Ascii(source[token.start..token.end])
    && !OpensRaw(source, token.start)
    && ((IsPunctuation(source[token.start]) && token.end == token.start + 1) ||
        ((forall k :: token.start <= k < token.end ==> IsWord(source[k])) &&
         (token.end < |source| ==> !IsWord(source[token.end]))))
  }

  datatype Piece = Skipped(start: nat, end: nat) | Kept(token: Token) {
    function Start(): nat { if Skipped? then start else token.start }
    function End(): nat { if Skipped? then end else token.end }

    ghost predicate Ok(source: seq<byte>) {
      if Skipped? then IsSkipped(source, start, end) else IsToken(source, token)
    }
  }

  /** The pieces cover the first i bytes, each where the one before ends. */
  ghost predicate Lexes(source: seq<byte>, pieces: seq<Piece>, i: nat) {
    if pieces == [] then i == 0
    else
      var last := pieces[|pieces| - 1];
      last.End() == i && last.Ok(source) && Lexes(source, pieces[..|pieces| - 1], last.Start())
  }

  function TokensOf(pieces: seq<Piece>): seq<Token> {
    if pieces == [] then []
    else
      var last := pieces[|pieces| - 1];
      TokensOf(pieces[..|pieces| - 1]) + if last.Kept? then [last.token] else []
  }

  /** The tokens are exactly what is left once comments, literals and other bytes
      are skipped. */
  ghost predicate Scans(source: seq<byte>, tokens: seq<Token>) {
    exists pieces :: Lexes(source, pieces, |source|) && TokensOf(pieces) == tokens
  }

  lemma LexMore(source: seq<byte>, pieces: seq<Piece>, piece: Piece)
    requires Lexes(source, pieces, piece.Start()) && piece.Ok(source)
    ensures Lexes(source, pieces + [piece], piece.End())
    ensures TokensOf(pieces + [piece]) == TokensOf(pieces) + if piece.Kept? then [piece.token] else []
  {
    assert (pieces + [piece])[..|pieces|] == pieces;
  }

  lemma LexNothing(source: seq<byte>)
    ensures Lexes(source, [], 0) && TokensOf([]) == []
  {
  }

  // ----- There is only one way to lex a source -----

  lemma PieceIsDetermined(source: seq<byte>, a: Piece, b: Piece)
    requires a.Ok(source) && b.Ok(source) && a.Start() == b.Start()
    ensures a == b
  {
    var i := a.Start();
    if a.Skipped? && b.Skipped? {
      if IsRaw(source, i, a.end) { RawIsDetermined(source, i, a.end, b.end); }
    } else if a.Kept? && b.Kept? {
      TokenIsDetermined(source, a.token, b.token);
    }
  }

  lemma RawIsDetermined(source: seq<byte>, i: nat, j: nat, j': nat)
    requires IsRaw(source, i, j) && IsSkipped(source, i, j')
    ensures j == j'
  {
    assert IsRaw(source, i, j');
    var p: nat :| RawWith(source, i, j, p);
    var q: nat :| RawWith(source, i, j', q);
    PoundsAreDetermined(source, i + 1, p, q);
  }

  lemma PoundsAreDetermined(source: seq<byte>, i: nat, p: nat, q: nat)
    requires PoundsFrom(source, i, p) && !At(source, i + p, '#')
    requires PoundsFrom(source, i, q) && !At(source, i + q, '#')
    ensures p == q
  {
  }

  lemma TokenIsDetermined(source: seq<byte>, a: Token, b: Token)
    requires IsToken(source, a) && IsToken(source, b) && a.start == b.start
    ensures a == b
  {
    assert IsPunctuation(source[a.start]) ==> !IsWord(source[a.start]);
  }

  lemma {:induction false} LexesPrefix(source: seq<byte>, pieces: seq<Piece>, i: nat, k: nat)
    requires Lexes(source, pieces, i) && k < |pieces|
    ensures pieces[k].Ok(source) && pieces[k].End() <= i && Lexes(source, pieces[..k], pieces[k].Start())
    decreases |pieces|
  {
    var last := pieces[|pieces| - 1];
    PieceMoves(source, last);
    if k < |pieces| - 1 {
      LexesPrefix(source, pieces[..|pieces| - 1], last.Start(), k);
      assert pieces[..|pieces| - 1][..k] == pieces[..k];
    }
  }

  /** Any lexing of the first i bytes begins any lexing of at least as many. */
  lemma {:induction false} LexingsAgree(source: seq<byte>, pieces: seq<Piece>, i: nat, others: seq<Piece>, n: nat)
    requires Lexes(source, pieces, i) && Lexes(source, others, n) && i <= n
    ensures pieces <= others
    decreases |pieces|
  {
    hide IsSkipped, IsToken;
    if pieces != [] {
      var k := |pieces| - 1;
      var last := pieces[k];
      PieceMoves(source, last);
      LexingsAgree(source, pieces[..k], last.Start(), others, n);
      if k == |others| {
        LexEnds(source, others, n, last.Start());
        assert false;
      }
      LexesPrefix(source, others, n, k);
      assert others[..k] == pieces[..k];
      LexEnds(source, pieces[..k], last.Start(), others[k].Start());
      PieceIsDetermined(source, last, others[k]);
    }
  }

  lemma LexEnds(source: seq<byte>, pieces: seq<Piece>, i: nat, j: nat)
    requires Lexes(source, pieces, i) && Lexes(source, pieces, j)
    ensures i == j
  {
  }

  /** So the scanner's contract admits exactly one token list. */
  lemma ScanIsUnique(source: seq<byte>, tokens: seq<Token>, others: seq<Token>)
    requires Scans(source, tokens) && Scans(source, others)
    ensures tokens == others
  {
    var p :| Lexes(source, p, |source|) && TokensOf(p) == tokens;
    var q :| Lexes(source, q, |source|) && TokensOf(q) == others;
    LexingsAgree(source, p, |source|, q, |source|);
    LexingsAgree(source, q, |source|, p, |source|);
    assert p == q;
  }

  // ----- The scanner's inner loops -----

  method SkipLineComment(source: seq<byte>, start: nat) returns (i: nat)
    requires OpensLineComment(source, start)
    ensures IsLineComment(source, start, i)
  {
    i := start + 2;
    while i < |source| && source[i] != LINE_FEED
      invariant start + 2 <= i <= |source|
      invariant forall k :: start + 2 <= k < i ==> source[k] != LINE_FEED
    {
      i := i + 1;
    }
  }

  method SkipBlockComment(source: seq<byte>, start: nat) returns (i: nat)
    requires OpensBlockComment(source, start)
    ensures IsBlockComment(source, start, i)
  {
    i := start + 2;
    var depth: nat := 1;
    while i + 1 < |source| && depth > 0
      invariant start + 2 <= i <= |source|
      invariant CommentEnd(source, start + 2, 1) == CommentEnd(source, i, depth)
    {
      if source[i] == SLASH && source[i + 1] == STAR {
        depth, i := depth + 1, i + 2;
      } else if source[i] == STAR && source[i + 1] == SLASH {
        depth, i := depth - 1, i + 2;
      } else {
        i := i + 1;
      }
    }
  }

  /** A final backslash carries the cursor one past the end. */
  method SkipQuoted(source: seq<byte>, start: nat) returns (i: nat)
    requires At(source, start, '"')
    ensures i <= |source| + 1 && IsQuoted(source, start, Min(i, |source|))
  {
    i := start + 1;
    while i < |source| && source[i] != QUOTE
      invariant start + 1 <= i <= |source| + 1
      invariant i <= |source| ==> BackslashRun(source, start + 1, i) % 2 == 0
      invariant forall k: nat :: k < i ==> !ClosesQuoted(source, start, k)
    {
      if source[i] == BACKSLASH {
        assert BackslashRun(source, start + 1, i + 1) == 1 + BackslashRun(source, start + 1, i);
        i := i + 2;
      } else {
        i := i + 1;
      }
    }
    if i < |source| { i := i + 1; }
  }

  method CountPounds(source: seq<byte>, start: nat) returns (n: nat)
    requires start <= |source|
    ensures PoundsFrom(source, start, n) && !At(source, start + n, '#')
  {
    n := 0;
    while start + n < |source| && source[start + n] == POUND
      invariant PoundsFrom(source, start, n)
    {
      n := n + 1;
    }
  }

  method SkipRaw(source: seq<byte>, start: nat) returns (i: nat)
    requires OpensRaw(source, start)
    ensures start < i <= |source| && IsRaw(source, start, i)
  {
    var pounds := CountPounds(source, start + 1);
    i := start + 1 + pounds;
    if i < |source| && source[i] == QUOTE {
      i := i + 1;
      var body := i;
      var closed := false;
      while i < |source| && !closed
        invariant body <= i <= |source|
        invariant !closed ==> forall k :: body <= k < i ==> !ClosesRaw(source, k, pounds)
        invariant closed ==> IsRawBody(source, body, i, pounds)
        decreases |source| - i, !closed
      {
        if source[i] == QUOTE {
          var matching := CountPounds(source, i + 1);
          if matching >= pounds {
            assert ClosesRaw(source, i, pounds);
            i := i + 1 + pounds;
            closed := true;
            continue;
          }
          FewPounds(source, i, matching, pounds);
        }
        i := i + 1;
      }
    }
    assert RawWith(source, start, i, pounds);
  }

  lemma FewPounds(source: seq<byte>, i: nat, matching: nat, pounds: nat)
    requires matching < pounds && !At(source, i + 1 + matching, '#')
    ensures !ClosesRaw(source, i, pounds)
  {
  }

  method ScanTokens(source: seq<byte>) returns (tokens: seq<Token>)
    ensures Scans(source, tokens)
  {
    hide Lexes, TokensOf, IsLineComment, IsBlockComment, IsQuoted, IsRaw;
    tokens := [];
    var i := 0;
    ghost var pieces: seq<Piece> := [];
    LexNothing(source);
    while i < |source|
      invariant i <= |source| + 1
      invariant Lexes(source, pieces, Min(i, |source|)) && tokens == TokensOf(pieces)
    {
      var start, b := i, source[i];
      if IsBlank(b) {
        i := i + 1;
      } else if b == SLASH && i + 1 < |source| && source[i + 1] == SLASH {
        i := SkipLineComment(source, i);
        LineCommentMoves(source, start, i);
      } else if b == SLASH && i + 1 < |source| && source[i + 1] == STAR {
        i := SkipBlockComment(source, i);
        BlockCommentMoves(source, start, i);
      } else if b == QUOTE {
        i := SkipQuoted(source, i);
        QuotedMoves(source, start, Min(i, |source|));
      } else if b == LETTER_R && i + 1 < |source| && (source[i + 1] == POUND || source[i + 1] == QUOTE) {
        i := SkipRaw(source, i);
      } else if IsPunctuation(b) {
        i := i + 1;
        tokens := tokens + [Token(Ascii(source[start..i]), start, i)];
      } else {
        while i < |source| && IsWord(source[i])
          invariant start <= i <= |source|
          invariant forall k :: start <= k < i ==> IsWord(source[k])
        {
          i := i + 1;
        }
        if i > start {
          tokens := tokens + [Token(Ascii(source[start..i]), start, i)];
        } else {
          i := i + 1;
        }
      }
      ghost var end := Min(i, |source|);
      ghost var piece := if |tokens| > |TokensOf(pieces)| then Kept(tokens[|tokens| - 1]) else Skipped(start, end);
      LexMore(source, pieces, piece);
      pieces := pieces + [piece];
    }
  }

  lemma LineCommentMoves(source: seq<byte>, i: nat, j: nat)
    requires IsLineComment(source, i, j)
    ensures i < j <= |source|
  {
  }

  lemma BlockCommentMoves(source: seq<byte>, i: nat, j: nat)
    requires IsBlockComment(source, i, j)
    ensures i < j <= |source|
  {
  }

  lemma QuotedMoves(source: seq<byte>, i: nat, j: nat)
    requires IsQuoted(source, i, j)
    ensures i < j <= |source|
  {
  }

  // ----- What the parser relies on -----

  predicate Before(a: Token, b: Token) { a.end <= b.start }

  /** Tokens are nonempty, in order and disjoint, and none is a pound sign. */
  ghost predicate TokensOk(tokens: seq<Token>, n: nat) {
    && (forall k :: 0 <= k < |tokens| ==> tokens[k].start < tokens[k].end <= n && tokens[k].text != "#")
    && (forall j, k :: 0 <= j < k < |tokens| ==> Before(tokens[j], tokens[k]))
  }

  lemma {:induction false} LexedTokensOk(source: seq<byte>, pieces: seq<Piece>, i: nat)
    requires Lexes(source, pieces, i)
    ensures TokensOk(TokensOf(pieces), i)
  {
    if pieces != [] {
      var last := pieces[|pieces| - 1];
      LexedTokensOk(source, pieces[..|pieces| - 1], last.Start());
      PieceMoves(source, last);
      if last.Kept? { NoPounds(source, last.token); }
    }
  }

  lemma {:induction false} LexedTokensAreTokens(source: seq<byte>, pieces: seq<Piece>, i: nat)
    requires Lexes(source, pieces, i)
    ensures forall k :: 0 <= k < |TokensOf(pieces)| ==> IsToken(source, TokensOf(pieces)[k])
  {
    hide IsToken, IsSkipped;
    if pieces != [] {
      var last := pieces[|pieces| - 1];
      LexedTokensAreTokens(source, pieces[..|pieces| - 1], last.Start());
    }
  }

  lemma PieceMoves(source: seq<byte>, piece: Piece)
    requires piece.Ok(source)
    ensures piece.Start() < piece.End() <= |source|
  {
    if piece.Skipped? && IsRaw(source, piece.start, piece.end) {
      var pounds: nat :| RawWith(source, piece.start, piece.end, pounds);
    }
  }

  lemma NoPounds(source: seq<byte>, token: Token)
    requires IsToken(source, token)
    ensures token.text != "#"
  {
    assert token.text[0] == (source[token.start] as int) as char;
    assert "#"[0] == '#' && source[token.start] != POUND;
  }

  /** Scanned tokens are in order, and none is the pound sign that would introduce
      an attribute. */
  lemma ScannedTokensOk(source: seq<byte>, tokens: seq<Token>)
    requires Scans(source, tokens)
    ensures TokensOk(tokens, |source|)
  {
    var pieces :| Lexes(source, pieces, |source|) && TokensOf(pieces) == tokens;
    LexedTokensOk(source, pieces, |source|);
  }

  lemma ScannedTokensAreTokens(source: seq<byte>, tokens: seq<Token>)
    requires Scans(source, tokens)
    ensures forall k :: 0 <= k < |tokens| ==> IsToken(source, tokens[k])
  {
    hide Lexes, IsToken;
    var pieces :| Lexes(source, pieces, |source|) && TokensOf(pieces) == tokens;
    LexedTokensAreTokens(source, pieces, |source|);
  }
}
