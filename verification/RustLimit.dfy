/** What the item limit means for a Rust outline: it is compared with top-level items
    only, so members of `impl` blocks come on top. */
module RustLimit {
  import opened Basics
  import opened Outline
  import opened LineIndex
  import opened RustTokens
  import opened RustItems

  // ----- Counting the items of a token list -----

  /** The keyword and the end of the declaration that starts here. */
  ghost function Extent(file: File, at: nat): (r: (nat, nat))
    requires Starts(file, at)
    ensures exists byteEnd: nat :: Block(file, at, r.0, byteEnd, r.1)
  {
    var k: nat, byteEnd: nat, next: nat :| Block(file, at, k, byteEnd, next);
    (k, next)
  }

  lemma ExtentIs(file: File, at: nat, k: nat, byteEnd: nat, next: nat)
    requires Block(file, at, k, byteEnd, next)
    ensures Starts(file, at) && Extent(file, at) == (k, next)
  {
    hide Block;
    var b: nat :| Block(file, at, Extent(file, at).0, b, Extent(file, at).1);
    BlockIsUnique(file, at, k, byteEnd, next, Extent(file, at).0, b, Extent(file, at).1);
  }

  lemma ExtentMoves(file: File, at: nat)
    requires Starts(file, at)
    ensures at <= Extent(file, at).0 < Extent(file, at).1 <= |file.tokens|
    ensures Declares(file.tokens, Extent(file, at).0)
  {
    var b: nat :| Block(file, at, Extent(file, at).0, b, Extent(file, at).1);
    BlockInside(file, at, Extent(file, at).0, b, Extent(file, at).1);
  }

  /** One past the opening brace of an `impl`. */
  ghost function BodyStart(tokens: seq<Token>, k: nat): (r: nat)
    requires IsImpl(tokens, k) && Declares(tokens, k)
    ensures k < r - 1 && HeaderEnd(tokens, k + 1, r - 1)
  {
    var s: nat :| HeaderEnd(tokens, k + 1, s) && Is(tokens, s, "{");
    s + 1
  }

  function Less(room: Option<nat>): Option<nat>
    requires room != Some(0)
  {
    if room.Some? then Some(room.value - 1) else None
  }

  /** Items a scan takes from token `at` up to the limit while there is room for items of
      its own, with the members of every `impl` among them. */
  ghost function ItemsFrom(file: File, at: nat, limit: int, room: Option<nat>): nat
    decreases |file.tokens| - at
  {
    if at >= limit || at >= |file.tokens| || room == Some(0) then 0
    else if !Starts(file, at) then ItemsFrom(file, at + 1, limit, room)
    else
      ExtentMoves(file, at);
      var k, next := Extent(file, at).0, Extent(file, at).1;
      1 + (if IsImpl(file.tokens, k) then ItemsFrom(file, BodyStart(file.tokens, k), next - 1, None) else 0)
      + ItemsFrom(file, next, limit, Less(room))
  }

  lemma {:induction false} BarrenCount(file: File, a: nat, b: nat, limit: int, room: Option<nat>)
    requires Barren(file, a, b)
    ensures ItemsFrom(file, a, limit, room) == ItemsFrom(file, b, limit, room)
    decreases b - a
  {
    hide Starts;
    if a < b {
      assert !Starts(file, a) && Barren(file, a + 1, b);
      BarrenCount(file, a + 1, b, limit, room);
    }
  }

  // ----- The outline has that many -----

  lemma {:induction false} CountItem(file: File, at: nat, item: Item, next: nat, nested: bool, limit: int,
                                     room: Option<nat>)
    requires IsItem(file, at, item, next, nested) && at < limit && room != Some(0)
    ensures ItemsFrom(file, at, limit, room) == |PostIds(item)| + ItemsFrom(file, next, limit, Less(room))
    decreases item, 1
  {
    hide IsItem, Reaches, HeaderEnd, Block, Declares, Starts, PostAll, Extent;
    var k, s, c := OpenItem(file, at, item, next, nested);
    assert Block(file, at, k, item.evidence.byteEnd, next);
    ExtentIs(file, at, k, item.evidence.byteEnd, next);
    ExtentMoves(file, at);
    if IsImpl(file.tokens, k) {
      HeaderIsUnique(file.tokens, k + 1, s);
      assert BodyStart(file.tokens, k) == s + 1;
      CountItems(file, s + 1, next - 1, item.children, c, true, None);
    } else {
      assert PostAll([]) == [] by { NoIds(0); }
    }
  }

  /** Room left after this many items. */
  function Left(room: Option<nat>, taken: nat): Option<nat>
    requires room.Some? ==> taken <= room.value
  {
    if room.Some? then Some(room.value - taken) else None
  }

  lemma OneTaken(room: Option<nat>, taken: nat)
    requires room.Some? ==> taken < room.value
    ensures Left(room, taken) != Some(0) && Less(Left(room, taken)) == Left(room, taken + 1)
    ensures Left(room, 0) == room
  {
  }

  lemma NoneCounted(file: File, from: nat, limit: int, c: nat, nested: bool, room: Option<nat>)
    requires Reaches(file, from, limit, [], c, nested)
    ensures ItemsFrom(file, from, limit, room) == ItemsFrom(file, c, limit, Left(room, 0)) && PostAll([]) == []
  {
    hide ItemsFrom;
    BarrenCount(file, from, c, limit, room);
    NoIds(0);
  }

  lemma {:induction false} CountItems(file: File, from: nat, limit: int, items: seq<Item>, c: nat, nested: bool,
                                      room: Option<nat>)
    requires Reaches(file, from, limit, items, c, nested) && (room.Some? ==> |items| <= room.value)
    ensures ItemsFrom(file, from, limit, room) == |PostAll(items)| + ItemsFrom(file, c, limit, Left(room, |items|))
    decreases items, 0
  {
    hide IsItem, Reaches, PostIds, PostAll, ItemsFrom, Left, Less, Barren;
    if items == [] {
      NoneCounted(file, from, limit, c, nested, room);
    } else {
      var front, last := items[..|items| - 1], items[|items| - 1];
      var at, next := OpenLast(file, from, limit, items, c, nested);
      CountItems(file, from, limit, front, at, nested, room);
      OneTaken(room, |front|);
      CountItem(file, at, last, next, nested, limit, Left(room, |front|));
      BarrenCount(file, next, c, limit, Left(room, |items|));
      PostSnoc(front, last);
      assert front + [last] == items;
    }
  }

  lemma {:induction false} CountSnoc(items: seq<Item>, item: Item)
    ensures CountAll(items + [item]) == CountAll(items) + item.Count()
  {
    if items == [] {
      assert [] + [item] == [item];
    } else {
      assert (items + [item])[1..] == items[1..] + [item];
      CountSnoc(items[1..], item);
    }
  }

  lemma {:induction false} IdsAreCounted(items: seq<Item>)
    ensures |PostAll(items)| == CountAll(items)
    decreases items
  {
    if items != [] {
      var front, last := items[..|items| - 1], items[|items| - 1];
      IdsAreCounted(front);
      IdsAreCounted(last.children);
      CountSnoc(front, last);
      assert front + [last] == items;
    }
  }

  /** The outline of a text has as many items as its tokens count, so the item limit
      bounds it if and only if that count is within the limit. */
  lemma LimitBounds(items: seq<Item>, source: seq<byte>, code: seq<byte>, maxItems: nat, file: File)
    requires IsRustOutline(items, source, code, maxItems)
    requires Scans(source, file.tokens) && file.index.Indexes(code) && file.codeLen == |code|
    ensures CountAll(items) == ItemsFrom(file, 0, |file.tokens|, Some(maxItems))
    ensures CountAll(items) <= maxItems <==> ItemsFrom(file, 0, |file.tokens|, Some(maxItems)) <= maxItems
  {
    hide Scans, Reaches, IsLineStarts, PostAll;
    var other: File, c: nat :|
      && Scans(source, other.tokens) && other.index.Indexes(code) && other.codeLen == |code|
      && |items| <= maxItems && Reaches(other, 0, |other.tokens|, items, c, false)
      && (|items| < maxItems ==> |other.tokens| <= c);
    ScanIsUnique(source, file.tokens, other.tokens);
    IndexIsUnique(file.index, other.index, code);
    CountItems(file, 0, |file.tokens|, items, c, false, Some(maxItems));
    IdsAreCounted(items);
  }

  /** Without an `impl` no item has members. */
  lemma {:induction false} FlatCount(file: File, from: nat, limit: int, items: seq<Item>, c: nat, nested: bool)
    requires Reaches(file, from, limit, items, c, nested) && forall k: nat :: !IsImpl(file.tokens, k)
    ensures CountAll(items) == |items|
    decreases |items|
  {
    hide IsItem, Reaches;
    if items != [] {
      var front, last := items[..|items| - 1], items[|items| - 1];
      var at, next := OpenLast(file, from, limit, items, c, nested);
      var k, s, e := OpenItem(file, at, last, next, nested);
      assert last.Count() == 1;
      FlatCount(file, from, limit, front, at, nested);
      CountSnoc(front, last);
      assert front + [last] == items;
    }
  }

  /** So the limit bounds every outline of a text without an `impl` token. */
  lemma LimitBoundsWithoutImpls(items: seq<Item>, source: seq<byte>, code: seq<byte>, maxItems: nat, tokens: seq<Token>)
    requires IsRustOutline(items, source, code, maxItems) && Scans(source, tokens)
    requires forall k :: 0 <= k < |tokens| ==> tokens[k].text != "impl"
    ensures CountAll(items) == |items| <= maxItems
  {
    hide Scans, Reaches, IsLineStarts;
    var file: File, c: nat :|
      && Scans(source, file.tokens) && file.index.Indexes(code) && file.codeLen == |code|
      && |items| <= maxItems && Reaches(file, 0, |file.tokens|, items, c, false)
      && (|items| < maxItems ==> |file.tokens| <= c);
    ScanIsUnique(source, tokens, file.tokens);
    FlatCount(file, 0, |tokens|, items, c, false);
  }

  // ----- A text that exceeds its limit -----

  /** `impl{fn b;}` */
  const IMPL_SOURCE: seq<byte> := [105, 109, 112, 108, 123, 102, 110, 32, 98, 59, 125]

  const IMPL_TOKENS: seq<Token> := [
    Token("impl", 0, 4), Token("{", 4, 5), Token("fn", 5, 7),
    Token("b", 8, 9), Token(";", 9, 10), Token("}", 10, 11)]

  lemma MarkIsToken(source: seq<byte>, i: nat, text: string)
    requires i < |source| && IsPunctuation(source[i]) && text == [(source[i] as int) as char]
    ensures IsToken(source, Token(text, i, i + 1))
  {
    assert source[i..i + 1] == [source[i]];
  }

  lemma WordIsToken(source: seq<byte>, i: nat, j: nat, text: string)
    requires i < j < |source| && !OpensRaw(source, i) && !IsWord(source[j])
    requires forall k :: i <= k < j ==> IsWord(source[k])
    requires text == Ascii(source[i..j])
    ensures IsToken(source, Token(text, i, j))
  {
  }

  const IMPL_PIECES: seq<Piece> := [
    Kept(Token("impl", 0, 4)), Kept(Token("{", 4, 5)), Kept(Token("fn", 5, 7)), Skipped(7, 8),
    Kept(Token("b", 8, 9)), Kept(Token(";", 9, 10)), Kept(Token("}", 10, 11))]

  lemma ImplPieces()
    ensures forall k :: 0 <= k < |IMPL_PIECES| ==> IMPL_PIECES[k].Ok(IMPL_SOURCE)
  {
    ImplWords();
    ImplMarks();
    hide IsToken, IsSkipped;
  }

  lemma ImplWords()
    ensures IsToken(IMPL_SOURCE, Token("impl", 0, 4)) && IsToken(IMPL_SOURCE, Token("fn", 5, 7))
        && IsToken(IMPL_SOURCE, Token("b", 8, 9))
  {
    var s := IMPL_SOURCE;
    assert s[0..4] == [105, 109, 112, 108] && s[5..7] == [102, 110] && s[8..9] == [98];
    WordIsToken(s, 0, 4, "impl");
    WordIsToken(s, 5, 7, "fn");
    WordIsToken(s, 8, 9, "b");
    hide IsToken;
  }

  lemma ImplMarks()
    ensures IsToken(IMPL_SOURCE, Token("{", 4, 5)) && IsToken(IMPL_SOURCE, Token(";", 9, 10))
        && IsToken(IMPL_SOURCE, Token("}", 10, 11))
    ensures IsSkipped(IMPL_SOURCE, 7, 8)
  {
    var s := IMPL_SOURCE;
    MarkIsToken(s, 4, "{");
    MarkIsToken(s, 9, ";");
    MarkIsToken(s, 10, "}");
    assert IsOther(s, 7, 8);
    hide IsToken;
  }

  /** Adjacent good pieces are a lexing. */
  lemma {:induction false} PiecesLex(source: seq<byte>, pieces: seq<Piece>, n: nat)
    requires 0 < n <= |pieces| && pieces[0].Start() == 0
    requires forall k :: 0 <= k < |pieces| ==> pieces[k].Ok(source)
    requires forall i, j :: 0 <= i < j < |pieces| && j == i + 1 ==> pieces[j].Start() == pieces[i].End()
    ensures Lexes(source, pieces[..n], pieces[n - 1].End())
    ensures TokensOf(pieces[..n]) == TokensOf(pieces[..n - 1])
        + if pieces[n - 1].Kept? then [pieces[n - 1].token] else []
  {
    assert pieces[..n] == pieces[..n - 1] + [pieces[n - 1]];
    hide IsToken, IsSkipped;
    if n == 1 {
      LexNothing(source);
      assert pieces[..0] == [];
    } else {
      PiecesLex(source, pieces, n - 1);
    }
    LexMore(source, pieces[..n - 1], pieces[n - 1]);
  }

  lemma ImplScans()
    ensures Scans(IMPL_SOURCE, IMPL_TOKENS)
  {
    hide IsToken, IsSkipped, Lexes, TokensOf;
    ImplPieces();
    LexNothing(IMPL_SOURCE);
    assert IMPL_PIECES[..0] == [];
    PiecesLex(IMPL_SOURCE, IMPL_PIECES, 1);
    PiecesLex(IMPL_SOURCE, IMPL_PIECES, 2);
    PiecesLex(IMPL_SOURCE, IMPL_PIECES, 3);
    PiecesLex(IMPL_SOURCE, IMPL_PIECES, 4);
    PiecesLex(IMPL_SOURCE, IMPL_PIECES, 5);
    PiecesLex(IMPL_SOURCE, IMPL_PIECES, 6);
    PiecesLex(IMPL_SOURCE, IMPL_PIECES, 7);
    assert IMPL_PIECES[..7] == IMPL_PIECES;
    assert TokensOf(IMPL_PIECES) == IMPL_TOKENS;
  }

  lemma ImplBlocks(file: File)
    requires file.tokens == IMPL_TOKENS && 11 <= file.codeLen
    ensures Block(file, 0, 0, 11, 6) && Block(file, 2, 2, 10, 5)
  {
    var t := IMPL_TOKENS;
    assert TokensOk(t, 11) by { ImplScans(); ScannedTokensOk(IMPL_SOURCE, t); }
    assert VisibilityEnd(t, 0, 0) && QualifiersEnd(t, 0, 0);
    assert VisibilityEnd(t, 2, 2) && QualifiersEnd(t, 2, 2);
    assert HeaderEnd(t, 1, 1);
    Balances();
    assert EndsAfter(t, 1, file.codeLen, 11, 6);
    DirectEnd(t, 4, file.codeLen);
    FittingEvidence(file, 11, 0, 11, 6);
    FittingEvidence(file, 11, 2, 10, 5);
  }

  lemma Balances()
    ensures BlockClose(IMPL_TOKENS, 1, 6)
  {
    var t := IMPL_TOKENS;
    assert Balance(t, 1, 2) == 1 && Balance(t, 1, 3) == 1 && Balance(t, 1, 4) == 1 && Balance(t, 1, 5) == 1;
  }

  /** Under a limit of one item, this text has an outline of two. */
  lemma MembersEscapeTheLimit(items: seq<Item>)
    requires IsRustOutline(items, IMPL_SOURCE, IMPL_SOURCE, 1)
    ensures CountAll(items) == 2
  {
    hide IsRustOutline, Scans, Block, Starts, Declares, IsLineStarts, HeaderEnd, Extent;
    var index := SomeIndex(IMPL_SOURCE);
    var file := File(IMPL_TOKENS, index, 11);
    ImplScans();
    LimitBounds(items, IMPL_SOURCE, IMPL_SOURCE, 1, file);
    ImplBlocks(file);
    ExtentIs(file, 0, 0, 11, 6);
    ExtentIs(file, 2, 2, 10, 5);
    assert HeaderEnd(IMPL_TOKENS, 1, 1) by { ImplHeader(); }
    HeaderIsUnique(IMPL_TOKENS, 1, 1);
    ExtentMoves(file, 0);
    assert BodyStart(IMPL_TOKENS, 0) == 2;
    assert ItemsFrom(file, 5, 5, None) == 0 && ItemsFrom(file, 6, 6, Some(0)) == 0;
    assert ItemsFrom(file, 2, 5, None) == 1;
  }

  lemma ImplHeader()
    ensures HeaderEnd(IMPL_TOKENS, 1, 1)
  {
  }

  /** Every file has an index. */
  lemma {:induction false} SomeIndex(code: seq<byte>) returns (index: Index)
    ensures index.Indexes(code)
    decreases |code|
  {
    if code == [] {
      NoBytes();
      index := Index([0], 0);
    } else {
      var front := code[..|code| - 1];
      var before := SomeIndex(front);
      StartsGrow(before.lineStarts, front, code);
      index := Index(if code[|front|] == NEWLINE then before.lineStarts + [|code|] else before.lineStarts, |code|);
    }
  }
}
