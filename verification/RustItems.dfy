/** The Rust outline: declarations parsed recursively from the token list. */
module RustItems {
  import opened Basics
  import opened Outline
  import opened LineIndex
  import opened RustTokens
  import opened Utf8

  predicate Is(tokens: seq<Token>, k: nat, text: string) { k < |tokens| && tokens[k].text == text }

  // ----- Block ends -----

  function Brace(token: Token): int {
    if token.text == "{" then 1 else if token.text == "}" then -1 else 0
  }

  /** Opening minus closing braces among tokens[from..end]. */
  function Balance(tokens: seq<Token>, from: nat, end: nat): int
    requires from <= end <= |tokens|
    decreases end
  {
    if from == end then 0 else Balance(tokens, from, end - 1) + Brace(tokens[end - 1])
  }

  lemma OneBrace(tokens: seq<Token>, s: nat)
    requires Is(tokens, s, "{")
    ensures Balance(tokens, s, s + 1) == 1
  {
    assert Balance(tokens, s, s) == 0;
  }

  predicate EndsHeader(tokens: seq<Token>, k: nat) { Is(tokens, k, "{") || Is(tokens, k, ";") }

  /** The first token from i on that is an opening brace or a semicolon. */
  ghost predicate HeaderEnd(tokens: seq<Token>, i: nat, s: nat) {
    && i <= s <= |tokens| && (s < |tokens| ==> EndsHeader(tokens, s))
    && forall k: nat :: i <= k < s ==> !EndsHeader(tokens, k)
  }

  /** The least position after s where the braces balance, or the end of the tokens. */
  ghost predicate BlockClose(tokens: seq<Token>, s: nat, next: nat) {
    && s < next <= |tokens|
    && (forall t :: s < t < next ==> Balance(tokens, s, t) > 0)
    && (next < |tokens| ==> Balance(tokens, s, next) == 0)
  }

  /** Where a declaration whose header continues at token i ends: at its first
      semicolon, at the brace that balances its first opening one, or with the
      input. */
  ghost predicate BlockEnd(tokens: seq<Token>, i: nat, codeLen: nat, byteEnd: nat, next: nat) {
    exists s: nat :: HeaderEnd(tokens, i, s) && EndsAfter(tokens, s, codeLen, byteEnd, next)
  }

  ghost predicate EndsAfter(tokens: seq<Token>, s: nat, codeLen: nat, byteEnd: nat, next: nat)
    requires s <= |tokens|
  {
    if s == |tokens| then byteEnd == codeLen && next == |tokens|
    else if Is(tokens, s, ";") then byteEnd == tokens[s].end && next == s + 1
    else BlockClose(tokens, s, next) && byteEnd == tokens[next - 1].end
  }

  /** The end is unique. */
  lemma BlockEndIsUnique(tokens: seq<Token>, i: nat, codeLen: nat, b: nat, n: nat, b': nat, n': nat)
    requires BlockEnd(tokens, i, codeLen, b, n) && BlockEnd(tokens, i, codeLen, b', n')
    ensures b == b' && n == n'
  {
    var s: nat :| HeaderEnd(tokens, i, s) && EndsAfter(tokens, s, codeLen, b, n);
    var t: nat :| HeaderEnd(tokens, i, t) && EndsAfter(tokens, t, codeLen, b', n');
    assert s == t;
  }

  method FindBlockEnd(tokens: seq<Token>, start: nat, codeLen: nat) returns (byteEnd: nat, next: nat)
    requires start <= |tokens|
    ensures BlockEnd(tokens, start, codeLen, byteEnd, next)
    ensures start <= next <= |tokens|
    ensures (byteEnd == codeLen && next == |tokens|) || (start < next && byteEnd == tokens[next - 1].end)
    ensures EndsHeader(tokens, start) ==> start < next && byteEnd == tokens[next - 1].end
  {
    var i := start;
    while i < |tokens|
      invariant start <= i <= |tokens|
      invariant forall k: nat :: start <= k < i ==> !EndsHeader(tokens, k)
    {
      if tokens[i].text == "{" {
        ghost var s := i;
        assert HeaderEnd(tokens, start, s);
        var depth := 1;
        i := i + 1;
        OneBrace(tokens, s);
        while i < |tokens| && depth > 0
          invariant s < i <= |tokens| && depth == Balance(tokens, s, i) && depth >= 0
          invariant forall t :: s < t < i ==> Balance(tokens, s, t) > 0
        {
          if tokens[i].text == "{" {
            depth := depth + 1;
          } else if tokens[i].text == "}" {
            depth := depth - 1;
          }
          i := i + 1;
        }
        // The cursor has passed the brace, so the guarded fallback is never taken here.
        byteEnd, next := tokens[i - 1].end, i;
        assert EndsAfter(tokens, s, codeLen, byteEnd, next);
        return;
      } else if tokens[i].text == ";" {
        byteEnd, next := tokens[i].end, i + 1;
        assert HeaderEnd(tokens, start, i) && EndsAfter(tokens, i, codeLen, byteEnd, next);
        return;
      }
      i := i + 1;
    }
    byteEnd, next := codeLen, |tokens|;
    assert HeaderEnd(tokens, start, |tokens|) && EndsAfter(tokens, |tokens|, codeLen, byteEnd, next);
  }

  // ----- Modifiers before the keyword -----

  /** Past `pub` and an optional parenthesised restriction. */
  ghost predicate VisibilityEnd(tokens: seq<Token>, s: nat, v: nat) {
    if !Is(tokens, s, "pub") then v == s
    else if !Is(tokens, s + 1, "(") then v == s + 1
    else
      && s + 2 < v + 1 && v <= |tokens|
      && (Is(tokens, v - 1, ")") || v == |tokens|)
      && forall k: nat :: s + 1 <= k < v - 1 ==> !Is(tokens, k, ")")
  }

  /** A word that may precede `fn`; `const` counts only directly before `fn` or at
      the end of the input. */
  predicate IsQualifier(tokens: seq<Token>, k: nat) {
    && k < |tokens| && tokens[k].text in {"default", "async", "const", "unsafe", "extern"}
    && !(tokens[k].text == "const" && k + 1 < |tokens| && tokens[k + 1].text != "fn")
  }

  ghost predicate QualifiersEnd(tokens: seq<Token>, v: nat, k: nat) {
    && v <= k && (v < k ==> k <= |tokens|) && !IsQualifier(tokens, k)
    && forall q: nat :: v <= q < k ==> IsQualifier(tokens, q)
  }

  /** The keyword of a declaration starting at token s is token k. */
  ghost predicate KeywordAt(tokens: seq<Token>, s: nat, k: nat) {
    exists v: nat :: VisibilityEnd(tokens, s, v) && QualifiersEnd(tokens, v, k)
  }

  /** Attributes would start with a pound sign, which the scanner never yields. */
  method SkipModifiers(tokens: seq<Token>, start: nat) returns (i: nat)
    requires start <= |tokens|
    ensures start <= i <= |tokens|
    ensures !Is(tokens, start, "#") ==> KeywordAt(tokens, start, i)
  {
    i := start;
    while i < |tokens| && tokens[i].text == "#"
      invariant start <= i <= |tokens| && (i == start || Is(tokens, start, "#"))
    {
      i := i + 1;
      if i < |tokens| && tokens[i].text == "[" {
        var depth := 1;
        i := i + 1;
        while i < |tokens| && depth > 0
          invariant start < i <= |tokens|
        {
          if tokens[i].text == "[" {
            depth := depth + 1;
          } else if tokens[i].text == "]" {
            depth := depth - 1;
          }
          i := i + 1;
        }
      }
    }
    ghost var s := i;
    if i < |tokens| && tokens[i].text == "pub" {
      i := i + 1;
      if i < |tokens| && tokens[i].text == "(" {
        while i < |tokens| && tokens[i].text != ")"
          invariant s + 1 <= i <= |tokens|
          invariant forall k: nat :: s + 1 <= k < i ==> !Is(tokens, k, ")")
        {
          i := i + 1;
        }
        if i < |tokens| { i := i + 1; }
      }
    }
    ghost var v := i;
    assert VisibilityEnd(tokens, s, v);
    while i < |tokens| && tokens[i].text in {"default", "async", "const", "unsafe", "extern"}
      invariant v <= i <= |tokens|
      invariant forall q: nat :: v <= q < i ==> IsQualifier(tokens, q)
    {
      if tokens[i].text == "const" && i + 1 < |tokens| && tokens[i + 1].text != "fn" { break; }
      i := i + 1;
    }
    assert QualifiersEnd(tokens, v, i);
  }

  // ----- Declarations -----

  function SimpleKind(keyword: string): Option<Kind> {
    if keyword == "fn" then Some(Function)
    else if keyword == "struct" then Some(Struct)
    else if keyword == "enum" then Some(Enum)
    else if keyword == "trait" then Some(Trait)
    else if keyword == "type" then Some(TypeAlias)
    else if keyword == "const" then Some(Const)
    else None
  }

  function Joined(tokens: seq<Token>): string {
    if tokens == [] then []
    else if |tokens| == 1 then tokens[0].text
    else Joined(tokens[..|tokens| - 1]) + " " + tokens[|tokens| - 1].text
  }

  /** Each keyword declares its own kind of item, and no other word does. */
  lemma KeywordKinds(keyword: string)
    ensures SimpleKind("fn") == Some(Function) && SimpleKind("struct") == Some(Struct)
    ensures SimpleKind("enum") == Some(Enum) && SimpleKind("trait") == Some(Trait)
    ensures SimpleKind("type") == Some(TypeAlias) && SimpleKind("const") == Some(Const)
    ensures SimpleKind(keyword).Some? <==> keyword in {"fn", "struct", "enum", "trait", "type", "const"}
  {
  }

  /** Texts are joined by one space wherever the list is cut. */
  lemma {:induction false} JoinedBySpaces(tokens: seq<Token>, n: nat)
    requires 0 < n < |tokens|
    ensures Joined(tokens) == Joined(tokens[..n]) + " " + Joined(tokens[n..])
    ensures Joined(tokens[..1]) == tokens[0].text && Joined([]) == []
    decreases |tokens|
  {
    var last := |tokens| - 1;
    if n < last {
      JoinedBySpaces(tokens[..last], n);
      assert tokens[..last][..n] == tokens[..n] && tokens[..last][n..] == tokens[n..][..last - n];
      assert tokens[..last][..1] == tokens[..1];
    }
  }

  predicate IsImpl(tokens: seq<Token>, k: nat) { Is(tokens, k, "impl") }

  /** A recognised declaration has its keyword at token k. */
  ghost predicate Declares(tokens: seq<Token>, k: nat) {
    && k + 1 < |tokens|
    && if IsImpl(tokens, k) then exists s: nat :: HeaderEnd(tokens, k + 1, s) && Is(tokens, s, "{")
       else if tokens[k].text == "mod" then EndsHeader(tokens, k + 2)
       else SimpleKind(tokens[k].text).Some?
  }

  datatype File = File(tokens: seq<Token>, index: Index, codeLen: nat)

  /** Where the rest of the header is searched for its block: an `impl` has no name. */
  function AfterName(tokens: seq<Token>, k: nat): nat { if IsImpl(tokens, k) then k + 1 else k + 2 }

  function LastLine(index: Index, byteEnd: nat): nat {
    index.ByteToLine(if byteEnd == 0 then 0 else byteEnd - 1)
  }

  /** The evidence of a declaration with its keyword at token k and its block ending at
      this byte; None when the offsets do not fit together, which only a code shorter
      than its text can cause. */
  function EvidenceOf(file: File, k: nat, byteEnd: nat): (r: Option<Evidence>)
    requires k + 1 < |file.tokens|
    ensures r.Some? ==> r.value.byteStart == file.tokens[k].start && r.value.byteEnd == byteEnd
  {
    var keyword, name := file.tokens[k], file.tokens[k + 1];
    NewEvidence(keyword.start, byteEnd, file.index.ByteToLine(keyword.start),
                if keyword.text == "mod" && Is(file.tokens, k + 2, ";") then file.index.ByteToLine(byteEnd)
                else LastLine(file.index, byteEnd),
                if keyword.text == "impl" then None else Some(NameRange(name.start, name.end)))
  }

  /** The lines are those of the first byte and of the last one, except that a declared
      `mod` without a body ends on the line of the byte behind it. The name, which an
      `impl` has not, is the token after the keyword. */
  lemma EvidenceLines(file: File, code: seq<byte>, k: nat, byteEnd: nat)
    requires k + 1 < |file.tokens| && file.index.Indexes(code) && EvidenceOf(file, k, byteEnd).Some?
    ensures
      var evidence, tokens := EvidenceOf(file, k, byteEnd).value, file.tokens;
      var last := if (Is(tokens, k, "mod") && Is(tokens, k + 2, ";")) || byteEnd == 0 then byteEnd else byteEnd - 1;
      && evidence.lineStart == 1 + Newlines(code[..Min(tokens[k].start, |code|)])
      && evidence.lineEnd == 1 + Newlines(code[..Min(last, |code|)])
      && evidence.name == if IsImpl(tokens, k) then None
                          else Some(NameRange(tokens[k + 1].start, tokens[k + 1].end))
  {
    hide Newlines, StartsUpTo, Index.Indexes;
    LineOfOffset(file.index, code, file.tokens[k].start);
    LineOfOffset(file.index, code, byteEnd);
    if 0 < byteEnd { LineOfOffset(file.index, code, byteEnd - 1); }
  }

  /** A declaration starts at token `at`: its keyword is token k, its block ends at this
      byte and before this token, and its evidence is valid. */
  ghost predicate Block(file: File, at: nat, k: nat, byteEnd: nat, next: nat) {
    && KeywordAt(file.tokens, at, k) && Declares(file.tokens, k)
    && BlockEnd(file.tokens, AfterName(file.tokens, k), file.codeLen, byteEnd, next)
    && EvidenceOf(file, k, byteEnd).Some?
  }

  ghost predicate Starts(file: File, at: nat) {
    exists k: nat, byteEnd: nat, next: nat :: Block(file, at, k, byteEnd, next)
  }

  // ----- The grammar of items -----

  /** The item declared at token `at`, which ends before token `next`. Inside an
      `impl` a function is called a method. */
  ghost predicate IsItem(file: File, at: nat, item: Item, next: nat, nested: bool)
    decreases item, 2
  {
    exists k: nat :: Describes(file, at, k, item, next, nested)
  }

  ghost predicate Describes(file: File, at: nat, k: nat, item: Item, next: nat, nested: bool)
    decreases item, 1
  {
    && Block(file, at, k, item.evidence.byteEnd, next)
    && EvidenceOf(file, k, item.evidence.byteEnd) == Some(item.evidence)
    && if IsImpl(file.tokens, k) then item.kind == Impl && ImplBody(file, k + 1, next, item)
       else
         && item.name == file.tokens[k + 1].text && item.children == []
         && item.kind == KindOf(file.tokens[k].text, nested)
  }

  function KindOf(keyword: string, nested: bool): Kind {
    if keyword == "fn" && nested then Method
    else match SimpleKind(keyword)
      case Some(kind) => kind
      case None => Module
  }

  /** The name is the header up to the opening brace, the children the items found
      between it and the closing one. */
  ghost predicate ImplBody(file: File, i: nat, next: nat, item: Item)
    decreases item, 0
  {
    exists s: nat ::
      && HeaderEnd(file.tokens, i, s) && s < |file.tokens|
      && item.name == "impl " + Joined(file.tokens[i..s])
      && Finds(file, s + 1, next - 1, item.children)
  }

  /** A scan that goes on to the limit finds these items. */
  ghost predicate Finds(file: File, from: nat, limit: int, items: seq<Item>)
    decreases items, 2
  {
    exists c: nat :: limit <= c && Reaches(file, from, limit, items, c, true)
  }

  /** Nothing starts at the tokens from a up to b. */
  ghost predicate Barren(file: File, a: nat, b: nat) {
    a <= b && forall q: nat :: a <= q < b ==> !Starts(file, q)
  }

  /** Scanning from token `from`, taking every item where one starts before the limit
      and moving one token on where none does, finds these items and reaches token c. */
  ghost predicate Reaches(file: File, from: nat, limit: int, items: seq<Item>, c: nat, nested: bool)
    decreases items, 1
  {
    if items == [] then Barren(file, from, c)
    else ReachesLast(file, from, limit, items, items[..|items| - 1], items[|items| - 1], c, nested)
  }

  ghost predicate ReachesLast(file: File, from: nat, limit: int, items: seq<Item>, front: seq<Item>, last: Item,
                              c: nat, nested: bool)
    requires items != [] && front == items[..|items| - 1] && last == items[|items| - 1]
    decreases items, 0
  {
    exists at: nat, next: nat ::
      && Reaches(file, from, limit, front, at, nested) && at < limit
      && IsItem(file, at, last, next, nested)
      && Barren(file, next, c)
  }

  lemma ReachesNothing(file: File, from: nat, limit: int, nested: bool)
    ensures Reaches(file, from, limit, [], from, nested)
  {
  }

  lemma ReachesFurther(file: File, from: nat, limit: int, items: seq<Item>, c: nat, nested: bool)
    requires Reaches(file, from, limit, items, c, nested) && !Starts(file, c)
    ensures Reaches(file, from, limit, items, c + 1, nested)
  {
    hide IsItem, Starts;
    if items != [] {
      var front, last := items[..|items| - 1], items[|items| - 1];
      assert ReachesLast(file, from, limit, items, front, last, c, nested);
      var at: nat, next: nat :|
        && Reaches(file, from, limit, front, at, nested) && at < limit
        && IsItem(file, at, last, next, nested)
        && Barren(file, next, c);
      assert Barren(file, next, c + 1);
    }
  }

  lemma ReachesItem(file: File, from: nat, limit: int, items: seq<Item>, c: nat, item: Item, next: nat, nested: bool)
    requires Reaches(file, from, limit, items, c, nested) && c < limit && IsItem(file, c, item, next, nested)
    ensures Reaches(file, from, limit, items + [item], next, nested)
  {
    hide IsItem, Starts;
    assert (items + [item])[..|items|] == items;
    assert Barren(file, next, next);
    assert ReachesLast(file, from, limit, items + [item], items, item, next, nested);
  }

  /** The item as it appears directly inside an `impl`. */
  function AsMethod(item: Item): Item {
    if item.kind == Function then item.(kind := Method) else item
  }

  lemma NestItem(file: File, at: nat, item: Item, next: nat)
    requires IsItem(file, at, item, next, false)
    ensures IsItem(file, at, AsMethod(item), next, true)
  {
    hide Describes;
    var k: nat :| Describes(file, at, k, item, next, false);
    NestDescription(file, at, k, item, next);
  }

  lemma NestDescription(file: File, at: nat, k: nat, item: Item, next: nat)
    requires Describes(file, at, k, item, next, false)
    ensures Describes(file, at, k, AsMethod(item), next, true)
  {
    hide Block, ImplBody, EvidenceOf;
    assert k + 1 < |file.tokens| by { BlockInside(file, at, k, item.evidence.byteEnd, next); }
    if IsImpl(file.tokens, k) {
      assert AsMethod(item) == item;
    } else {
      KindsOfKeywords(file.tokens[k].text);
    }
  }

  lemma KindsOfKeywords(keyword: string)
    ensures KindOf(keyword, false) == Function <==> keyword == "fn"
    ensures KindOf(keyword, true) == if keyword == "fn" then Method else KindOf(keyword, false)
    ensures KindOf(keyword, true) != Function && KindOf(keyword, false) != Impl && KindOf(keyword, true) != Impl
  {
  }

  // ----- Identifiers -----

  /** Ids of a subtree, children before their parent. */
  function PostIds(item: Item): seq<nat> {
    PostAll(item.children) + [item.id]
  }

  function PostAll(items: seq<Item>): seq<nat> {
    if items == [] then [] else PostAll(items[..|items| - 1]) + PostIds(items[|items| - 1])
  }

  lemma PostSnoc(items: seq<Item>, item: Item)
    ensures PostAll(items + [item]) == PostAll(items) + PostIds(item)
  {
    assert (items + [item])[..|items|] == items;
  }

  /** Ids handed out in this order while the counter ran from lo to hi. */
  ghost predicate Allocated(ids: seq<nat>, lo: nat, hi: nat) {
    && lo <= hi
    && (forall k :: 0 <= k < |ids| ==> lo <= ids[k] < hi)
    && (forall j, k :: 0 <= j < k < |ids| ==> ids[j] < ids[k])
  }

  /** As many ids as the counter moved are all of them. */
  lemma {:induction false} AllocatedAll(ids: seq<nat>, lo: nat, hi: nat)
    requires Allocated(ids, lo, hi) && |ids| == hi - lo
    ensures forall k :: 0 <= k < |ids| ==> ids[k] == lo + k
    decreases |ids|
  {
    if ids != [] {
      var front := ids[..|ids| - 1];
      assert ids[|ids| - 1] >= hi - 1 by { AtLeast(ids, lo, hi, |ids| - 1); }
      AllocatedAll(front, lo, hi - 1);
    }
  }

  lemma {:induction false} AtLeast(ids: seq<nat>, lo: nat, hi: nat, k: nat)
    requires Allocated(ids, lo, hi) && k < |ids|
    ensures ids[k] >= lo + k
  {
    if k > 0 { AtLeast(ids, lo, hi, k - 1); }
  }

  // ----- The parser -----

  lemma {:induction false} LinesRise(starts: seq<nat>, p: nat, q: nat)
    requires p <= q
    ensures StartsUpTo(starts, p) <= StartsUpTo(starts, q)
  {
    if starts != [] { LinesRise(starts[1..], p, q); }
  }

  lemma KeywordIsUnique(tokens: seq<Token>, at: nat, k: nat, k': nat)
    requires KeywordAt(tokens, at, k) && KeywordAt(tokens, at, k')
    ensures k == k'
  {
    var v: nat :| VisibilityEnd(tokens, at, v) && QualifiersEnd(tokens, v, k);
    var w: nat :| VisibilityEnd(tokens, at, w) && QualifiersEnd(tokens, w, k');
    VisibilityIsUnique(tokens, at, v, w);
    hide IsQualifier, VisibilityEnd;
  }

  lemma VisibilityIsUnique(tokens: seq<Token>, at: nat, v: nat, w: nat)
    requires VisibilityEnd(tokens, at, v) && VisibilityEnd(tokens, at, w)
    ensures v == w
  {
    hide Is;
  }

  /** A declaration's extent is determined by where it starts. */
  lemma BlockIsUnique(file: File, at: nat, k: nat, b: nat, next: nat, k': nat, b': nat, next': nat)
    requires Block(file, at, k, b, next) && Block(file, at, k', b', next')
    ensures k == k' && b == b' && next == next'
  {
    hide KeywordAt, Declares, BlockEnd, EvidenceOf;
    KeywordIsUnique(file.tokens, at, k, k');
    BlockEndIsUnique(file.tokens, AfterName(file.tokens, k), file.codeLen, b, next, b', next');
  }

  lemma NothingStarts(file: File, at: nat, k: nat)
    requires KeywordAt(file.tokens, at, k) && !Declares(file.tokens, k)
    ensures !Starts(file, at)
  {
    hide KeywordAt, Declares, BlockEnd, EvidenceOf;
    forall q: nat, byteEnd: nat, next: nat | Block(file, at, q, byteEnd, next) ensures false {
      KeywordIsUnique(file.tokens, at, k, q);
    }
  }

  lemma BadEvidenceStartsNothing(file: File, at: nat, k: nat, byteEnd: nat, next: nat)
    requires KeywordAt(file.tokens, at, k) && k + 1 < |file.tokens|
    requires BlockEnd(file.tokens, AfterName(file.tokens, k), file.codeLen, byteEnd, next)
    requires EvidenceOf(file, k, byteEnd).None?
    ensures !Starts(file, at)
  {
    hide KeywordAt, Declares, BlockEnd, EvidenceOf;
    forall q: nat, b: nat, n: nat | Block(file, at, q, b, n) ensures false {
      KeywordIsUnique(file.tokens, at, k, q);
      BlockEndIsUnique(file.tokens, AfterName(file.tokens, k), file.codeLen, byteEnd, next, b, n);
    }
  }

  /** With code at least as long as the text, every declaration's evidence is valid. */
  lemma FittingEvidence(file: File, n: nat, k: nat, byteEnd: nat, next: nat)
    requires TokensOk(file.tokens, n) && n <= file.codeLen && k + 1 < |file.tokens|
    requires BlockEnd(file.tokens, AfterName(file.tokens, k), file.codeLen, byteEnd, next)
    ensures EvidenceOf(file, k, byteEnd).Some?
  {
    EndMoves(file.tokens, AfterName(file.tokens, k), file.codeLen, byteEnd, next);
    hide BlockEnd, StartsUpTo;
    var tokens, start := file.tokens, file.tokens[k].start;
    assert Before(tokens[k], tokens[k + 1]);
    EndsBehind(tokens, n, file.codeLen, byteEnd, next, k);
    if !IsImpl(tokens, k) && k + 1 < next { EndsBehind(tokens, n, file.codeLen, byteEnd, next, k + 1); }
    LinesRise(file.index.lineStarts, start, byteEnd - 1);
    LinesRise(file.index.lineStarts, byteEnd - 1, byteEnd);
  }

  lemma EndsBehind(tokens: seq<Token>, n: nat, codeLen: nat, byteEnd: nat, next: nat, k: nat)
    requires TokensOk(tokens, n) && n <= codeLen && k < next <= |tokens|
    requires (byteEnd == codeLen && next == |tokens|) || byteEnd == tokens[next - 1].end
    ensures tokens[k].start < tokens[k].end <= byteEnd
  {
    if k < next - 1 { assert Before(tokens[k], tokens[next - 1]); }
  }

  /** What a call of the parser promises. With code as long as the text, an item uses as
      many ids as it has members, and no item uses none. */
  ghost predicate Parsed(file: File, start: nat, id: nat, r: Option<(Item, nat)>, nextId: nat, fits: bool) {
    && id <= nextId
    && match r
       case Some((item, next)) =>
         && start < next <= |file.tokens| && IsItem(file, start, item, next, false)
         && Allocated(PostIds(item), id, nextId) && (fits ==> |PostIds(item)| == nextId - id)
       case None => !Starts(file, start) && (fits ==> nextId == id)
  }

  /** Everything but an `impl`. */
  method ParseFlat(file: File, start: nat, k: nat, id: nat, ghost n: nat) returns (r: Option<(Item, nat)>, nextId: nat)
    requires TokensOk(file.tokens, n) && start <= k < |file.tokens|
    requires KeywordAt(file.tokens, start, k) && file.tokens[k].text != "impl"
    ensures Parsed(file, start, id, r, nextId, n <= file.codeLen)
  {
    hide KeywordAt, BlockEnd, HeaderEnd, EndsAfter, BlockClose, Starts, IsItem, EvidenceOf, TokensOk, SimpleKind;
    var tokens, keyword := file.tokens, file.tokens[k].text;
    r, nextId := None, id;
    if SimpleKind(keyword).None? && keyword != "mod" { NothingStarts(file, start, k); return; }
    if k + 1 >= |tokens| { NothingStarts(file, start, k); return; }
    var byteEnd, next;
    if keyword == "mod" && k + 2 < |tokens| && tokens[k + 2].text == ";" {
      byteEnd, next := tokens[k + 2].end, k + 3;
      DirectEnd(tokens, k + 2, file.codeLen);
    } else if keyword == "mod" && !(k + 2 < |tokens| && tokens[k + 2].text == "{") {
      NothingStarts(file, start, k);
      return;
    } else {
      byteEnd, next := FindBlockEnd(tokens, k + 2, file.codeLen);
    }
    var evidence := EvidenceOf(file, k, byteEnd);
    if n <= file.codeLen { FittingEvidence(file, n, k, byteEnd, next); }
    if evidence.None? { BadEvidenceStartsNothing(file, start, k, byteEnd, next); return; }
    var item := Item(id, tokens[k + 1].text, if keyword == "mod" then Module else SimpleKind(keyword).value,
        evidence.value, []);
    FlatIsItem(file, start, k, item, next);
    r, nextId := Some((item, next)), id + 1;
    assert PostIds(item) == [id];
  }

  lemma FlatIsItem(file: File, start: nat, k: nat, item: Item, next: nat)
    requires k + 1 < |file.tokens| && KeywordAt(file.tokens, start, k) && Declares(file.tokens, k)
        && !IsImpl(file.tokens, k)
    requires BlockEnd(file.tokens, k + 2, file.codeLen, item.evidence.byteEnd, next)
    requires EvidenceOf(file, k, item.evidence.byteEnd) == Some(item.evidence)
    requires item.name == file.tokens[k + 1].text && item.children == []
    requires item.kind == if file.tokens[k].text == "mod" then Module else SimpleKind(file.tokens[k].text).value
    ensures IsItem(file, start, item, next, false) && start < next <= |file.tokens|
  {
    KeywordFollows(file.tokens, start, k);
    EndMoves(file.tokens, k + 2, file.codeLen, item.evidence.byteEnd, next);
    hide KeywordAt, Declares, BlockEnd, EvidenceOf;
    assert SimpleKind("mod") == None;
    assert Describes(file, start, k, item, next, false);
  }

  lemma DirectEnd(tokens: seq<Token>, s: nat, codeLen: nat)
    requires Is(tokens, s, ";")
    ensures BlockEnd(tokens, s, codeLen, tokens[s].end, s + 1)
  {
    assert HeaderEnd(tokens, s, s) && EndsAfter(tokens, s, codeLen, tokens[s].end, s + 1);
  }

  /** An `impl` block and the items found inside its braces. */
  method ParseImpl(file: File, start: nat, k: nat, id: nat, ghost n: nat) returns (r: Option<(Item, nat)>, nextId: nat)
    requires TokensOk(file.tokens, n) && start <= k < |file.tokens|
    requires KeywordAt(file.tokens, start, k) && file.tokens[k].text == "impl"
    ensures Parsed(file, start, id, r, nextId, n <= file.codeLen)
    decreases |file.tokens| - start, 1
  {
    hide KeywordAt, BlockEnd, HeaderEnd, EndsAfter, BlockClose, Finds, IsItem, Starts, Declares, Allocated, PostAll,
      Joined, EvidenceOf, TokensOk;
    var tokens := file.tokens;
    var s := FindHeaderEnd(tokens, k + 1);
    if s >= |tokens| || tokens[s].text != "{" {
      r, nextId := None, id;
      NoImplBody(tokens, k, s);
      NothingStarts(file, start, k);
      return;
    }
    var byteEnd, next := FindBlockEnd(tokens, s, file.codeLen);
    SameEnd(tokens, k + 1, s, file.codeLen, byteEnd, next);
    var children;
    children, nextId := ParseBody(file, start, s + 1, next, id, n);
    AllocatedMore(PostAll(children), id, nextId);
    var evidence := EvidenceOf(file, k, byteEnd);
    if n <= file.codeLen { FittingEvidence(file, n, k, byteEnd, next); }
    if evidence.None? {
      r := None;
      BadEvidenceStartsNothing(file, start, k, byteEnd, next);
      return;
    }
    var item := Item(nextId, "impl " + Joined(tokens[k + 1..s]), Impl, evidence.value, children);
    ImplIsItem(file, start, k, s, item, next);
    nextId := nextId + 1;
    r := Some((item, next));
  }

  method FindHeaderEnd(tokens: seq<Token>, i: nat) returns (s: nat)
    requires i <= |tokens|
    ensures HeaderEnd(tokens, i, s) && i <= s <= |tokens|
  {
    s := i;
    while s < |tokens| && tokens[s].text != "{" && tokens[s].text != ";"
      invariant i <= s <= |tokens|
      invariant forall q: nat :: i <= q < s ==> !EndsHeader(tokens, q)
    {
      s := s + 1;
    }
  }

  lemma AllocatedMore(ids: seq<nat>, lo: nat, hi: nat)
    requires Allocated(ids, lo, hi)
    ensures lo <= hi && Allocated(ids + [hi], lo, hi + 1)
  {
  }

  /** Ids of one more item follow those of the items before it. */
  lemma AllocatedItem(items: seq<Item>, item: Item, lo: nat, mid: nat, hi: nat)
    requires Allocated(PostAll(items), lo, mid) && Allocated(PostIds(item), mid, hi)
    ensures Allocated(PostAll(items + [AsMethod(item)]), lo, hi) && Allocated(PostAll(items + [item]), lo, hi)
    ensures |PostAll(items + [AsMethod(item)])| == |PostAll(items + [item])| == |PostAll(items)| + |PostIds(item)|
  {
    PostSnoc(items, AsMethod(item));
    PostSnoc(items, item);
    assert PostIds(AsMethod(item)) == PostIds(item);
    hide PostAll, PostIds;
  }

  lemma AllocatedWider(ids: seq<nat>, lo: nat, mid: nat, hi: nat)
    requires Allocated(ids, lo, mid) && mid <= hi
    ensures Allocated(ids, lo, hi)
  {
  }

  lemma NoIds(lo: nat)
    ensures Allocated(PostAll([]), lo, lo) && PostAll([]) == []
  {
  }

  /** The scan inside an `impl`, which stops before its closing brace. */
  method ParseBody(file: File, ghost outer: nat, from: nat, next: nat, id: nat, ghost n: nat)
    returns (children: seq<Item>, nextId: nat)
    requires TokensOk(file.tokens, n) && outer < from && next <= |file.tokens|
    ensures Allocated(PostAll(children), id, nextId) && Finds(file, from, next - 1, children)
    ensures n <= file.codeLen ==> |PostAll(children)| == nextId - id
    decreases |file.tokens| - outer, 0
  {
    hide IsItem, Starts, Reaches, Allocated, PostAll, PostIds, TokensOk;
    ReachesNothing(file, from, next - 1, true);
    NoIds(id);
    var c := from;
    children, nextId := [], id;
    while c + 1 < next
      invariant from <= c && Allocated(PostAll(children), id, nextId)
      invariant Reaches(file, from, next - 1, children, c, true)
      invariant n <= file.codeLen ==> |PostAll(children)| == nextId - id
      decreases next - c
    {
      var found, after := ParseItem(file, c, nextId, n);
      match found {
        case Some((item, afterItem)) =>
          AllocatedItem(children, item, id, nextId, after);
          NestItem(file, c, item, afterItem);
          ReachesItem(file, from, next - 1, children, c, AsMethod(item), afterItem, true);
          children, c := children + [AsMethod(item)], afterItem;
        case None =>
          AllocatedWider(PostAll(children), id, nextId, after);
          ReachesFurther(file, from, next - 1, children, c, true);
          c := c + 1;
      }
      nextId := after;
    }
  }

  lemma NoImplBody(tokens: seq<Token>, k: nat, s: nat)
    requires k < |tokens| && tokens[k].text == "impl" && HeaderEnd(tokens, k + 1, s) && !Is(tokens, s, "{")
    ensures !Declares(tokens, k)
  {
    HeaderIsUnique(tokens, k + 1, s);
    hide HeaderEnd;
  }

  lemma HeaderIsUnique(tokens: seq<Token>, i: nat, s: nat)
    requires HeaderEnd(tokens, i, s)
    ensures forall t: nat :: HeaderEnd(tokens, i, t) ==> t == s
  {
  }

  lemma SameEnd(tokens: seq<Token>, i: nat, s: nat, codeLen: nat, byteEnd: nat, next: nat)
    requires HeaderEnd(tokens, i, s) && Is(tokens, s, "{") && BlockEnd(tokens, s, codeLen, byteEnd, next)
    ensures BlockEnd(tokens, i, codeLen, byteEnd, next)
  {
    var t: nat :| HeaderEnd(tokens, s, t) && EndsAfter(tokens, t, codeLen, byteEnd, next);
    assert t == s;
  }

  lemma ImplIsItem(file: File, start: nat, k: nat, s: nat, item: Item, next: nat)
    requires k + 1 < |file.tokens| && KeywordAt(file.tokens, start, k) && IsImpl(file.tokens, k)
    requires HeaderEnd(file.tokens, k + 1, s) && Is(file.tokens, s, "{")
    requires BlockEnd(file.tokens, k + 1, file.codeLen, item.evidence.byteEnd, next)
    requires EvidenceOf(file, k, item.evidence.byteEnd) == Some(item.evidence)
    requires item.kind == Impl && k + 1 <= s && item.name == "impl " + Joined(file.tokens[k + 1..s])
    requires Finds(file, s + 1, next - 1, item.children)
    ensures IsItem(file, start, item, next, false) && start < next <= |file.tokens|
  {
    KeywordFollows(file.tokens, start, k);
    EndMoves(file.tokens, k + 1, file.codeLen, item.evidence.byteEnd, next);
    hide KeywordAt, BlockEnd, HeaderEnd, Finds, Joined, EvidenceOf;
    assert ImplBody(file, k + 1, next, item);
    assert Describes(file, start, k, item, next, false);
  }

  method ParseItem(file: File, start: nat, id: nat, ghost n: nat) returns (r: Option<(Item, nat)>, nextId: nat)
    requires TokensOk(file.tokens, n) && start < |file.tokens|
    ensures Parsed(file, start, id, r, nextId, n <= file.codeLen)
    decreases |file.tokens| - start, 2
  {
    hide KeywordAt, Starts, IsItem, Parsed;
    assert !Is(file.tokens, start, "#") by { hide *; NoPoundsAt(file.tokens, n, start); }
    var i := SkipModifiers(file.tokens, start);
    if i >= |file.tokens| {
      r, nextId := None, id;
      NothingStarts(file, start, i);
      assert Parsed(file, start, id, r, nextId, n <= file.codeLen) by {
        NothingParsed(file, start, id, n <= file.codeLen);
      }
    } else if file.tokens[i].text == "impl" {
      r, nextId := ParseImpl(file, start, i, id, n);
    } else {
      r, nextId := ParseFlat(file, start, i, id, n);
    }
  }

  lemma NoPoundsAt(tokens: seq<Token>, n: nat, k: nat)
    requires TokensOk(tokens, n)
    ensures !Is(tokens, k, "#")
  {
  }

  lemma NothingParsed(file: File, start: nat, id: nat, fits: bool)
    requires !Starts(file, start)
    ensures Parsed(file, start, id, None, id, fits)
  {
  }

  // ----- How deep the items nest -----

  /** Opening braces among the tokens from i on. */
  function Braces(tokens: seq<Token>, i: nat): nat
    decreases |tokens| - i
  {
    if i >= |tokens| then 0 else (if tokens[i].text == "{" then 1 else 0) + Braces(tokens, i + 1)
  }

  lemma {:induction false} FewerBracesLater(tokens: seq<Token>, i: nat, j: nat)
    requires i <= j
    ensures Braces(tokens, j) <= Braces(tokens, i)
    decreases j - i
  {
    if i < j { FewerBracesLater(tokens, i + 1, j); }
  }

  lemma {:induction false} DepthSnoc(items: seq<Item>, item: Item)
    ensures DepthAll(items + [item]) == Max(DepthAll(items), item.Depth())
  {
    if items == [] {
      assert [] + [item] == [item];
    } else {
      assert (items + [item])[1..] == items[1..] + [item];
      DepthSnoc(items[1..], item);
    }
  }

  /** An item is at most one deeper than the opening braces from its start on: every
      level but the innermost has a brace of its own. */
  lemma {:induction false} DepthBound(file: File, at: nat, item: Item, next: nat, nested: bool)
    requires IsItem(file, at, item, next, nested)
    ensures at < next && item.Depth() <= 1 + Braces(file.tokens, at)
    decreases item, 1
  {
    hide IsItem, Reaches;
    var k, s, c := OpenItem(file, at, item, next, nested);
    if item.children == [] {
      assert DepthAll(item.children) == 0;
    } else {
      DepthBoundAll(file, s + 1, next - 1, item.children, c, true);
      FewerBracesLater(file.tokens, at, s);
    }
  }

  lemma {:induction false} DepthBoundAll(file: File, from: nat, limit: int, items: seq<Item>, c: nat, nested: bool)
    requires Reaches(file, from, limit, items, c, nested)
    ensures from <= c && DepthAll(items) <= 1 + Braces(file.tokens, from)
    decreases items, 0
  {
    if items == [] {
      assert Barren(file, from, c);
    } else {
      hide IsItem, Reaches, Braces;
      var front, last := items[..|items| - 1], items[|items| - 1];
      var at, next := OpenLast(file, from, limit, items, c, nested);
      DepthBoundAll(file, from, limit, front, at, nested);
      DepthBound(file, at, last, next, nested);
      FewerBracesLater(file.tokens, from, at);
      DepthSnoc(front, last);
      assert front + [last] == items;
    }
  }

  /** The keyword of an item and, when it has children, the brace they follow and
      where the scan for them ended. */
  lemma OpenItem(file: File, at: nat, item: Item, next: nat, nested: bool) returns (k: nat, s: nat, c: nat)
    requires IsItem(file, at, item, next, nested)
    ensures Describes(file, at, k, item, next, nested)
    ensures at <= k && k + 1 < next <= |file.tokens|
    ensures item.evidence.byteStart == file.tokens[k].start
    ensures (item.evidence.byteEnd == file.codeLen && next == |file.tokens|)
        || item.evidence.byteEnd == file.tokens[next - 1].end
    ensures item.kind == Function ==> !nested
    ensures IsImpl(file.tokens, k) ==>
      && item.kind == Impl && k < s && HeaderEnd(file.tokens, k + 1, s) && Is(file.tokens, s, "{")
      && next <= c + 1 && Reaches(file, s + 1, next - 1, item.children, c, true)
    ensures !IsImpl(file.tokens, k) ==> item.children == []
  {
    hide Describes, Reaches;
    k :| Describes(file, at, k, item, next, nested);
    DescribedEnd(file, at, k, item, next, nested);
    s, c := 0, 0;
    if IsImpl(file.tokens, k) { s, c := OpenBody(file, at, k, item, next, nested); }
  }

  lemma OpenBody(file: File, at: nat, k: nat, item: Item, next: nat, nested: bool) returns (s: nat, c: nat)
    requires Describes(file, at, k, item, next, nested) && IsImpl(file.tokens, k)
    ensures k < s && HeaderEnd(file.tokens, k + 1, s) && Is(file.tokens, s, "{")
    ensures next <= c + 1 && Reaches(file, s + 1, next - 1, item.children, c, true)
  {
    hide BlockEnd, Reaches, EvidenceOf, KeywordAt, ImplBody, Declares, HeaderEnd;
    s, c := BodyOf(file, k + 1, next, item);
    BraceAt(file.tokens, k, s);
  }

  lemma BodyOf(file: File, i: nat, next: nat, item: Item) returns (s: nat, c: nat)
    requires ImplBody(file, i, next, item)
    ensures i <= s && HeaderEnd(file.tokens, i, s)
    ensures next <= c + 1 && Reaches(file, s + 1, next - 1, item.children, c, true)
  {
    hide Reaches, Joined;
    s :| HeaderEnd(file.tokens, i, s) && s < |file.tokens| && Finds(file, s + 1, next - 1, item.children);
    c :| next - 1 <= c && Reaches(file, s + 1, next - 1, item.children, c, true);
  }

  lemma BraceAt(tokens: seq<Token>, k: nat, s: nat)
    requires Declares(tokens, k) && IsImpl(tokens, k) && HeaderEnd(tokens, k + 1, s)
    ensures Is(tokens, s, "{")
  {
    HeaderIsUnique(tokens, k + 1, s);
    hide HeaderEnd;
  }

  lemma OpenLast(file: File, from: nat, limit: int, items: seq<Item>, c: nat, nested: bool) returns (at: nat, next: nat)
    requires Reaches(file, from, limit, items, c, nested) && items != []
    ensures Reaches(file, from, limit, items[..|items| - 1], at, nested) && at < limit
    ensures IsItem(file, at, items[|items| - 1], next, nested) && Barren(file, next, c)
  {
    hide IsItem;
    var front, last := items[..|items| - 1], items[|items| - 1];
    assert ReachesLast(file, from, limit, items, front, last, c, nested);
    at, next :|
      && Reaches(file, from, limit, front, at, nested) && at < limit
      && IsItem(file, at, last, next, nested) && Barren(file, next, c);
  }

  /** Opening brace bytes anywhere in the text. */
  function BraceBytes(source: seq<byte>): nat {
    if source == [] then 0
    else BraceBytes(source[..|source| - 1]) + if source[|source| - 1] == 123 then 1 else 0
  }

  lemma {:induction false} MoreBraceBytes(source: seq<byte>, i: nat, j: nat)
    requires i < j <= |source|
    ensures BraceBytes(source[..i]) + (if source[i] == 123 then 1 else 0) <= BraceBytes(source[..j])
    decreases j
  {
    assert source[..j][..j - 1] == source[..j - 1];
    if i < j - 1 { MoreBraceBytes(source, i, j - 1); }
  }

  lemma {:induction false} BracesSnoc(tokens: seq<Token>, token: Token, i: nat)
    requires i <= |tokens|
    ensures Braces(tokens + [token], i) == Braces(tokens, i) + if token.text == "{" then 1 else 0
    decreases |tokens| - i
  {
    if i < |tokens| {
      BracesSnoc(tokens, token, i + 1);
    } else {
      assert Braces(tokens + [token], i + 1) == 0;
    }
  }

  /** Each brace token is a brace byte of its own. */
  lemma {:induction false} BracesAreBytes(source: seq<byte>, pieces: seq<Piece>, i: nat)
    requires Lexes(source, pieces, i)
    ensures i <= |source| && Braces(TokensOf(pieces), 0) <= BraceBytes(source[..i])
    decreases |pieces|
  {
    if pieces != [] {
      var front, last := pieces[..|pieces| - 1], pieces[|pieces| - 1];
      PieceMoves(source, last);
      BracesAreBytes(source, front, last.Start());
      MoreBraceBytes(source, last.Start(), i);
      if last.Kept? {
        BracesSnoc(TokensOf(front), last.token, 0);
        BraceToken(source, last.token);
      } else {
        assert TokensOf(pieces) == TokensOf(front);
      }
    }
  }

  lemma BraceToken(source: seq<byte>, token: Token)
    requires IsToken(source, token)
    ensures token.text == "{" ==> source[token.start] == 123
  {
    assert token.text[0] == (source[token.start] as int) as char;
    assert "{"[0] == 123 as char;
  }

  /** So a text with at most this many braces never nests items deeper, and the
      navigation view's depth limit of 128 below the top is not reached. */
  lemma OutlineDepth(file: File, source: seq<byte>, items: seq<Item>, c: nat, limit: nat)
    requires Scans(source, file.tokens) && Reaches(file, 0, |file.tokens|, items, c, false)
    requires BraceBytes(source) <= limit
    ensures DepthAll(items) <= 1 + limit
  {
    hide Reaches, Lexes;
    DepthBoundAll(file, 0, |file.tokens|, items, c, false);
    var pieces :| Lexes(source, pieces, |source|) && TokensOf(pieces) == file.tokens;
    BracesAreBytes(source, pieces, |source|);
    assert source[..|source|] == source;
  }

  lemma KeywordFollows(tokens: seq<Token>, at: nat, k: nat)
    requires KeywordAt(tokens, at, k)
    ensures at <= k
  {
  }

  lemma BlockInside(file: File, at: nat, k: nat, byteEnd: nat, next: nat)
    requires Block(file, at, k, byteEnd, next)
    ensures at <= k && k + 1 < next <= |file.tokens|
    ensures (byteEnd == file.codeLen && next == |file.tokens|) || byteEnd == file.tokens[next - 1].end
  {
    KeywordFollows(file.tokens, at, k);
    EndMoves(file.tokens, AfterName(file.tokens, k), file.codeLen, byteEnd, next);
  }

  /** Where an item's span ends among the tokens. */
  lemma DescribedEnd(file: File, at: nat, k: nat, item: Item, next: nat, nested: bool)
    requires Describes(file, at, k, item, next, nested)
    ensures at <= k && k + 1 < next <= |file.tokens|
    ensures item.evidence.byteStart == file.tokens[k].start
    ensures (item.evidence.byteEnd == file.codeLen && next == |file.tokens|)
        || item.evidence.byteEnd == file.tokens[next - 1].end
    ensures item.kind == Function ==> !nested
    ensures item.kind == Impl <==> IsImpl(file.tokens, k)
    ensures !IsImpl(file.tokens, k) ==> item.children == []
  {
    BlockInside(file, at, k, item.evidence.byteEnd, next);
    hide Block, ImplBody;
    KindsOfKeywords(file.tokens[k].text);
    hide KindOf;
  }

  lemma EndMoves(tokens: seq<Token>, i: nat, codeLen: nat, byteEnd: nat, next: nat)
    requires BlockEnd(tokens, i, codeLen, byteEnd, next) && i <= |tokens|
    ensures i <= next <= |tokens| && (i < |tokens| ==> i < next)
    ensures (byteEnd == codeLen && next == |tokens|) || (0 < next && byteEnd == tokens[next - 1].end)
  {
  }

  // ----- Where the items lie -----

  ghost predicate InOrder(items: seq<Item>) {
    forall i, j :: 0 <= i < j < |items| ==> items[i].evidence.byteEnd <= items[j].evidence.byteStart
  }

  /** Only an `impl` has children, all of them start behind its start, none is a free
      function, and siblings never overlap. */
  ghost predicate Placed(item: Item) {
    && InOrder(item.children) && (item.children != [] ==> item.kind == Impl)
    && forall c :: c in item.children ==>
         c.kind != Function && item.evidence.byteStart < c.evidence.byteStart && Placed(c)
  }

  /** The item lies between the start of token `from` and the start of token c. */
  ghost predicate LiesBetween(file: File, item: Item, from: nat, c: nat, nested: bool) {
    && Placed(item) && (nested ==> item.kind != Function)
    && (from < |file.tokens| ==> file.tokens[from].start <= item.evidence.byteStart)
    && (c < |file.tokens| ==> item.evidence.byteEnd <= file.tokens[c].start)
  }

  lemma {:induction false} ItemsArePlaced(file: File, n: nat, at: nat, item: Item, next: nat, nested: bool)
    requires IsItem(file, at, item, next, nested) && TokensOk(file.tokens, n)
    ensures at < next <= |file.tokens| && LiesBetween(file, item, at, next, nested)
    decreases item, 1
  {
    hide IsItem, Reaches, Describes, HeaderEnd;
    var tokens := file.tokens;
    var k, s, c := OpenItem(file, at, item, next, nested);
    assert at < k ==> Before(tokens[at], tokens[k]);
    assert next < |tokens| ==> Before(tokens[next - 1], tokens[next]);
    if item.children != [] {
      SiblingsArePlaced(file, n, s + 1, next - 1, item.children, c, true);
      assert Before(tokens[k], tokens[s + 1]);
    }
  }

  lemma {:induction false} SiblingsArePlaced(file: File, n: nat, from: nat, limit: int, items: seq<Item>, c: nat,
                                             nested: bool)
    requires Reaches(file, from, limit, items, c, nested) && TokensOk(file.tokens, n)
    ensures from <= c && InOrder(items) && (items != [] ==> from < |file.tokens|)
    ensures forall x :: x in items ==> LiesBetween(file, x, from, c, nested)
    decreases items, 0
  {
    if items == [] {
      assert Barren(file, from, c);
    } else {
      hide IsItem, Reaches, LiesBetween, TokensOk, InOrder;
      var front, last := items[..|items| - 1], items[|items| - 1];
      var at, next := OpenLast(file, from, limit, items, c, nested);
      SiblingsArePlaced(file, n, from, limit, front, at, nested);
      ItemsArePlaced(file, n, at, last, next, nested);
      forall x | x in front
        ensures LiesBetween(file, x, from, c, nested) && x.evidence.byteEnd <= last.evidence.byteStart
      {
        LiesWider(file, n, x, from, from, at, c, nested);
        LieApart(file, x, last, from, at, next, nested);
      }
      LiesWider(file, n, last, from, at, next, c, nested);
      OrderGrows(front, last);
      assert front + [last] == items;
    }
  }

  lemma OrderGrows(front: seq<Item>, last: Item)
    requires InOrder(front) && forall x :: x in front ==> x.evidence.byteEnd <= last.evidence.byteStart
    ensures InOrder(front + [last])
  {
  }

  lemma LiesWider(file: File, n: nat, item: Item, from: nat, at: nat, next: nat, c: nat, nested: bool)
    requires LiesBetween(file, item, at, next, nested) && TokensOk(file.tokens, n)
    requires from <= at < |file.tokens| && next <= c
    ensures LiesBetween(file, item, from, c, nested)
  {
    hide Placed;
    assert from < at ==> Before(file.tokens[from], file.tokens[at]);
    assert next < c && c < |file.tokens| ==> Before(file.tokens[next], file.tokens[c]);
  }

  lemma LieApart(file: File, x: Item, y: Item, from: nat, at: nat, next: nat, nested: bool)
    requires LiesBetween(file, x, from, at, nested) && LiesBetween(file, y, at, next, nested) && at < |file.tokens|
    ensures x.evidence.byteEnd <= y.evidence.byteStart
  {
  }

  // ----- The whole file -----

  /** The items are found from the first token on, and to the last unless the item
      limit stopped the scan. */
  ghost predicate IsRustOutline(items: seq<Item>, source: seq<byte>, code: seq<byte>, maxItems: nat) {
    exists file: File, c: nat ::
      && Scans(source, file.tokens) && file.index.Indexes(code) && file.codeLen == |code|
      && |items| <= maxItems && Reaches(file, 0, |file.tokens|, items, c, false)
      && (|items| < maxItems ==> |file.tokens| <= c)
  }

  /** Ids number the items from one, children before parents. */
  ghost predicate NumberedInOrder(items: seq<Item>) {
    forall k :: 0 <= k < |PostAll(items)| ==> PostAll(items)[k] == k + 1
  }

  /** The decoded text is longer than the code only when the code was not valid UTF-8. */
  method ExtractRust(code: seq<byte>, maxItems: nat, linesPerBlock: nat) returns (items: seq<Item>, fallback: bool)
    ensures |items| <= maxItems
    ensures !fallback ==>
      && IsRustOutline(items, EncodeAll(Lossy(code)), code, maxItems)
      && exists hi: nat :: Allocated(PostAll(items), 1, hi)
    ensures !fallback && |EncodeAll(Lossy(code))| <= |code| ==> NumberedInOrder(items)
    ensures fallback <==> code != [] && IsRustOutline([], EncodeAll(Lossy(code)), code, maxItems)
    ensures fallback ==> exists byteEnd: nat, lineEnd: nat ::
      Tiles(items, byteEnd, lineEnd, Max(linesPerBlock, 1), code) && (|items| < maxItems ==> byteEnd == |code|)
  {
    hide IsItem, Starts, Reaches, Allocated, PostAll, PostIds, TokensOk, Scans, IsLineStarts, Tiles, IsRustOutline,
      EncodeAll, Lossy;
    var source := EncodeAll(Lossy(code));
    var index := NewIndex(code);
    var tokens := ScanTokens(source);
    ScannedTokensOk(source, tokens);
    var file := File(tokens, index, |code|);
    ReachesNothing(file, 0, |tokens|, false);
    NoIds(1);
    var id: nat, cursor: nat := 1, 0;
    items := [];
    while cursor < |tokens| && |items| < maxItems
      invariant |items| <= maxItems && Allocated(PostAll(items), 1, id)
      invariant Reaches(file, 0, |tokens|, items, cursor, false)
      invariant |source| <= |code| ==> |PostAll(items)| == id - 1
      decreases |tokens| - cursor
    {
      var found, after := ParseItem(file, cursor, id, |source|);
      match found {
        case Some((item, next)) =>
          AllocatedItem(items, item, 1, id, after);
          ReachesItem(file, 0, |tokens|, items, cursor, item, next, false);
          items, cursor := items + [item], next;
        case None =>
          AllocatedWider(PostAll(items), 1, id, after);
          ReachesFurther(file, 0, |tokens|, items, cursor, false);
          cursor := cursor + 1;
      }
      id := after;
    }
    fallback := items == [] && code != [];
    WholeOutline(file, source, code, items, cursor, maxItems);
    OnlyOutline(items, source, code, maxItems);
    if |source| <= |code| { AllocatedAll(PostAll(items), 1, id); }
    if fallback {
      ghost var lineCount;
      items, lineCount := ExtractLineBlocks(code, maxItems, linesPerBlock);
    }
  }

  lemma WholeOutline(file: File, source: seq<byte>, code: seq<byte>, items: seq<Item>, c: nat, maxItems: nat)
    requires Scans(source, file.tokens) && file.index.Indexes(code) && file.codeLen == |code|
    requires |items| <= maxItems && Reaches(file, 0, |file.tokens|, items, c, false)
        && (|items| < maxItems ==> |file.tokens| <= c)
    ensures IsRustOutline(items, source, code, maxItems)
  {
    hide Scans, IsLineStarts, Reaches;
  }

  /** Scanned items start somewhere. */
  lemma FirstStarts(file: File, from: nat, limit: int, items: seq<Item>, c: nat, nested: bool) returns (at: nat)
    requires Reaches(file, from, limit, items, c, nested) && items != []
    ensures at < |file.tokens| && Starts(file, at)
  {
    hide Reaches, Block, EvidenceOf, ImplBody;
    var next: nat;
    at, next := OpenLast(file, from, limit, items, c, nested);
    var k: nat :| Describes(file, at, k, items[|items| - 1], next, nested);
    DescribedEnd(file, at, k, items[|items| - 1], next, nested);
  }

  /** A file with an outline that is not empty has no empty one. */
  lemma OnlyOutline(items: seq<Item>, source: seq<byte>, code: seq<byte>, maxItems: nat)
    requires IsRustOutline(items, source, code, maxItems)
    ensures IsRustOutline([], source, code, maxItems) ==> items == []
  {
    hide Scans, Reaches, IsLineStarts, Starts;
    if IsRustOutline([], source, code, maxItems) && items != [] {
      var file: File, c: nat :|
        && Scans(source, file.tokens) && file.index.Indexes(code) && file.codeLen == |code|
        && |items| <= maxItems && Reaches(file, 0, |file.tokens|, items, c, false)
        && (|items| < maxItems ==> |file.tokens| <= c);
      var other: File, d: nat :|
        && Scans(source, other.tokens) && other.index.Indexes(code) && other.codeLen == |code|
        && Reaches(other, 0, |other.tokens|, [], d, false) && |other.tokens| <= d;
      ScanIsUnique(source, file.tokens, other.tokens);
      IndexIsUnique(file.index, other.index, code);
      var at := FirstStarts(file, 0, |file.tokens|, items, c, false);
      NothingReached(other, 0, |other.tokens|, d, false);
      assert false;
    }
  }

  lemma NothingReached(file: File, from: nat, limit: int, c: nat, nested: bool)
    requires Reaches(file, from, limit, [], c, nested)
    ensures Barren(file, from, c)
  {
  }
}
