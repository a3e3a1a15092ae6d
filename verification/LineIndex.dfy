/** Byte offsets to one-based line numbers and back, and the line-block fallback
    outline. */
module LineIndex {
  import opened Basics
  import opened Outline

  const NEWLINE: byte := 10

  function Newlines(code: seq<byte>): nat {
    if code == [] then 0 else Newlines(code[..|code| - 1]) + if code[|code| - 1] == 10 then 1 else 0
  }

  lemma {:induction false} NewlinesMonotone(code: seq<byte>, i: nat, j: nat)
    requires i <= j <= |code|
    ensures Newlines(code[..i]) <= Newlines(code[..j])
    decreases j
  {
    if i < j {
      NewlinesMonotone(code, i, j - 1);
      assert code[..j][..j - 1] == code[..j - 1];
    }
  }

  /** One past the newline that ends line i. */
  ghost predicate StartsAfter(code: seq<byte>, start: nat, i: nat) {
    0 < start <= |code| && code[start - 1] == NEWLINE && Newlines(code[..start]) == i
  }

  /** The starts of all lines: zero and one past every newline. */
  ghost predicate IsLineStarts(starts: seq<nat>, code: seq<byte>) {
    && |starts| == 1 + Newlines(code)
    && starts[0] == 0
    && (forall i, j :: 0 <= i < j < |starts| ==> starts[i] < starts[j])
    && (forall i :: 0 < i < |starts| ==> StartsAfter(code, starts[i], i))
  }

  datatype Index = Index(lineStarts: seq<nat>, totalLen: nat) {
    ghost predicate Indexes(code: seq<byte>) {
      totalLen == |code| && IsLineStarts(lineStarts, code)
    }

    /** Lines that hold a byte or precede one; an empty file has one. */
    function LineCount(): nat {
      if totalLen == 0 then 1
      else if |lineStarts| > 1 && lineStarts[|lineStarts| - 1] >= totalLen then |lineStarts| - 1
      else |lineStarts|
    }

    /** Starts at or before the offset: where a binary search among them lands. */
    function ByteToLine(offset: nat): nat {
      StartsUpTo(lineStarts, offset)
    }

    function LineStartOffset(line: nat): nat {
      var i := if line == 0 then 0 else line - 1;
      if i < |lineStarts| then lineStarts[i]
      else if lineStarts == [] then 0 else lineStarts[|lineStarts| - 1]
    }

    function LineEndOffset(line: nat, totalLen: nat): nat {
      if line < |lineStarts| then lineStarts[line] else totalLen
    }
  }

  function StartsUpTo(starts: seq<nat>, offset: nat): nat {
    if starts == [] || starts[0] > offset then 0 else 1 + StartsUpTo(starts[1..], offset)
  }

  lemma NewlinesGrow(code: seq<byte>, more: seq<byte>)
    requires |more| == |code| + 1 && more[..|code|] == code
    ensures Newlines(more) == Newlines(code) + if more[|code|] == NEWLINE then 1 else 0
  {
  }

  lemma StartStays(code: seq<byte>, more: seq<byte>, start: nat, i: nat)
    requires StartsAfter(code, start, i) && |more| == |code| + 1 && more[..|code|] == code
    ensures start <= |code| && StartsAfter(more, start, i)
  {
    hide Newlines;
    assert code[start - 1] == more[start - 1];
    assert more[..start] == code[..start];
  }

  lemma LastStart(code: seq<byte>, more: seq<byte>)
    requires |more| == |code| + 1 && more[..|code|] == code && more[|code|] == NEWLINE
    ensures StartsAfter(more, |more|, Newlines(code) + 1)
  {
    NewlinesGrow(code, more);
    hide Newlines;
    assert more[..|more|] == more;
  }

  lemma NoBytes()
    ensures IsLineStarts([0], [])
  {
  }

  lemma StartsStay(starts: seq<nat>, code: seq<byte>, more: seq<byte>)
    requires IsLineStarts(starts, code) && |more| == |code| + 1 && more[..|code|] == code
    ensures forall k :: 0 < k < |starts| ==> starts[k] <= |code| && StartsAfter(more, starts[k], k)
  {
    hide Newlines, StartsAfter;
    forall k | 0 < k < |starts| ensures starts[k] <= |code| && StartsAfter(more, starts[k], k) {
      StartStays(code, more, starts[k], k);
    }
  }

  /** One more byte keeps the known starts and may add one. */
  lemma StartsGrow(starts: seq<nat>, code: seq<byte>, more: seq<byte>)
    requires IsLineStarts(starts, code) && |more| == |code| + 1 && more[..|code|] == code
    ensures IsLineStarts(if more[|code|] == NEWLINE then starts + [|more|] else starts, more)
  {
    hide Newlines, StartsAfter;
    NewlinesGrow(code, more);
    StartsStay(starts, code, more);
    if more[|code|] == NEWLINE { LastStart(code, more); }
  }

  /** A file has only one index. */
  lemma IndexIsUnique(i: Index, j: Index, code: seq<byte>)
    requires i.Indexes(code) && j.Indexes(code)
    ensures i == j
  {
    forall k | 0 <= k < |i.lineStarts| ensures i.lineStarts[k] == j.lineStarts[k] {
      if 0 < k {
        StartIsUnique(code, i.lineStarts[k], j.lineStarts[k], k);
        StartIsUnique(code, j.lineStarts[k], i.lineStarts[k], k);
      }
    }
  }

  lemma StartIsUnique(code: seq<byte>, p: nat, q: nat, line: nat)
    requires StartsAfter(code, p, line) && StartsAfter(code, q, line)
    ensures p >= q
  {
    if p < q {
      NewlinesMonotone(code, p, q - 1);
      NewlinesGrow(code[..q - 1], code[..q]);
    }
  }

  method NewIndex(code: seq<byte>) returns (index: Index)
    ensures index.Indexes(code)
  {
    hide IsLineStarts, Newlines;
    var lineStarts: seq<nat> := [0];
    NoBytes();
    for i := 0 to |code|
      invariant IsLineStarts(lineStarts, code[..i])
    {
      StartsGrow(lineStarts, code[..i], code[..i + 1]);
      if code[i] == NEWLINE {
        lineStarts := lineStarts + [i + 1];
      }
    }
    assert code[..|code|] == code;
    index := Index(lineStarts, |code|);
  }

  lemma {:induction false} StartsUpToSplits(starts: seq<nat>, offset: nat, n: nat)
    requires n <= |starts|
    requires forall i :: 0 <= i < n ==> starts[i] <= offset
    requires n < |starts| ==> offset < starts[n]
    ensures StartsUpTo(starts, offset) == n
    decreases n
  {
    if 0 < n {
      StartsUpToSplits(starts[1..], offset, n - 1);
    }
  }

  lemma FewerNewlinesBefore(starts: seq<nat>, code: seq<byte>, i: nat, offset: nat)
    requires IsLineStarts(starts, code) && i < |starts| && offset < starts[i]
    ensures Newlines(code[..offset]) < i
  {
    NewlinesMonotone(code, offset, starts[i] - 1);
    assert code[..starts[i]][..starts[i] - 1] == code[..starts[i] - 1];
  }

  /** A byte's line number is one more than the newlines before it. */
  lemma LineOfByte(index: Index, code: seq<byte>, offset: nat)
    requires index.Indexes(code) && offset <= |code|
    ensures index.ByteToLine(offset) == 1 + Newlines(code[..offset])
  {
    var starts := index.lineStarts;
    var n := Newlines(code[..offset]);
    NewlinesMonotone(code, offset, |code|);
    assert code[..|code|] == code;
    forall i | 0 <= i < n + 1 ensures starts[i] <= offset {
      if offset < starts[i] { FewerNewlinesBefore(starts, code, i, offset); }
    }
    if n + 1 < |starts| && starts[n + 1] <= offset {
      NewlinesMonotone(code, starts[n + 1], offset);
    }
    StartsUpToSplits(starts, offset, n + 1);
  }

  /** Offsets past the end are on the last line. */
  lemma LineOfOffset(index: Index, code: seq<byte>, offset: nat)
    requires index.Indexes(code)
    ensures index.ByteToLine(offset) == 1 + Newlines(code[..Min(offset, |code|)])
  {
    if offset <= |code| {
      LineOfByte(index, code, offset);
    } else {
      assert code[..|code|] == code;
      StartsUpToSplits(index.lineStarts, offset, |index.lineStarts|);
    }
  }

  /** Later bytes are never on earlier lines, and no byte is on line zero. */
  lemma LinesAscend(index: Index, code: seq<byte>, p: nat, q: nat)
    requires index.Indexes(code) && p <= q <= |code|
    ensures 1 <= index.ByteToLine(p) <= index.ByteToLine(q)
  {
    LineOfByte(index, code, p);
    LineOfByte(index, code, q);
    NewlinesMonotone(code, p, q);
  }

  /** A line starts no later than it ends. */
  lemma LineSpan(index: Index, code: seq<byte>, line: nat, last: nat)
    requires index.Indexes(code) && 0 < line <= last
    ensures index.LineStartOffset(line) <= index.LineEndOffset(last, |code|) <= |code|
  {
    var starts := index.lineStarts;
    if last < |starts| {
      assert starts[line - 1] < starts[last];
    } else if line - 1 < |starts| && 0 < line - 1 {
      assert starts[line - 1] <= |code|;
    }
  }

  // ----- Line blocks -----

  function BlockName(first: nat, last: nat): string {
    if first == last then "Line " + DecimalText(first)
    else "Lines " + DecimalText(first) + ['\U{2013}'] + DecimalText(last)
  }

  /** The next block starts where a full-sized one ended. */
  predicate Follows(block: Evidence, next: Evidence, size: nat) {
    && next.byteStart == block.byteEnd && next.lineStart == block.lineEnd + 1
    && block.lineEnd + 1 == block.lineStart + size
  }

  /** Line `line` starts at this byte. */
  ghost predicate LineStartsAt(code: seq<byte>, start: nat, line: nat) {
    if line == 1 then start == 0 else 1 < line && StartsAfter(code, start, line - 1)
  }

  /** Line `line` stops at this byte: behind its newline, or with the file. */
  ghost predicate LineStopsAt(code: seq<byte>, end: nat, line: nat) {
    StartsAfter(code, end, line) || (end == |code| && Newlines(code) + 1 == line)
  }

  lemma OffsetsOfLine(index: Index, code: seq<byte>, line: nat)
    requires index.Indexes(code) && 1 <= line <= index.LineCount()
    ensures LineStartsAt(code, index.LineStartOffset(line), line)
    ensures LineStopsAt(code, index.LineEndOffset(line, |code|), line)
  {
    LineCountIs(index, code);
  }

  /** How blocks are called. */
  lemma BlockNames()
    ensures BlockName(7, 7) == "Line 7" && BlockName(1, 50) == "Lines 1\U{2013}50"
  {
    assert Digits(7) == [55] && Digits(1) == [49] && Digits(50) == Digits(5) + [48] == [53, 48];
  }

  /** Whole lines of the file, with their numbers and their name. */
  ghost predicate IsBlock(item: Item, id: nat, size: nat, code: seq<byte>) {
    && LineStartsAt(code, item.evidence.byteStart, item.evidence.lineStart)
    && LineStopsAt(code, item.evidence.byteEnd, item.evidence.lineEnd)
    && item.evidence.name.None?
    && item.id == id && item.children == []
    && item.evidence.byteStart <= item.evidence.byteEnd
    && item.evidence.lineStart <= item.evidence.lineEnd < item.evidence.lineStart + size
    && item.kind == LineBlock(item.evidence.lineStart, item.evidence.lineEnd)
    && item.name == BlockName(item.evidence.lineStart, item.evidence.lineEnd)
  }

  /** Blocks number themselves from one and tile the file from its first byte and
      line up to the given ones, each but a final short one `size` lines long. */
  ghost predicate Tiles(items: seq<Item>, byteEnd: nat, lineEnd: nat, size: nat, code: seq<byte>) {
    && (items == [] ==> byteEnd == 0 && lineEnd == 0)
    && (items != [] ==>
          && items[0].evidence.byteStart == 0 && items[0].evidence.lineStart == 1
          && items[|items| - 1].evidence.byteEnd == byteEnd && items[|items| - 1].evidence.lineEnd == lineEnd)
    && (forall i, j :: 0 <= i < j < |items| && j == i + 1 ==> Follows(items[i].evidence, items[j].evidence, size))
    && (forall i :: 0 <= i < |items| ==> IsBlock(items[i], i + 1, size, code))
  }

  lemma TilesGrow(items: seq<Item>, item: Item, byteEnd: nat, lineEnd: nat, size: nat, code: seq<byte>)
    requires Tiles(items, byteEnd, lineEnd, size, code) && IsBlock(item, |items| + 1, size, code)
    requires item.evidence.byteStart == byteEnd && item.evidence.lineStart == lineEnd + 1
    requires items != [] ==>
      items[|items| - 1].evidence.lineEnd + 1 == items[|items| - 1].evidence.lineStart + size
    ensures Tiles(items + [item], item.evidence.byteEnd, item.evidence.lineEnd, size, code)
  {
    hide IsBlock;
  }

  lemma NoTiles(index: Index, code: seq<byte>, size: nat)
    requires index.Indexes(code)
    ensures Tiles([], 0, 0, size, code) && index.LineStartOffset(1) == 0
  {
  }

  /** The fallback outline: unless the item limit cuts it short, the blocks tile the
      whole file, so every byte and line belongs to exactly one of them. */
  method ExtractLineBlocks(code: seq<byte>, maxItems: nat, linesPerBlock: nat) returns (items: seq<Item>, lines: nat)
    ensures lines == Max(1, 1 + Newlines(code) - (if code != [] && code[|code| - 1] == NEWLINE then 1 else 0))
    ensures |items| <= maxItems
    ensures exists byteEnd: nat, lineEnd: nat ::
      Tiles(items, byteEnd, lineEnd, Max(linesPerBlock, 1), code) &&
      (|items| < maxItems ==> byteEnd == |code| && lineEnd == lines)
  {
    hide Tiles, IsLineStarts, Newlines, BlockName, LineStartsAt, LineStopsAt;
    var index := NewIndex(code);
    var total := Max(index.LineCount(), 1);
    LineCountIs(index, code);
    items := [];
    var id, startLine := 1, 1;
    var size := Max(linesPerBlock, 1);
    ghost var byteEnd: nat := 0;
    NoTiles(index, code, size);
    while startLine <= total && |items| < maxItems
      invariant |items| <= maxItems && id == |items| + 1 && 1 <= startLine <= total + 1
      invariant Tiles(items, byteEnd, startLine - 1, size, code)
      invariant startLine <= total ==> byteEnd == index.LineStartOffset(startLine)
      invariant startLine <= total && items != [] ==>
        items[|items| - 1].evidence.lineEnd + 1 == items[|items| - 1].evidence.lineStart + size
      invariant startLine == total + 1 ==> byteEnd == |code|
    {
      var endLine := Min(startLine + size - 1, total);
      var start, end := index.LineStartOffset(startLine), index.LineEndOffset(endLine, |code|);
      LineSpan(index, code, startLine, endLine);
      LastLineEnds(index, code, endLine);
      var evidence := NewEvidence(start, end, startLine, endLine, None);
      assert evidence.Some?;
      var item := Item(id, BlockName(startLine, endLine), LineBlock(startLine, endLine), evidence.value, []);
      OffsetsOfLine(index, code, startLine);
      OffsetsOfLine(index, code, endLine);
      TilesGrow(items, item, byteEnd, startLine - 1, size, code);
      items := items + [item];
      byteEnd := end;
      id, startLine := id + 1, endLine + 1;
    }
    lines := total;
  }

  lemma LineCountIs(index: Index, code: seq<byte>)
    requires index.Indexes(code)
    ensures index.LineCount()
         == Max(1, 1 + Newlines(code) - (if code != [] && code[|code| - 1] == NEWLINE then 1 else 0))
    ensures 1 <= index.LineCount() <= |index.lineStarts|
  {
    var starts := index.lineStarts;
    if code != [] {
      assert code[..|code|] == code;
      if code[|code| - 1] == NEWLINE {
        LineOfByte(index, code, |code|);
        if 1 < |starts| && starts[|starts| - 1] < |code| { TailHasNoNewline(starts, code); }
      } else if 1 < |starts| {
        assert starts[|starts| - 1] <= |code| - 1 by {
          assert code[starts[|starts| - 1] - 1] == NEWLINE;
        }
      }
    }
  }

  /** After the last line start there is no newline. */
  lemma TailHasNoNewline(starts: seq<nat>, code: seq<byte>)
    requires IsLineStarts(starts, code) && 1 < |starts| && starts[|starts| - 1] < |code|
    ensures code[|code| - 1] != NEWLINE
  {
    NewlinesMonotone(code, starts[|starts| - 1], |code| - 1);
  }

  /** A line before the last ends where the next starts; the last ends the file. */
  lemma LastLineEnds(index: Index, code: seq<byte>, line: nat)
    requires index.Indexes(code) && 1 <= line <= index.LineCount()
    ensures line < index.LineCount() ==> index.LineEndOffset(line, |code|) == index.LineStartOffset(line + 1)
    ensures line == index.LineCount() ==> index.LineEndOffset(line, |code|) == |code|
  {
    LineCountIs(index, code);
  }
}
