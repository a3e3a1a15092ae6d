/** Decoded text seen line by line: the splitting and trimming every line-oriented
    extractor starts with. */
module LineText {
  import opened Basics
  import opened Outline
  import opened LineIndex
  import opened Utf8

  /** The Unicode White_Space property. */
  predicate IsWhitespace(c: char) {
    || '\U{9}' <= c <= '\U{D}' || c == ' ' || c == '\U{85}' || c == '\U{A0}' || c == '\U{1680}'
    || '\U{2000}' <= c <= '\U{200A}' || c == '\U{2028}' || c == '\U{2029}' || c == '\U{202F}'
    || c == '\U{205F}' || c == '\U{3000}'
  }

  function TrimStart(text: string): (r: string)
    ensures |r| <= |text|
  {
    if text != [] && IsWhitespace(text[0]) then TrimStart(text[1..]) else text
  }

  function TrimEnd(text: string): (r: string)
    ensures |r| <= |text|
  {
    if text != [] && IsWhitespace(text[|text| - 1]) then TrimEnd(text[..|text| - 1]) else text
  }

  function Trim(text: string): string { TrimEnd(TrimStart(text)) }

  /** The text before the first of the given characters, or all of it. */
  function Before(text: string, stops: set<char>): string {
    if text == [] || text[0] in stops then [] else [text[0]] + Before(text[1..], stops)
  }

  /** Lines without their terminators; a final terminator opens no further line. */
  function Lines(text: string): seq<string>
    decreases |text|
  {
    if text == [] then []
    else
      var line := Before(text, {'\n'});
      BeforeIsPrefix(text, {'\n'});
      [WithoutReturn(line, |line| < |text|)] + (if |line| < |text| then Lines(text[|line| + 1..]) else [])
  }

  function WithoutReturn(line: string, terminated: bool): string {
    if terminated && line != [] && line[|line| - 1] == '\r' then line[..|line| - 1] else line
  }

  lemma {:induction false} BeforeIsPrefix(text: string, stops: set<char>)
    ensures Before(text, stops) <= text
    ensures forall k :: 0 <= k < |Before(text, stops)| ==> text[k] !in stops
    ensures |Before(text, stops)| < |text| ==> text[|Before(text, stops)|] in stops
  {
    if text != [] && text[0] !in stops {
      BeforeIsPrefix(text[1..], stops);
      var b := Before(text[1..], stops);
      assert forall k :: 0 < k < 1 + |b| ==> text[k] == text[1..][k - 1];
    }
  }

  predicate AllWhitespace(text: string) {
    forall k :: 0 <= k < |text| ==> IsWhitespace(text[k])
  }

  lemma NoPad()
    ensures AllWhitespace([])
  {
  }

  /** Trimming removes exactly the whitespace in front. */
  lemma {:induction false} TrimStartSplits(pad: string, rest: string)
    requires AllWhitespace(pad) && (rest != [] ==> !IsWhitespace(rest[0]))
    ensures TrimStart(pad + rest) == rest
  {
    hide IsWhitespace;
    if pad == [] {
      assert pad + rest == rest;
    } else {
      assert (pad + rest)[1..] == pad[1..] + rest;
      TrimStartSplits(pad[1..], rest);
    }
  }

  /** And exactly the whitespace behind. */
  lemma {:induction false} TrimEndSplits(rest: string, pad: string)
    requires AllWhitespace(pad) && (rest != [] ==> !IsWhitespace(rest[|rest| - 1]))
    ensures TrimEnd(rest + pad) == rest
  {
    hide IsWhitespace;
    if pad == [] {
      assert rest + pad == rest;
    } else {
      assert (rest + pad)[..|rest + pad| - 1] == rest + pad[..|pad| - 1];
      TrimEndSplits(rest, pad[..|pad| - 1]);
    }
  }

  /** A text that neither starts nor ends with whitespace. */
  predicate Bare(text: string) {
    text != [] ==> !IsWhitespace(text[0]) && !IsWhitespace(text[|text| - 1])
  }

  lemma TrimSplits(pad: string, text: string, tail: string)
    requires AllWhitespace(pad) && Bare(text) && AllWhitespace(tail)
    ensures Trim(pad + text + tail) == text
  {
    hide IsWhitespace;
    if text == [] {
      assert pad + text + tail == (pad + tail) + [] && text + text == [];
      TrimStartSplits(pad + tail, []);
      TrimEndSplits(text, text);
    } else {
      assert pad + text + tail == pad + (text + tail);
      TrimStartSplits(pad, text + tail);
      TrimEndSplits(text, tail);
    }
  }

  /** Whitespace is the twenty-five characters Unicode lists. */
  lemma WhitespaceIsListed(c: char)
    ensures IsWhitespace(c) <==>
      c in {'\t', '\n', '\U{B}', '\U{C}', '\r', ' ', '\U{85}', '\U{A0}', '\U{1680}', '\U{2000}', '\U{2001}',
            '\U{2002}', '\U{2003}', '\U{2004}', '\U{2005}', '\U{2006}', '\U{2007}', '\U{2008}', '\U{2009}',
            '\U{200A}', '\U{2028}', '\U{2029}', '\U{202F}', '\U{205F}', '\U{3000}'}
  {
  }

  /** Lines written out, each behind a line feed or a carriage return and a line feed. */
  function Written(lines: seq<string>, crlf: seq<bool>): string
    requires |lines| == |crlf|
  {
    if lines == [] then []
    else lines[0] + (if crlf[0] then "\r\n" else "\n") + Written(lines[1..], crlf[1..])
  }

  predicate EndsInReturn(line: string) { line != [] && line[|line| - 1] == '\r' }

  lemma LineReadsBack(line: string, crlf: bool, rest: string)
    requires '\n' !in line && (EndsInReturn(line) ==> crlf)
    ensures Lines(line + (if crlf then "\r\n" else "\n") + rest) == [line] + Lines(rest)
  {
    hide Lines;
    if crlf {
      assert line + "\r\n" + rest == (line + "\r") + "\n" + rest && (line + "\r")[..|line|] == line;
      LinesStep(line + "\r", rest);
    } else {
      LinesStep(line, rest);
    }
  }

  /** Written lines are the lines of the text, whichever terminators they were given. */
  lemma {:induction false} LinesReadBack(lines: seq<string>, crlf: seq<bool>)
    requires |lines| == |crlf|
    requires forall i :: 0 <= i < |lines| ==> '\n' !in lines[i] && (EndsInReturn(lines[i]) ==> crlf[i])
    ensures Lines(Written(lines, crlf)) == lines
  {
    hide Lines, EndsInReturn;
    if lines == [] {
      NoLines();
    } else {
      LinesReadBack(lines[1..], crlf[1..]);
      LineReadsBack(lines[0], crlf[0], Written(lines[1..], crlf[1..]));
    }
  }

  // ----- Lines of the text are lines of the bytes -----

  predicate EndsLine(text: string) { text == [] || text[|text| - 1] == '\n' }

  predicate LineEndsAt(code: seq<byte>, n: nat) { n <= |code| && (0 < n ==> code[n - 1] == NEWLINE) }

  lemma LinesStep(line: string, rest: string)
    requires '\n' !in line
    ensures Lines(line + "\n" + rest) == [WithoutReturn(line, true)] + Lines(rest)
  {
    var text := line + "\n" + rest;
    BeforeIs(text, {'\n'}, |line|);
    assert text[..|line|] == line && text[|line| + 1..] == rest;
  }

  lemma {:induction false} BeforeIs(text: string, stops: set<char>, n: nat)
    requires n <= |text| && (n < |text| ==> text[n] in stops)
    requires forall k :: 0 <= k < n ==> text[k] !in stops
    ensures Before(text, stops) == text[..n]
  {
    if 0 < n { BeforeIs(text[1..], stops, n - 1); }
  }

  /** The first line and what follows its terminator. */
  lemma FirstLine(text: string) returns (line: string, rest: string)
    requires '\n' in text
    ensures '\n' !in line && text == line + "\n" + rest
    ensures EndsLine(text) ==> EndsLine(rest)
  {
    line := Before(text, {'\n'});
    BeforeIsPrefix(text, {'\n'});
    assert |line| < |text|;
    rest := text[|line| + 1..];
    assert text == text[..|line|] + [text[|line|]] + text[|line| + 1..];
  }

  /** Text splits into lines behind every terminator. */
  lemma {:induction false} LinesJoin(text: string, more: string)
    requires EndsLine(text)
    ensures Lines(text + more) == Lines(text) + Lines(more)
    decreases |text|
  {
    hide Lines, WithoutReturn;
    if text == [] {
      assert [] + more == more;
      NoLines();
    } else {
      assert text[|text| - 1] in text;
      var line, rest := FirstLine(text);
      LinesStep(line, rest);
      assert text + more == line + "\n" + (rest + more);
      LinesStep(line, rest + more);
      LinesJoin(rest, more);
    }
  }

  lemma NoLines()
    ensures Lines([]) == []
  {
  }

  lemma LastLine(line: string)
    requires '\n' !in line && line != []
    ensures Lines(line) == [line]
  {
    BeforeIs(line, {'\n'}, |line|);
    assert line[..|line|] == line;
  }

  lemma DecodesTo(bytes: seq<byte>, text: string)
    requires (forall k :: 0 <= k < |bytes| ==> bytes[k] < 128) && text == Ascii(bytes)
    ensures Lossy(bytes) == text
  {
    AsciiDecodes(bytes, 0);
    assert bytes[0..] == bytes;
  }

  lemma OneTextLine(line: string)
    requires '\n' !in line && WithoutReturn(line, true) == line
    ensures Lines(line + "\n") == [line]
  {
    assert line + "\n" + [] == line + "\n";
    LinesStep(line, []);
    NoLines();
  }

  lemma LossyNewline(code: seq<byte>)
    ensures Lossy(code + [NEWLINE]) == Lossy(code) + "\n"
  {
    LossyToEnd(code, 0);
  }

  /** A final newline never joins what precedes it. */
  lemma {:induction false} LossyToEnd(code: seq<byte>, i: nat)
    requires i <= |code|
    ensures LossyFrom(code + [NEWLINE], i) == LossyFrom(code, i) + "\n"
    decreases |code| - i
  {
    hide LossyFrom, DecodeStep;
    var more := code + [NEWLINE];
    LossyStep(more, i);
    if i < |code| {
      EndStep(code, i);
      LossyStep(code, i);
      LossyToEnd(code, i + DecodeStep(code, i).size);
    } else {
      NoText(code);
      NoText(more);
    }
  }

  lemma EndStep(code: seq<byte>, i: nat)
    requires i < |code|
    ensures DecodeStep(code + [NEWLINE], i) == DecodeStep(code, i)
  {
    var more := code + [NEWLINE];
    assert forall k: nat :: k < |code| ==> more[k] == code[k];
    assert forall k: nat, low, high :: low >= 128 ==> (Between(code, k, low, high) <==> Between(more, k, low, high));
  }

  lemma {:induction false} NoNewline(code: seq<byte>, i: nat)
    requires i <= |code| && Newlines(code) == 0
    ensures '\n' !in LossyFrom(code, i)
    decreases |code| - i
  {
    hide LossyFrom, DecodeStep;
    if i < |code| {
      LossyStep(code, i);
      NewlineAt(code, i);
      NoNewline(code, i + DecodeStep(code, i).size);
    } else {
      NoText(code);
    }
  }

  lemma NewlineAt(code: seq<byte>, i: nat)
    requires i < |code|
    ensures code[i] == NEWLINE ==> Newlines(code) > 0
  {
    NewlinesMonotone(code, i + 1, |code|);
    assert code[..i + 1][..i] == code[..i] && code[..|code|] == code;
  }

  /** Bytes of one line, terminated or last, decode to one line. */
  lemma OneLine(code: seq<byte>, front: seq<byte>)
    requires code != [] && Newlines(front) == 0 && (code == front || code == front + [NEWLINE])
    ensures |Lines(Lossy(code))| == 1
  {
    hide Lines, LossyFrom;
    NoNewline(front, 0);
    if code == front {
      LossyStep(code, 0);
      LastLine(Lossy(code));
    } else {
      LossyNewline(front);
      assert Lossy(front) + "\n" + [] == Lossy(front) + "\n";
      LinesStep(Lossy(front), []);
      NoLines();
    }
  }

  /** The start of the line that position n belongs to. */
  lemma {:induction false} LineStart(code: seq<byte>, n: nat) returns (p: nat)
    requires n <= |code|
    ensures p <= n && LineEndsAt(code, p) && Newlines(code[p..n]) == 0
  {
    if n == 0 || code[n - 1] == NEWLINE {
      p := n;
    } else {
      p := LineStart(code, n - 1);
      NewlinesGrow(code[p..n - 1], code[p..n]);
    }
  }

  lemma {:induction false} NewlinesJoin(code: seq<byte>, n: nat)
    requires n <= |code|
    ensures Newlines(code) == Newlines(code[..n]) + Newlines(code[n..])
    decreases |code|
  {
    if n < |code| {
      NewlinesJoin(code[..|code| - 1], n);
      assert code[..|code| - 1][..n] == code[..n] && code[..|code| - 1][n..] == code[n..][..|code| - 1 - n];
    } else {
      assert code[..n] == code;
    }
  }

  lemma LossyEndsLine(code: seq<byte>)
    requires LineEndsAt(code, |code|)
    ensures EndsLine(Lossy(code))
  {
    if code == [] {
      NoText(code);
    } else {
      assert code == code[..|code| - 1] + [NEWLINE];
      LossyNewline(code[..|code| - 1]);
    }
  }

  /** Bytes up to a line's end decode to as many lines as they hold newlines. */
  lemma {:induction false} LineCounts(code: seq<byte>)
    requires LineEndsAt(code, |code|)
    ensures |Lines(Lossy(code))| == Newlines(code)
    decreases |code|
  {
    hide Lines, Lossy, Newlines;
    if code == [] {
      NothingDecodes();
    } else {
      var n := |code| - 1;
      var p := LineStart(code, n);
      LineCounts(code[..p]);
      LossyJoins(code, p);
      LossyEndsLine(code[..p]);
      LinesJoin(Lossy(code[..p]), Lossy(code[p..]));
      assert code[p..] == code[p..n] + [NEWLINE];
      OneLine(code[p..], code[p..n]);
      NewlinesJoin(code, p);
      NewlinesGrow(code[p..n], code[p..]);
    }
  }

  lemma NothingDecodes()
    ensures Lossy([]) == [] && Lines([]) == [] && Newlines([]) == 0
  {
  }

  /** From one line start to the next, or to the end of the file. */
  ghost predicate IsLine(code: seq<byte>, start: nat, end: nat, line: nat) {
    && start <= end && LineEndsAt(code, start) && end <= |code| && Newlines(code[..start]) + 1 == line
    && if 0 < end && code[end - 1] == NEWLINE && Newlines(code[..end]) == line then start < end
       else end == |code| && Newlines(code) == line - 1
  }

  /** The bytes of line n decode to line n of the text. */
  lemma LineDecodes(code: seq<byte>, start: nat, end: nat, line: nat)
    requires IsLine(code, start, end, line) && line <= |Lines(Lossy(code))|
    ensures Lines(Lossy(code[start..end])) == [Lines(Lossy(code))[line - 1]]
  {
    hide Lines, Lossy, Newlines;
    var upTo, own := code[..end], code[start..end];
    assert upTo[..start] == code[..start] && upTo[start..] == own;
    LossyEndsLine(code[..start]);
    LineCounts(code[..start]);
    LossyJoins(upTo, start);
    LinesJoin(Lossy(code[..start]), Lossy(own));
    NewlinesJoin(upTo, start);
    if end == |code| {
      assert upTo == code;
    } else {
      LossyJoins(code, end);
      LossyEndsLine(upTo);
      LinesJoin(Lossy(upTo), Lossy(code[end..]));
    }
    if own == [] { NothingDecodes(); }
    OwnLine(code, start, end, line);
  }

  lemma OwnLine(code: seq<byte>, start: nat, end: nat, line: nat)
    requires IsLine(code, start, end, line) && start < end
    ensures |Lines(Lossy(code[start..end]))| == 1
  {
    hide Lines, Lossy, Newlines;
    var own := code[start..end];
    NewlinesJoin(code[..end], start);
    assert code[..end][..start] == code[..start] && code[..end][start..] == own;
    if own[|own| - 1] == NEWLINE {
      assert own == own[..|own| - 1] + [NEWLINE];
      NewlinesGrow(own[..|own| - 1], own);
      assert code[..|code|] == code;
      OneLine(own, own[..|own| - 1]);
    } else {
      assert code[..|code|] == code;
      OneLine(own, own);
    }
  }

  /** The text has at most one line more than the bytes have newlines. */
  lemma LinesAreFew(code: seq<byte>)
    ensures |Lines(Lossy(code))| <= 1 + Newlines(code)
  {
    hide Lines, Lossy, Newlines;
    var p := LineStart(code, |code|);
    LossyJoins(code, p);
    LossyEndsLine(code[..p]);
    LinesJoin(Lossy(code[..p]), Lossy(code[p..]));
    LineCounts(code[..p]);
    NewlinesJoin(code, p);
    assert code[p..|code|] == code[p..];
    if p == |code| { NothingDecodes(); } else { OneLine(code[p..], code[p..]); }
  }

  // ----- Evidence of one-line items -----

  /** Evidence covering exactly the bytes of one line. */
  ghost predicate CoversLine(evidence: Evidence, code: seq<byte>, line: nat) {
    && evidence.lineStart == evidence.lineEnd == line && evidence.name.None?
    && IsLine(code, evidence.byteStart, evidence.byteEnd, line)
  }

  /** Decoding the covered bytes alone gives that line of the text. */
  lemma EvidenceDecodes(evidence: Evidence, code: seq<byte>, line: nat)
    requires CoversLine(evidence, code, line) && line <= |Lines(Lossy(code))|
    ensures Lines(Lossy(code[evidence.byteStart..evidence.byteEnd])) == [Lines(Lossy(code))[line - 1]]
  {
    LineDecodes(code, evidence.byteStart, evidence.byteEnd, line);
  }

  /** The evidence of a one-line item. */
  method LineEvidence(index: Index, code: seq<byte>, line: nat) returns (evidence: Option<Evidence>)
    requires index.Indexes(code) && 0 < line <= 1 + Newlines(code)
    ensures evidence.Some? && CoversLine(evidence.value, code, line)
  {
    hide IsLineStarts, IsLine;
    LineSpan(index, code, line, line);
    evidence := NewEvidence(index.LineStartOffset(line), index.LineEndOffset(line, |code|), line, line, None);
    LineOffsets(index, code, line);
  }

  lemma LineOffsets(index: Index, code: seq<byte>, line: nat)
    requires index.Indexes(code) && 1 <= line <= 1 + Newlines(code)
    ensures IsLine(code, index.LineStartOffset(line), index.LineEndOffset(line, |code|), line)
  {
    hide Newlines;
    var starts := index.lineStarts;
    assert Newlines(code[..0]) == 0 by { NothingDecodes(); }
    assert code[..|code|] == code;
    if 1 < line { assert StartsAfter(code, starts[line - 1], line - 1); }
    if line < |starts| {
      assert StartsAfter(code, starts[line], line) && starts[line - 1] < starts[line];
    }
  }
}
