/** The response encoders, the argument parsers that undo them, and delivery of a
    finished response to a foreign writer. */
module Wire {
  import opened Basics
  import Utf8

  const QUOTE: byte := 34
  const BACKSLASH: byte := 92

  // ----- Decimal digits -----

  const U64_LIMIT: nat := 0x1_0000_0000_0000_0000

  predicate IsDigit(b: byte) { 48 <= b <= 57 }

  /** The number a string of digits denotes. */
  function ValueOf(text: seq<byte>): nat
    requires forall k :: 0 <= k < |text| ==> IsDigit(text[k])
  {
    if text == [] then 0
    else
      assert IsDigit(text[|text| - 1]);
      10 * ValueOf(text[..|text| - 1]) + (text[|text| - 1] as nat - 48)
  }

  /** Digits with no superfluous leading zero. */
  predicate IsCanonical(text: seq<byte>) {
    text != [] && (forall k :: 0 <= k < |text| ==> IsDigit(text[k])) && (|text| > 1 ==> text[0] != 48)
  }

  /** Reading back the digits of a number gives the number. */
  lemma {:induction false} DigitsDenote(n: nat)
    ensures IsCanonical(Digits(n)) && ValueOf(Digits(n)) == n
    ensures Digits(n)[0] == 48 ==> n == 0
  {
    if n >= 10 {
      DigitsDenote(n / 10);
      assert Digits(n)[..|Digits(n)| - 1] == Digits(n / 10);
    } else {
      assert Digits(n)[..0] == [];
    }
  }

  /** Every canonical string is the digits of the number it denotes. */
  lemma {:induction false} CanonicalIsPrinted(text: seq<byte>)
    requires IsCanonical(text)
    ensures Digits(ValueOf(text)) == text
    ensures text[0] != 48 ==> ValueOf(text) > 0
  {
    var front := text[..|text| - 1];
    if front == [] {
      assert text == [text[0]];
      assert ValueOf(front) == 0;
    } else {
      CanonicalIsPrinted(front);
      assert text == front + [text[|text| - 1]];
    }
  }

  function Power10(k: nat): nat { if k == 0 then 1 else 10 * Power10(k - 1) }

  lemma {:induction false} DigitCount(n: nat, k: nat)
    requires 0 < k && n < Power10(k)
    ensures |Digits(n)| <= k
  {
    assert Power10(k) == 10 * Power10(k - 1);
    assert Power10(0) == 1;
    if n >= 10 {
      DigitCount(n / 10, k - 1);
    }
  }

  /** Every 64-bit number prints in twenty digits or fewer. */
  lemma TwentyDigits(n: nat)
    requires n < U64_LIMIT
    ensures |Digits(n)| <= 20
  {
    assert Power10(5) == 100000;
    assert Power10(10) == 100000 * Power10(5);
    assert Power10(15) == 100000 * Power10(10);
    assert Power10(20) == 100000 * Power10(15);
    DigitCount(n, 20);
  }

  lemma {:induction false} ValueGrows(text: seq<byte>, k: nat)
    requires k <= |text| && forall i :: 0 <= i < |text| ==> IsDigit(text[i])
    ensures ValueOf(text[..k]) <= ValueOf(text)
    decreases |text| - k
  {
    if k < |text| {
      assert text[..k + 1][..k] == text[..k];
      ValueGrows(text, k + 1);
    } else {
      assert text[..k] == text;
    }
  }

  /** Accepts exactly the canonical notations of 64-bit numbers. */
  method ParseDecimal(text: seq<byte>) returns (r: Option<nat>)
    ensures r.Some? <==> IsCanonical(text) && ValueOf(text) < 18446744073709551616
    ensures r.Some? ==> r.value == ValueOf(text)
  {
    if text == [] || (|text| > 1 && text[0] == 48) { return None; }
    var result: nat := 0;
    for i := 0 to |text|
      invariant forall k :: 0 <= k < i ==> IsDigit(text[k])
      invariant result == ValueOf(text[..i]) < U64_LIMIT
    {
      if !IsDigit(text[i]) { return None; }
      assert text[..i + 1][..i] == text[..i];
      result := result * 10;
      if result < U64_LIMIT { result := result + (text[i] as nat - 48); }
      if result >= U64_LIMIT {
        if forall k :: 0 <= k < |text| ==> IsDigit(text[k]) { ValueGrows(text, i + 1); }
        return None;
      }
    }
    assert text[..|text|] == text;
    r := Some(result);
  }

  /** A printed number parses back to itself, and only 64-bit numbers parse. */
  method DecimalRoundTrip(n: nat) returns (r: Option<nat>)
    ensures r == if n < 18446744073709551616 then Some(n) else None
  {
    DigitsDenote(n);
    r := ParseDecimal(Digits(n));
  }

  // ----- Hexadecimal -----

  function HexDigit(d: nat): byte
    requires d < 16
  {
    if d < 10 then 48 + d as byte else 87 + d as byte
  }

  function HexOf(bytes: seq<byte>): seq<byte> {
    if bytes == [] then []
    else HexOf(bytes[..|bytes| - 1]) + HexPair(bytes[|bytes| - 1])
  }

  function HexPair(b: byte): seq<byte> {
    [HexDigit(b as nat / 16), HexDigit(b as nat % 16)]
  }

  /** Either letter case is read. */
  function HexValue(c: byte): (r: Option<nat>)
    ensures r.Some? ==> r.value < 16
  {
    if 48 <= c <= 57 then Some(c as nat - 48)
    else if 97 <= c <= 102 then Some(c as nat - 87)
    else if 65 <= c <= 70 then Some(c as nat - 55)
    else None
  }

  /** Digits and the letters a to f of either case are hexadecimal digits. */
  lemma HexCharacters(c: byte)
    ensures HexValue(c).Some? <==>
      c as int as char in {'0', '1', '2', '3', '4', '5', '6', '7', '8', '9', 'a', 'b', 'c', 'd', 'e', 'f',
                           'A', 'B', 'C', 'D', 'E', 'F'}
    ensures HexValue(c).Some? ==> HexValue(c) == HexValue(Lower(c)) && Lower(c) == HexDigit(HexValue(c).value)
  {
  }

  function Lower(c: byte): byte { if 65 <= c <= 90 then c + 32 else c }

  function AllLower(text: seq<byte>): seq<byte> {
    seq(|text|, k requires 0 <= k < |text| => Lower(text[k]))
  }

  predicate AreHexDigits(text: seq<byte>) {
    forall k :: 0 <= k < |text| ==> HexValue(text[k]).Some?
  }

  lemma PairReads(b: byte)
    ensures HexValue(HexPair(b)[0]) == Some(b as nat / 16) && HexValue(HexPair(b)[1]) == Some(b as nat % 16)
  {
  }

  lemma PairPrints(hi: byte, lo: byte)
    requires HexValue(hi).Some? && HexValue(lo).Some?
    ensures HexPair((HexValue(hi).value * 16 + HexValue(lo).value) as byte) == [Lower(hi), Lower(lo)]
  {
    var h, l := HexValue(hi).value, HexValue(lo).value;
    assert (h * 16 + l) / 16 == h && (h * 16 + l) % 16 == l;
  }

  /** Accepts nonempty strings of pairs of hex digits; printing the result back gives
      the lower-case form of the input. */
  method ParseHex(text: seq<byte>) returns (r: Option<seq<byte>>)
    ensures r.Some? <==> text != [] && |text| % 2 == 0 && AreHexDigits(text)
    ensures r.Some? ==> HexOf(r.value) == AllLower(text)
  {
    hide HexOf, HexPair, HexValue, Lower;
    if text == [] || |text| % 2 != 0 { return None; }
    var bytes: seq<byte> := [];
    var i := 0;
    HexGrows([], 0);
    while i < |text|
      invariant i <= |text| && i % 2 == 0
      invariant AreHexDigits(text[..i]) && HexOf(bytes) == AllLower(text[..i])
    {
      var hi, lo := HexValue(text[i]), HexValue(text[i + 1]);
      if hi.None? || lo.None? { return None; }
      PairPrints(text[i], text[i + 1]);
      var b := (hi.value * 16 + lo.value) as byte;
      HexGrows(bytes, b);
      assert text[..i + 2] == text[..i] + [text[i], text[i + 1]];
      assert AllLower(text[..i + 2]) == AllLower(text[..i]) + [Lower(text[i]), Lower(text[i + 1])];
      bytes := bytes + [b];
      i := i + 2;
    }
    assert text[..i] == text;
    r := Some(bytes);
  }

  lemma HexGrows(bytes: seq<byte>, b: byte)
    ensures HexOf([]) == []
    ensures HexOf(bytes + [b]) == HexOf(bytes) + HexPair(b)
  {
    assert (bytes + [b])[..|bytes|] == bytes;
  }

  lemma {:induction false} HexIsHex(bytes: seq<byte>)
    ensures |HexOf(bytes)| == 2 * |bytes| && AreHexDigits(HexOf(bytes)) && AllLower(HexOf(bytes)) == HexOf(bytes)
  {
    if bytes != [] {
      HexIsHex(bytes[..|bytes| - 1]);
      PairReads(bytes[|bytes| - 1]);
      assert AllLower(HexOf(bytes)) == AllLower(HexOf(bytes[..|bytes| - 1])) + HexPair(bytes[|bytes| - 1]);
    }
  }

  lemma {:induction false} HexAt(bytes: seq<byte>, k: nat)
    requires k < |bytes|
    ensures |HexOf(bytes)| == 2 * |bytes| && HexOf(bytes)[2 * k..2 * k + 2] == HexPair(bytes[k])
    decreases |bytes|
  {
    HexIsHex(bytes);
    var front := bytes[..|bytes| - 1];
    HexIsHex(front);
    if k < |front| {
      HexAt(front, k);
      assert HexOf(bytes)[..|HexOf(front)|] == HexOf(front);
    }
  }

  lemma HexIsInjective(a: seq<byte>, b: seq<byte>)
    requires HexOf(a) == HexOf(b)
    ensures a == b
  {
    HexIsHex(a);
    HexIsHex(b);
    forall k | 0 <= k < |a| ensures a[k] == b[k] {
      HexAt(a, k);
      HexAt(b, k);
      PairReads(a[k]);
      PairReads(b[k]);
    }
  }

  /** Encoded bytes parse back to themselves exactly when there are any: the parser
      refuses the empty string, which is what no bytes print as. */
  method HexRoundTrip(bytes: seq<byte>) returns (r: Option<seq<byte>>)
    ensures r == if bytes == [] then None else Some(bytes)
  {
    r := ParseHex(HexOf(bytes));
    HexIsHex(bytes);
    if bytes != [] { HexIsInjective(r.value, bytes); }
  }

  // ----- Quoted strings -----

  /** What one byte is written as inside a quoted string (section 7 of RFC 8259). */
  function Escape(b: byte): seq<byte> {
    if b == QUOTE then [BACKSLASH, QUOTE]
    else if b == BACKSLASH then [BACKSLASH, BACKSLASH]
    else if b == 10 then [BACKSLASH, 110]
    else if b == 13 then [BACKSLASH, 114]
    else if b == 9 then [BACKSLASH, 116]
    else if b < 32 then [BACKSLASH, 117, 48, 48] + HexPair(b)
    else [b]
  }

  function EscapeAll(text: seq<byte>): seq<byte> {
    if text == [] then [] else Escape(text[0]) + EscapeAll(text[1..])
  }

  function Quoted(text: seq<byte>): seq<byte> {
    [QUOTE] + EscapeAll(text) + [QUOTE]
  }

  function Unhex(c: seq<byte>): Option<nat>
    requires |c| == 2
  {
    if HexValue(c[0]).None? || HexValue(c[1]).None? then None
    else Some(16 * HexValue(c[0]).value + HexValue(c[1]).value)
  }

  /** A reader of one escaped byte: the byte and what follows it. */
  function ReadOne(input: seq<byte>): (r: Option<(byte, seq<byte>)>)
    ensures r.Some? ==> |r.value.1| < |input|
  {
    if input == [] then None
    else if input[0] == QUOTE || input[0] < 32 then None
    else if input[0] != BACKSLASH then Some((input[0], input[1..]))
    else if |input| < 2 then None
    else if input[1] == QUOTE || input[1] == BACKSLASH then Some((input[1], input[2..]))
    else if input[1] == 110 then Some((10, input[2..]))
    else if input[1] == 114 then Some((13, input[2..]))
    else if input[1] == 116 then Some((9, input[2..]))
    else if input[1] == 117 && |input| >= 6 && input[2..4] == [48, 48] then
      match Unhex(input[4..6])
      case None => None
      case Some(n) => Some((n as byte, input[6..]))
    else None
  }

  /** A reader of the rest of a quoted string, up to and past its closing quote. */
  function ReadRest(input: seq<byte>): Option<(seq<byte>, seq<byte>)>
    decreases |input|
  {
    if input != [] && input[0] == QUOTE then Some(([], input[1..]))
    else match ReadOne(input)
      case None => None
      case Some((b, after)) =>
        match ReadRest(after)
        case None => None
        case Some((text, rest)) => Some(([b] + text, rest))
  }

  function ReadQuoted(input: seq<byte>): Option<(seq<byte>, seq<byte>)> {
    if input != [] && input[0] == QUOTE then ReadRest(input[1..]) else None
  }

  lemma EscapeReads(b: byte, after: seq<byte>)
    ensures ReadOne(Escape(b) + after) == Some((b, after))
    ensures (Escape(b) + after)[0] != QUOTE
    ensures forall k :: 0 <= k < |Escape(b)| ==> Escape(b)[k] >= 32
  {
    var input := Escape(b) + after;
    PairReads(b);
    if b == QUOTE || b == BACKSLASH || b == 10 || b == 13 || b == 9 {
      assert input[2..] == after;
    } else if b < 32 {
      assert input[2..4] == [48, 48] && input[4..6] == HexPair(b) && input[6..] == after;
    } else {
      assert input[1..] == after;
    }
  }

  /** The quotes, the two-character escapes, and the numeric form of the other controls. */
  lemma EscapesWritten()
    ensures Ascii(Quoted([])) == "\"\"" && Ascii(Escape(34)) == "\\\"" && Ascii(Escape(92)) == "\\\\"
    ensures Ascii(Escape(10)) == "\\n" && Ascii(Escape(13)) == "\\r" && Ascii(Escape(9)) == "\\t"
    ensures Ascii(Escape(0)) == "\\u0000" && Ascii(Escape(31)) == "\\u001f"
  {
    NothingEscaped();
    assert HexPair(0) == [48, 48] && HexPair(31) == [49, 102];
  }

  /** No byte is written longer than it has to be: whatever is read as this byte is no
      shorter. */
  lemma EscapeIsShortest(b: byte, form: seq<byte>)
    requires ReadOne(form) == Some((b, []))
    ensures |Escape(b)| <= |form|
  {
  }

  lemma {:induction false} RestReads(text: seq<byte>, rest: seq<byte>)
    ensures ReadRest(EscapeAll(text) + [QUOTE] + rest) == Some((text, rest))
  {
    hide Escape, EscapeAll, ReadOne;
    if text == [] {
      NothingEscaped();
      assert ([QUOTE] + rest)[1..] == rest;
      assert EscapeAll(text) + [QUOTE] + rest == [QUOTE] + rest;
    } else {
      var after := EscapeAll(text[1..]) + [QUOTE] + rest;
      EscapeStep(text);
      assert EscapeAll(text) + [QUOTE] + rest == Escape(text[0]) + after;
      EscapeReads(text[0], after);
      RestReads(text[1..], rest);
      assert text == [text[0]] + text[1..];
    }
  }

  /** A quoted string reads back whatever follows it, so it ends where its own last
      quote is. */
  lemma QuotedReadsBack(text: seq<byte>, rest: seq<byte>)
    ensures ReadQuoted(Quoted(text) + rest) == Some((text, rest))
  {
    assert (Quoted(text) + rest)[1..] == EscapeAll(text) + [QUOTE] + rest;
    RestReads(text, rest);
  }

  /** No two strings, whatever follows them, are written alike. */
  lemma QuotedIsInjective(a: seq<byte>, b: seq<byte>, x: seq<byte>, y: seq<byte>)
    requires Quoted(a) + x == Quoted(b) + y
    ensures a == b && x == y
  {
    QuotedReadsBack(a, x);
    QuotedReadsBack(b, y);
  }

  /** No control byte is ever written raw. */
  lemma {:induction false} QuotedIsPrintable(text: seq<byte>)
    ensures forall k :: 0 <= k < |EscapeAll(text)| ==> EscapeAll(text)[k] >= 32
  {
    if text != [] {
      QuotedIsPrintable(text[1..]);
      EscapeReads(text[0], []);
    }
  }

  // ----- The bounded output -----

  /** The document grew by all of the text, or, when that does not fit, by a proper
      prefix of it. */
  ghost predicate Wrote(before: seq<byte>, after: seq<byte>, text: seq<byte>, limit: nat, ok: bool) {
    && (ok <==> |before| + |text| <= limit)
    && (ok ==> after == before + text)
    && (!ok ==> before <= after < before + text)
  }

  /** Whatever a write left behind, the document before it is still there to go back to:
      it is the first so many bytes of what there is now. */
  lemma StillThere(before: seq<byte>, after: seq<byte>, text: seq<byte>, limit: nat, ok: bool)
    requires Wrote(before, after, text, limit, ok)
    ensures |before| <= |after| && after[..|before|] == before
  {
  }

  /** Twenty digits hold any 64-bit number, filled from the last place forward. */
  method FillDigits(value: nat, buffer: array<byte>) returns (start: nat)
    requires value < U64_LIMIT && buffer.Length == 20
    modifies buffer
    ensures start <= 20 && buffer[start..] == Digits(value)
  {
    TwentyDigits(value);
    start := buffer.Length;
    var rest := value;
    assert buffer[start..] == [];
    while true
      invariant 0 <= start <= 20
      invariant Digits(value) == Digits(rest) + buffer[start..]
      decreases rest
    {
      start := start - 1;
      ghost var after := buffer[start + 1..];
      buffer[start] := 48 + (rest % 10) as byte;
      assert buffer[start..] == [buffer[start]] + after;
      rest := rest / 10;
      if rest == 0 { break; }
    }
  }

  class Output {
    var bytes: seq<byte>
    const limit: nat

    predicate Valid()
      reads this
    {
      |bytes| <= limit
    }

    constructor (limit: nat)
      ensures Valid() && bytes == [] && this.limit == limit
    {
      this.limit := limit;
      bytes := [];
    }

    method Append(text: seq<byte>) returns (ok: bool)
      requires Valid()
      modifies this
      ensures Valid() && Wrote(old(bytes), bytes, text, limit, ok) && (!ok ==> bytes == old(bytes))
    {
      if |text| > limit - |bytes| {
        return false;
      }
      bytes := bytes + text;
      ok := true;
    }

    method WriteQuoted(text: seq<byte>) returns (ok: bool)
      requires Valid()
      modifies this
      ensures Valid() && Wrote(old(bytes), bytes, Quoted(text), limit, ok)
    {
      hide Quoted, EscapeAll, Escape;
      ghost var before := bytes;
      QuotedParts(text, 0);
      assert text[..0] == [] && EscapeAll([]) == [] by { NothingEscaped(); }
      ok := Append([QUOTE]);
      if !ok { return; }
      var i := 0;
      while i < |text|
        invariant i <= |text| && Valid() && bytes == before + ([QUOTE] + EscapeAll(text[..i]))
      {
        QuotedParts(text, i);
        ok := Append(Escape(text[i]));
        if !ok { return; }
        i := i + 1;
      }
      QuotedParts(text, i);
      ok := Append([QUOTE]);
    }

    method WriteInteger(value: nat) returns (ok: bool)
      requires Valid() && value < U64_LIMIT
      modifies this
      ensures Valid() && Wrote(old(bytes), bytes, [QUOTE] + Digits(value) + [QUOTE], limit, ok)
    {
      hide Digits;
      var buffer := new byte[20];
      var start := FillDigits(value, buffer);
      ok := Append([QUOTE]);
      if !ok { return; }
      ok := Append(buffer[start..]);
      if !ok { return; }
      ok := Append([QUOTE]);
    }

    method WriteHex(data: seq<byte>) returns (ok: bool)
      requires Valid()
      modifies this
      ensures Valid() && Wrote(old(bytes), bytes, [QUOTE] + HexOf(data) + [QUOTE], limit, ok)
    {
      hide HexOf, HexPair;
      ghost var before := bytes;
      HexParts(data, 0);
      ok := Append([QUOTE]);
      if !ok { return; }
      var i := 0;
      while i < |data|
        invariant i <= |data| && Valid() && bytes == before + ([QUOTE] + HexOf(data[..i]))
      {
        HexParts(data, i);
        ok := Append(HexPair(data[i]));
        if !ok { return; }
        i := i + 1;
      }
      HexParts(data, i);
      ok := Append([QUOTE]);
    }

    /** Back to an earlier length, unless that would cut a character in two. */
    method Restore(checkpoint: nat) returns (ok: bool)
      requires Valid()
      modifies this
      ensures Valid()
      ensures ok <==> checkpoint <= |old(bytes)| && Utf8.IsUtf8(old(bytes)[..checkpoint])
      ensures bytes == if ok then old(bytes)[..checkpoint] else old(bytes)
    {
      if checkpoint > |bytes| || !Utf8.IsUtf8(bytes[..checkpoint]) { return false; }
      bytes := bytes[..checkpoint];
      ok := true;
    }

    /** A candidate string is written behind a checkpoint and taken back when it does not
        fit, however much of it was already written: the document stays valid text. */
    method QuotedOrRestored(text: seq<byte>) returns (ok: bool)
      requires Valid() && Utf8.IsUtf8(bytes) && Utf8.IsUtf8(text)
      modifies this
      ensures Valid() && Utf8.IsUtf8(bytes) && (ok <==> |old(bytes)| + |Quoted(text)| <= limit)
      ensures bytes == if ok then old(bytes) + Quoted(text) else old(bytes)
    {
      hide Quoted, Utf8.IsUtf8;
      var checkpoint := |bytes|;
      QuotedIsText(text);
      Utf8.Utf8Joins(bytes, Quoted(text));
      ok := WriteQuoted(text);
      StillThere(old(bytes), bytes, Quoted(text), limit, ok);
      if !ok {
        var restored := Restore(checkpoint);
      }
    }
  }

  lemma EscapeIsAscii(b: byte)
    requires b < 128
    ensures forall k :: 0 <= k < |Escape(b)| ==> Escape(b)[k] < 128
  {
  }

  lemma {:induction false} RawStays(text: seq<byte>)
    requires forall k :: 0 <= k < |text| ==> text[k] >= 128
    ensures EscapeAll(text) == text
  {
    if text != [] {
      RawStays(text[1..]);
      assert Escape(text[0]) == [text[0]];
      assert text == [text[0]] + text[1..];
    }
  }

  lemma {:induction false} EscapedIsText(text: seq<byte>)
    requires Utf8.IsUtf8(text)
    ensures Utf8.IsUtf8(EscapeAll(text))
    decreases |text|
  {
    hide Utf8.IsUtf8, EscapeAll, Escape;
    if text == [] {
      NothingEscaped();
    } else {
      var size := Utf8.FirstCharacter(text);
      EscapedIsText(text[size..]);
      assert text == text[..size] + text[size..];
      EscapeConcat(text[..size], text[size..]);
      CharacterIsText(text[..size]);
      Utf8.Utf8Joins(EscapeAll(text[..size]), EscapeAll(text[size..]));
    }
  }

  lemma CharacterIsText(text: seq<byte>)
    requires Utf8.IsUtf8(text)
    requires (|text| == 1 && text[0] < 128) || forall k :: 0 <= k < |text| ==> text[k] >= 128
    ensures Utf8.IsUtf8(EscapeAll(text))
  {
    hide EscapeAll, Escape, Utf8.WellFormedFrom;
    if |text| == 1 && text[0] < 128 {
      EscapeStep(text);
      NothingEscaped();
      assert text[1..] == [];
      EscapeIsAscii(text[0]);
      Utf8.AsciiWellFormed(EscapeAll(text), 0);
    } else {
      RawStays(text);
    }
  }

  /** Valid text is written as valid text. */
  lemma QuotedIsText(text: seq<byte>)
    requires Utf8.IsUtf8(text)
    ensures Utf8.IsUtf8(Quoted(text))
  {
    hide EscapeAll, Utf8.IsUtf8;
    EscapedIsText(text);
    QuoteIsText();
    Utf8.Utf8Joins([QUOTE], EscapeAll(text));
    Utf8.Utf8Joins([QUOTE] + EscapeAll(text), [QUOTE]);
  }

  lemma QuoteIsText()
    ensures Utf8.IsUtf8([QUOTE])
  {
    Utf8.AsciiWellFormed([QUOTE], 0);
  }

  lemma NothingEscaped()
    ensures EscapeAll([]) == []
  {
  }

  lemma {:induction false} EscapeConcat(a: seq<byte>, b: seq<byte>)
    ensures EscapeAll(a + b) == EscapeAll(a) + EscapeAll(b)
  {
    hide Escape, EscapeAll;
    if a == [] {
      NothingEscaped();
      assert a + b == b;
    } else {
      EscapeStep(a);
      EscapeStep(a + b);
      EscapeConcat(a[1..], b);
      assert (a + b)[1..] == a[1..] + b;
    }
  }

  lemma EscapeStep(text: seq<byte>)
    requires text != []
    ensures EscapeAll(text) == Escape(text[0]) + EscapeAll(text[1..])
  {
  }

  /** A quoted string before and after its byte i. */
  lemma QuotedParts(text: seq<byte>, i: nat)
    requires i <= |text|
    ensures Quoted(text) == [QUOTE] + EscapeAll(text[..i]) + (EscapeAll(text[i..]) + [QUOTE])
    ensures i < |text| ==>
      && EscapeAll(text[i..]) == Escape(text[i]) + EscapeAll(text[i + 1..])
      && EscapeAll(text[..i + 1]) == EscapeAll(text[..i]) + Escape(text[i])
    ensures i == |text| ==> EscapeAll(text[i..]) == []
  {
    hide Escape, EscapeAll;
    EscapeConcat(text[..i], text[i..]);
    assert text[..i] + text[i..] == text;
    if i < |text| {
      EscapeOne(text[i]);
      EscapeConcat([text[i]], text[i + 1..]);
      assert [text[i]] + text[i + 1..] == text[i..];
      EscapeConcat(text[..i], [text[i]]);
      assert text[..i] + [text[i]] == text[..i + 1];
    } else {
      NothingEscaped();
      assert text[i..] == [];
    }
  }

  lemma EscapeOne(b: byte)
    ensures EscapeAll([b]) == Escape(b)
  {
    hide Escape;
    assert EscapeAll([b]) == Escape(b) + EscapeAll([]);
  }

  lemma HexOne(b: byte)
    ensures HexOf([b]) == HexPair(b) && HexOf([]) == []
  {
    hide HexPair;
    assert HexOf([b]) == HexOf([]) + HexPair(b);
  }

  lemma {:induction false} HexConcat(a: seq<byte>, b: seq<byte>)
    ensures HexOf(a + b) == HexOf(a) + HexOf(b)
    decreases |b|
  {
    hide HexPair;
    if b == [] {
      assert a + b == a;
    } else {
      var front := b[..|b| - 1];
      HexConcat(a, front);
      assert (a + b)[..|a + b| - 1] == a + front;
    }
  }

  lemma HexParts(data: seq<byte>, i: nat)
    requires i <= |data|
    ensures HexOf(data) == HexOf(data[..i]) + HexOf(data[i..]) && HexOf(data[..0]) == []
    ensures i < |data| ==>
      && HexOf(data[i..]) == HexPair(data[i]) + HexOf(data[i + 1..])
      && HexOf(data[..i + 1]) == HexOf(data[..i]) + HexPair(data[i])
    ensures i == |data| ==> HexOf(data[i..]) == []
  {
    hide HexPair, HexOf;
    HexConcat(data[..i], data[i..]);
    assert data[..i] + data[i..] == data;
    assert data[..0] == [];
    HexOne(0);
    if i < |data| {
      HexOne(data[i]);
      HexConcat([data[i]], data[i + 1..]);
      assert [data[i]] + data[i + 1..] == data[i..];
      HexConcat(data[..i], [data[i]]);
      assert data[..i] + [data[i]] == data[..i + 1];
    } else {
      assert data[i..] == [];
    }
  }

  // ----- Delivery -----

  const CHUNK: nat := 16384

  /** What a foreign writer answers: it may also claim more than it was offered. */
  datatype Reply = Accepted(count: nat) | Interrupted | Failed

  class Writer {
    const reply: nat -> Reply
    var calls: nat
    /** The bytes accepted so far. */
    ghost var taken: seq<byte>

    constructor (reply: nat -> Reply)
      ensures this.reply == reply && calls == 0 && taken == []
    {
      this.reply := reply;
      calls, taken := 0, [];
    }

    /** Never offered nothing, nor more than one chunk. */
    method Write(data: seq<byte>) returns (r: Reply)
      requires 0 < |data| <= CHUNK
      modifies this
      ensures calls == old(calls) + 1 && r == reply(old(calls))
      ensures taken == old(taken) + if r.Accepted? && r.count <= |data| then data[..r.count] else []
    {
      r := reply(calls);
      calls := calls + 1;
      if r.Accepted? && r.count <= |data| { taken := taken + data[..r.count]; }
    }
  }

  datatype Delivery = Delivered | Canceled | CallLimit | NoProgress | InvalidCount | WriterFailed

  /** How many of `total` bytes are taken by n calls from number `first` on, when each
      offers a chunk, or what is left. */
  function Sent(reply: nat -> Reply, first: nat, n: nat, total: nat): (sent: nat)
    ensures sent <= total
  {
    if n == 0 then 0
    else
      var before := Sent(reply, first, n - 1, total);
      match reply(first + n - 1)
      case Accepted(count) => if count <= Min(total - before, 16384) then before + count else before
      case _ => before
  }

  function Chunks(total: nat): nat { (total + 16383) / 16384 }

  /** The replies from number `first` on take every offer whole. */
  ghost predicate TakesWhole(reply: nat -> Reply, first: nat, total: nat) {
    forall c: nat :: first <= c < first + Chunks(total) ==>
      reply(c) == Accepted(Min(total - (c - first) * 16384, 16384))
  }

  /** Then nothing is left after as many calls as there are chunks. */
  lemma {:induction false} WholeChunks(reply: nat -> Reply, first: nat, n: nat, total: nat)
    requires TakesWhole(reply, first, total) && n <= Chunks(total)
    ensures Sent(reply, first, n, total) == Min(n * CHUNK, total)
  {
    if 0 < n { WholeChunks(reply, first, n - 1, total); }
  }

  /** Every one of n calls was made with bytes left. */
  ghost predicate NeverIdle(reply: nat -> Reply, first: nat, n: nat, total: nat) {
    forall k: nat :: k < n ==> Sent(reply, first, k, total) < total
  }

  /** The calls from number `first` up to `end` were interrupted or took something. */
  ghost predicate Progressing(reply: nat -> Reply, first: nat, end: int) {
    forall c: nat :: first <= c < end ==> reply(c).Interrupted? || (reply(c).Accepted? && reply(c).count > 0)
  }

  /** What the last of n calls answered when delivery gave up for it. */
  ghost predicate Refused(r: Delivery, reply: nat -> Reply, first: nat, n: nat, total: nat) {
    && 0 < n
    && match r
       case NoProgress => reply(first + n - 1) == Accepted(0)
       case InvalidCount =>
         && reply(first + n - 1).Accepted?
         && reply(first + n - 1).count > Min(total - Sent(reply, first, n - 1, total), CHUNK)
       case _ => reply(first + n - 1) == Failed
  }

  /** Offer one chunk, or all that is left. */
  method Offer(bytes: seq<byte>, offset: nat, writer: Writer, ghost first: nat, ghost n: nat)
      returns (refusal: Option<Delivery>, next: nat)
    requires offset < |bytes| && writer.calls == first + n && offset == Sent(writer.reply, first, n, |bytes|)
    requires NeverIdle(writer.reply, first, n, |bytes|) && Progressing(writer.reply, first, first + n)
    modifies writer
    ensures writer.calls == first + n + 1 && NeverIdle(writer.reply, first, n + 1, |bytes|)
    ensures offset <= next <= |bytes| && next == Sent(writer.reply, first, n + 1, |bytes|)
    ensures writer.taken == old(writer.taken) + bytes[offset..next]
    ensures refusal.None? ==> Progressing(writer.reply, first, first + n + 1)
    ensures refusal.Some? ==>
      && next == offset && (refusal.value.NoProgress? || refusal.value.InvalidCount? || refusal.value.WriterFailed?)
      && Refused(refusal.value, writer.reply, first, n + 1, |bytes|)
  {
    hide Sent, NeverIdle, Progressing, Refused;
    var end := Min(|bytes|, offset + CHUNK);
    OneMoreCall(writer.reply, first, n, |bytes|);
    var reply := writer.Write(bytes[offset..end]);
    next := offset;
    match reply {
      case Accepted(count) =>
        if count == 0 { return Some(NoProgress), next; }
        if count > end - offset { return Some(InvalidCount), next; }
        assert bytes[offset..end][..count] == bytes[offset..offset + count];
        return None, offset + count;
      case Interrupted => return None, next;
      case Failed => return Some(WriterFailed), next;
    }
  }

  /** Whatever the writer answers, it has accepted a prefix of the response, and all of
      it exactly when delivery succeeds. Each call offers a chunk or all that is left, and
      none is made once everything is taken. */
  method Deliver(bytes: seq<byte>, writer: Writer, maxCalls: nat, cancel: Cancellation)
      returns (r: Delivery, ghost made: nat)
    modifies writer, cancel
    ensures writer.calls == old(writer.calls) + made && made <= maxCalls
    ensures old(writer.taken) <= writer.taken <= old(writer.taken) + bytes
    ensures |writer.taken| == |old(writer.taken)| + Sent(writer.reply, old(writer.calls), made, |bytes|)
    ensures r.Delivered? <==> writer.taken == old(writer.taken) + bytes
    ensures r.CallLimit? ==> made == maxCalls
    ensures made <= cancel.polls - old(cancel.polls)
    ensures if r.Canceled? then cancel.Stopped(old(cancel.polls)) else cancel.Quiet(old(cancel.polls))
    ensures NeverIdle(writer.reply, old(writer.calls), made, |bytes|)
    ensures Progressing(writer.reply, old(writer.calls), writer.calls - 1)
    ensures r.NoProgress? || r.InvalidCount? || r.WriterFailed? ==>
      Refused(r, writer.reply, old(writer.calls), made, |bytes|)
  {
    hide Sent, NeverIdle, Progressing, Refused;
    var offset, calls := 0, 0;
    ghost var first := writer.calls;
    NothingSent(writer.reply, first, |bytes|);
    while offset < |bytes|
      invariant offset <= |bytes| && calls <= maxCalls && writer.calls == first + calls
      invariant writer.taken == old(writer.taken) + bytes[..offset]
      invariant offset == Sent(writer.reply, first, calls, |bytes|)
      invariant NeverIdle(writer.reply, first, calls, |bytes|) && Progressing(writer.reply, first, first + calls)
      invariant cancel.Quiet(old(cancel.polls)) && calls <= cancel.polls - old(cancel.polls)
      decreases maxCalls - calls
    {
      FewerProgress(writer.reply, first, first + calls);
      var stop := cancel.Poll();
      if stop { return Canceled, calls; }
      if calls == maxCalls { return CallLimit, calls; }
      var refusal, next := Offer(bytes, offset, writer, first, calls);
      assert bytes[..offset] + bytes[offset..next] == bytes[..next];
      calls, offset := calls + 1, next;
      if refusal.Some? { return refusal.value, calls; }
    }
    FewerProgress(writer.reply, first, first + calls);
    assert bytes[..offset] == bytes;
    return Delivered, calls;
  }

  lemma NothingSent(reply: nat -> Reply, first: nat, total: nat)
    ensures Sent(reply, first, 0, total) == 0
    ensures NeverIdle(reply, first, 0, total) && Progressing(reply, first, first)
  {
  }

  lemma FewerProgress(reply: nat -> Reply, first: nat, end: int)
    requires Progressing(reply, first, end)
    ensures Progressing(reply, first, end - 1)
  {
  }

  /** What one more call does, by its answer. */
  lemma OneMoreCall(reply: nat -> Reply, first: nat, n: nat, total: nat)
    requires NeverIdle(reply, first, n, total) && Progressing(reply, first, first + n)
    requires Sent(reply, first, n, total) < total
    ensures NeverIdle(reply, first, n + 1, total)
    ensures
      var before, last := Sent(reply, first, n, total), reply(first + n);
      var offered := Min(total - before, CHUNK);
      && (last.Accepted? && 0 < last.count <= offered ==>
            Sent(reply, first, n + 1, total) == before + last.count && Progressing(reply, first, first + n + 1))
      && (last.Interrupted? ==> Sent(reply, first, n + 1, total) == before && Progressing(reply, first, first + n + 1))
      && (last == Accepted(0) ==>
            Sent(reply, first, n + 1, total) == before && Refused(NoProgress, reply, first, n + 1, total))
      && (last.Accepted? && last.count > offered ==>
            Sent(reply, first, n + 1, total) == before && Refused(InvalidCount, reply, first, n + 1, total))
      && (last == Failed ==>
            Sent(reply, first, n + 1, total) == before && Refused(WriterFailed, reply, first, n + 1, total))
  {
  }

  /** A writer that takes every offer whole is served in as many calls as there are
      chunks, when that many are allowed and nothing is canceled. */
  lemma WholeWriterIsServed(r: Delivery, reply: nat -> Reply, first: nat, made: nat, total: nat, maxCalls: nat)
    requires TakesWhole(reply, first, total) && Chunks(total) <= maxCalls
    requires NeverIdle(reply, first, made, total) && (r.Delivered? <==> Sent(reply, first, made, total) == total)
    requires r.CallLimit? ==> made == maxCalls
    requires r.NoProgress? || r.InvalidCount? || r.WriterFailed? ==> Refused(r, reply, first, made, total)
    ensures r.Canceled? || (r.Delivered? && made == Chunks(total))
  {
    WholeChunks(reply, first, Chunks(total), total);
    assert made <= Chunks(total);
    WholeChunks(reply, first, made, total);
    if 0 < made { WholeChunks(reply, first, made - 1, total); }
  }
}
