/** Text decoded from bytes that may not be valid UTF-8: each maximal malformed stretch
    becomes one replacement character. */
module Utf8 {
  import opened Basics

  const REPLACEMENT: char := '\U{FFFD}'

  /** One decoded character, the bytes it took, and whether they were well formed. */
  datatype Step = Step(scalar: char, size: nat, ok: bool)

  predicate Between(bytes: seq<byte>, i: nat, low: int, high: int) {
    i < |bytes| && low <= bytes[i] as int <= high
  }

  predicate Continues(bytes: seq<byte>, i: nat) { Between(bytes, i, 128, 191) }

  function Bad(size: nat): Step { Step(REPLACEMENT, size, false) }

  /** The lower six bits of a continuation byte. */
  function Low(b: byte): int { b as int - 128 }

  /** A three-byte character: overlong forms and surrogates are malformed from their
      second byte on. */
  function Three(bytes: seq<byte>, i: nat): (step: Step)
    requires Between(bytes, i, 224, 239)
    ensures 1 <= step.size <= 3 && i + step.size <= |bytes| && (step.ok ==> step.size == 3)
    ensures forall k :: i <= k < i + step.size ==> bytes[k] >= 128
    ensures step.scalar >= '\U{80}'
  {
    var lead := bytes[i] as int;
    if !Between(bytes, i + 1, if lead == 224 then 160 else 128, if lead == 237 then 159 else 191) then Bad(1)
    else if !Continues(bytes, i + 2) then Bad(2)
    else Step(((lead - 224) * 4096 + Low(bytes[i + 1]) * 64 + Low(bytes[i + 2])) as char, 3, true)
  }

  /** A four-byte character, up to the last code point. */
  function Four(bytes: seq<byte>, i: nat): (step: Step)
    requires Between(bytes, i, 240, 244)
    ensures 1 <= step.size <= 4 && i + step.size <= |bytes| && (step.ok ==> step.size == 4)
    ensures forall k :: i <= k < i + step.size ==> bytes[k] >= 128
    ensures step.scalar >= '\U{80}'
  {
    var lead := bytes[i] as int;
    if !Between(bytes, i + 1, if lead == 240 then 144 else 128, if lead == 244 then 143 else 191) then Bad(1)
    else if !Continues(bytes, i + 2) then Bad(2)
    else if !Continues(bytes, i + 3) then Bad(3)
    else
      var n := (lead - 240) * 262144 + Low(bytes[i + 1]) * 4096 + Low(bytes[i + 2]) * 64 + Low(bytes[i + 3]);
      Step(n as char, 4, true)
  }

  function DecodeStep(bytes: seq<byte>, i: nat): (step: Step)
    requires i < |bytes|
    ensures 1 <= step.size <= 4 && i + step.size <= |bytes|
    ensures bytes[i] < 128 ==> step == Step(bytes[i] as int as char, 1, true)
    ensures bytes[i] >= 128 ==> step.scalar >= '\U{80}' && forall k :: i <= k < i + step.size ==> bytes[k] >= 128
    ensures step.ok ==> !Continues(bytes, i)
  {
    if bytes[i] < 128 then Step(bytes[i] as int as char, 1, true)
    else if Between(bytes, i, 194, 223) then
      if !Continues(bytes, i + 1) then Bad(1)
      else Step(((bytes[i] as int - 192) * 64 + Low(bytes[i + 1])) as char, 2, true)
    else if Between(bytes, i, 224, 239) then Three(bytes, i)
    else if Between(bytes, i, 240, 244) then Four(bytes, i)
    else Bad(1)
  }

  function LossyFrom(bytes: seq<byte>, i: nat): string
    requires i <= |bytes|
    decreases |bytes| - i
  {
    if i == |bytes| then []
    else var step := DecodeStep(bytes, i); [step.scalar] + LossyFrom(bytes, i + step.size)
  }

  function Lossy(bytes: seq<byte>): string { LossyFrom(bytes, 0) }

  predicate WellFormedFrom(bytes: seq<byte>, i: nat)
    requires i <= |bytes|
    decreases |bytes| - i
  {
    i == |bytes| || (DecodeStep(bytes, i).ok && WellFormedFrom(bytes, i + DecodeStep(bytes, i).size))
  }

  predicate IsUtf8(bytes: seq<byte>) { WellFormedFrom(bytes, 0) }

  function Encode(c: char): seq<byte> {
    var n := c as int;
    if n < 0x80 then [n as byte]
    else if n < 0x800 then [(192 + n / 64) as byte, (128 + n % 64) as byte]
    else if n < 0x10000 then [(224 + n / 4096) as byte, (128 + n / 64 % 64) as byte, (128 + n % 64) as byte]
    else
      [(240 + n / 262144) as byte, (128 + n / 4096 % 64) as byte, (128 + n / 64 % 64) as byte, (128 + n % 64) as byte]
  }

  function EncodeAll(text: string): seq<byte> {
    if text == [] then [] else Encode(text[0]) + EncodeAll(text[1..])
  }

  // ----- Encoding undoes decoding -----

  lemma ThreeBytes(a: int, b: int, c: int)
    requires 0 <= a < 16 && 0 <= b < 64 && 0 <= c < 64
    ensures
      var n := a * 4096 + b * 64 + c;
      n / 4096 == a && n / 64 % 64 == b && n % 64 == c
  {
    var n := a * 4096 + b * 64 + c;
    assert n == (a * 64 + b) * 64 + c;
    assert n / 64 == a * 64 + b;
  }

  lemma FourBytes(a: int, b: int, c: int, d: int)
    requires 0 <= a < 8 && 0 <= b < 64 && 0 <= c < 64 && 0 <= d < 64
    ensures
      var n := a * 262144 + b * 4096 + c * 64 + d;
      n / 262144 == a && n / 4096 % 64 == b && n / 64 % 64 == c && n % 64 == d
  {
    var n := a * 262144 + b * 4096 + c * 64 + d;
    assert n == (a * 4096 + b * 64 + c) * 64 + d;
    assert n / 64 == a * 4096 + b * 64 + c;
    assert n / 4096 == a * 64 + b;
  }

  lemma TwoStepRoundTrip(bytes: seq<byte>, i: nat)
    requires Between(bytes, i, 194, 223) && Continues(bytes, i + 1)
    ensures Encode(DecodeStep(bytes, i).scalar) == bytes[i..i + DecodeStep(bytes, i).size]
  {
    var a, b := bytes[i] as int - 192, Low(bytes[i + 1]);
    assert DecodeStep(bytes, i) == Step((a * 64 + b) as char, 2, true);
    hide DecodeStep;
    assert (a * 64 + b) / 64 == a && (a * 64 + b) % 64 == b;
    assert bytes[i..i + 2] == [bytes[i], bytes[i + 1]];
  }

  lemma ThreeStepRoundTrip(bytes: seq<byte>, i: nat)
    requires Between(bytes, i, 224, 239) && Three(bytes, i).ok
    ensures Encode(Three(bytes, i).scalar) == bytes[i..i + Three(bytes, i).size]
  {
    var a, b, c := bytes[i] as int - 224, Low(bytes[i + 1]), Low(bytes[i + 2]);
    ThreeBytes(a, b, c);
    var n := a * 4096 + b * 64 + c;
    assert Three(bytes, i) == Step(n as char, 3, true) && n >= 0x800;
    hide Three;
    assert bytes[i..i + 3] == [bytes[i], bytes[i + 1], bytes[i + 2]];
  }

  lemma FourStepRoundTrip(bytes: seq<byte>, i: nat)
    requires Between(bytes, i, 240, 244) && Four(bytes, i).ok
    ensures Encode(Four(bytes, i).scalar) == bytes[i..i + Four(bytes, i).size]
  {
    var a, b, c, d := bytes[i] as int - 240, Low(bytes[i + 1]), Low(bytes[i + 2]), Low(bytes[i + 3]);
    FourBytes(a, b, c, d);
    var n := a * 262144 + b * 4096 + c * 64 + d;
    assert Four(bytes, i) == Step(n as char, 4, true) && n >= 0x10000;
    hide Four;
    assert bytes[i..i + 4] == [bytes[i], bytes[i + 1], bytes[i + 2], bytes[i + 3]];
  }

  lemma StepRoundTrip(bytes: seq<byte>, i: nat)
    requires i < |bytes| && DecodeStep(bytes, i).ok
    ensures Encode(DecodeStep(bytes, i).scalar) == bytes[i..i + DecodeStep(bytes, i).size]
  {
    hide Encode, Three, Four;
    if bytes[i] < 128 {
      assert Encode(bytes[i] as int as char) == [bytes[i]] by { OneByte(bytes[i]); }
      assert bytes[i..i + 1] == [bytes[i]];
    } else if Between(bytes, i, 194, 223) {
      TwoStepRoundTrip(bytes, i);
    } else if Between(bytes, i, 224, 239) {
      ThreeStepRoundTrip(bytes, i);
    } else {
      FourStepRoundTrip(bytes, i);
    }
  }

  lemma OneByte(b: byte)
    requires b < 128
    ensures Encode(b as int as char) == [b]
  {
  }

  lemma LossyStep(bytes: seq<byte>, i: nat)
    requires i < |bytes|
    ensures LossyFrom(bytes, i) == [DecodeStep(bytes, i).scalar] + LossyFrom(bytes, i + DecodeStep(bytes, i).size)
    ensures WellFormedFrom(bytes, i) <==>
      DecodeStep(bytes, i).ok && WellFormedFrom(bytes, i + DecodeStep(bytes, i).size)
  {
    hide DecodeStep;
  }

  lemma EncodeStep(c: char, text: string)
    ensures EncodeAll([c] + text) == Encode(c) + EncodeAll(text)
  {
    hide Encode;
    assert ([c] + text)[1..] == text;
  }

  lemma {:induction false} EncodeSnoc(text: string, c: char)
    ensures EncodeAll(text + [c]) == EncodeAll(text) + Encode(c)
  {
    hide Encode;
    if text == [] {
      assert text + [c] == [c] + text;
      EncodeStep(c, text);
    } else {
      assert (text + [c])[1..] == text[1..] + [c];
      EncodeSnoc(text[1..], c);
    }
  }

  lemma NoText(bytes: seq<byte>)
    ensures LossyFrom(bytes, |bytes|) == [] && EncodeAll([]) == []
  {
  }

  lemma {:induction false} WellFormedRoundTrip(bytes: seq<byte>, i: nat)
    requires i <= |bytes| && WellFormedFrom(bytes, i)
    ensures EncodeAll(LossyFrom(bytes, i)) == bytes[i..]
    decreases |bytes| - i
  {
    hide Encode, DecodeStep, LossyFrom, EncodeAll, WellFormedFrom;
    if i < |bytes| {
      var step := DecodeStep(bytes, i);
      LossyStep(bytes, i);
      StepRoundTrip(bytes, i);
      WellFormedRoundTrip(bytes, i + step.size);
      EncodeStep(step.scalar, LossyFrom(bytes, i + step.size));
      assert bytes[i..] == bytes[i..i + step.size] + bytes[i + step.size..];
    } else {
      NoText(bytes);
    }
  }

  /** Valid UTF-8 survives decoding and encoding unchanged. */
  lemma Utf8RoundTrip(bytes: seq<byte>)
    requires IsUtf8(bytes)
    ensures EncodeAll(Lossy(bytes)) == bytes
  {
    WellFormedRoundTrip(bytes, 0);
    assert bytes[0..] == bytes;
  }

  /** In valid UTF-8 a character starts right after any one-byte character. */
  lemma {:induction false} AsciiStandsAlone(bytes: seq<byte>, j: nat, i: nat)
    requires j <= |bytes| && WellFormedFrom(bytes, j) && j < i < |bytes| && bytes[i - 1] < 128
    ensures !Continues(bytes, i)
    decreases i - j
  {
    var size := DecodeStep(bytes, j).size;
    if j + size < i {
      AsciiStandsAlone(bytes, j + size, i);
    } else {
      assert j == i - 1;
    }
  }

  // ----- Decoding piece by piece -----

  /** A step never looks past a one-byte character. */
  lemma StepStays(bytes: seq<byte>, n: nat, i: nat)
    requires i < n <= |bytes| && bytes[n - 1] < 128
    ensures DecodeStep(bytes[..n], i) == DecodeStep(bytes, i) && i + DecodeStep(bytes, i).size <= n
  {
    hide DecodeStep, Three, Four;
    StepKeeps(bytes, bytes[..n], i);
  }

  lemma StepKeeps(bytes: seq<byte>, front: seq<byte>, i: nat)
    requires i < |front| && front <= bytes && front[|front| - 1] < 128
    ensures DecodeStep(front, i) == DecodeStep(bytes, i)
  {
    assert forall k: nat, low, high :: i < k && low >= 128 && k < |front| ==>
        (Between(front, k, low, high) <==> Between(bytes, k, low, high));
    assert forall k: nat :: k < |front| ==> front[k] == bytes[k];
  }

  /** Text splits behind every one-byte character as its bytes do. */
  lemma {:induction false} LossySplits(bytes: seq<byte>, n: nat, i: nat)
    requires i <= n <= |bytes| && (i < n ==> bytes[n - 1] < 128)
    ensures LossyFrom(bytes, i) == LossyFrom(bytes[..n], i) + LossyFrom(bytes, n)
    decreases n - i
  {
    hide DecodeStep, LossyFrom;
    if i < n {
      StepStays(bytes, n, i);
      LossyStep(bytes, i);
      LossyStep(bytes[..n], i);
      LossySplits(bytes, n, i + DecodeStep(bytes, i).size);
    } else {
      NoText(bytes[..n]);
    }
  }

  lemma StepShifts(bytes: seq<byte>, n: nat, i: nat)
    requires n + i < |bytes|
    ensures DecodeStep(bytes[n..], i) == DecodeStep(bytes, n + i)
  {
    assert forall k: nat :: n + k < |bytes| ==> bytes[n..][k] == bytes[n + k];
  }

  lemma {:induction false} LossyShifts(bytes: seq<byte>, n: nat, i: nat)
    requires n + i <= |bytes|
    ensures LossyFrom(bytes, n + i) == LossyFrom(bytes[n..], i)
    decreases |bytes| - i
  {
    hide DecodeStep, LossyFrom;
    if n + i < |bytes| {
      StepShifts(bytes, n, i);
      LossyStep(bytes, n + i);
      LossyStep(bytes[n..], i);
      LossyShifts(bytes, n, i + DecodeStep(bytes, n + i).size);
    } else {
      NoText(bytes);
      NoText(bytes[n..]);
    }
  }

  lemma LossyJoins(bytes: seq<byte>, n: nat)
    requires n <= |bytes| && (0 < n ==> bytes[n - 1] < 128)
    ensures Lossy(bytes) == Lossy(bytes[..n]) + Lossy(bytes[n..])
  {
    LossySplits(bytes, n, 0);
    LossyShifts(bytes, n, 0);
  }

  /** Text of one-byte characters decodes byte by byte. */
  lemma {:induction false} AsciiDecodes(bytes: seq<byte>, i: nat)
    requires i <= |bytes| && forall k :: 0 <= k < |bytes| ==> bytes[k] < 128
    ensures LossyFrom(bytes, i) == Ascii(bytes[i..])
    decreases |bytes| - i
  {
    hide LossyFrom;
    if i < |bytes| {
      LossyStep(bytes, i);
      AsciiDecodes(bytes, i + 1);
    } else {
      NoText(bytes);
    }
  }

  // ----- Valid text is closed under joining -----

  /** A whole character reads the same whatever follows it. */
  lemma WholeStep(front: seq<byte>, bytes: seq<byte>, i: nat)
    requires i < |front| && front <= bytes && DecodeStep(front, i).ok
    ensures DecodeStep(bytes, i) == DecodeStep(front, i)
  {
    assert forall k: nat, low, high :: Between(front, k, low, high) ==> Between(bytes, k, low, high);
    assert forall k: nat :: k < |front| ==> front[k] == bytes[k];
  }

  lemma WellFormedStep(bytes: seq<byte>, i: nat)
    requires i < |bytes|
    ensures WellFormedFrom(bytes, i) <==>
      DecodeStep(bytes, i).ok && WellFormedFrom(bytes, i + DecodeStep(bytes, i).size)
  {
    hide DecodeStep;
  }

  lemma {:induction false} WellFormedShifts(bytes: seq<byte>, n: nat, i: nat)
    requires n + i <= |bytes|
    ensures WellFormedFrom(bytes, n + i) <==> WellFormedFrom(bytes[n..], i)
    decreases |bytes| - i
  {
    hide DecodeStep, WellFormedFrom;
    if n + i < |bytes| {
      StepShifts(bytes, n, i);
      WellFormedStep(bytes, n + i);
      WellFormedStep(bytes[n..], i);
      WellFormedShifts(bytes, n, i + DecodeStep(bytes, n + i).size);
    } else {
      AtTheEnd(bytes);
      AtTheEnd(bytes[n..]);
    }
  }

  lemma AtTheEnd(bytes: seq<byte>)
    ensures WellFormedFrom(bytes, |bytes|)
  {
  }

  lemma {:induction false} WellFormedJoins(front: seq<byte>, rest: seq<byte>, i: nat)
    requires i <= |front| && WellFormedFrom(front, i) && IsUtf8(rest)
    ensures WellFormedFrom(front + rest, i)
    decreases |front| - i
  {
    hide DecodeStep, WellFormedFrom;
    var bytes := front + rest;
    if i < |front| {
      WellFormedStep(front, i);
      WholeStep(front, bytes, i);
      WellFormedStep(bytes, i);
      WellFormedJoins(front, rest, i + DecodeStep(front, i).size);
    } else {
      WellFormedShifts(bytes, i, 0);
      assert bytes[i..] == rest;
    }
  }

  /** Valid texts join to valid text. */
  lemma Utf8Joins(front: seq<byte>, rest: seq<byte>)
    requires IsUtf8(front) && IsUtf8(rest)
    ensures IsUtf8(front + rest)
  {
    WellFormedJoins(front, rest, 0);
  }

  /** Behind its first byte a whole character has continuation bytes only. */
  lemma CharacterContinues(bytes: seq<byte>, i: nat)
    requires i < |bytes| && DecodeStep(bytes, i).ok
    ensures !Continues(bytes, i) && forall k: nat :: i < k < i + DecodeStep(bytes, i).size ==> Continues(bytes, k)
  {
  }

  /** Cut where a character starts, and only there, valid text stays valid. */
  lemma {:induction false} CharactersMeet(bytes: seq<byte>, j: nat, i: nat)
    requires j <= i < |bytes| && WellFormedFrom(bytes, j)
    ensures !Continues(bytes, i) <==> WellFormedFrom(bytes[..i], j)
    decreases i - j
  {
    hide DecodeStep, WellFormedFrom, Continues;
    WellFormedStep(bytes, j);
    CharacterContinues(bytes, j);
    if i == j {
      AtTheEnd(bytes[..i]);
    } else {
      var front, size := bytes[..i], DecodeStep(bytes, j).size;
      WellFormedStep(front, j);
      if j + size <= i {
        WithinFront(bytes, i, j);
        CharactersMeet(bytes, j + size, i);
      } else if DecodeStep(front, j).ok {
        WholeStep(front, bytes, j);
      }
    }
  }

  lemma WithinFront(bytes: seq<byte>, n: nat, i: nat)
    requires i < n <= |bytes| && DecodeStep(bytes, i).ok && i + DecodeStep(bytes, i).size <= n
    ensures DecodeStep(bytes[..n], i) == DecodeStep(bytes, i)
  {
    var front := bytes[..n];
    assert forall k: nat :: k < n ==> front[k] == bytes[k];
    assert forall k: nat, low, high :: k < n ==> (Between(front, k, low, high) <==> Between(bytes, k, low, high));
  }

  lemma {:induction false} AsciiWellFormed(bytes: seq<byte>, i: nat)
    requires i <= |bytes| && forall k :: 0 <= k < |bytes| ==> bytes[k] < 128
    ensures WellFormedFrom(bytes, i)
    decreases |bytes| - i
  {
    if i < |bytes| { AsciiWellFormed(bytes, i + 1); }
  }

  /** The first character of a valid text and what follows it. */
  lemma FirstCharacter(bytes: seq<byte>) returns (size: nat)
    requires IsUtf8(bytes) && bytes != []
    ensures 1 <= size <= |bytes| && IsUtf8(bytes[..size]) && IsUtf8(bytes[size..])
    ensures bytes[0] < 128 ==> size == 1
    ensures bytes[0] >= 128 ==> forall k :: 0 <= k < size ==> bytes[k] >= 128
  {
    hide DecodeStep, WellFormedFrom;
    WellFormedStep(bytes, 0);
    size := DecodeStep(bytes, 0).size;
    OwnStep(bytes);
    WellFormedStep(bytes[..size], 0);
    AtTheEnd(bytes[..size]);
    WellFormedShifts(bytes, size, 0);
  }

  lemma OwnStep(bytes: seq<byte>)
    requires bytes != [] && DecodeStep(bytes, 0).ok
    ensures DecodeStep(bytes[..DecodeStep(bytes, 0).size], 0) == DecodeStep(bytes, 0)
  {
    var own := bytes[..DecodeStep(bytes, 0).size];
    assert forall k: nat :: k < |own| ==> own[k] == bytes[k];
    assert forall k: nat, low, high :: k < |own| ==> (Between(own, k, low, high) <==> Between(bytes, k, low, high));
  }

  // ----- Decoding undoes encoding -----

  lemma TwoReads(c: char, rest: seq<byte>)
    requires 0x80 <= c as int < 0x800
    ensures DecodeStep(Encode(c) + rest, 0) == Step(c, |Encode(c)|, true)
  {
    var n, bytes := c as int, Encode(c) + rest;
    assert bytes[0] as int == 192 + n / 64 && bytes[1] as int == 128 + n % 64;
    assert (n / 64) * 64 + n % 64 == n;
  }

  lemma ThreeReads(c: char, rest: seq<byte>)
    requires 0x800 <= c as int < 0x10000
    ensures DecodeStep(Encode(c) + rest, 0) == Step(c, |Encode(c)|, true)
  {
    var n, bytes := c as int, Encode(c) + rest;
    var x, y, z := n / 4096, n / 64 % 64, n % 64;
    assert x * 4096 + y * 64 + z == n;
    assert bytes[0] as int == 224 + x && bytes[1] as int == 128 + y && bytes[2] as int == 128 + z;
    assert DecodeStep(bytes, 0) == Three(bytes, 0);
  }

  /** The parts a four-byte character is written in, as its second byte is judged by them. */
  lemma FourParts(n: int)
    requires 0x10000 <= n < 0x110000
    ensures n / 262144 * 262144 + n / 4096 % 64 * 4096 + n / 64 % 64 * 64 + n % 64 == n
    ensures 0 <= n / 262144 <= 4
    ensures n / 262144 == 0 ==> 16 <= n / 4096 % 64
    ensures n / 262144 == 4 ==> n / 4096 % 64 < 16
  {
  }

  lemma FourReads(c: char, rest: seq<byte>)
    requires 0x10000 <= c as int
    ensures DecodeStep(Encode(c) + rest, 0) == Step(c, |Encode(c)|, true)
  {
    var n, own, bytes := c as int, Encode(c), Encode(c) + rest;
    var w, x, y, z := n / 262144, n / 4096 % 64, n / 64 % 64, n % 64;
    assert own == [(240 + w) as byte, (128 + x) as byte, (128 + y) as byte, (128 + z) as byte];
    FourParts(n);
    hide Encode;
    assert bytes[0] == own[0] && bytes[1] == own[1] && bytes[2] == own[2] && bytes[3] == own[3];
    FourStep(bytes, c, w, x, y, z);
  }

  lemma FourStep(bytes: seq<byte>, c: char, w: int, x: int, y: int, z: int)
    requires 0 <= w <= 4 && 0 <= x < 64 && 0 <= y < 64 && 0 <= z < 64 && 4 <= |bytes|
    requires bytes[0] as int == 240 + w && bytes[1] as int == 128 + x
    requires bytes[2] as int == 128 + y && bytes[3] as int == 128 + z
    requires c as int == w * 262144 + x * 4096 + y * 64 + z
    requires (w == 0 ==> 16 <= x) && (w == 4 ==> x < 16)
    ensures DecodeStep(bytes, 0) == Step(c, 4, true)
  {
    assert DecodeStep(bytes, 0) == Four(bytes, 0);
  }

  /** Every character is read back from its own bytes, whatever follows them. */
  lemma EncodedReads(c: char, rest: seq<byte>)
    ensures DecodeStep(Encode(c) + rest, 0) == Step(c, |Encode(c)|, true)
  {
    hide Three, Four;
    var n := c as int;
    if n < 0x80 {
      assert (Encode(c) + rest)[0] as int == n;
    } else if n < 0x800 {
      TwoReads(c, rest);
    } else if n < 0x10000 {
      ThreeReads(c, rest);
    } else {
      FourReads(c, rest);
    }
  }

  /** Every text is valid once written, and reads back. */
  lemma {:induction false} TextReadsBack(text: string)
    ensures IsUtf8(EncodeAll(text)) && Lossy(EncodeAll(text)) == text
  {
    hide Encode, DecodeStep, LossyFrom, WellFormedFrom, EncodeAll;
    if text == [] {
      NoText([]);
      AtTheEnd([]);
    } else {
      var c, rest := text[0], EncodeAll(text[1..]);
      var bytes, n := Encode(c) + rest, |Encode(c)|;
      TextReadsBack(text[1..]);
      assert text == [c] + text[1..];
      EncodeStep(c, text[1..]);
      EncodedReads(c, rest);
      LossyStep(bytes, 0);
      LossyShifts(bytes, n, 0);
      WellFormedShifts(bytes, n, 0);
      assert bytes[n..] == rest;
    }
  }

  /** A whole character at byte i is read as that character. */
  lemma CharacterReads(bytes: seq<byte>, i: nat, c: char)
    requires i < |bytes| && Encode(c) <= bytes[i..]
    ensures DecodeStep(bytes, i) == Step(c, |Encode(c)|, true)
  {
    hide Encode, DecodeStep;
    EncodedReads(c, bytes[i..][|Encode(c)|..]);
    assert bytes[i..] == Encode(c) + bytes[i..][|Encode(c)|..];
    StepShifts(bytes, i, 0);
  }

  /** Some character is written with these bytes first. */
  ghost predicate StartsCharacter(bytes: seq<byte>) {
    exists c :: bytes <= Encode(c)
  }

  lemma CutShort(bytes: seq<byte>, i: nat)
    requires i < |bytes| && !DecodeStep(bytes, i).ok && 1 < DecodeStep(bytes, i).size
    ensures StartsCharacter(bytes[i..i + DecodeStep(bytes, i).size])
  {
    var size, lead, x := DecodeStep(bytes, i).size, bytes[i] as int, Low(bytes[i + 1]);
    assert bytes[i..i + 2] == [bytes[i], bytes[i + 1]];
    if lead < 240 {
      var n := (lead - 224) * 4096 + x * 64;
      ThreeBytes(lead - 224, x, 0);
      assert bytes[i..i + size] <= Encode(n as char);
    } else {
      var y := if size == 3 then Low(bytes[i + 2]) else 0;
      var n := (lead - 240) * 262144 + x * 4096 + y * 64;
      FourBytes(lead - 240, x, y, 0);
      assert size == 3 ==> bytes[i..i + 3] == [bytes[i], bytes[i + 1], bytes[i + 2]];
      assert bytes[i..i + size] <= Encode(n as char);
    }
  }

  lemma NoFurther(bytes: seq<byte>, i: nat, c: char)
    requires i < |bytes| && !DecodeStep(bytes, i).ok && i + DecodeStep(bytes, i).size < |bytes|
    ensures !(bytes[i..i + DecodeStep(bytes, i).size + 1] <= Encode(c))
  {
    hide Encode;
    var own, part := Encode(c), bytes[i..i + DecodeStep(bytes, i).size + 1];
    EncodedReads(c, []);
    assert own + [] == own;
    assert forall k :: 0 <= k < |part| ==> part[k] == bytes[i + k];
    assert part <= own ==> forall k :: 0 <= k < |part| ==> own[k] == part[k];
  }

  lemma Replaced(bytes: seq<byte>, i: nat)
    requires i < |bytes|
    ensures !DecodeStep(bytes, i).ok ==> DecodeStep(bytes, i).scalar == '\U{FFFD}'
  {
  }

  /** A replaced stretch is read as U+FFFD and as long as it can be: more than one byte of it are how some
      character starts, one byte more is not, and no whole character is ever replaced. */
  lemma MaximalSubpart(bytes: seq<byte>, i: nat)
    requires i < |bytes| && !DecodeStep(bytes, i).ok
    ensures
      var end := i + DecodeStep(bytes, i).size;
      && DecodeStep(bytes, i).scalar == '\U{FFFD}'
      && (i + 1 < end ==> StartsCharacter(bytes[i..end]))
      && (end < |bytes| ==> !StartsCharacter(bytes[i..end + 1]))
      && forall c :: !(Encode(c) <= bytes[i..])
  {
    hide DecodeStep, Encode;
    var end := i + DecodeStep(bytes, i).size;
    Replaced(bytes, i);
    if i + 1 < end { CutShort(bytes, i); }
    if end < |bytes| {
      forall c ensures !(bytes[i..end + 1] <= Encode(c)) { NoFurther(bytes, i, c); }
    }
    forall c ensures !(Encode(c) <= bytes[i..]) {
      if Encode(c) <= bytes[i..] { CharacterReads(bytes, i, c); }
    }
  }
}
