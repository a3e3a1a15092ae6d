/** Whole-token occurrences of a name, found in one pass over the decoded text. */
module References {
  import opened Basics
  import opened LineText
  import Utf8

  const MAX_SOURCE_BYTES: nat := 524288
  const MAX_ITEMS: nat := 4096
  const MAX_NAME_BYTES: nat := 1024
  const CANCEL_QUANTUM: nat := 4096

  type Span = (nat, nat)

  datatype Candidate = Candidate(id: nat, original: Span, decoded: Span, line: nat)

  datatype ReferenceError = SourceLimit | InvalidLimits | InvalidName | UnsupportedEncoding | InvalidEvidence | Canceled

  predicate IsAsciiDigit(c: char) { '0' <= c <= '9' }

  predicate IsControl(c: char) { c < '\U{20}' || '\U{7F}' <= c < '\U{A0}' }

  /** A scalar that never ends a token. */
  predicate IsTokenScalar(c: char) {
    || IsAsciiDigit(c) || 'a' <= c <= 'z' || 'A' <= c <= 'Z' || c == '_' || c == '$'
    || (c >= '\U{80}' && !IsWhitespace(c) && !IsControl(c))
  }

  /** Below U+0080 a token is made of letters, digits, the underscore and the dollar; above,
      of everything but controls and whitespace. */
  lemma TokenScalars(c: char)
    ensures c < '\U{80}' ==> (IsTokenScalar(c) <==>
      || c in {'a', 'b', 'c', 'd', 'e', 'f', 'g', 'h', 'i', 'j', 'k', 'l', 'm', 'n', 'o', 'p', 'q', 'r', 's', 't', 'u',
               'v', 'w', 'x', 'y', 'z', '0', '1', '2', '3', '4', '5', '6', '7', '8', '9', '_', '$'}
      || c in {'A', 'B', 'C', 'D', 'E', 'F', 'G', 'H', 'I', 'J', 'K', 'L', 'M', 'N', 'O', 'P', 'Q', 'R', 'S', 'T', 'U',
               'V', 'W', 'X', 'Y', 'Z'})
    ensures '\U{80}' <= c ==> (IsTokenScalar(c) <==> '\U{A0}' < c && c !in {
        '\U{1680}', '\U{2000}', '\U{2001}', '\U{2002}', '\U{2003}', '\U{2004}', '\U{2005}', '\U{2006}', '\U{2007}',
        '\U{2008}', '\U{2009}', '\U{200A}', '\U{2028}', '\U{2029}', '\U{202F}', '\U{205F}', '\U{3000}'})
  {
  }

  /** Bytes of the first n scalars. */
  function Offset(text: string, n: nat): nat
    requires n <= |text|
  {
    if n == 0 then 0 else Offset(text, n - 1) + |Utf8.Encode(text[n - 1])|
  }

  function LineFeeds(text: string, n: nat): nat
    requires n <= |text|
  {
    if n == 0 then 0 else LineFeeds(text, n - 1) + if text[n - 1] == '\n' then 1 else 0
  }

  predicate IsValidName(name: string) {
    && name != [] && Offset(name, |name|) <= MAX_NAME_BYTES
    && (forall k :: 0 <= k < |name| ==> IsTokenScalar(name[k]))
    && !IsAsciiDigit(name[0])
  }

  /** Offsets count the bytes, and line feeds the line feeds, of the text so far. */
  lemma {:induction false} CountsSoFar(text: string, n: nat)
    requires n <= |text|
    ensures Offset(text, n) == |Utf8.EncodeAll(text[..n])| && LineFeeds(text, n) == multiset(text[..n])['\n']
    decreases n
  {
    if 0 < n {
      CountsSoFar(text, n - 1);
      assert text[..n] == text[..n - 1] + [text[n - 1]];
      Utf8.EncodeSnoc(text[..n - 1], text[n - 1]);
    }
  }

  /** A name is one token of at most 1024 bytes that does not begin with a digit. */
  lemma NamesAllowed(name: string)
    ensures IsValidName(name) <==>
      && name != [] && |Utf8.EncodeAll(name)| <= 1024 && IsMaximalRun(name, 0, |name|)
      && name[0] !in {'0', '1', '2', '3', '4', '5', '6', '7', '8', '9'}
  {
    CountsSoFar(name, |name|);
    assert name[..|name|] == name;
    hide IsTokenScalar, Utf8.EncodeAll, Offset, LineFeeds;
    if IsMaximalRun(name, 0, |name|) {
      forall k | 0 <= k < |name| ensures IsTokenScalar(name[k]) { assert TokenAt(name, k); }
    }
  }

  // ----- What an occurrence is -----

  predicate TokenAt(text: string, k: int) { 0 <= k < |text| && IsTokenScalar(text[k]) }

  /** Scalars a up to b form a token, with no token scalar on either side. */
  ghost predicate IsMaximalRun(text: string, a: nat, b: nat) {
    a < b && !TokenAt(text, a - 1) && !TokenAt(text, b) && forall k :: a <= k < b ==> TokenAt(text, k)
  }

  ghost predicate IsOccurrence(text: string, name: string, a: nat) {
    && a + |name| <= |text| && text[a..a + |name|] == name && IsMaximalRun(text, a, a + |name|)
  }

  /** Starts of the occurrences among the first n scalars, in order. */
  ghost function Occurrences(text: string, name: string, n: nat): seq<nat>
    requires n <= |text|
  {
    if n == 0 then []
    else
      Occurrences(text, name, n - 1) +
      if |name| <= n && IsOccurrence(text, name, n - |name|) then [n - |name|] else []
  }

  /** The list misses no occurrence, holds nothing else, and ascends. */
  lemma {:induction false} OccurrencesAreAll(text: string, name: string, n: nat)
    requires n <= |text| && name != []
    ensures forall a: nat :: a in Occurrences(text, name, n) <==> a + |name| <= n && IsOccurrence(text, name, a)
    ensures forall i, j :: 0 <= i < j < |Occurrences(text, name, n)| ==>
      Occurrences(text, name, n)[i] < Occurrences(text, name, n)[j]
  {
    hide IsOccurrence;
    if n > 0 {
      OccurrencesAreAll(text, name, n - 1);
      var before := Occurrences(text, name, n - 1);
      assert forall i :: 0 <= i < |before| ==> before[i] in before;
    } else {
      assert Occurrences(text, name, 0) == [];
    }
  }

  lemma {:induction false} OccurrencesGrow(text: string, name: string, n: nat, m: nat)
    requires n <= m <= |text|
    ensures Occurrences(text, name, n) <= Occurrences(text, name, m)
    decreases m
  {
    if n < m { OccurrencesGrow(text, name, n, m - 1); }
  }

  ghost predicate Shows(candidate: Candidate, text: string, name: string, a: nat, id: nat,
                        original: Span -> Option<Span>) {
    && a + |name| <= |text| && candidate.id == id
    && candidate.decoded == (Offset(text, a), Offset(text, a + |name|))
    && original(candidate.decoded) == Some(candidate.original)
    && candidate.line == 1 + LineFeeds(text, a)
  }

  /** Candidate k shows occurrence k. */
  ghost predicate ShowsAll(candidates: seq<Candidate>, text: string, name: string, starts: seq<nat>,
                           original: Span -> Option<Span>) {
    && |candidates| == |starts|
    && forall k :: 0 <= k < |starts| ==> Shows(candidates[k], text, name, starts[k], k + 1, original)
  }

  // ----- The pass -----

  /** The token that reaches scalar n, if one does, began at `from`. */
  ghost predicate Running(text: string, n: nat, from: Option<nat>) {
    match from
    case None => !TokenAt(text, n - 1)
    case Some(a) => a < n && !TokenAt(text, a - 1) && forall k :: a <= k < n ==> TokenAt(text, k)
  }

  /** A token that ends before scalar n is an occurrence exactly when it spells the
      name; where no token ends, nothing is. */
  lemma TokenEnds(text: string, name: string, n: nat, from: Option<nat>)
    requires n <= |text| && name != [] && !TokenAt(text, n) && Running(text, n, from)
    ensures |name| <= n && IsOccurrence(text, name, n - |name|) <==> from.Some? && text[from.value..n] == name
    ensures from.Some? && text[from.value..n] == name ==> from.value == n - |name|
  {
    if |name| <= n && IsOccurrence(text, name, n - |name|) {
      assert TokenAt(text, n - 1);
      RunStart(text, n - |name|, from.value, n);
    }
  }

  lemma RunStart(text: string, a: nat, b: nat, n: nat)
    requires Running(text, n, Some(a)) && Running(text, n, Some(b))
    ensures a == b
  {
  }

  lemma NoTokenEnds(text: string, name: string, n: nat)
    requires n < |text| && TokenAt(text, n) && |name| <= n
    ensures !IsOccurrence(text, name, n - |name|)
  {
  }

  lemma RunningMoves(text: string, n: nat, from: Option<nat>)
    requires n < |text| && Running(text, n, from)
    ensures Running(text, n + 1, if !TokenAt(text, n) then None else if from.None? then Some(n) else from)
  {
  }

  /** Scalars through which every ended token has been judged after p steps. */
  function Judged(p: nat): nat { if p == 0 then 0 else p - 1 }

  lemma NoMore(text: string, name: string, p: nat, from: Option<nat>)
    requires p <= |text| && name != [] && Running(text, p, from)
    requires TokenAt(text, p) || from.None? || text[from.value..p] != name
    ensures Occurrences(text, name, p) == Occurrences(text, name, Judged(p))
  {
    if p > 0 {
      if TokenAt(text, p) {
        if |name| <= p { NoTokenEnds(text, name, p); }
      } else {
        TokenEnds(text, name, p, from);
      }
    }
  }

  lemma OneMore(text: string, name: string, p: nat, from: nat)
    requires from < p <= |text| && name != [] && Running(text, p, Some(from)) && !TokenAt(text, p)
        && text[from..p] == name
    ensures Occurrences(text, name, p) == Occurrences(text, name, p - 1) + [from]
    ensures from + |name| == p && IsOccurrence(text, name, from)
  {
    TokenEnds(text, name, p, Some(from));
  }

  lemma ShowsMore(candidates: seq<Candidate>, text: string, name: string, starts: seq<nat>,
                  original: Span -> Option<Span>, candidate: Candidate, a: nat)
    requires ShowsAll(candidates, text, name, starts, original)
    requires Shows(candidate, text, name, a, |candidates| + 1, original)
    ensures ShowsAll(candidates + [candidate], text, name, starts + [a], original)
  {
    hide Shows;
  }

  /** What the pass has found once the first n scalars and the one after are seen. */
  ghost predicate FoundUpTo(candidates: seq<Candidate>, counted: nat, limited: bool, text: string, name: string, n: nat,
                            maxItems: nat, original: Span -> Option<Span>)
    requires n <= |text|
  {
    && counted == |candidates| && !limited && counted <= maxItems
    && ShowsAll(candidates, text, name, Occurrences(text, name, n), original)
  }

  lemma StillFound(candidates: seq<Candidate>, counted: nat, text: string, name: string, p: nat, from: Option<nat>,
                   maxItems: nat, original: Span -> Option<Span>)
    requires p <= |text| && name != [] && Running(text, p, from)
    requires TokenAt(text, p) || from.None? || text[from.value..p] != name
    requires FoundUpTo(candidates, counted, false, text, name, Judged(p), maxItems, original)
    ensures FoundUpTo(candidates, counted, false, text, name, p, maxItems, original)
  {
    NoMore(text, name, p, from);
    hide Occurrences, ShowsAll, Running;
  }

  /** The result: the first occurrences up to the limit, and one more counted if there
      is one. */
  ghost predicate IsResult(candidates: seq<Candidate>, counted: nat, limited: bool, text: string, name: string,
                           maxItems: nat, original: Span -> Option<Span>) {
    var all := Occurrences(text, name, |text|);
    && ShowsAll(candidates, text, name, all[..Min(maxItems, |all|)], original)
    && counted == Min(|all|, maxItems + 1)
    && (limited <==> |all| > maxItems)
  }

  /** Some occurrence that there is room for has no original byte range. */
  ghost predicate Unmapped(text: string, name: string, maxItems: nat, original: Span -> Option<Span>) {
    var all := Occurrences(text, name, |text|);
    exists k :: 0 <= k < |all| && k < maxItems && NoRange(text, name, all[k], original)
  }

  ghost predicate NoRange(text: string, name: string, a: nat, original: Span -> Option<Span>) {
    a + |name| <= |text| && original((Offset(text, a), Offset(text, a + |name|))).None?
  }

  lemma NotRunning(text: string)
    ensures Running(text, 0, None)
  {
  }

  lemma NextScalar(text: string, p: nat)
    requires p < |text|
    ensures Offset(text, p + 1) == Offset(text, p) + |Utf8.Encode(text[p])|
    ensures LineFeeds(text, p + 1) == LineFeeds(text, p) + if text[p] == '\n' then 1 else 0
  {
  }

  lemma {:induction false} OffsetsGrow(text: string, p: nat, q: nat)
    requires p <= q <= |text|
    ensures Offset(text, p) <= Offset(text, q)
    decreases q
  {
    if p < q { OffsetsGrow(text, p, q - 1); }
  }

  class Scan {
    var candidates: seq<Candidate>
    var counted: nat
    var limited: bool

    constructor ()
      ensures candidates == [] && counted == 0 && !limited
    {
      candidates, counted, limited := [], 0, false;
    }

    /** One step a scalar; the sentinel after the last ends a token that runs to the
        end of the text. */
    method Pass(text: string, name: string, maxItems: nat, original: Span -> Option<Span>, cancel: Cancellation)
      returns (error: Option<ReferenceError>)
      requires name != [] && candidates == [] && counted == 0 && !limited
      modifies this, cancel
      ensures error.None? ==>
        cancel.Quiet(old(cancel.polls)) && IsResult(candidates, counted, limited, text, name, maxItems, original)
      ensures error.Some? ==>
        match error.value
        case InvalidEvidence => Unmapped(text, name, maxItems, original)
        case Canceled => cancel.Stopped(old(cancel.polls))
        case _ => false
      ensures (cancel.polls - old(cancel.polls)) * 4096 <= Offset(text, |text|)
      ensures error.None? && !limited ==> Offset(text, |text|) < (cancel.polls - old(cancel.polls) + 1) * 4100
    {
      hide IsOccurrence, Occurrences, Offset, LineFeeds, Running, FoundUpTo, IsResult, Shows, ShowsAll;
      StartsEmpty(text, name, maxItems, original);
      var start: Option<nat> := None;
      var begin, tokenLine, line, checkpoint, offset, p := 0, 1, 1, 0, 0, 0;
      ghost var since := cancel.polls;
      NotRunning(text);
      error := None;
      while p <= |text|
        invariant p <= |text| + 1 && cancel.Quiet(since) && since == old(cancel.polls)
        invariant checkpoint <= (cancel.polls - since) * 4099
        invariant offset < checkpoint + 4100 && (|text| < p ==> Offset(text, |text|) < checkpoint + 4096)
        invariant checkpoint <= Offset(text, Min(p, |text|)) && (cancel.polls - since) * CANCEL_QUANTUM <= checkpoint
        invariant p <= |text| ==> offset == Offset(text, p) && line == 1 + LineFeeds(text, p) && Running(text, p, start)
        invariant start.Some? ==>
          && start.value < p && begin == Offset(text, start.value)
          && tokenLine == 1 + LineFeeds(text, start.value)
        invariant FoundUpTo(candidates, counted, limited, text, name, Judged(p), maxItems, original)
        invariant error.None? && !limited
      {
        OffsetsGrow(text, p, |text|);
        var scalar := if p < |text| then text[p] else '\0';
        if offset - checkpoint >= CANCEL_QUANTUM {
          var stop := cancel.Poll();
          if stop { return Some(Canceled); }
          checkpoint := offset;
        }
        if IsTokenScalar(scalar) {
          StillFound(candidates, counted, text, name, p, start, maxItems, original);
          RunningMoves(text, p, start);
          if start.None? { start, begin, tokenLine := Some(p), offset, line; }
        } else if start.Some? {
          error := Judge(text, name, start.value, p, begin, offset, tokenLine, maxItems, original);
          if error.Some? || limited { return; }
          if p < |text| { RunningMoves(text, p, start); }
          start := None;
        } else {
          StillFound(candidates, counted, text, name, p, start, maxItems, original);
          if p < |text| { RunningMoves(text, p, start); }
        }
        if scalar == '\n' { line := line + 1; }
        if p < |text| { NextScalar(text, p); }
        offset := offset + |Utf8.Encode(scalar)|;
        p := p + 1;
      }
      FoundAll(candidates, counted, text, name, maxItems, original);
    }

    /** A token ended: if it spells the name, count it, and keep it while there is
        room. */
    method Judge(text: string, name: string, from: nat, p: nat, begin: nat, offset: nat, tokenLine: nat, maxItems: nat,
                 original: Span -> Option<Span>)
      returns (error: Option<ReferenceError>)
      requires from < p <= |text| && name != [] && Running(text, p, Some(from)) && !TokenAt(text, p)
      requires begin == Offset(text, from) && offset == Offset(text, p) && tokenLine == 1 + LineFeeds(text, from)
      requires FoundUpTo(candidates, counted, limited, text, name, p - 1, maxItems, original)
      modifies this
      ensures error.None? && !limited ==> FoundUpTo(candidates, counted, limited, text, name, p, maxItems, original)
      ensures error.None? && limited ==> IsResult(candidates, counted, limited, text, name, maxItems, original)
      ensures error.Some? ==> error.value == InvalidEvidence && Unmapped(text, name, maxItems, original)
    {
      hide IsOccurrence, Occurrences, Offset, LineFeeds, Running, Shows, ShowsAll, IsResult;
      error := None;
      if text[from..p] != name {
        NoMore(text, name, p, Some(from));
        return;
      }
      OneMore(text, name, p, from);
      if |candidates| == maxItems { FoundEnough(candidates, counted, text, name, p, from, maxItems, original); }
      counted := counted + 1;
      if |candidates| == maxItems {
        limited := true;
        return;
      }
      match original((begin, offset)) {
        case None =>
          error := Some(InvalidEvidence);
          OccurrencesGrow(text, name, p, |text|);
          HasNoRange(candidates, text, name, p, from, maxItems, original);
        case Some(span) =>
          var candidate := Candidate(|candidates| + 1, span, (begin, offset), tokenLine);
          ShownHere(candidate, text, name, from, original);
          ShowsMore(candidates, text, name, Occurrences(text, name, p - 1), original, candidate, from);
          candidates := candidates + [candidate];
      }
    }
  }

  lemma HasNoRange(candidates: seq<Candidate>, text: string, name: string, p: nat, a: nat, maxItems: nat,
                   original: Span -> Option<Span>)
    requires 0 < p <= |text| && Occurrences(text, name, p) == Occurrences(text, name, p - 1) + [a]
    requires Occurrences(text, name, p) <= Occurrences(text, name, |text|)
    requires ShowsAll(candidates, text, name, Occurrences(text, name, p - 1), original) && |candidates| < maxItems
    requires NoRange(text, name, a, original)
    ensures Unmapped(text, name, maxItems, original)
  {
    hide Occurrences, NoRange, Shows;
    assert Occurrences(text, name, |text|)[|Occurrences(text, name, p - 1)|] == a;
  }

  lemma ShownHere(candidate: Candidate, text: string, name: string, a: nat, original: Span -> Option<Span>)
    requires a + |name| <= |text| && candidate.decoded == (Offset(text, a), Offset(text, a + |name|))
    requires original(candidate.decoded) == Some(candidate.original) && candidate.line == 1 + LineFeeds(text, a)
    ensures Shows(candidate, text, name, a, candidate.id, original)
  {
  }

  lemma FoundAll(candidates: seq<Candidate>, counted: nat, text: string, name: string, maxItems: nat,
                 original: Span -> Option<Span>)
    requires FoundUpTo(candidates, counted, false, text, name, |text|, maxItems, original)
    ensures IsResult(candidates, counted, false, text, name, maxItems, original)
  {
    hide Shows, Occurrences;
    var all := Occurrences(text, name, |text|);
    assert all[..Min(maxItems, |all|)] == all;
  }

  lemma FoundEnough(candidates: seq<Candidate>, counted: nat, text: string, name: string, p: nat, from: nat,
                    maxItems: nat, original: Span -> Option<Span>)
    requires 0 < p <= |text| && FoundUpTo(candidates, counted, false, text, name, p - 1, maxItems, original)
    requires Occurrences(text, name, p) == Occurrences(text, name, p - 1) + [from] && |candidates| == maxItems
    ensures IsResult(candidates, counted + 1, true, text, name, maxItems, original)
  {
    OccurrencesGrow(text, name, p, |text|);
    hide Shows, Occurrences;
    var all := Occurrences(text, name, |text|);
    assert all[..Min(maxItems, |all|)] == Occurrences(text, name, p - 1);
  }

  lemma StartsEmpty(text: string, name: string, maxItems: nat, original: Span -> Option<Span>)
    ensures FoundUpTo([], 0, false, text, name, 0, maxItems, original)
    ensures Offset(text, 0) == 0 && LineFeeds(text, 0) == 0
  {
  }

  /** What refuses a search before the text is looked at, in the order it is asked: captures
      beyond 512 KiB, more than 4096 results, no name, or text that does not decode. */
  ghost function Refusal(sourceLength: nat, decodes: bool, name: string, maxItems: nat): Option<ReferenceError> {
    if sourceLength > 524288 then Some(SourceLimit)
    else if maxItems > 4096 then Some(InvalidLimits)
    else if !IsValidName(name) then Some(InvalidName)
    else if !decodes then Some(UnsupportedEncoding)
    else None
  }

  /** Finds exactly the first occurrences up to the limit, in order, each with its
      line and ranges. The text ends with a scalar no token holds. */
  method Build(sourceLength: nat, text: string, decodes: bool, name: string, maxItems: nat,
               original: Span -> Option<Span>, cancel: Cancellation)
    returns (r: Result<Scan, ReferenceError>)
    modifies cancel
    ensures r == Err(Canceled) ==>
      && cancel.Stopped(old(cancel.polls))
      && (Refusal(sourceLength, decodes, name, maxItems).None? || !decodes)
    ensures r != Err(Canceled) && Refusal(sourceLength, decodes, name, maxItems).Some? ==>
      r == Err(Refusal(sourceLength, decodes, name, maxItems).value)
    ensures r != Err(Canceled) && Refusal(sourceLength, decodes, name, maxItems).None? ==>
      if Unmapped(text, name, maxItems, original) then r == Err(InvalidEvidence)
      else
        && r.Ok? && fresh(r.value) && cancel.Quiet(old(cancel.polls))
        && IsResult(r.value.candidates, r.value.counted, r.value.limited, text, name, maxItems, original)
    ensures Refusal(sourceLength, decodes, name, maxItems).Some? ==> cancel.polls <= old(cancel.polls) + 1
    ensures cancel.polls <= old(cancel.polls) + 3 + Offset(text, |text|) / 4096
  {
    hide IsOccurrence, Occurrences, Offset, LineFeeds, IsMaximalRun, IsValidName, IsResult, Unmapped;
    if sourceLength > MAX_SOURCE_BYTES { return Err(SourceLimit); }
    if maxItems > MAX_ITEMS { return Err(InvalidLimits); }
    if !IsValidName(name) { return Err(InvalidName); }
    assert name != [] by { NamesAllowed(name); }
    var stop := cancel.Poll();
    if stop { return Err(Canceled); }
    if !decodes { return Err(UnsupportedEncoding); }
    stop := cancel.Poll();
    if stop { return Err(Canceled); }
    var scan := new Scan();
    var error := scan.Pass(text, name, maxItems, original, cancel);
    if error.Some? { return Err(error.value); }
    ShownAreMapped(scan.candidates, scan.counted, scan.limited, text, name, maxItems, original);
    stop := cancel.Poll();
    if stop { return Err(Canceled); }
    r := Ok(scan);
  }

  lemma ShownAreMapped(candidates: seq<Candidate>, counted: nat, limited: bool, text: string, name: string,
                       maxItems: nat, original: Span -> Option<Span>)
    requires IsResult(candidates, counted, limited, text, name, maxItems, original)
    ensures !Unmapped(text, name, maxItems, original)
  {
    hide Occurrences, Offset, LineFeeds;
    var all := Occurrences(text, name, |text|);
    forall k | 0 <= k < |all| && k < maxItems ensures !NoRange(text, name, all[k], original) {
      assert Shows(candidates[k], text, name, all[..Min(maxItems, |all|)][k], k + 1, original);
    }
  }
}
