/** Constant-space location of a line window in a byte stream: the resumable
    scanner, against a declarative reading of where lines start. */
module LineWindow {
  import opened Basics

  datatype Encoding = Utf8 | Utf16Le | Utf16Be {
    /** Bytes in this many code units. */
    function Bytes(units: nat): nat { if Utf8? then units else 2 * units }

    function Unit(low: byte, high: byte): nat {
      if Utf16Le? then low as nat + 256 * (high as nat) else 256 * (low as nat) + high as nat
    }
  }

  const LF := 10
  const CR := 13
  /** The code unit a lone trailing UTF-16 byte counts as. */
  const LONE: nat := 0xFFFF

  // ----- Where lines start -----

  /** CR, LF and CRLF end lines; a unit starts a line when it is the first one or
      the one right after a terminator. A final terminator starts no line. */
  predicate StartsLine(u: seq<nat>, i: nat) {
    i < |u| && (i == 0 || u[i - 1] == LF || (u[i - 1] == CR && u[i] != LF))
  }

  /** How many lines start before unit i. */
  function Starts(u: seq<nat>, i: nat): nat
    requires i <= |u|
  {
    if i == 0 then 0 else Starts(u, i - 1) + if StartsLine(u, i - 1) then 1 else 0
  }

  /** Units s up to e are exactly lines `first` to `last`, or as many of them as
      the stream has. */
  ghost predicate IsWindow(u: seq<nat>, first: nat, last: nat, s: nat, e: nat) {
    && StartsLine(u, s) && Starts(u, s) == first - 1
    && e <= |u|
    && (if StartsLine(u, e) then Starts(u, e) == last else e == |u| && Starts(u, e) <= last)
  }

  lemma {:induction false} StartsMonotone(u: seq<nat>, i: nat, j: nat)
    requires i <= j <= |u|
    ensures Starts(u, i) <= Starts(u, j)
    ensures i < j && StartsLine(u, i) ==> Starts(u, i) < Starts(u, j)
    decreases j
  {
    if i < j { StartsMonotone(u, i, j - 1); }
  }

  /** There is at most one window. */
  lemma WindowIsUnique(u: seq<nat>, first: nat, last: nat, s: nat, e: nat, s': nat, e': nat)
    requires IsWindow(u, first, last, s, e) && IsWindow(u, first, last, s', e')
    ensures s == s' && e == e'
  {
    if s < s' { StartsMonotone(u, s, s'); }
    if s' < s { StartsMonotone(u, s', s); }
    if e < e' { StartsMonotone(u, e, e'); }
    if e' < e { StartsMonotone(u, e', e); }
  }

  lemma {:induction false} StartsOfPrefix(u: seq<nat>, v: seq<nat>, i: nat)
    requires u <= v && i <= |u|
    ensures Starts(u, i) == Starts(v, i)
    decreases i
  {
    if 0 < i { StartsOfPrefix(u, v, i - 1); }
  }

  /** Unit s starts the line of this number. */
  predicate StartsLineNumber(u: seq<nat>, line: nat, s: nat) {
    StartsLine(u, s) && Starts(u, s) == line - 1
  }

  /** At most one unit does, and none does when fewer lines have started. */
  lemma LineStartIsUnique(u: seq<nat>, line: nat, s: nat, t: nat)
    requires StartsLineNumber(u, line, s)
    ensures line <= Starts(u, |u|) && (StartsLineNumber(u, line, t) ==> s == t)
  {
    StartsMonotone(u, s, |u|);
    if t < |u| {
      if s < t { StartsMonotone(u, s, t); }
      if t < s { StartsMonotone(u, t, s); }
    }
  }

  lemma LineStartStays(u: seq<nat>, v: seq<nat>, line: nat, s: nat)
    requires u <= v && StartsLineNumber(u, line, s)
    ensures StartsLineNumber(v, line, s)
  {
    StartsOfPrefix(u, v, s);
  }

  /** Units with a line feed or carriage return at the end only, a CRLF counting as one
      terminator, are one line. */
  lemma {:induction false} OneLine(u: seq<nat>, n: nat)
    requires n <= |u| && forall i {:trigger u[i]} :: 0 <= i < n - 1 ==> u[i] != 10 && (u[i] == 13 ==> u[i + 1] == 10)
    ensures Starts(u, n) == Min(n, 1)
    decreases n
  {
    if 0 < n {
      OneLine(u, n - 1);
      if 1 < n { assert u[n - 2] != 10; }
    }
  }

  /** Behind a line feed, or a carriage return that no line feed follows, the lines are
      counted anew. */
  lemma {:induction false} LinesAdd(u: seq<nat>, v: seq<nat>)
    requires u != [] && (u[|u| - 1] == 10 || (u[|u| - 1] == 13 && (v == [] || v[0] != 10)))
    ensures Starts(u + v, |u + v|) == Starts(u, |u|) + Starts(v, |v|)
    decreases v
  {
    if v == [] {
      assert u + v == u;
    } else {
      var n, w := |v| - 1, v[..|v| - 1];
      LinesAdd(u, w);
      StartsOfPrefix(u + w, u + v, |u + w|);
      StartsOfPrefix(w, v, n);
      assert StartsLine(u + v, |u| + n) <==> StartsLine(v, n) by {
        assert (u + v)[|u| + n] == v[n];
        if 0 < n { assert (u + v)[|u| + n - 1] == v[n - 1]; }
      }
    }
  }

  // ----- Code units of a byte stream -----

  /** The complete units; a trailing odd byte of a UTF-16 stream is not one. */
  function FullUnits(bytes: seq<byte>, encoding: Encoding): seq<nat> {
    if encoding.Utf8? then seq(|bytes|, i requires 0 <= i < |bytes| => bytes[i] as nat)
    else seq(|bytes| / 2, i requires 0 <= i < |bytes| / 2 => encoding.Unit(bytes[2 * i], bytes[2 * i + 1]))
  }

  predicate Halved(bytes: seq<byte>, encoding: Encoding) {
    !encoding.Utf8? && |bytes| % 2 == 1
  }

  /** All units of a finished stream. */
  function AllUnits(bytes: seq<byte>, encoding: Encoding): seq<nat> {
    FullUnits(bytes, encoding) + if Halved(bytes, encoding) then [LONE] else []
  }

  lemma WholeUnits(bytes: seq<byte>, encoding: Encoding)
    ensures AllUnits(bytes, encoding) == FullUnits(bytes, encoding) + if Halved(bytes, encoding) then [LONE] else []
    ensures !Halved(bytes, encoding) ==> AllUnits(bytes, encoding) == FullUnits(bytes, encoding)
    ensures |bytes| == encoding.Bytes(|FullUnits(bytes, encoding)|) + if Halved(bytes, encoding) then 1 else 0
    ensures |FullUnits(bytes, encoding)| == if encoding.Utf8? then |bytes| else |bytes| / 2
  {
  }

  /** The bytes of units s up to e. */
  function UnitRange(encoding: Encoding, s: nat, e: nat, total: nat): Range {
    Range(encoding.Bytes(s), Min(encoding.Bytes(e), total))
  }

  /** The bytes of lines `first` to `last` of a finished stream. */
  ghost predicate WindowOf(bytes: seq<byte>, encoding: Encoding, first: nat, last: nat, range: Range) {
    exists s: nat, e: nat ::
      && IsWindow(AllUnits(bytes, encoding), first, last, s, e)
      && range == UnitRange(encoding, s, e, |bytes|)
  }

  function LineCount(bytes: seq<byte>, encoding: Encoding): nat {
    Starts(AllUnits(bytes, encoding), |AllUnits(bytes, encoding)|)
  }

  lemma WindowOfIsUnique(bytes: seq<byte>, encoding: Encoding, first: nat, last: nat, r: Range, r': Range)
    requires WindowOf(bytes, encoding, first, last, r) && WindowOf(bytes, encoding, first, last, r')
    ensures r == r'
  {
    var u := AllUnits(bytes, encoding);
    var s: nat, e: nat :| IsWindow(u, first, last, s, e) && r == UnitRange(encoding, s, e, |bytes|);
    var s': nat, e': nat :| IsWindow(u, first, last, s', e') && r' == UnitRange(encoding, s', e', |bytes|);
    WindowIsUnique(u, first, last, s, e, s', e');
  }

  predicate AreUnits(u: seq<nat>, encoding: Encoding) {
    forall i :: 0 <= i < |u| ==> u[i] < if encoding.Utf8? then 0x100 else 0x1_0000
  }

  /** How one code unit is written. */
  function Written(unit: nat, encoding: Encoding): seq<byte>
    requires AreUnits([unit], encoding)
  {
    assert [unit][0] == unit;
    match encoding
    case Utf8 => [unit as byte]
    case Utf16Le => [(unit % 256) as byte, (unit / 256) as byte]
    case Utf16Be => [(unit / 256) as byte, (unit % 256) as byte]
  }

  function WrittenUnits(u: seq<nat>, encoding: Encoding): seq<byte>
    requires AreUnits(u, encoding)
  {
    if u == [] then [] else WrittenUnits(u[..|u| - 1], encoding) + Written(u[|u| - 1], encoding)
  }

  lemma UnitReadsBack(bytes: seq<byte>, unit: nat, encoding: Encoding)
    requires AreUnits([unit], encoding) && !Halved(bytes, encoding)
    ensures !Halved(bytes + Written(unit, encoding), encoding)
    ensures FullUnits(bytes + Written(unit, encoding), encoding) == FullUnits(bytes, encoding) + [unit]
  {
    hide FullUnits;
    var more := Written(unit, encoding);
    assert [unit][0] == unit;
    OneMoreByte(bytes, more[0], encoding);
    if encoding.Utf8? {
      assert bytes + [more[0]] == bytes + more;
    } else {
      OneMoreByte(bytes + [more[0]], more[1], encoding);
      assert bytes + [more[0]] + [more[1]] == bytes + more;
    }
  }

  /** Written units read back, whatever the encoding. */
  lemma {:induction false} UnitsReadBack(u: seq<nat>, encoding: Encoding)
    requires AreUnits(u, encoding)
    ensures FullUnits(WrittenUnits(u, encoding), encoding) == AllUnits(WrittenUnits(u, encoding), encoding) == u
    ensures |WrittenUnits(u, encoding)| == encoding.Bytes(|u|)
  {
    if u != [] {
      var before, unit := u[..|u| - 1], u[|u| - 1];
      UnitsReadBack(before, encoding);
      UnitReadsBack(WrittenUnits(before, encoding), unit, encoding);
      WholeUnits(WrittenUnits(u, encoding), encoding);
    }
  }

  /** A stray last byte starts a line exactly at the beginning or behind a terminator, the
      carriage return included. */
  lemma StrayByte(bytes: seq<byte>, encoding: Encoding)
    requires Halved(bytes, encoding)
    ensures
      var u := FullUnits(bytes, encoding);
      StartsLine(AllUnits(bytes, encoding), |u|) <==> u == [] || u[|u| - 1] == 10 || u[|u| - 1] == 13
  {
  }

  lemma UnitsOfPrefix(fed: seq<byte>, bytes: seq<byte>, encoding: Encoding)
    requires fed <= bytes
    ensures FullUnits(fed, encoding) <= AllUnits(bytes, encoding)
  {
  }

  lemma FullUnitsOfPrefix(fed: seq<byte>, bytes: seq<byte>, encoding: Encoding)
    requires fed <= bytes
    ensures FullUnits(fed, encoding) <= FullUnits(bytes, encoding)
  {
  }

  lemma OneMoreByte(fed: seq<byte>, b: byte, encoding: Encoding)
    ensures encoding.Utf8? ==> FullUnits(fed + [b], encoding) == FullUnits(fed, encoding) + [b as nat]
    ensures Halved(fed, encoding) ==>
      FullUnits(fed + [b], encoding) == FullUnits(fed, encoding) + [encoding.Unit(fed[|fed| - 1], b)]
    ensures !encoding.Utf8? && !Halved(fed, encoding) ==> FullUnits(fed + [b], encoding) == FullUnits(fed, encoding)
  {
    var before, after := FullUnits(fed, encoding), FullUnits(fed + [b], encoding);
    if encoding.Utf8? {
      assert after == before + [b as nat];
    } else {
      var h := |fed| / 2;
      forall i | 0 <= i < h ensures before[i] == after[i] {
        assert fed[2 * i] == (fed + [b])[2 * i] && fed[2 * i + 1] == (fed + [b])[2 * i + 1];
      }
      if Halved(fed, encoding) {
        assert |after| == h + 1 && 2 * h + 1 == |fed|;
        assert after[h] == encoding.Unit(fed[2 * h], b);
      } else {
        assert |after| == h;
      }
    }
  }

  /** The end of line `last` is settled at unit e: whatever follows, the next line
      can only start there. */
  ghost predicate EndKnown(u: seq<nat>, last: nat, e: nat) {
    0 < e <= |u| && Starts(u, e) == last && (StartsLine(u, e) || (e == |u| && u[e - 1] == LF))
  }

  /** A settled window is the window of every stream that continues the units. */
  lemma SettledForEveryContinuation(u: seq<nat>, v: seq<nat>, first: nat, last: nat, s: nat, e: nat)
    requires u <= v && StartsLine(u, s) && Starts(u, s) == first - 1 && EndKnown(u, last, e)
    ensures IsWindow(v, first, last, s, e)
  {
    StartsOfPrefix(u, v, s);
    StartsOfPrefix(u, v, e);
  }

  // ----- The scanner -----

  datatype LineWindowError = NoncontiguousInput

  datatype Status = Pending | Resolved(first: nat, last: nat, range: Range) | Missing

  class LineWindowScanner {
    const first: nat
    const last: nat
    const encoding: Encoding
    var offset: nat
    var line: nat
    var activeLine: bool
    var pendingCr: bool
    var halfUnit: Option<byte>
    var start: Option<nat>
    var end: Option<nat>
    var finished: bool
    var eof: bool
    /** Every byte consumed so far, and the units the window was found at. */
    ghost var fed: seq<byte>
    ghost var startUnit: nat
    ghost var endUnit: nat

    constructor (first: nat, count: nat, encoding: Encoding)
      requires 0 < first && 0 < count
      ensures this.first == first && last == first + count - 1 && this.encoding == encoding
      ensures Valid() && !finished && !eof && fed == []
    {
      this.first, last, this.encoding := first, first + count - 1, encoding;
      offset, line, activeLine, pendingCr, halfUnit := 0, 0, false, false, None;
      start, end, finished, eof := None, None, false, false;
      fed, startUnit, endUnit := [], 0, 0;
    }

    /** The selected line has been met at unit `startUnit`. */
    ghost predicate StartOk(u: seq<nat>)
      reads this
    {
      start.Some? ==>
        && start.value == encoding.Bytes(startUnit)
        && StartsLine(u, startUnit) && Starts(u, startUnit) == first - 1
    }

    /** The still-open state after units u. */
    ghost predicate Tracks(u: seq<nat>)
      reads this
    {
      && 0 < first <= last && !finished && end.None?
      && line == Starts(u, |u|) <= last
      && (pendingCr <==> u != [] && u[|u| - 1] == CR)
      && (activeLine <==> u != [] && u[|u| - 1] != CR && u[|u| - 1] != LF)
      && (line == last ==> pendingCr || activeLine)
      && (start.Some? <==> first <= line)
      && StartOk(u)
    }

    /** The settled state after units u. */
    ghost predicate Settled(u: seq<nat>)
      reads this
    {
      && 0 < first <= last == line && finished && start.Some?
      && end == Some(encoding.Bytes(endUnit))
      && StartOk(u) && EndKnown(u, last, endUnit)
      && startUnit < endUnit && |u| <= endUnit + 1
    }

    /** The state after end of input. */
    ghost predicate AtEnd()
      reads this
    {
      var u := AllUnits(fed, encoding);
      && eof && finished && 0 < first <= last && offset == |fed|
      && line == Starts(u, |u|) <= last
      && (start.Some? <==> first <= line)
      && StartOk(u)
      && end == Some(|fed|)
    }

    /** Settled by complete units alone, so nothing that follows can matter. */
    ghost predicate SettledEarly()
      reads this
    {
      !Halved(fed, encoding) && Settled(AllUnits(fed, encoding))
    }

    /** A known start stays; a new one is at most one byte, the carried half of a
        unit, before the bytes that revealed it. */
    ghost predicate StartStable(before: Option<nat>, fedBefore: nat)
      reads this
    {
      && (before.Some? ==> start == before)
      && (before.None? && start.Some? ==> fedBefore <= start.value + 1)
    }

    ghost predicate Valid()
      reads this
    {
      && offset == |fed|
      && if finished then
           && (AtEnd() || Settled(AllUnits(fed, encoding)))
           && (!eof ==> SettledEarly())
         else
           && !eof && Tracks(FullUnits(fed, encoding))
           && halfUnit == if Halved(fed, encoding) then Some(fed[|fed| - 1]) else None
    }

    function CurrentStatus(): Status
      reads this
    {
      if !finished then Pending
      else if start.Some? && end.Some? then Resolved(first, line, Range(start.value, end.value))
      else Missing
    }

    method Resolve(at: nat)
      modifies this`end, this`finished
      ensures end == Some(at) && finished
    {
      end, finished := Some(at), true;
    }

    /** One code unit. */
    method Unit(unit: nat, s: nat, e: nat, ghost u: seq<nat>)
      requires Tracks(u) && s == encoding.Bytes(|u|)
      requires unit == LF ==> e == encoding.Bytes(|u| + 1)
      modifies this`line, this`activeLine, this`pendingCr, this`start, this`end, this`finished,
               this`startUnit, this`endUnit
      ensures if finished then Settled(u + [unit]) else Tracks(u + [unit])
      ensures start == old(start) || (old(start).None? && start == Some(s))
    {
      ghost var v := u + [unit];
      StartsOfPrefix(u, v, |u|);
      if start.Some? { StartsOfPrefix(u, v, startUnit); StartsMonotone(v, startUnit, |u|); }
      if pendingCr {
        pendingCr := false;
        if unit == LF {
          if line == last {
            endUnit := |u| + 1;
            Resolve(e);
          }
          return;
        }
        if line == last {
          endUnit := |u|;
          Resolve(s);
          return;
        }
      }
      if !activeLine {
        line, activeLine := line + 1, true;
        if line == first {
          startUnit := |u|;
          start := Some(s);
        }
      }
      if unit == CR {
        pendingCr, activeLine := true, false;
      } else if unit == LF {
        activeLine := false;
        if line == last {
          endUnit := |u| + 1;
          Resolve(e);
        }
      }
    }

    /** Consume one byte of an open stream. */
    method Feed(b: byte)
      requires Valid() && !finished
      modifies this
      ensures Valid() && eof == old(eof) && fed == old(fed) + [b]
      ensures StartStable(old(start), |old(fed)|)
    {
      hide Starts, StartsLine, FullUnits, AllUnits, EndKnown;
      var at := offset;
      ghost var u := FullUnits(fed, encoding);
      OneMoreByte(fed, b, encoding);
      WholeUnits(fed, encoding);
      WholeUnits(fed + [b], encoding);
      offset := offset + 1;
      fed := fed + [b];
      if encoding.Utf8? {
        Unit(b as nat, at, offset, u);
      } else if halfUnit.Some? {
        var low := halfUnit.value;
        halfUnit := None;
        Unit(encoding.Unit(low, b), at - 1, offset, u);
      } else {
        halfUnit := Some(b);
      }
    }

    /** Consume at most `budget` bytes, stopping early once the window is settled.
        Input that does not continue the stream is refused without a change. */
    method Step(at: nat, bytes: seq<byte>, budget: nat) returns (r: Result<nat, LineWindowError>)
      requires Valid()
      modifies this
      ensures Valid() && eof == old(eof)
      ensures r.Err? <==> at != old(offset)
      ensures r.Err? ==> fed == old(fed)
      ensures r.Ok? ==> r.value <= Min(|bytes|, budget) && fed == old(fed) + bytes[..r.value]
      ensures r.Ok? && !finished ==> r.value == Min(|bytes|, budget)
      ensures old(finished) ==> finished && fed == old(fed) && CurrentStatus() == old(CurrentStatus())
      ensures StartStable(old(start), |old(fed)|)
      ensures old(SettledEarly()) ==> SettledEarly()
    {
      hide Valid;
      if at != offset { return Err(NoncontiguousInput); }
      if finished { return Ok(0); }
      var count := Min(|bytes|, budget);
      var consumed := 0;
      while consumed < count && !finished
        invariant consumed <= count && Valid() && eof == old(eof)
        invariant fed == old(fed) + bytes[..consumed]
        invariant StartStable(old(start), |old(fed)|)
      {
        Feed(bytes[consumed]);
        consumed := consumed + 1;
      }
      return Ok(consumed);
    }

    /** Finalize after real end of input. */
    method Finish() returns (status: Status)
      requires Valid()
      modifies this
      ensures Valid() && eof && finished && fed == old(fed)
      ensures status == CurrentStatus()
      ensures old(finished) ==> status == old(CurrentStatus())
      ensures StartStable(old(start), |old(fed)|)
      ensures old(SettledEarly()) ==> SettledEarly()
    {
      hide Starts, StartsLine, FullUnits, AllUnits, EndKnown;
      WholeUnits(fed, encoding);
      eof := true;
      if !finished {
        ghost var u := FullUnits(fed, encoding);
        if halfUnit.Some? {
          halfUnit := None;
          Unit(LONE, offset - 1, offset, u);
        }
        if !finished { Resolve(offset); }
      }
      return CurrentStatus();
    }
  }

  /** What a scanner reports is true of the stream. A window resolved before end
      of input is the window of every stream that continues the bytes consumed; at
      end of input it is the window, or the proof that there is none, of exactly
      the bytes consumed. Neither depends on how the bytes were chunked. */
  lemma StatusIsTrue(scanner: LineWindowScanner, stream: seq<byte>)
    requires scanner.Valid() && scanner.finished
    requires scanner.fed <= stream && (stream == scanner.fed || scanner.SettledEarly())
    ensures match scanner.CurrentStatus()
      case Pending => false
      case Missing => LineCount(stream, scanner.encoding) < scanner.first
      case Resolved(first, last, range) =>
        && first == scanner.first
        && last == Min(scanner.last, LineCount(stream, scanner.encoding))
        && WindowOf(stream, scanner.encoding, first, scanner.last, range)
  {
    var encoding := scanner.encoding;
    var u, v := AllUnits(scanner.fed, encoding), AllUnits(stream, encoding);
    WholeUnits(scanner.fed, encoding);
    WholeUnits(stream, encoding);
    UnitsOfPrefix(scanner.fed, stream, encoding);
    hide Starts, StartsLine, AllUnits, FullUnits;
    assert u <= v;
    var s, e := scanner.startUnit, scanner.endUnit;
    if scanner.Settled(u) {
      SettledForEveryContinuation(u, v, scanner.first, scanner.last, s, e);
      StartsOfPrefix(u, v, e);
      StartsMonotone(v, e, |v|);
      EndIsInside(scanner.fed, encoding, scanner.last, e);
      assert IsWindow(v, scanner.first, scanner.last, s, e);
      assert scanner.CurrentStatus().range == UnitRange(encoding, s, e, |stream|);
    } else {
      NoUnitBeyond(v);
      if scanner.start.Some? {
        assert IsWindow(v, scanner.first, scanner.last, s, |v|);
        assert scanner.CurrentStatus().range == UnitRange(encoding, s, |v|, |stream|);
      }
    }
  }

  /** A window that the units so far leave open ends no earlier than they do, and starts
      where they say. */
  lemma OpenUnits(u: seq<nat>, v: seq<nat>, first: nat, last: nat, s: nat, e: nat, start: Option<nat>)
    requires u <= v && IsWindow(v, first, last, s, e) && Starts(u, |u|) <= last
    requires Starts(u, |u|) == last && u != [] ==> u[|u| - 1] != LF
    requires start.Some? ==> StartsLine(u, start.value) && Starts(u, start.value) == first - 1
    ensures |u| <= e && (start.Some? ==> s == start.value)
  {
    hide Starts;
    StartsOfPrefix(u, v, |u|);
    if e < |u| { StartsMonotone(v, e, |u|); }
    if start.Some? {
      var t := start.value;
      StartsOfPrefix(u, v, t);
      if s < t { StartsMonotone(v, s, t); }
      if t < s { StartsMonotone(v, t, s); }
    }
  }

  /** Before the window is settled, wherever it turns out to end, that is no
      earlier than the last complete unit read. */
  lemma OpenWindowEndsLater(scanner: LineWindowScanner, stream: seq<byte>, range: Range)
    requires scanner.Valid() && !scanner.finished && scanner.fed <= stream
    requires WindowOf(stream, scanner.encoding, scanner.first, scanner.last, range)
    ensures |scanner.fed| <= range.end + 1
    ensures scanner.start.Some? ==> scanner.start.value == range.start
  {
    hide AllUnits, FullUnits, IsWindow, Starts, StartsLine, UnitRange, LineWindowScanner.Valid;
    var encoding := scanner.encoding;
    var u, v := FullUnits(scanner.fed, encoding), AllUnits(stream, encoding);
    UnitsOfPrefix(scanner.fed, stream, encoding);
    StillTracks(scanner);
    var s: nat, e: nat :| IsWindow(v, scanner.first, scanner.last, s, e)
        && range == UnitRange(encoding, s, e, |stream|);
    OpenUnits(u, v, scanner.first, scanner.last, s, e,
              if scanner.start.Some? then Some(scanner.startUnit) else None);
    OpenBytes(scanner.fed, encoding, s, e, |stream|);
  }

  lemma StillTracks(scanner: LineWindowScanner)
    requires scanner.Valid() && !scanner.finished
    ensures
      var u := FullUnits(scanner.fed, scanner.encoding);
      && Starts(u, |u|) <= scanner.last && (Starts(u, |u|) == scanner.last && u != [] ==> u[|u| - 1] != LF)
      && (scanner.start.Some? ==>
            && scanner.start.value == scanner.encoding.Bytes(scanner.startUnit)
            && StartsLine(u, scanner.startUnit) && Starts(u, scanner.startUnit) == scanner.first - 1)
  {
    hide FullUnits, Starts, StartsLine;
  }

  lemma OpenBytes(fed: seq<byte>, encoding: Encoding, s: nat, e: nat, total: nat)
    requires |FullUnits(fed, encoding)| <= e && |fed| <= total
    ensures |fed| <= UnitRange(encoding, s, e, total).end + 1
        && UnitRange(encoding, s, e, total).start == encoding.Bytes(s)
  {
    WholeUnits(fed, encoding);
    hide FullUnits;
  }

  /** A selected start lies in the bytes read, and a settled end at most one unit
      before the last of them. */
  lemma OffsetsAreInside(scanner: LineWindowScanner)
    requires scanner.Valid() && scanner.start.Some?
    ensures scanner.start.value <= |scanner.fed|
    ensures scanner.finished ==>
      scanner.end.Some? && scanner.start.value <= scanner.end.value <= |scanner.fed| <= scanner.end.value + 2
  {
    var encoding := scanner.encoding;
    WholeUnits(scanner.fed, encoding);
    hide Starts, StartsLine, FullUnits, AllUnits;
    if scanner.finished && scanner.Settled(AllUnits(scanner.fed, encoding)) {
      EndIsInside(scanner.fed, encoding, scanner.last, scanner.endUnit);
    }
    StartIsInside(FullUnits(scanner.fed, encoding), scanner.startUnit);
    StartIsInside(AllUnits(scanner.fed, encoding), scanner.startUnit);
  }

  lemma StartIsInside(u: seq<nat>, i: nat)
    ensures StartsLine(u, i) ==> i < |u|
  {
  }

  lemma NoUnitBeyond(u: seq<nat>)
    ensures !StartsLine(u, |u|)
  {
  }

  /** A settled end never lies inside a lone trailing byte. */
  lemma EndIsInside(bytes: seq<byte>, encoding: Encoding, last: nat, e: nat)
    requires EndKnown(AllUnits(bytes, encoding), last, e)
    ensures encoding.Bytes(e) <= |bytes|
  {
    WholeUnits(bytes, encoding);
    hide Starts;
  }
}
