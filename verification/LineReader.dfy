/** Bounded line navigation over one stream: the selected bytes are kept during
    the same forward scan that finds their line numbers, under arbitrary short,
    interrupted and final reads. */
module LineReader {
  import opened Basics
  import opened LineWindow

  const BUFFER_BYTES := 16 * 1024
  const MAX_READ_CALLS := 131_072
  const MAX_U64: nat := 0xFFFF_FFFF_FFFF_FFFF
  const HISTORY := 8

  datatype AppError = Canceled | Io | InvalidRange

  datatype EncodingChoice = Auto | Explicit(encoding: Encoding)

  datatype Request = Request(first: nat, count: nat, maxBytes: nat, maxScan: nat, encoding: EncodingChoice) {
    /** The last line asked for. */
    function Last(): nat { SaturatingSub(first + count, 1) }
  }

  datatype ReadAnswer = Data(bytes: seq<byte>) | Interrupted | Failed

  /** The last of these rooms was not filled. */
  ghost predicate LastShort(answers: nat -> ReadAnswer, rooms: seq<nat>) {
    var last := |rooms| - 1;
    0 <= last && answers(last).Data? && |answers(last).bytes| < rooms[last]
  }

  /** Every one of these rooms was filled, and after one that was not there was nothing left. */
  ghost predicate AllFilled(answers: nat -> ReadAnswer, rooms: seq<nat>) {
    && (forall c: nat :: c < |rooms| ==> answers(c).Data? && |answers(c).bytes| <= rooms[c])
    && (forall c: nat, d: nat :: c < d < |rooms| && |answers(c).bytes| < rooms[c] ==> answers(d) == Data([]))
  }

  /** A reader that has filled all rooms had filled those before the last, and has nothing
      to add to one that was short. */
  lemma FilledBefore(answers: nat -> ReadAnswer, rooms: seq<nat>, room: nat)
    requires AllFilled(answers, rooms + [room])
    ensures AllFilled(answers, rooms) && (LastShort(answers, rooms) ==> answers(|rooms|) == Data([]))
    ensures answers(|rooms|).Data? && |answers(|rooms|).bytes| <= room
    ensures |answers(|rooms|).bytes| == room || LastShort(answers, rooms + [room])
  {
    var all := rooms + [room];
    assert all[|rooms|] == room && answers(|rooms|).Data?;
    forall c: nat | c < |rooms| ensures answers(c).Data? && |answers(c).bytes| <= rooms[c] {
      assert all[c] == rooms[c];
    }
    forall c: nat, d: nat | c < d < |rooms| && |answers(c).bytes| < rooms[c] ensures answers(d) == Data([]) {
      assert all[c] == rooms[c];
    }
    if LastShort(answers, rooms) { assert all[|rooms| - 1] == rooms[|rooms| - 1]; }
  }

  /** The foreign byte source: an arbitrary answer to each successive call. An
      empty answer is its end of input. */
  class Reader {
    const answers: nat -> ReadAnswer
    var calls: nat
    /** Every byte handed over so far, whether the end has been reported, and the room
        offered to each call. */
    ghost var given: seq<byte>
    ghost var ended: bool
    ghost var rooms: seq<nat>

    constructor (answers: nat -> ReadAnswer)
      ensures this.answers == answers && calls == 0 && given == [] && !ended && rooms == []
    {
      this.answers := answers;
      calls, given, ended, rooms := 0, [], false, [];
    }

    /** The last answer was a failure, or more bytes than there was room for. */
    ghost predicate Broke()
      reads this
    {
      0 < calls == |rooms| &&
      match answers(calls - 1)
      case Data(bytes) => |bytes| > rooms[calls - 1]
      case Interrupted => false
      case Failed => true
    }

    /** Every answer so far has filled its room, or handed over all that was left. */
    ghost predicate Filled()
      reads this
    {
      AllFilled(answers, rooms)
    }

    /** Nothing was asked for after the reader reported its end. */
    ghost predicate NotPastEnd()
      reads this
    {
      forall c: nat :: c < calls && answers(c) == Data([]) ==> ended && c == calls - 1
    }

    /** One read into a buffer of the given length. */
    method Read(length: nat) returns (answer: ReadAnswer)
      requires 0 < length
      modifies this
      ensures calls == old(calls) + 1 && answer == answers(old(calls)) && rooms == old(rooms) + [length]
      ensures answer.Data? && |answer.bytes| <= length ==>
        given == old(given) + answer.bytes && ended == (old(ended) || answer.bytes == [])
      ensures !(answer.Data? && |answer.bytes| <= length) ==> given == old(given) && ended == old(ended)
    {
      answer := answers(calls);
      calls, rooms := calls + 1, rooms + [length];
      if answer.Data? && |answer.bytes| <= length {
        given := given + answer.bytes;
        ended := ended || answer.bytes == [];
      }
    }
  }

  function DetectEncoding(prefix: seq<byte>): Encoding {
    if |prefix| >= 3 && prefix[..3] == [0xEF, 0xBB, 0xBF] then Utf8
    else if |prefix| >= 2 && prefix[..2] == [0xFF, 0xFE] then Utf16Le
    else if |prefix| >= 2 && prefix[..2] == [0xFE, 0xFF] then Utf16Be
    else Utf8
  }

  /** A UTF-16 encoding is chosen exactly when the first unit reads as the byte order mark
      U+FEFF under it. */
  lemma MarkIsRead(prefix: seq<byte>, encoding: Encoding)
    requires !encoding.Utf8?
    ensures DetectEncoding(prefix) == encoding <==>
      FullUnits(prefix, encoding) != [] && FullUnits(prefix, encoding)[0] == 0xFEFF
  {
    if 2 <= |prefix| {
      assert prefix[..2] == [prefix[0], prefix[1]];
      assert FullUnits(prefix, encoding)[0] == encoding.Unit(prefix[0], prefix[1]);
    }
    if 3 <= |prefix| { assert prefix[..3] == [prefix[0], prefix[1], prefix[2]]; }
  }

  /** The encoding asked for, or the one the first three bytes announce. */
  ghost predicate EncodingChosen(request: Request, encoding: Encoding, given: seq<byte>) {
    encoding == if request.encoding.Explicit? then request.encoding.encoding
                else DetectEncoding(given[..Min(3, |given|)])
  }

  lemma EncodingStays(request: Request, encoding: Encoding, given: seq<byte>, more: seq<byte>)
    requires EncodingChosen(request, encoding, given) && (3 <= |given| || more == [])
    ensures EncodingChosen(request, encoding, given + more)
  {
    assert (given + more)[..Min(3, |given + more|)] == given[..Min(3, |given|)];
  }

  datatype Stop = Undecided | ResolvedWindow | MissingLine | OutputByteLimit | ScanByteLimit | ReadCallLimit

  class Scan {
    const cursor: LineWindowScanner
    var selected: seq<byte>
    var backingStart: Option<nat>
    var bytesRead: nat
    var readCalls: nat
    var stop: Stop

    constructor (cursor: LineWindowScanner, bytesRead: nat, readCalls: nat)
      ensures this.cursor == cursor && this.bytesRead == bytesRead && this.readCalls == readCalls
      ensures selected == [] && backingStart.None? && stop.Undecided?
    {
      this.cursor, this.bytesRead, this.readCalls := cursor, bytesRead, readCalls;
      selected, backingStart, stop := [], None, Undecided;
    }

    /** How far the selection may need to reach: four bytes past a resolved window,
        else everything scanned. */
    function WantedEnd(): nat
      reads cursor
    {
      match cursor.CurrentStatus()
      case Resolved(_, _, range) => range.end + 4
      case _ => cursor.offset
    }

    /** The selection is one slice of the stream, starting four bytes (or all there
        are) before the selected line. */
    ghost predicate SelectionOk(given: seq<byte>, capacity: nat)
      reads this`selected, this`backingStart, cursor
    {
      && |selected| <= capacity
      && (backingStart.None? ==> selected == [])
      && (backingStart.Some? ==>
            var from := backingStart.value;
            && cursor.start.Some? && from == SaturatingSub(cursor.start.value, 4)
            && from + |selected| <= |given| && selected == given[from..from + |selected|])
    }

    /** Nothing wanted so far is missing from the selection. */
    ghost predicate Covered(given: seq<byte>)
      reads this`selected, this`backingStart, cursor
    {
      cursor.start.Some? ==>
        backingStart.Some? && backingStart.value + |selected| == Min(|given|, WantedEnd())
    }

    /** Keep the newly available bytes that belong to the selection. False when
        they do not fit; an error when bytes in between are no longer at hand. */
    method Retain(base: nat, bytes: seq<byte>, capacity: nat, ghost given: seq<byte>)
        returns (kept: Result<bool, AppError>)
      requires cursor.Valid() && SelectionOk(given, capacity)
      requires base + |bytes| == |given| && given[base..] == bytes
      requires cursor.start.Some? ==> SaturatingSub(cursor.start.value, 4) <= |given|
      modifies this`selected, this`backingStart
      ensures SelectionOk(given, capacity)
      ensures cursor.start.Some? ==> backingStart == Some(SaturatingSub(cursor.start.value, 4))
      ensures cursor.start.None? ==> kept == Ok(true) && backingStart == old(backingStart) && selected == old(selected)
      ensures kept.Err? ==> kept.error == InvalidRange
      ensures cursor.start.Some? ==>
        var from := backingStart.value + |old(selected)|;
        var end := Min(|given|, WantedEnd());
        && (kept.Err? <==> from < end && from < base)
        && (kept == Ok(false) <==> base <= from < end && end - backingStart.value > capacity)
        && (kept == Ok(true) ==> backingStart.value + |selected| == if from < end then end else from)
    {
      hide LineWindowScanner.Valid, WantedEnd;
      if cursor.start.None? { return Ok(true); }
      if backingStart.None? { backingStart := Some(SaturatingSub(cursor.start.value, 4)); }
      var appendFrom := backingStart.value + |selected|;
      var availableEnd := base + |bytes|;
      var end := Min(availableEnd, WantedEnd());
      if end <= appendFrom { return Ok(true); }
      if appendFrom < base { return Err(InvalidRange); }
      var slice := bytes[appendFrom - base..end - base];
      if |slice| > capacity - |selected| { return Ok(false); }
      SliceContinues(given, backingStart.value, appendFrom, end, base, bytes);
      selected := selected + slice;
      return Ok(true);
    }
  }

  lemma SliceContinues(given: seq<byte>, from: nat, mid: nat, end: nat, base: nat, bytes: seq<byte>)
    requires base + |bytes| == |given| && given[base..] == bytes
    requires from <= mid <= end <= |given| && base <= mid
    ensures given[from..end] == given[from..mid] + bytes[mid - base..end - base]
  {
    assert bytes[mid - base..end - base] == given[mid..end];
  }

  function SaturatingSub(x: nat, y: nat): nat { if y <= x then x - y else 0 }

  /** One bounded read; None when it was interrupted. */
  method ReadOnce(reader: Reader, length: nat, cancel: Cancellation, ghost since: nat)
      returns (r: Result<Option<seq<byte>>, AppError>)
    requires 0 < length <= BUFFER_BYTES && cancel.Quiet(since)
    requires !reader.ended && reader.NotPastEnd() && |reader.rooms| == reader.calls
    modifies reader, cancel
    ensures reader.NotPastEnd() && |reader.rooms| == reader.calls && cancel.polls == old(cancel.polls) + 1
    ensures reader.rooms == if r == Err(Canceled) then old(reader.rooms) else old(reader.rooms) + [length]
    ensures r == Err(Canceled) ==> cancel.Stopped(since) && reader.calls == old(reader.calls)
    ensures r != Err(Canceled) ==>
      && cancel.Quiet(since) && reader.calls == old(reader.calls) + 1
      && match reader.answers(old(reader.calls))
         case Interrupted => r == Ok(None)
         case Failed => r == Err(Io)
         case Data(bytes) => r == if |bytes| <= length then Ok(Some(bytes)) else Err(Io)
    ensures r == Err(Io) ==> reader.Broke()
    ensures r.Ok? && r.value.Some? ==>
      && |r.value.value| <= length
      && reader.given == old(reader.given) + r.value.value
      && reader.ended == (old(reader.ended) || r.value.value == [])
    ensures !(r.Ok? && r.value.Some?) ==> reader.given == old(reader.given) && reader.ended == old(reader.ended)
  {
    var stop := cancel.Poll();
    if stop { return Err(Canceled); }
    var answer := reader.Read(length);
    match answer
    case Data(bytes) =>
      if |bytes| <= length { return Ok(Some(bytes)); }
      return Err(Io);
    case Interrupted => return Ok(None);
    case Failed => return Err(Io);
  }

  /** Up to three bytes, enough to recognize a byte order mark. */
  method ReadPrefix(reader: Reader, maxScan: nat, cancel: Cancellation, ghost since: nat)
      returns (r: Result<seq<byte>, AppError>, eof: bool)
    requires reader.given == [] && reader.calls == 0 && reader.rooms == [] && !reader.ended && cancel.Quiet(since)
    modifies reader, cancel
    ensures reader.NotPastEnd() && |reader.rooms| == reader.calls
    ensures r.Err? ==> r.error.Canceled? || r.error.Io?
    ensures r == Err(Canceled) ==> cancel.Stopped(since)
    ensures r == Err(Io) ==> reader.Broke()
    ensures r.Ok? ==> cancel.Quiet(since)
    ensures r.Ok? ==> r.value == reader.given && |r.value| <= Min(3, maxScan)
    ensures r.Ok? ==> reader.calls <= MAX_READ_CALLS && eof == reader.ended
    ensures reader.calls <= cancel.polls - old(cancel.polls)
    ensures r.Ok? ==> |r.value| == 3 || |r.value| == maxScan || reader.calls == MAX_READ_CALLS || eof
    ensures r.Ok? && reader.Filled() ==> eof || (|r.value| == Min(3, maxScan) && reader.calls == Min(1, maxScan))
  {
    var prefix: seq<byte> := [];
    eof := false;
    while |prefix| < 3 && |prefix| < maxScan && reader.calls < MAX_READ_CALLS
      invariant |prefix| <= Min(3, maxScan) && prefix == reader.given
      invariant !reader.ended && reader.NotPastEnd() && reader.calls <= MAX_READ_CALLS && cancel.Quiet(since)
      invariant |reader.rooms| == reader.calls && (maxScan == 0 ==> reader.calls == 0)
      invariant reader.calls <= cancel.polls - old(cancel.polls)
      invariant PrefixFilled(reader.answers, reader.rooms, |prefix|, Min(3, maxScan))
      decreases MAX_READ_CALLS - reader.calls
    {
      var count := Min(3 - |prefix|, maxScan - |prefix|);
      ghost var rooms, before := reader.rooms, |prefix|;
      var read := ReadOnce(reader, count, cancel, since);
      if read.Err? { return Err(read.error), eof; }
      if read.value.Some? {
        if read.value.value == [] { return Ok(prefix), true; }
        prefix := prefix + read.value.value;
      }
      PrefixFills(reader.answers, rooms, count, before, |prefix| - before, Min(3, maxScan));
    }
    return Ok(prefix), false;
  }

  /** A filling reader has been asked for the prefix once at most, or has nothing left. */
  ghost predicate PrefixFilled(answers: nat -> ReadAnswer, rooms: seq<nat>, given: nat, length: nat) {
    AllFilled(answers, rooms) ==>
      || (|rooms| == 0 && given == 0)
      || (|rooms| == 1 && (given == length || LastShort(answers, rooms)))
  }

  lemma PrefixFills(answers: nat -> ReadAnswer, rooms: seq<nat>, room: nat, given: nat, more: nat, length: nat)
    requires PrefixFilled(answers, rooms, given, length) && given < length && room == length - given
    requires
      var answer := answers(|rooms|);
      answer.Data? && |answer.bytes| <= room ==> more == |answer.bytes|
    requires 0 < more || answers(|rooms|) != Data([])
    ensures PrefixFilled(answers, rooms + [room], given + more, length)
  {
    hide AllFilled, LastShort;
    if AllFilled(answers, rooms + [room]) { FilledBefore(answers, rooms, room); }
  }

  ghost predicate CursorOk(cursor: LineWindowScanner, given: seq<byte>)
    reads cursor
  {
    && cursor.Valid() && !cursor.eof && cursor.fed <= given
    && (!cursor.finished ==> cursor.fed == given)
    && (cursor.finished ==> cursor.SettledEarly())
  }

  ghost predicate HistoryOk(history: array<byte>, held: nat, given: seq<byte>)
    reads history
  {
    && history.Length == HISTORY && held == Min(HISTORY, |given|)
    && history[..held] == given[|given| - held..]
  }

  /** The bytes wanted so far do not fit the selection. */
  ghost predicate TooBig(scan: Scan, given: seq<byte>, capacity: nat)
    reads scan.cursor
  {
    && scan.cursor.start.Some?
    && Min(|given|, scan.WantedEnd()) > SaturatingSub(scan.cursor.start.value, 4) + capacity
  }

  /** Roll the history forward over the bytes just read. */
  method Roll(history: array<byte>, held: nat, buffer: array<byte>, available: nat, ghost given: seq<byte>)
      returns (rolled: nat)
    requires history != buffer && history.Length == HISTORY && held <= HISTORY
    requires available <= buffer.Length && available <= |given|
    requires buffer[..available] == given[|given| - available..]
    requires available < HISTORY ==> available == |given|
    modifies history
    ensures HistoryOk(history, rolled, given)
  {
    rolled := Min(available, HISTORY);
    forall i | 0 <= i < rolled {
      history[i] := buffer[available - rolled + i];
    }
    forall i | 0 <= i < rolled ensures history[..rolled][i] == given[|given| - rolled..][i] {
      assert buffer[..available][available - rolled + i] == given[|given| - available..][available - rolled + i];
    }
  }

  /** After reading `bytes` behind the held history, the buffer is the end of the
      stream. */
  method Fill(history: array<byte>, held: nat, buffer: array<byte>, bytes: seq<byte>, ghost given: seq<byte>)
    requires HistoryOk(history, held, given) && history != buffer
    requires held + |bytes| <= buffer.Length
    modifies buffer
    ensures buffer[..held + |bytes|] == (given + bytes)[|given| - held..]
  {
    forall i | 0 <= i < held {
      buffer[i] := history[i];
    }
    assert buffer[..held] == history[..held];
    forall i | 0 <= i < |bytes| {
      buffer[held + i] := bytes[i];
    }
    assert buffer[..held + |bytes|] == history[..held] + bytes;
  }

  /** Show the scanner the new bytes, unless it has already found its window. */
  method StepCursor(cursor: LineWindowScanner, bytes: seq<byte>, ghost given: seq<byte>)
    requires CursorOk(cursor, given)
    modifies cursor
    ensures CursorOk(cursor, given + bytes)
    ensures cursor.StartStable(old(cursor.start), |given|)
    ensures old(cursor.finished) ==> cursor.finished && cursor.CurrentStatus() == old(cursor.CurrentStatus())
    ensures old(cursor.finished) ==> cursor.offset == old(cursor.offset)
    ensures !old(cursor.finished) ==> |given| <= |cursor.fed|
  {
    hide LineWindowScanner.Tracks, LineWindowScanner.Settled, LineWindowScanner.AtEnd, LineWindowScanner.SettledEarly;
    if !cursor.finished {
      var stepped := cursor.Step(cursor.offset, bytes, |bytes|);
    }
  }

  /** How far the selection reaches once the start is known. */
  ghost function Reach(scan: Scan): nat
    requires scan.cursor.start.Some?
    reads scan`selected, scan.cursor
  {
    SaturatingSub(scan.cursor.start.value, 4) + |scan.selected|
  }

  lemma CoveredReach(scan: Scan, given: seq<byte>, capacity: nat)
    requires CursorOk(scan.cursor, given) && scan.SelectionOk(given, capacity) && scan.Covered(given)
    requires scan.cursor.finished ==> |given| <= scan.WantedEnd()
    ensures if scan.cursor.start.Some? then Reach(scan) == |given| else scan.selected == []
  {
    hide LineWindowScanner.Tracks, LineWindowScanner.Settled, LineWindowScanner.AtEnd, LineWindowScanner.SettledEarly;
  }

  /** After more bytes, the selection still ends where the held history begins or
      later, and wants nothing it already has. */
  lemma ReachIsHeld(scan: Scan, known: bool, held: nat, given: seq<byte>, all: seq<byte>)
    requires scan.cursor.Valid() && scan.cursor.fed <= all && (!scan.cursor.finished ==> scan.cursor.fed == all)
    requires given <= all && held == Min(HISTORY, |given|)
    requires scan.cursor.start.Some? && scan.SelectionOk(given, |scan.selected|)
    requires known ==> Reach(scan) == |given|
    requires known && scan.cursor.finished ==> |given| <= scan.WantedEnd() || |given| <= |scan.cursor.fed|
    requires !known ==> scan.selected == [] && |given| <= scan.cursor.start.value + 1
    ensures |given| - held <= Reach(scan) <= Min(|all|, scan.WantedEnd())
  {
    hide LineWindowScanner.Tracks, LineWindowScanner.Settled, LineWindowScanner.AtEnd, LineWindowScanner.SettledEarly;
    OffsetsAreInside(scan.cursor);
  }

  lemma SelectionGrows(scan: Scan, given: seq<byte>, all: seq<byte>, capacity: nat)
    requires scan.SelectionOk(given, capacity) && given <= all
    ensures scan.SelectionOk(all, capacity)
  {
  }

  /** Extend the selection to what is wanted by now, which reaches no further back than
      the bytes at hand. */
  method Keep(scan: Scan, base: nat, bytes: seq<byte>, capacity: nat, ghost all: seq<byte>) returns (fits: bool)
    requires scan.cursor.Valid() && scan.SelectionOk(all, capacity)
    requires base + |bytes| == |all| && all[base..] == bytes
    requires scan.cursor.start.Some? ==>
      scan.cursor.start.value <= |all| && base <= Reach(scan) <= Min(|all|, scan.WantedEnd())
    modifies scan`selected, scan`backingStart
    ensures scan.SelectionOk(all, capacity)
    ensures if fits then scan.Covered(all) else TooBig(scan, all, capacity)
  {
    hide LineWindowScanner.Valid, Scan.WantedEnd;
    var kept := scan.Retain(base, bytes, capacity, all);
    assert kept.Ok?;
    fits := kept.value;
  }

  /** Show the scanner the bytes of one read: what the selection still needs is held. */
  method StepScan(scan: Scan, bytes: seq<byte>, held: nat, capacity: nat, ghost given: seq<byte>)
    requires scan.bytesRead == |given| && CursorOk(scan.cursor, given) && held == Min(HISTORY, |given|)
    requires scan.SelectionOk(given, capacity) && scan.Covered(given)
    requires scan.cursor.finished ==> |given| <= scan.WantedEnd()
    modifies scan`bytesRead, scan.cursor
    ensures scan.bytesRead == |given + bytes| && CursorOk(scan.cursor, given + bytes)
    ensures scan.SelectionOk(given + bytes, capacity)
    ensures scan.cursor.start.Some? ==>
      && scan.cursor.start.value <= |given + bytes|
      && |given| - held <= Reach(scan) <= Min(|given + bytes|, scan.WantedEnd())
    ensures old(scan.cursor.finished) ==> scan.cursor.CurrentStatus() == old(scan.cursor.CurrentStatus())
  {
    hide LineWindowScanner.Valid, LineWindowScanner.SettledEarly, Scan.Covered;
    ghost var known := scan.cursor.start.Some?;
    CoveredReach(scan, given, capacity);
    scan.bytesRead := scan.bytesRead + |bytes|;
    StepCursor(scan.cursor, bytes, given);
    if scan.cursor.start.Some? { ReachIsHeld(scan, known, held, given, given + bytes); }
    SelectionGrows(scan, given, given + bytes, capacity);
    StartInReach(scan.cursor, given + bytes);
  }

  /** Take in the bytes of one successful read. */
  method Advance(scan: Scan, history: array<byte>, held: nat, buffer: array<byte>, bytes: seq<byte>,
                 capacity: nat, ghost given: seq<byte>) returns (fits: bool, rolled: nat)
    requires history != buffer && buffer.Length == BUFFER_BYTES + HISTORY && |bytes| <= BUFFER_BYTES
    requires scan.bytesRead == |given| && CursorOk(scan.cursor, given) && HistoryOk(history, held, given)
    requires scan.SelectionOk(given, capacity) && scan.Covered(given)
    requires scan.cursor.finished ==> |given| <= scan.WantedEnd()
    modifies scan`bytesRead, scan`selected, scan`backingStart, scan.cursor, history, buffer
    ensures scan.bytesRead == |given + bytes| && CursorOk(scan.cursor, given + bytes)
    ensures HistoryOk(history, rolled, given + bytes)
    ensures scan.SelectionOk(given + bytes, capacity)
    ensures if fits then scan.Covered(given + bytes) else TooBig(scan, given + bytes, capacity)
    ensures old(scan.cursor.finished) ==> scan.cursor.CurrentStatus() == old(scan.cursor.CurrentStatus())
  {
    hide CursorOk, HistoryOk, Reach, Scan.WantedEnd, Scan.SelectionOk, Scan.Covered, TooBig;
    ghost var all := given + bytes;
    HistoryHolds(history, held, given);
    Fill(history, held, buffer, bytes, given);
    var base := scan.bytesRead - held;
    StepScan(scan, bytes, held, capacity, given);
    CursorIsValid(scan.cursor, all);
    var available := held + |bytes|;
    fits := Keep(scan, base, buffer[..available], capacity, all);
    rolled := Roll(history, held, buffer, available, all);
  }

  lemma HistoryHolds(history: array<byte>, held: nat, given: seq<byte>)
    requires HistoryOk(history, held, given)
    ensures history.Length == HISTORY && held == Min(HISTORY, |given|)
  {
  }

  lemma CursorIsValid(cursor: LineWindowScanner, given: seq<byte>)
    requires CursorOk(cursor, given)
    ensures cursor.Valid()
  {
    hide LineWindowScanner.Valid, LineWindowScanner.SettledEarly;
  }

  lemma StartInReach(cursor: LineWindowScanner, given: seq<byte>)
    requires cursor.Valid() && cursor.fed <= given
    ensures cursor.start.Some? ==> cursor.start.value <= |given|
  {
    if cursor.start.Some? { OffsetsAreInside(cursor); }
  }

  /** Real end of input: settle the scanner and take a last line revealed only now
      from the history. */
  method AtEndOfInput(scan: Scan, history: array<byte>, held: nat, capacity: nat, ghost given: seq<byte>)
      returns (fits: bool)
    requires CursorOk(scan.cursor, given) && HistoryOk(history, held, given)
    requires scan.SelectionOk(given, capacity) && scan.Covered(given) && scan.bytesRead == |given|
    requires scan.cursor.finished ==> |given| <= scan.WantedEnd()
    modifies scan`selected, scan`backingStart, scan.cursor
    ensures CursorDone(scan.cursor, given)
    ensures scan.SelectionOk(given, capacity)
    ensures if fits then scan.Covered(given) else TooBig(scan, given, capacity)
  {
    hide LineWindowScanner.Valid, LineWindowScanner.SettledEarly, Scan.Covered, TooBig;
    ghost var known := scan.cursor.start.Some?;
    CoveredReach(scan, given, capacity);
    FinishCursor(scan.cursor, given);
    if scan.cursor.start.Some? { ReachIsHeld(scan, known, held, given, given); }
    StartInReach(scan.cursor, given);
    fits := Keep(scan, scan.bytesRead - held, history[..held], capacity, given);
  }

  /** The scanner has been told that the stream is over. */
  ghost predicate CursorDone(cursor: LineWindowScanner, given: seq<byte>)
    reads cursor
  {
    && cursor.Valid() && cursor.eof && cursor.finished && cursor.fed <= given
    && (cursor.fed == given || cursor.SettledEarly())
  }

  method FinishCursor(cursor: LineWindowScanner, ghost given: seq<byte>)
    requires CursorOk(cursor, given)
    modifies cursor
    ensures CursorDone(cursor, given)
    ensures cursor.StartStable(old(cursor.start), |given|)
    ensures old(cursor.finished) ==>
      && cursor.CurrentStatus() == old(cursor.CurrentStatus())
      && |cursor.fed| == |old(cursor.fed)|
    ensures !old(cursor.finished) ==> |given| <= |cursor.fed|
    ensures old(cursor.finished) ==> cursor.offset == old(cursor.offset)
  {
    hide LineWindowScanner.Tracks, LineWindowScanner.AtEnd, FullUnits, AllUnits, EndKnown, Starts, StartsLine;
    var status := cursor.Finish();
  }

  // ----- Deciding when to stop -----

  /** The order in which a pass of the loop looks for a reason to stop, and how many
      more bytes it wants otherwise. */
  function Decide(scan: Scan, request: Request, eof: bool, fits: bool): (Stop, nat)
    reads scan`bytesRead, scan`readCalls, scan.cursor
  {
    if !fits then (OutputByteLimit, 0)
    else match scan.cursor.CurrentStatus()
      case Missing => (MissingLine, 0)
      case Pending => (Exhausted(scan, request), BUFFER_BYTES)
      case Resolved(_, _, range) =>
        if range.end - range.start > request.maxBytes then (OutputByteLimit, 0)
        else if eof || scan.bytesRead >= range.end + 4 then (ResolvedWindow, 0)
        else (Exhausted(scan, request), range.end + 4 - scan.bytesRead)
  }

  function Exhausted(scan: Scan, request: Request): Stop
    reads scan`bytesRead, scan`readCalls
  {
    if scan.bytesRead == request.maxScan then ScanByteLimit
    else if scan.readCalls == MAX_READ_CALLS then ReadCallLimit
    else Undecided
  }

  /** The selection is exactly the resolved window with its four bytes of context on
      either side, as far as the stream has them. */
  ghost predicate SelectionIsWindow(scan: Scan, given: seq<byte>, range: Range)
    reads scan`selected, scan`backingStart
  {
    var from, to := SaturatingSub(range.start, 4), Min(|given|, range.end + 4);
    && range.start <= range.end <= |given|
    && from <= to && scan.backingStart == Some(from) && scan.selected == given[from..to]
  }

  /** However the stream goes on, what has been read is short of the end of the lines
      asked for and their context, or not this far beyond it. */
  ghost predicate ReadWithin(request: Request, encoding: Encoding, given: seq<byte>, beyond: nat) {
    forall stream: seq<byte>, range: Range ::
      given <= stream && WindowOf(stream, encoding, request.first, request.Last(), range) ==>
        |given| < range.end + 4 + beyond
  }

  /** More is wanted of the lines asked for, or of their context. */
  ghost predicate StillWanted(request: Request, encoding: Encoding, given: seq<byte>) {
    ReadWithin(request, encoding, given, 0)
  }

  lemma OneReadBeyond(request: Request, encoding: Encoding, given: seq<byte>, bytes: seq<byte>)
    requires StillWanted(request, encoding, given) && |bytes| <= BUFFER_BYTES
    ensures ReadWithin(request, encoding, given + bytes, BUFFER_BYTES)
  {
    hide WindowOf;
    var all := given + bytes;
    forall stream: seq<byte>, range: Range |
      all <= stream && WindowOf(stream, encoding, request.first, request.Last(), range)
      ensures |all| < range.end + 4 + BUFFER_BYTES
    {
      assert given <= stream;
    }
  }

  lemma FewBytesRead(request: Request, encoding: Encoding, given: seq<byte>)
    requires |given| <= 3
    ensures ReadWithin(request, encoding, given, BUFFER_BYTES)
  {
    hide WindowOf;
  }

  /** Everything read from four bytes before the first line asked for is selected, and
      nothing before that line has started. */
  ghost predicate KeptSoFar(scan: Scan, request: Request, given: seq<byte>)
    reads scan`selected, scan`backingStart
  {
    var encoding, u := scan.cursor.encoding, FullUnits(given, scan.cursor.encoding);
    && (forall s: nat :: StartsLineNumber(u, request.first, s) ==>
          var from := SaturatingSub(encoding.Bytes(s), 4);
          from <= |given| && scan.backingStart == Some(from) && scan.selected == given[from..])
    && (Starts(u, |u|) < request.first ==> scan.backingStart.None? && scan.selected == [])
  }

  /** What each reason to stop guarantees about the stream read so far and, where
      the scan stopped early, about every way it could go on. */
  ghost predicate StopIsHonest(scan: Scan, request: Request, given: seq<byte>, ended: bool, stop: Stop)
    reads scan`selected, scan`backingStart, scan`readCalls, scan.cursor
  {
    var encoding, last := scan.cursor.encoding, request.Last();
    match stop
    case Undecided => true
    case ScanByteLimit =>
      |given| == request.maxScan && !ended && StillWanted(request, encoding, given) && KeptSoFar(scan, request, given)
    case ReadCallLimit =>
      && scan.readCalls == MAX_READ_CALLS
      && !ended && StillWanted(request, encoding, given) && KeptSoFar(scan, request, given)
    case MissingLine =>
      ended && LineCount(given, encoding) < request.first && scan.backingStart.None? && scan.selected == []
    case OutputByteLimit =>
      && request.first <= LineCount(given, encoding)
      && forall stream: seq<byte>, range: Range ::
           given <= stream && (ended ==> stream == given) && WindowOf(stream, encoding, request.first, last, range) ==>
             range.end - range.start > request.maxBytes
    case ResolvedWindow =>
      match scan.cursor.CurrentStatus()
      case Resolved(first, lastSeen, range) =>
        && first == request.first && lastSeen == Min(last, LineCount(given, encoding))
        && range.end - range.start <= request.maxBytes && (ended || range.end + 4 <= |given|)
        && (forall stream: seq<byte> :: given <= stream && (ended ==> stream == given) ==>
              WindowOf(stream, encoding, request.first, last, range))
        && SelectionIsWindow(scan, given, range)
      case _ => false
  }

  lemma ResolvedIsWindow(scan: Scan, request: Request, given: seq<byte>, stream: seq<byte>)
    requires scan.cursor.Valid() && scan.cursor.finished && scan.cursor.fed <= given <= stream
    requires stream == scan.cursor.fed || scan.cursor.SettledEarly()
    requires scan.cursor.first == request.first && scan.cursor.last == request.Last()
    requires scan.cursor.CurrentStatus().Resolved?
    ensures WindowOf(stream, scan.cursor.encoding, request.first, request.Last(),
                     scan.cursor.CurrentStatus().range)
  {
    hide LineWindowScanner.Valid, LineWindowScanner.SettledEarly, WindowOf, LineCount;
    StatusIsTrue(scan.cursor, stream);
  }

  /** The state in which a pass decides: the scanner may or may not have been told
      that the stream is over. */
  ghost predicate Deciding(scan: Scan, request: Request, given: seq<byte>, eof: bool, fits: bool)
    reads scan`selected, scan`backingStart, scan`bytesRead, scan.cursor
  {
    var capacity := request.maxBytes + 8;
    && scan.cursor.first == request.first && scan.cursor.last == request.Last()
    && scan.bytesRead == |given|
    && (if eof then CursorDone(scan.cursor, given) else CursorOk(scan.cursor, given))
    && scan.SelectionOk(given, capacity)
    && (if fits then scan.Covered(given) else TooBig(scan, given, capacity))
  }

  lemma MissingIsHonest(scan: Scan, request: Request, given: seq<byte>, eof: bool)
    requires Deciding(scan, request, given, eof, true) && scan.cursor.CurrentStatus().Missing?
    ensures eof && LineCount(given, scan.cursor.encoding) < request.first
    ensures scan.backingStart.None? && scan.selected == []
  {
    hide FullUnits, AllUnits, Starts, StartsLine, WindowOf, LineCount;
    StatusIsTrue(scan.cursor, given);
  }

  lemma ResolvedIsHonest(scan: Scan, request: Request, given: seq<byte>, eof: bool)
    requires Deciding(scan, request, given, eof, true) && scan.cursor.CurrentStatus().Resolved?
    ensures
      var range := scan.cursor.CurrentStatus().range;
      && scan.cursor.CurrentStatus().first == request.first
      && scan.cursor.CurrentStatus().last == Min(request.Last(), LineCount(given, scan.cursor.encoding))
      && (forall stream: seq<byte> :: given <= stream && (eof ==> stream == given) ==>
            WindowOf(stream, scan.cursor.encoding, request.first, request.Last(), range))
      && SelectionIsWindow(scan, given, range)
  {
    hide LineWindowScanner.Valid, LineWindowScanner.SettledEarly, WindowOf, LineCount;
    StatusIsTrue(scan.cursor, given);
    OffsetsAreInside(scan.cursor);
    forall stream: seq<byte> | given <= stream && (eof ==> stream == given)
      ensures WindowOf(stream, scan.cursor.encoding, request.first, request.Last(), scan.cursor.CurrentStatus().range)
    {
      ResolvedIsWindow(scan, request, given, stream);
    }
  }

  /** A refusal for size is never wrong: whatever follows, the window asked for is
      longer than the allowance. */
  lemma SizeRefusalIsHonest(scan: Scan, request: Request, given: seq<byte>, eof: bool, fits: bool, stream: seq<byte>,
                            range: Range)
    requires Deciding(scan, request, given, eof, fits)
    requires !fits || (scan.cursor.CurrentStatus().Resolved? &&
             var r := scan.cursor.CurrentStatus().range; r.end - r.start > request.maxBytes)
    requires given <= stream && (eof ==> stream == given)
    requires WindowOf(stream, scan.cursor.encoding, request.first, request.Last(), range)
    ensures range.end - range.start > request.maxBytes
  {
    hide LineWindowScanner.SettledEarly, LineWindowScanner.Tracks, LineWindowScanner.Settled, LineWindowScanner.AtEnd;
    hide WindowOf, LineCount;
    if scan.cursor.CurrentStatus().Resolved? {
      ResolvedIsWindow(scan, request, given, stream);
      WindowOfIsUnique(stream, scan.cursor.encoding, request.first, request.Last(), range,
          scan.cursor.CurrentStatus().range);
    } else {
      StillOpen(scan.cursor);
      OpenWindowEndsLater(scan.cursor, stream, range);
    }
  }

  /** A known start is the start of a line the stream has. */
  lemma StartIsALine(scan: Scan, request: Request, given: seq<byte>, eof: bool, fits: bool)
    requires Deciding(scan, request, given, eof, fits) && (!fits || scan.cursor.start.Some?)
    ensures request.first <= LineCount(given, scan.cursor.encoding)
  {
    hide FullUnits, Starts, StartsLine, EndKnown;
    var encoding, fed, t := scan.cursor.encoding, scan.cursor.fed, scan.cursor.startUnit;
    WholeUnits(fed, encoding);
    UnitsOfPrefix(fed, given, encoding);
    hide AllUnits;
    var u, v := FullUnits(fed, encoding), AllUnits(given, encoding);
    if StartsLineNumber(u, request.first, t) { LineStartStays(u, v, request.first, t); }
    LineStartIsUnique(v, request.first, t, t);
  }

  /** With its start known, a scanner that has not resolved is still open. */
  lemma StillOpen(cursor: LineWindowScanner)
    requires cursor.Valid() && cursor.start.Some? && !cursor.CurrentStatus().Resolved?
    ensures !cursor.finished
  {
  }

  /** The window found so far, if any, has not been read to the end of its context. */
  ghost predicate ShortOfContext(scan: Scan, given: seq<byte>)
    reads scan.cursor
  {
    scan.cursor.finished ==>
      scan.cursor.CurrentStatus().Resolved? && |given| < scan.cursor.CurrentStatus().range.end + 4
  }

  lemma MoreIsWanted(scan: Scan, request: Request, given: seq<byte>, stream: seq<byte>, range: Range)
    requires Deciding(scan, request, given, false, true) && ShortOfContext(scan, given)
    requires given <= stream && WindowOf(stream, scan.cursor.encoding, request.first, request.Last(), range)
    ensures |given| < range.end + 4
  {
    hide LineWindowScanner.Valid, LineWindowScanner.SettledEarly, WindowOf;
    if scan.cursor.finished {
      ResolvedIsWindow(scan, request, given, stream);
      WindowOfIsUnique(stream, scan.cursor.encoding, request.first, request.Last(), range,
          scan.cursor.CurrentStatus().range);
    } else {
      OpenWindowEndsLater(scan.cursor, stream, range);
    }
  }

  /** The selection of a scanner whose start is known and whose wanted bytes reach the end
      of what has been read. */
  lemma KeptFrom(scan: Scan, request: Request, given: seq<byte>)
    requires scan.SelectionOk(given, |scan.selected|) && scan.Covered(given) && scan.cursor.start.Some?
    requires |given| <= scan.WantedEnd() && scan.cursor.start.value == scan.cursor.encoding.Bytes(scan.cursor.startUnit)
    requires StartsLineNumber(FullUnits(given, scan.cursor.encoding), request.first, scan.cursor.startUnit)
    ensures KeptSoFar(scan, request, given)
  {
    hide FullUnits, Starts, StartsLineNumber, Scan.WantedEnd;
    var u, t := FullUnits(given, scan.cursor.encoding), scan.cursor.startUnit;
    LineStartIsUnique(u, request.first, t, t);
    forall s: nat | StartsLineNumber(u, request.first, s) ensures s == t {
      LineStartIsUnique(u, request.first, t, s);
    }
  }

  lemma OpenKeeps(scan: Scan, request: Request, given: seq<byte>)
    requires Deciding(scan, request, given, false, true) && !scan.cursor.finished
    ensures KeptSoFar(scan, request, given)
  {
    hide FullUnits, Starts, StartsLine;
    var u := FullUnits(given, scan.cursor.encoding);
    if scan.cursor.start.Some? {
      KeptFrom(scan, request, given);
    } else {
      forall s: nat | StartsLineNumber(u, request.first, s) ensures false {
        LineStartIsUnique(u, request.first, s, s);
      }
    }
  }

  lemma SettledKeeps(scan: Scan, request: Request, given: seq<byte>)
    requires Deciding(scan, request, given, false, true) && scan.cursor.finished && ShortOfContext(scan, given)
    ensures KeptSoFar(scan, request, given)
  {
    hide FullUnits, Starts, StartsLine, EndKnown;
    var encoding := scan.cursor.encoding;
    WholeUnits(scan.cursor.fed, encoding);
    hide AllUnits;
    FullUnitsOfPrefix(scan.cursor.fed, given, encoding);
    LineStartStays(FullUnits(scan.cursor.fed, encoding), FullUnits(given, encoding), request.first,
        scan.cursor.startUnit);
    KeptFrom(scan, request, given);
  }

  /** A scanner that has not read its context wants more. */
  lemma GoingOnWants(scan: Scan, request: Request, given: seq<byte>)
    requires Deciding(scan, request, given, false, true) && ShortOfContext(scan, given)
    ensures StillWanted(request, scan.cursor.encoding, given)
  {
    hide Deciding, WindowOf, ShortOfContext;
    forall stream: seq<byte>, range: Range |
      given <= stream && WindowOf(stream, scan.cursor.encoding, request.first, request.Last(), range)
      ensures |given| < range.end + 4
    {
      MoreIsWanted(scan, request, given, stream, range);
    }
  }

  /** A limit cuts the scan short only while the stream is open and more is wanted. */
  lemma LimitIsHonest(scan: Scan, request: Request, given: seq<byte>, eof: bool, fits: bool)
    requires Deciding(scan, request, given, eof, fits)
    requires Decide(scan, request, eof, fits).0.ScanByteLimit? || Decide(scan, request, eof, fits).0.ReadCallLimit?
    ensures !eof && StillWanted(request, scan.cursor.encoding, given) && KeptSoFar(scan, request, given)
  {
    hide LineWindowScanner.Valid, LineWindowScanner.SettledEarly, WindowOf, Starts, StartsLineNumber, FullUnits;
    assert !eof by { OpenAtLimit(scan, request, given, eof, fits); }
    GoingOnWants(scan, request, given);
    if scan.cursor.finished { SettledKeeps(scan, request, given); } else { OpenKeeps(scan, request, given); }
  }

  lemma OpenAtLimit(scan: Scan, request: Request, given: seq<byte>, eof: bool, fits: bool)
    requires Deciding(scan, request, given, eof, fits)
    requires Decide(scan, request, eof, fits).0.ScanByteLimit? || Decide(scan, request, eof, fits).0.ReadCallLimit?
    ensures !eof
  {
    hide LineWindowScanner.Valid, LineWindowScanner.SettledEarly;
  }

  lemma DecideIsHonest(scan: Scan, request: Request, given: seq<byte>, eof: bool, fits: bool)
    requires Deciding(scan, request, given, eof, fits)
    ensures StopIsHonest(scan, request, given, eof, Decide(scan, request, eof, fits).0)
  {
    hide Deciding, SelectionIsWindow, WindowOf, LineCount, StillWanted, KeptSoFar;
    assert scan.bytesRead == |given| by { DecidingCounts(scan, request, given, eof, fits); }
    match Decide(scan, request, eof, fits).0
    case OutputByteLimit =>
      StartIsALine(scan, request, given, eof, fits);
      forall stream: seq<byte>, range: Range |
        && given <= stream && (eof ==> stream == given)
        && WindowOf(stream, scan.cursor.encoding, request.first, request.Last(), range)
        ensures range.end - range.start > request.maxBytes
      {
        SizeRefusalIsHonest(scan, request, given, eof, fits, stream, range);
      }
    case MissingLine => MissingIsHonest(scan, request, given, eof);
    case ResolvedWindow => ResolvedIsHonest(scan, request, given, eof);
    case Undecided =>
    case _ => LimitIsHonest(scan, request, given, eof, fits);
  }

  lemma DecidingCounts(scan: Scan, request: Request, given: seq<byte>, eof: bool, fits: bool)
    requires Deciding(scan, request, given, eof, fits)
    ensures scan.bytesRead == |given|
  {
  }

  // ----- The whole scan -----

  /** Start the scanner on the prefix already read. */
  method Begin(request: Request, prefix: seq<byte>, calls: nat, history: array<byte>)
      returns (scan: Scan, held: nat)
    requires 0 < request.first && 0 < request.count
    requires |prefix| <= 3 && history.Length == HISTORY
    modifies history
    ensures fresh(scan) && fresh(scan.cursor)
    ensures scan.bytesRead == |prefix| && scan.readCalls == calls
    ensures Deciding(scan, request, prefix, false, true) && HistoryOk(history, held, prefix)
    ensures scan.cursor.finished ==> |prefix| <= scan.WantedEnd()
    ensures EncodingChosen(request, scan.cursor.encoding, prefix)
  {
    hide LineWindowScanner.SettledEarly, Scan.WantedEnd, Scan.SelectionOk, Scan.Covered, HistoryOk;
    var encoding := match request.encoding
      case Explicit(e) => e
      case Auto => DetectEncoding(prefix);
    PrefixChooses(request, encoding, prefix);
    var cursor := new LineWindowScanner(request.first, request.count, encoding);
    scan := new Scan(cursor, |prefix|, calls);
    hide LineWindowScanner.Valid, EncodingChosen, DetectEncoding;
    FirstSelection(scan, prefix, request.maxBytes + 8);
    held := FirstHistory(history, prefix);
  }

  lemma PrefixChooses(request: Request, encoding: Encoding, prefix: seq<byte>)
    requires |prefix| <= 3
    requires encoding == if request.encoding.Explicit? then request.encoding.encoding else DetectEncoding(prefix)
    ensures EncodingChosen(request, encoding, prefix)
  {
    assert prefix[..Min(3, |prefix|)] == prefix;
  }

  method FirstHistory(history: array<byte>, prefix: seq<byte>) returns (held: nat)
    requires |prefix| <= 3 && history.Length == HISTORY
    modifies history
    ensures HistoryOk(history, held, prefix)
  {
    forall i | 0 <= i < |prefix| {
      history[i] := prefix[i];
    }
    held := |prefix|;
    assert history[..held] == prefix && prefix[0..] == prefix;
  }

  method FirstSelection(scan: Scan, prefix: seq<byte>, capacity: nat)
    requires |prefix| <= 3 && HISTORY <= capacity
    requires CursorOk(scan.cursor, []) && !scan.cursor.finished && scan.cursor.start.None?
    requires scan.selected == [] && scan.backingStart.None?
    modifies scan`selected, scan`backingStart, scan.cursor
    ensures CursorOk(scan.cursor, prefix) && scan.SelectionOk(prefix, capacity) && scan.Covered(prefix)
    ensures scan.cursor.finished ==> |prefix| <= scan.WantedEnd()
  {
    hide LineWindowScanner.Valid, LineWindowScanner.SettledEarly;
    assert [] + prefix == prefix;
    StepCursor(scan.cursor, prefix, []);
    if scan.cursor.start.Some? { ReachIsHeld(scan, false, 0, [], prefix); }
    StartInReach(scan.cursor, prefix);
    if scan.cursor.finished { FinishedNearby(scan.cursor); }
    assert prefix[0..] == prefix;
    var kept := scan.Retain(0, prefix, capacity, prefix);
    assert scan.cursor.start.Some? ==> Min(|prefix|, scan.WantedEnd()) - scan.backingStart.value <= capacity;
    assert kept != Ok(false);
    assert kept.value;
  }

  lemma FinishedNearby(cursor: LineWindowScanner)
    requires cursor.Valid() && cursor.finished && !cursor.eof
    ensures cursor.CurrentStatus().Resolved? && |cursor.fed| <= cursor.CurrentStatus().range.end + 2
  {
    OffsetsAreInside(cursor);
  }

  /** At end of input some reason to stop always applies. */
  lemma EndDecides(scan: Scan, request: Request, given: seq<byte>, fits: bool)
    requires Deciding(scan, request, given, true, fits)
    ensures !Decide(scan, request, true, fits).0.Undecided? && !Decide(scan, request, true, fits).0.ReadCallLimit?
  {
  }

  /** A pass that goes on has room for more bytes and still wants some. */
  lemma GoingOn(scan: Scan, request: Request, given: seq<byte>, fits: bool)
    requires Deciding(scan, request, given, false, fits)
    requires |given| <= request.maxScan
    ensures Decide(scan, request, false, fits).0.Undecided? ==>
      && fits && 0 < Decide(scan, request, false, fits).1
      && |given| < request.maxScan && scan.readCalls != MAX_READ_CALLS
      && (scan.cursor.finished ==> |given| <= scan.WantedEnd())
      && ShortOfContext(scan, given)
    ensures Decide(scan, request, false, fits).0.ReadCallLimit? ==> scan.readCalls == MAX_READ_CALLS
  {
  }

  /** What every pass of the loop keeps. The history holds the last eight bytes of
      the stream, so no wanted byte is ever out of reach. */
  ghost predicate Between(scan: Scan, reader: Reader, request: Request, history: array<byte>, held: nat, eof: bool,
                          fits: bool)
    reads scan`selected, scan`backingStart, scan`bytesRead, scan`readCalls, scan.cursor, reader, history
  {
    && scan.readCalls == reader.calls <= MAX_READ_CALLS && |reader.given| <= request.maxScan
    && Deciding(scan, request, reader.given, false, fits) && HistoryOk(history, held, reader.given)
    && eof == reader.ended && reader.NotPastEnd()
    && (eof ==> fits && (scan.cursor.finished ==> |reader.given| <= scan.WantedEnd()))
    && EncodingChosen(request, scan.cursor.encoding, reader.given)
    && ReadWithin(request, scan.cursor.encoding, reader.given, BUFFER_BYTES)
    && |reader.rooms| == reader.calls
    && (3 <= |reader.given| || |reader.given| == request.maxScan || reader.calls == MAX_READ_CALLS || reader.ended)
  }

  /** A reader that fills its rooms has been asked for a whole buffer by every call but the
      first, unless the scan limit or the end of the context was nearer. */
  ghost predicate Brisk(answers: nat -> ReadAnswer, rooms: seq<nat>, given: nat, maxScan: nat, end: Option<nat>) {
    AllFilled(answers, rooms) ==>
      && (|rooms| - 2) * BUFFER_BYTES < given
      && (given == 3 + (|rooms| - 1) * BUFFER_BYTES || LastShort(answers, rooms)
          || given == maxScan || (end.Some? && end.value <= given))
  }

  /** Where the context of the resolved window ends. */
  ghost function ContextEnd(cursor: LineWindowScanner): Option<nat>
    reads cursor
  {
    match cursor.CurrentStatus()
    case Resolved(_, _, range) => Some(range.end + 4)
    case _ => None
  }

  ghost predicate ReaderBrisk(scan: Scan, reader: Reader, request: Request)
    reads scan.cursor, reader
  {
    reader.ended || Brisk(reader.answers, reader.rooms, |reader.given|, request.maxScan, ContextEnd(scan.cursor))
  }

  /** What every pass keeps, the pace included. */
  ghost predicate Going(scan: Scan, reader: Reader, request: Request, history: array<byte>, held: nat, eof: bool,
                        fits: bool)
    reads scan`selected, scan`backingStart, scan`bytesRead, scan`readCalls, scan.cursor, reader, history
  {
    Between(scan, reader, request, history, held, eof, fits) && ReaderBrisk(scan, reader, request)
  }

  /** The room for the next read: the least of a buffer, what the scan limit leaves and what
      the context still needs. */
  ghost function NextRoom(given: nat, maxScan: nat, end: Option<nat>): nat
    requires given < maxScan
  {
    var room := Min(maxScan - given, BUFFER_BYTES);
    match end
    case Some(e) => if given < e then Min(e - given, room) else 0
    case None => room
  }

  /** One read of that room keeps a filling reader brisk. */
  lemma StaysBrisk(answers: nat -> ReadAnswer, rooms: seq<nat>, given: nat, more: nat, maxScan: nat,
                   before: Option<nat>, after: Option<nat>)
    requires Brisk(answers, rooms, given, maxScan, before) && given < maxScan
    requires before.Some? ==> given < before.value && after == before
    requires
      var answer := answers(|rooms|);
      answer.Data? && |answer.bytes| <= NextRoom(given, maxScan, before) ==> more == |answer.bytes|
    requires 0 < more || answers(|rooms|) != Data([])
    ensures Brisk(answers, rooms + [NextRoom(given, maxScan, before)], given + more, maxScan, after)
  {
    hide AllFilled, LastShort;
    var room := NextRoom(given, maxScan, before);
    if AllFilled(answers, rooms + [room]) { FilledBefore(answers, rooms, room); }
  }

  datatype Progress = Progress(eof: bool, fits: bool, held: nat)

  /** The reading half of a pass. */
  method ReadPass(scan: Scan, reader: Reader, request: Request, history: array<byte>, held: nat, buffer: array<byte>,
                  wanted: nat, cancel: Cancellation, ghost since: nat) returns (r: Result<Progress, AppError>)
    requires history != buffer && buffer.Length == BUFFER_BYTES + HISTORY && cancel.Quiet(since)
    requires Going(scan, reader, request, history, held, false, true)
    requires 0 < wanted && |reader.given| < request.maxScan && scan.readCalls != MAX_READ_CALLS
    requires scan.cursor.finished ==> |reader.given| <= scan.WantedEnd()
    requires StillWanted(request, scan.cursor.encoding, reader.given)
    requires wanted == Decide(scan, request, false, true).1 && Decide(scan, request, false, true).0.Undecided?
    modifies scan`bytesRead, scan`readCalls, scan`selected, scan`backingStart, scan.cursor, reader, cancel, history,
        buffer
    ensures r == Err(Canceled) ==> cancel.Stopped(since)
    ensures r.Err? ==> !r.error.InvalidRange?
    ensures r == Err(Io) ==> reader.Broke()
    ensures r.Ok? ==> cancel.Quiet(since) && reader.calls == old(reader.calls) + 1 <= MAX_READ_CALLS
    ensures cancel.polls == old(cancel.polls) + 1
    ensures r.Ok? ==> Going(scan, reader, request, history, r.value.held, r.value.eof, r.value.fits)
    ensures reader.rooms == old(reader.rooms) + if r == Err(Canceled) then [] else
      [old(NextRoom(|reader.given|, request.maxScan, ContextEnd(scan.cursor)))]
  {
    hide LineWindowScanner.Valid, LineWindowScanner.SettledEarly, CursorOk, HistoryOk, TooBig, Scan.Covered,
      Scan.SelectionOk, Reader.NotPastEnd, ReadWithin, Decide, Brisk, NextRoom, AllFilled;
    var count := Min(wanted, Min(request.maxScan - scan.bytesRead, BUFFER_BYTES));
    ghost var given := reader.given;
    WantedIs(scan, request, |given|);
    ghost var rooms, end := reader.rooms, ContextEnd(scan.cursor);
    var got := ReadOnce(reader, count, cancel, since);
    scan.readCalls := scan.readCalls + 1;
    if got.Err? { return Err(got.error); }
    if got.value.None? {
      StaysBrisk(reader.answers, rooms, |given|, 0, request.maxScan, end, end);
      return Ok(Progress(false, true, held));
    }
    var bytes := got.value.value;
    if bytes == [] {
      assert given + bytes == given;
      return Ok(Progress(true, true, held));
    }
    EncodingStays(request, scan.cursor.encoding, given, bytes);
    OneReadBeyond(request, scan.cursor.encoding, given, bytes);
    var fits, rolled := Advance(scan, history, held, buffer, bytes, request.maxBytes + 8, given);
    StaysBrisk(reader.answers, rooms, |given|, |bytes|, request.maxScan, end, ContextEnd(scan.cursor));
    return Ok(Progress(false, fits, rolled));
  }

  /** A pass that goes on wants a whole buffer, or the rest of the context. */
  lemma WantedIs(scan: Scan, request: Request, given: nat)
    requires Decide(scan, request, false, true).0.Undecided? && scan.bytesRead == given < request.maxScan
    ensures
      var wanted, end := Decide(scan, request, false, true).1, ContextEnd(scan.cursor);
      Min(wanted, Min(request.maxScan - given, BUFFER_BYTES)) == NextRoom(given, request.maxScan, end)
    ensures ContextEnd(scan.cursor).Some? ==> scan.cursor.finished && given < ContextEnd(scan.cursor).value
  {
  }

  /** What the scan reports when it stops for this reason. */
  ghost predicate Reported(scan: Scan, reader: Reader, request: Request, reason: Stop)
    reads scan`selected, scan`backingStart, scan`bytesRead, scan`readCalls, scan.cursor, reader
  {
    && scan.bytesRead == |reader.given| <= request.maxScan && scan.readCalls == reader.calls <= MAX_READ_CALLS
    && scan.SelectionOk(reader.given, request.maxBytes + 8)
    && StopIsHonest(scan, request, reader.given, reader.ended, reason)
    && EncodingChosen(request, scan.cursor.encoding, reader.given) && reader.NotPastEnd()
    && ReadWithin(request, scan.cursor.encoding, reader.given, BUFFER_BYTES)
    && (reason.ReadCallLimit? ==> LimitIsDeserved(reader))
  }

  /** No reader that fills its rooms meets the limit on calls within two gibibytes. */
  ghost predicate LimitIsDeserved(reader: Reader)
    reads reader
  {
    reader.Filled() ==> 131_070 * 16_384 < |reader.given|
  }

  /** The deciding half of a pass: why to stop, or how many more bytes to want. */
  method Judge(scan: Scan, reader: Reader, request: Request, history: array<byte>, held: nat, eof: bool, fits: bool)
      returns (reason: Stop, wanted: nat)
    requires Going(scan, reader, request, history, held, eof, fits)
    modifies scan`selected, scan`backingStart, scan.cursor
    ensures Reported(scan, reader, request, reason)
    ensures reason.Undecided? ==>
      && Going(scan, reader, request, history, held, false, true)
      && 0 < wanted && |reader.given| < request.maxScan && scan.readCalls != MAX_READ_CALLS
      && (scan.cursor.finished ==> |reader.given| <= scan.WantedEnd())
      && StillWanted(request, scan.cursor.encoding, reader.given)
      && wanted == Decide(scan, request, false, true).1 && Decide(scan, request, false, true).0.Undecided?
  {
    hide CursorOk, CursorDone, HistoryOk, TooBig, StopIsHonest, Decide;
    hide LineWindowScanner.Valid, LineWindowScanner.SettledEarly, Scan.Covered, Reader.NotPastEnd, ReadWithin,
      ShortOfContext;
    var now := fits;
    if eof {
      now := AtEndOfInput(scan, history, held, request.maxBytes + 8, reader.given);
      EndDecides(scan, request, reader.given, now);
    } else {
      GoingOn(scan, request, reader.given, now);
      if Decide(scan, request, eof, now).0.Undecided? { GoingOnWants(scan, request, reader.given); }
    }
    DecideIsHonest(scan, request, reader.given, eof, now);
    reason, wanted := Decide(scan, request, eof, now).0, Decide(scan, request, eof, now).1;
  }

  datatype Opened = Opened(scan: Scan, held: nat, eof: bool)

  /** Read the prefix, choose the encoding and start the scanner. */
  method Open(reader: Reader, request: Request, history: array<byte>, cancel: Cancellation, ghost since: nat)
      returns (r: Result<Opened, AppError>)
    requires 0 < request.first && history.Length == HISTORY && cancel.Quiet(since)
    requires reader.given == [] && reader.calls == 0 && reader.rooms == [] && !reader.ended
    modifies reader, history, cancel
    ensures r == Err(Canceled) ==> cancel.Stopped(since)
    ensures r == Err(InvalidRange) ==> request.count == 0 || request.first + request.count - 1 > MAX_U64
    ensures r == Err(Io) ==> reader.Broke()
    ensures r.Ok? ==> 0 < request.count && request.first + request.count - 1 <= MAX_U64
    ensures r.Ok? ==> fresh(r.value.scan) && fresh(r.value.scan.cursor) && cancel.Quiet(since)
    ensures r.Ok? ==> Going(r.value.scan, reader, request, history, r.value.held, r.value.eof, true)
    ensures r.Ok? ==> reader.calls <= MAX_READ_CALLS
    ensures reader.calls <= cancel.polls - old(cancel.polls)
  {
    hide CursorOk, HistoryOk, TooBig, AllFilled, LineWindowScanner.Valid, LineWindowScanner.SettledEarly, Scan.Covered,
      ReadWithin;
    var read, eof := ReadPrefix(reader, request.maxScan, cancel, since);
    if read.Err? { return Err(read.error); }
    if request.count == 0 || request.first + request.count - 1 > MAX_U64 { return Err(InvalidRange); }
    var scan, held := Begin(request, read.value, reader.calls, history);
    FewBytesRead(request, scan.cursor.encoding, read.value);
    return Ok(Opened(scan, held, eof));
  }

  /** Alternate deciding and reading until there is a reason to stop. */
  method Run(scan: Scan, reader: Reader, request: Request, history: array<byte>, start: nat, ended: bool,
             cancel: Cancellation, ghost since: nat) returns (error: Option<AppError>)
    requires Going(scan, reader, request, history, start, ended, true) && cancel.Quiet(since)
    requires reader.calls <= MAX_READ_CALLS
    modifies scan, scan.cursor, reader, cancel, history
    ensures error == None || error == Some(Canceled) || error == Some(Io)
    ensures error == Some(Canceled) ==> cancel.Stopped(since)
    ensures error == Some(Io) ==> reader.Broke()
    ensures error.None? ==> reader.calls - old(reader.calls) <= cancel.polls - old(cancel.polls)
    ensures error.None? ==> cancel.Quiet(since) && !scan.stop.Undecided? && Reported(scan, reader, request, scan.stop)
  {
    hide Going, Reported, Reader.Broke, Decide, StillWanted;
    var buffer := new byte[BUFFER_BYTES + HISTORY];
    var held, eof, fits := start, ended, true;
    while true
      invariant Going(scan, reader, request, history, held, eof, fits) && cancel.Quiet(since)
      invariant reader.calls <= MAX_READ_CALLS
      invariant reader.calls - old(reader.calls) <= cancel.polls - old(cancel.polls)
      decreases MAX_READ_CALLS - reader.calls
    {
      var stop := cancel.Poll();
      if stop { return Some(Canceled); }
      var reason, wanted := Judge(scan, reader, request, history, held, eof, fits);
      if !reason.Undecided? {
        scan.stop := reason;
        stop := cancel.Poll();
        return if stop then Some(Canceled) else None;
      }
      var progress := ReadPass(scan, reader, request, history, held, buffer, wanted, cancel, since);
      if progress.Err? { return Some(progress.error); }
      eof, fits, held := progress.value.eof, progress.value.fits, progress.value.held;
    }
  }

  /** Read until the window is settled and its context kept, or a limit or the end
      of the stream is met. */
  method ScanLines(reader: Reader, request: Request, cancel: Cancellation) returns (r: Result<Scan, AppError>)
    requires 0 < request.first
    requires reader.given == [] && reader.calls == 0 && reader.rooms == [] && !reader.ended
    modifies reader, cancel
    ensures r == Err(Canceled) ==> cancel.Stopped(old(cancel.polls))
    ensures r == Err(InvalidRange) ==> request.count == 0 || request.first + request.count - 1 > 0xFFFF_FFFF_FFFF_FFFF
    ensures r == Err(Io) ==> reader.Broke()
    ensures r.Ok? ==> 0 < request.count && request.first + request.count - 1 <= 0xFFFF_FFFF_FFFF_FFFF
    ensures r.Ok? ==> fresh(r.value) && fresh(r.value.cursor) && cancel.Quiet(old(cancel.polls))
    ensures r.Ok? ==> r.value.bytesRead == |reader.given| <= request.maxScan
    ensures r.Ok? ==> r.value.readCalls == reader.calls <= Min(131_072, cancel.polls - old(cancel.polls))
    ensures r.Ok? ==> r.value.SelectionOk(reader.given, request.maxBytes + 8)
    ensures r.Ok? ==> !r.value.stop.Undecided?
    ensures r.Ok? ==> StopIsHonest(r.value, request, reader.given, reader.ended, r.value.stop)
    ensures r.Ok? ==> EncodingChosen(request, r.value.cursor.encoding, reader.given)
    ensures r.Ok? ==> reader.NotPastEnd()
    ensures r.Ok? ==> ReadWithin(request, r.value.cursor.encoding, reader.given, BUFFER_BYTES)
    ensures r.Ok? && r.value.stop.ReadCallLimit? ==> LimitIsDeserved(reader)
  {
    hide Going, StopIsHonest, Scan.SelectionOk, EncodingChosen, Reader.Broke, Reader.NotPastEnd, ReadWithin,
      LimitIsDeserved;
    ghost var since := cancel.polls;
    var history := new byte[HISTORY];
    var start := Open(reader, request, history, cancel, since);
    if start.Err? { return Err(start.error); }
    var scan := start.value.scan;
    var error := Run(scan, reader, request, history, start.value.held, start.value.eof, cancel, since);
    r := if error.Some? then Err(error.value) else Ok(scan);
  }
}
