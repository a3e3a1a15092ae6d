/** Byte-exact correspondence between two captures: a greedy shortest-script
    search under a work budget and an edit limit, with an explicit unresolved
    interior when either runs out. */
module Comparison {
  import opened Basics
  import opened EditDistance
  import opened EditTrace
  import opened EditWork
  import opened Correspondences

  const MAX_DIFF_EDITS := 512
  const MAX_DIFF_SOURCE_BYTES := 16 * 1024 * 1024
  const MAX_DIFF_WORK := 64 * 1024 * 1024

  datatype ComparisonLimits = ComparisonLimits(maxSourceBytes: nat, maxEditDistance: nat, maxWork: nat)

  datatype ComparisonError = LimitsRefused | Canceled

  datatype Quality = Exact | WorkLimit | EditLimit

  datatype Relation = Identical | Different | Undetermined

  datatype Stats = Stats(workUnits: nat, frontierCells: nat, prefixEqualBytes: nat, suffixEqualBytes: nat,
                         editDistance: Option<nat>)

  datatype CaptureComparison = CaptureComparison(spans: seq<Correspondence>, quality: Quality,
                                                 relation: Relation, stats: Stats)

  predicate Admitted(a: seq<byte>, b: seq<byte>, limits: ComparisonLimits) {
    && limits.maxSourceBytes <= MAX_DIFF_SOURCE_BYTES
    && |a| <= limits.maxSourceBytes
    && |b| <= limits.maxSourceBytes
    && limits.maxEditDistance <= MAX_DIFF_EDITS
    && limits.maxWork <= MAX_DIFF_WORK
  }

  /** Sixteen mebibytes, 512 edits and 64 Mi units of work are the most that may be asked for. */
  lemma AdmittedExactly(a: seq<byte>, b: seq<byte>, size: nat, edits: nat, work: nat)
    ensures Admitted(a, b, ComparisonLimits(size, edits, work))
      <==> |a| <= size && |b| <= size && size <= 16777216 && edits <= 512 && work <= 67108864
  {
  }

  /** The finite work allowance every byte comparison and frontier cell draws on. */
  class Work {
    var used: nat
    const limit: nat

    constructor (limit: nat)
      ensures used == 0 && this.limit == limit
    {
      used := 0;
      this.limit := limit;
    }

    method Spend(cancel: Cancellation, ghost since: nat) returns (granted: Result<bool, ComparisonError>)
      requires used <= limit && cancel.Quiet(since)
      modifies this`used, cancel
      ensures used <= limit
      ensures granted.Err? ==> granted.error == Canceled && cancel.Stopped(since)
      ensures granted.Ok? ==> cancel.Quiet(since)
      ensures granted.Ok? ==> granted.value == (old(used) < limit)
      ensures used == if granted.Ok? && granted.value then old(used) + 1 else old(used)
      ensures cancel.polls == old(cancel.polls) + 1
    {
      var stop := cancel.Poll();
      if stop { return Err(Canceled); }
      if used == limit { return Ok(false); }
      used := used + 1;
      return Ok(true);
    }
  }

  // ----- Common prefix and suffix -----

  /** How many bytes agree from byte i on. */
  function Matching(a: seq<byte>, b: seq<byte>, i: nat): (n: nat)
    requires i <= |a| && i <= |b|
    ensures i + n <= Min(|a|, |b|) && (i + n < Min(|a|, |b|) ==> a[i + n] != b[i + n])
    ensures forall k :: i <= k < i + n ==> a[k] == b[k]
    decreases |a| - i
  {
    if i < |a| && i < |b| && a[i] == b[i] then 1 + Matching(a, b, i + 1) else 0
  }

  /** The length of the longest common prefix. */
  function PrefixLength(a: seq<byte>, b: seq<byte>): nat { Matching(a, b, 0) }

  /** The bytes k places before the last ones agree. */
  predicate SameBack(a: seq<byte>, b: seq<byte>, k: nat) {
    k < |a| && k < |b| && a[|a| - 1 - k] == b[|b| - 1 - k]
  }

  /** How many bytes agree before the last j ones, up to `room` bytes from the end. */
  function MatchingBack(a: seq<byte>, b: seq<byte>, room: nat, j: nat): (n: nat)
    requires j <= room <= Min(|a|, |b|)
    ensures j + n <= room && (j + n < room ==> a[|a| - 1 - (j + n)] != b[|b| - 1 - (j + n)])
    ensures forall k: nat :: j <= k < j + n ==> SameBack(a, b, k)
    decreases room - j
  {
    if j < room && a[|a| - 1 - j] == b[|b| - 1 - j] then 1 + MatchingBack(a, b, room, j + 1) else 0
  }

  /** The length of the longest common suffix within the last `room` bytes. */
  function SuffixLength(a: seq<byte>, b: seq<byte>, room: nat): nat
    requires room <= Min(|a|, |b|)
  {
    MatchingBack(a, b, room, 0)
  }

  /** What it costs to find that exactly n of `room` bytes agree. */
  function MatchCost(n: nat, room: nat): nat { if n < room then n + 1 else n }

  datatype Strip = Strip(count: nat, differed: bool)

  /** The result of comparing until the first mismatch, the end or the end of the work:
      every unit granted is a matched byte or the one mismatch. */
  function StripOf(n: nat, room: nat, work: nat): Strip {
    Strip(Min(n, work), n < room && n < work)
  }

  method CommonPrefix(a: seq<byte>, b: seq<byte>, work: Work, cancel: Cancellation, ghost since: nat)
      returns (r: Result<Strip, ComparisonError>)
    requires work.used <= work.limit && cancel.Quiet(since)
    modifies work`used, cancel
    ensures work.used <= work.limit && work.used - old(work.used) <= cancel.polls - old(cancel.polls)
    ensures r.Err? ==> r.error == Canceled && cancel.Stopped(since)
    ensures r.Ok? ==>
      var n, room, left := PrefixLength(a, b), Min(|a|, |b|), work.limit - old(work.used);
      && cancel.Quiet(since) && r.value == StripOf(n, room, left)
      && work.used == old(work.used) + Min(MatchCost(n, room), left)
  {
    var prefix := 0;
    var different := false;
    ghost var left := work.limit - work.used;
    hide Matching;
    while prefix < Min(|a|, |b|)
      invariant prefix <= Min(|a|, |b|) && prefix + Matching(a, b, prefix) == PrefixLength(a, b)
      invariant work.used == old(work.used) + prefix <= work.limit && cancel.Quiet(since)
      invariant work.used - old(work.used) <= cancel.polls - old(cancel.polls)
    {
      MatchStep(a, b, prefix);
      var granted := work.Spend(cancel, since);
      if granted.Err? { return Err(granted.error); }
      if !granted.value { break; }
      if a[prefix] != b[prefix] { different := true; break; }
      prefix := prefix + 1;
    }
    return Ok(Strip(prefix, different));
  }

  lemma MatchStep(a: seq<byte>, b: seq<byte>, i: nat)
    requires i < Min(|a|, |b|)
    ensures Matching(a, b, i) == if a[i] == b[i] then 1 + Matching(a, b, i + 1) else 0
  {
  }

  method CommonSuffix(a: seq<byte>, b: seq<byte>, prefix: nat, work: Work, cancel: Cancellation, ghost since: nat)
      returns (r: Result<Strip, ComparisonError>)
    requires prefix <= Min(|a|, |b|)
    requires work.used <= work.limit && cancel.Quiet(since)
    modifies work`used, cancel
    ensures work.used <= work.limit && work.used - old(work.used) <= cancel.polls - old(cancel.polls)
    ensures r.Err? ==> r.error == Canceled && cancel.Stopped(since)
    ensures r.Ok? ==>
      var room, left := Min(|a|, |b|) - prefix, work.limit - old(work.used);
      var n := SuffixLength(a, b, room);
      && cancel.Quiet(since) && r.value == StripOf(n, room, left)
      && work.used == old(work.used) + Min(MatchCost(n, room), left)
  {
    var suffix := 0;
    var different := false;
    ghost var room := Min(|a|, |b|) - prefix;
    hide MatchingBack;
    while suffix < Min(|a|, |b|) - prefix
      invariant suffix <= room && suffix + MatchingBack(a, b, room, suffix) == SuffixLength(a, b, room)
      invariant work.used == old(work.used) + suffix <= work.limit && cancel.Quiet(since)
      invariant work.used - old(work.used) <= cancel.polls - old(cancel.polls)
    {
      MatchBackStep(a, b, room, suffix);
      var granted := work.Spend(cancel, since);
      if granted.Err? { return Err(granted.error); }
      if !granted.value { break; }
      if a[|a| - 1 - suffix] != b[|b| - 1 - suffix] { different := true; break; }
      suffix := suffix + 1;
    }
    return Ok(Strip(suffix, different));
  }

  lemma MatchBackStep(a: seq<byte>, b: seq<byte>, room: nat, j: nat)
    requires j < room <= Min(|a|, |b|)
    ensures MatchingBack(a, b, room, j)
         == if a[|a| - 1 - j] == b[|b| - 1 - j] then 1 + MatchingBack(a, b, room, j + 1) else 0
  {
  }

  // ----- Search -----

  datatype Run = Ended(x: nat, differed: bool) | Exhausted | Interrupted

  method FollowSnake(a: seq<byte>, b: seq<byte>, diagonal: int, start: nat,
                     work: Work, cancel: Cancellation, ghost since: nat) returns (run: Run)
    requires start <= |a| && 0 <= start - diagonal <= |b|
    requires work.used <= work.limit && cancel.Quiet(since)
    modifies work`used, cancel
    ensures work.used <= work.limit && work.used - old(work.used) <= cancel.polls - old(cancel.polls)
    ensures run.Interrupted? ==> cancel.Stopped(since)
    ensures !run.Interrupted? ==>
      var cost := RunCost(a, b, diagonal, start);
      && cancel.Quiet(since) && work.used == Min(work.limit, old(work.used) + cost)
      && (run.Exhausted? <==> work.limit < old(work.used) + cost)
    ensures run.Ended? ==>
      && run.x == start + RunLength(a, b, diagonal, start) && Snake(a, b, diagonal, start, run.x)
      && (run.differed <==> run.x < |a| && run.x - diagonal < |b|)
  {
    hide RunLength, RunCost, Snake;
    var x, y := start, start - diagonal;
    var different := false;
    RunIsSnake(a, b, diagonal, start);
    while x < |a| && y < |b|
      invariant start <= x <= |a| && 0 <= y == x - diagonal <= |b|
      invariant x + RunLength(a, b, diagonal, x) == start + RunLength(a, b, diagonal, start)
      invariant (x - start) + RunCost(a, b, diagonal, x) == RunCost(a, b, diagonal, start)
      invariant work.used == old(work.used) + (x - start) <= work.limit && cancel.Quiet(since)
      invariant work.used - old(work.used) <= cancel.polls - old(cancel.polls)
    {
      RunStep(a, b, diagonal, x);
      var granted := work.Spend(cancel, since);
      if granted.Err? { return Interrupted; }
      if !granted.value { return Exhausted; }
      if a[x] != b[y] { different := true; break; }
      x, y := x + 1, y + 1;
    }
    if !different { RunAtEdge(a, b, diagonal, x); }
    return Ended(x, different);
  }

  datatype Visit = Next(trace: Trace, differed: bool) | Goal(trace: Trace, differed: bool) | Spent | Halted

  /** Take the next cell: a hole where nothing arrives, else the end of the run from the
      furthest arrival. */
  method VisitCell(a: seq<byte>, b: seq<byte>, trace: Trace, distance: nat, diagonal: int, ghost c: nat,
                   work: Work, cancel: Cancellation, ghost since: nat) returns (visit: Visit)
    requires |trace| == Row(distance) + c && c <= distance && diagonal == Diagonal(distance, c)
    requires trace == TraceOf(a, b, |trace|) && AllCellsOk(trace, a, b) && NoGoal(trace, a, b)
    requires work.used <= work.limit && cancel.Quiet(since)
    modifies work`used, cancel
    ensures work.used <= work.limit && work.used - old(work.used) <= cancel.polls - old(cancel.polls)
    ensures visit.Halted? ==> cancel.Stopped(since)
    ensures !visit.Halted? ==>
      var rest := CellWork(trace, a, b, distance, c) - 1;
      && cancel.Quiet(since) && work.used == Min(work.limit, old(work.used) + rest)
      && (visit.Spent? <==> work.limit < old(work.used) + rest)
    ensures visit.Next? || visit.Goal? ==>
      && visit.trace == TraceOf(a, b, |trace| + 1) == trace + [CellOf(trace, a, b, distance, c)]
      && AllCellsOk(visit.trace, a, b)
    ensures visit.Next? ==> NoGoal(visit.trace, a, b)
    ensures visit.Goal? ==>
      && Distance(a, b) == distance && Recorded(visit.trace, distance, |a|, |b|)
      && |trace| == GoalCell(a, b)
  {
    hide Distance, AllCellsOk, NoGoal, Row, Predecessor, Snake, Recorded, TraceOf, RunCost, RunLength, GoalCell;
    var candidate := Predecessor(trace, distance, diagonal, |a|, |b|);
    TraceStep(a, b, distance, c);
    if candidate.None? {
      HolePushed(trace, a, b, distance, c);
      return Next(trace + [None], false);
    }
    StartIsSound(trace, a, b, distance, diagonal);
    var run := FollowSnake(a, b, diagonal, candidate.value.start, work, cancel, since);
    if run.Interrupted? { return Halted; }
    if run.Exhausted? { return Spent; }
    SnakePushed(trace, a, b, distance, c, run.x);
    if run.x == |a| && run.x - diagonal == |b| {
      GoalPushed(trace, a, b, distance, c);
      return Goal(trace + [Some(run.x)], run.differed);
    }
    return Next(trace + [Some(run.x)], run.differed);
  }

  datatype SearchEnd = Reached(distance: nat) | OutOfWork | OutOfEdits | Stopped

  /** How a search with this much work ends: what it spends, how many cells it begins and
      whether the work suffices follow from the captures and the edit limit. */
  ghost predicate Searched(end: SearchEnd, a: seq<byte>, b: seq<byte>, edits: nat, left: nat, spent: nat, cells: nat) {
    && (end.OutOfWork? <==> left < SearchWork(a, b, edits))
    && spent == SearchSpent(a, b, edits, left)
    && CellsBegun(a, b, edits, left, cells)
  }

  /** The work ends before or within the next cell. */
  lemma EndsAtCell(t: Trace, a: seq<byte>, b: seq<byte>, edits: nat, left: nat, d: nat, c: nat)
    requires c <= d <= edits && t == TraceOf(a, b, Row(d) + c) && NoGoal(t, a, b)
    ensures left == WorkOf(a, b, Row(d) + c) ==> Searched(OutOfWork, a, b, edits, left, left, Row(d) + c)
    ensures WorkOf(a, b, Row(d) + c) < left < WorkOf(a, b, Row(d) + c + 1) ==>
      Searched(OutOfWork, a, b, edits, left, left, Row(d) + c + 1)
  {
    hide Distance, WorkOf, TraceOf, SearchCells, SearchWork, Row, NoGoal, CellWork;
    CellIsNeeded(a, b, edits, d, c);
    TraceGrows(a, b, Row(d) + c, Row(d) + c + 1);
    if 0 < Row(d) + c { TraceGrows(a, b, Row(d) + c - 1, Row(d) + c); }
  }

  /** The goal is met: the reconstruction is paid for, or there is too little left for it. */
  lemma EndsAtGoal(a: seq<byte>, b: seq<byte>, edits: nat, left: nat, cells: nat)
    requires Distance(a, b) <= edits && cells == GoalCell(a, b) + 1 && WorkOf(a, b, cells) <= left
    ensures
      var d, spent := Distance(a, b), WorkOf(a, b, cells);
      if left - spent < 4 * (d + 1) then Searched(OutOfWork, a, b, edits, left, spent, cells)
      else Searched(Reached(d), a, b, edits, left, spent + 4 * (d + 1), cells)
  {
    hide Distance, WorkOf, TraceOf, GoalCell;
    TraceGrows(a, b, cells - 1, cells);
  }

  /** All rows within the limit are complete. */
  lemma EndsAtLimit(a: seq<byte>, b: seq<byte>, edits: nat, left: nat)
    requires edits < Distance(a, b) && WorkOf(a, b, Row(edits + 1)) <= left
    ensures Searched(OutOfEdits, a, b, edits, left, WorkOf(a, b, Row(edits + 1)), Row(edits + 1))
  {
    hide Distance, WorkOf, TraceOf, GoalCell, Row;
    RowStep(edits);
    TraceGrows(a, b, Row(edits + 1) - 1, Row(edits + 1));
  }

  method Search(a: seq<byte>, b: seq<byte>, edits: nat, work: Work, cancel: Cancellation, ghost since: nat)
      returns (end: SearchEnd, trace: Trace, different: bool, cells: nat)
    requires work.used <= work.limit && cancel.Quiet(since)
    modifies work`used, cancel
    ensures work.used <= work.limit
    ensures work.used - old(work.used)
      <= cancel.polls - old(cancel.polls) + if end.Reached? then 4 * (end.distance + 1) else 0
    ensures end.Stopped? ==> cancel.Stopped(since)
    ensures !end.Stopped? ==> cancel.Quiet(since)
    ensures end.Reached? ==>
      && end.distance <= edits && end.distance == Distance(a, b)
      && AllCellsOk(trace, a, b) && Recorded(trace, end.distance, |a|, |b|)
      && trace == TraceOf(a, b, GoalCell(a, b) + 1)
    ensures end.OutOfEdits? ==> edits < Distance(a, b)
    ensures !end.Stopped? ==>
      && old(work.used) <= work.used
      && Searched(end, a, b, edits, work.limit - old(work.used), work.used - old(work.used), cells)
    ensures different || !end.OutOfWork? ==> end.Stopped? || old(work.used) < work.limit
  {
    hide Distance, AllCellsOk, NoGoal, Row, Recorded, TraceOf, WorkOf, CellWork, CellOf, GoalCell,
      Searched;
    ghost var left := work.limit - work.used;
    trace, different, cells := [], false, 0;
    NothingYet(a, b);
    for distance := 0 to edits + 1
      invariant |trace| == cells == Row(distance) && distance <= Distance(a, b)
      invariant trace == TraceOf(a, b, cells) && AllCellsOk(trace, a, b) && NoGoal(trace, a, b)
      invariant work.used == old(work.used) + WorkOf(a, b, cells) <= work.limit && cancel.Quiet(since)
      invariant work.used - old(work.used) <= cancel.polls - old(cancel.polls)
      invariant 0 < distance || different ==> old(work.used) < work.limit
    {
      RowStep(distance);
      var diagonal: int := -distance;
      ghost var c := 0;
      while diagonal <= distance
        invariant c <= distance + 1 && diagonal == Diagonal(distance, c)
        invariant |trace| == cells == Row(distance) + c
        invariant trace == TraceOf(a, b, cells) && AllCellsOk(trace, a, b) && NoGoal(trace, a, b)
        invariant work.used == old(work.used) + WorkOf(a, b, cells) <= work.limit && cancel.Quiet(since)
        invariant work.used - old(work.used) <= cancel.polls - old(cancel.polls)
        invariant 0 < distance || 0 < c || different ==> old(work.used) < work.limit
        decreases distance - diagonal
      {
        EndsAtCell(trace, a, b, edits, left, distance, c);
        TraceStep(a, b, distance, c);
        CellIsPaid(trace, a, b, distance, c);
        var granted := work.Spend(cancel, since);
        if granted.Err? { return Stopped, trace, different, cells; }
        if !granted.value { return OutOfWork, trace, different, cells; }
        cells := cells + 1;
        var visit := VisitCell(a, b, trace, distance, diagonal, c, work, cancel, since);
        if visit.Halted? { return Stopped, trace, different, cells; }
        if visit.Spent? { return OutOfWork, trace, different, cells; }
        trace, different := visit.trace, different || visit.differed;
        if visit.Goal? {
          EndsAtGoal(a, b, edits, left, cells);
          var reconstruction := 4 * (distance + 1);
          if reconstruction > work.limit - work.used { return OutOfWork, trace, different, cells; }
          work.used := work.used + reconstruction;
          return Reached(distance), trace, different, cells;
        }
        diagonal := diagonal + 2;
        c := c + 1;
      }
      NoGoalMeansFar(trace, a, b, distance);
    }
    EndsAtLimit(a, b, edits, left);
    return OutOfEdits, trace, different, cells;
  }

  lemma CellIsPaid<T>(t: Trace, a: seq<T>, b: seq<T>, d: nat, c: nat)
    ensures 1 <= CellWork(t, a, b, d, c)
  {
  }

  lemma HolePushed<T>(t: Trace, a: seq<T>, b: seq<T>, d: nat, c: nat)
    requires AllCellsOk(t, a, b) && NoGoal(t, a, b) && |t| == Row(d) + c && c <= d
    requires Predecessor(t, d, Diagonal(d, c), |a|, |b|).None?
    ensures AllCellsOk(t + [None], a, b) && NoGoal(t + [None], a, b)
  {
    hide AllCellsOk, NoGoal, CellOk, Predecessor, Row;
    HoleIsSound(t, a, b, d, c);
    PushKeepsCells(t, None, a, b, d, c);
    PushKeepsNoGoal(t, None, a, b, d, c);
  }

  lemma SnakePushed<T>(t: Trace, a: seq<T>, b: seq<T>, d: nat, c: nat, x: nat)
    requires AllCellsOk(t, a, b) && NoGoal(t, a, b) && |t| == Row(d) + c && c <= d
    requires Predecessor(t, d, Diagonal(d, c), |a|, |b|).Some?
    requires Snake(a, b, Diagonal(d, c), Predecessor(t, d, Diagonal(d, c), |a|, |b|).value.start, x)
    ensures AllCellsOk(t + [Some(x)], a, b)
    ensures x != |a| || |a| - Diagonal(d, c) != |b| ==> NoGoal(t + [Some(x)], a, b)
  {
    hide AllCellsOk, NoGoal, CellOk, Predecessor, Row, Snake;
    SnakeIsSound(t, a, b, d, c, x);
    PushKeepsCells(t, Some(x), a, b, d, c);
    if x != |a| || |a| - Diagonal(d, c) != |b| { PushKeepsNoGoal(t, Some(x), a, b, d, c); }
  }

  lemma GoalPushed<T>(t: Trace, a: seq<T>, b: seq<T>, d: nat, c: nat)
    requires AllCellsOk(t, a, b) && NoGoal(t, a, b) && |t| == Row(d) + c && c <= d
    requires AllCellsOk(t + [Some(|a|)], a, b) && |a| - Diagonal(d, c) == |b|
    ensures Distance(a, b) == d && Recorded(t + [Some(|a|)], d, |a|, |b|) && |t| == GoalCell(a, b)
  {
    hide AllCellsOk, NoGoal, Distance;
    GoalIsShortest(t, a, b, d, c);
    RecordedLast(t, a, b, d, c);
  }

  lemma RecordedLast<T>(t: Trace, a: seq<T>, b: seq<T>, d: nat, c: nat)
    requires |t| == Row(d) + c && c <= d && |a| - Diagonal(d, c) == |b|
    ensures Recorded(t + [Some(|a|)], d, |a|, |b|)
  {
  }

  // ----- Backtracking -----

  /** Spans listed backwards from (endX, endY) to (x, y), end to start, without a
      gap, and byte-verified against the captures. */
  ghost predicate BackwardPath(s: seq<Correspondence>, a: seq<byte>, b: seq<byte>, x: nat, y: nat, endX: nat,
                               endY: nat) {
    && (s == [] ==> x == endX && y == endY)
    && (s != [] ==>
          && s[0].before.end == endX && s[0].after.end == endY
          && s[|s| - 1].before.start == x && s[|s| - 1].after.start == y)
    && (forall i :: 0 < i < |s| ==>
          s[i].before.end == s[i - 1].before.start && s[i].after.end == s[i - 1].after.start)
    && (forall i :: 0 <= i < |s| ==> s[i].Verified(a, b) && !s[i].kind.Unresolved?)
  }

  lemma BackwardPush(s: seq<Correspondence>, item: Correspondence, a: seq<byte>, b: seq<byte>, x: nat, y: nat,
                     endX: nat, endY: nat)
    requires BackwardPath(s, a, b, x, y, endX, endY)
    requires item.Verified(a, b) && !item.kind.Unresolved? && item.before.end == x && item.after.end == y
    ensures BackwardPath(s + [item], a, b, item.before.start, item.after.start, endX, endY)
    ensures Correspondences.EditedBytes(s + [item]) == Correspondences.EditedBytes(s) + item.EditedBytes()
  {
    PushedEdits(s, item);
  }

  /** What the trace says about a recorded endpoint: where its snake starts and
      which endpoint of the row before it was reached from. */
  lemma RecordedSnake<T>(t: Trace, a: seq<T>, b: seq<T>, r: nat, x: nat, y: nat)
    requires AllCellsOk(t, a, b) && Recorded(t, r, x, y)
    ensures Predecessor(t, r, x - y, |a|, |b|).Some?
    ensures
      var s := Predecessor(t, r, x - y, |a|, |b|).value;
      && Snake(a, b, x - y, s.start, x) && s.start <= x <= |a| && 0 <= s.start - (x - y) <= y <= |b|
      && (r == 0 ==> x == y && s.start == s.px == s.py == 0)
      && (0 < r ==>
            && Recorded(t, r - 1, s.px, s.py) && s.px <= s.start && s.py <= s.start - (x - y)
            && (s.start - s.px) + (s.start - (x - y) - s.py) == 1)
  {
    hide Distance, Recorded, Previous, Rest, AllCellsOk, Further;
    RecordedIsSound(t, a, b, r, x, y);
    if 0 < r { PredecessorIsRecorded(t, r, x - y, |a|, |b|); }
  }

  /** The captures with their verified common prefix and suffix set aside. */
  datatype Interior = Interior(a: seq<byte>, b: seq<byte>, prefix: nat, oldEnd: nat, newEnd: nat) {
    ghost predicate Valid() {
      prefix <= oldEnd <= |a| && prefix <= newEnd <= |b|
    }

    function Before(): seq<byte>
      requires prefix <= oldEnd <= |a|
    {
      a[prefix..oldEnd]
    }

    function After(): seq<byte>
      requires prefix <= newEnd <= |b|
    {
      b[prefix..newEnd]
    }
  }

  lemma SnakeSpan(inner: Interior, k: int, start: nat, x: nat)
    requires inner.Valid() && Snake(inner.Before(), inner.After(), k, start, x)
    ensures
      var p := inner.prefix;
      Correspondence(Equal, Range(p + start, p + x), Range(p + start - k, p + x - k)).Verified(inner.a, inner.b)
  {
    Subslice(inner.a, inner.prefix, inner.oldEnd, start, x);
    Subslice(inner.b, inner.prefix, inner.newEnd, start - k, x - k);
  }

  /** The path so far, back to this point of the interior. */
  ghost predicate BackTo(s: seq<Correspondence>, inner: Interior, x: nat, y: nat) {
    BackwardPath(s, inner.a, inner.b, inner.prefix + x, inner.prefix + y, inner.oldEnd, inner.newEnd)
  }

  function SnakePiece(inner: Interior, x0: nat, x1: nat, y0: nat, y1: nat): Correspondence {
    Correspondence(Equal, Range(inner.prefix + x0, inner.prefix + x1), Range(inner.prefix + y0, inner.prefix + y1))
  }

  function EditPiece(inner: Interior, x0: nat, x1: nat, y0: nat, y1: nat): Correspondence {
    Correspondence(Changed, Range(inner.prefix + x0, inner.prefix + x1), Range(inner.prefix + y0, inner.prefix + y1))
  }

  lemma PushSnake(s: seq<Correspondence>, inner: Interior, k: int, start: nat, x: nat)
    requires inner.Valid() && Snake(inner.Before(), inner.After(), k, start, x) && 0 <= start - k <= x - k
    requires BackTo(s, inner, x, x - k)
    ensures BackTo(s + [SnakePiece(inner, start, x, start - k, x - k)], inner, start, start - k)
    ensures Correspondences.EditedBytes(s + [SnakePiece(inner, start, x, start - k, x - k)])
        == Correspondences.EditedBytes(s)
  {
    hide BackwardPath, Snake, Correspondence.Verified, Correspondences.EditedBytes;
    SnakeSpan(inner, k, start, x);
    BackwardPush(s, SnakePiece(inner, start, x, start - k, x - k), inner.a, inner.b,
                 inner.prefix + x, inner.prefix + (x - k), inner.oldEnd, inner.newEnd);
  }

  lemma PushEdit(s: seq<Correspondence>, inner: Interior, x0: nat, x1: nat, y0: nat, y1: nat)
    requires inner.Valid() && x0 <= x1 <= |inner.Before()| && y0 <= y1 <= |inner.After()| && x1 - x0 + y1 - y0 == 1
    requires BackTo(s, inner, x1, y1)
    ensures BackTo(s + [EditPiece(inner, x0, x1, y0, y1)], inner, x0, y0)
    ensures Correspondences.EditedBytes(s + [EditPiece(inner, x0, x1, y0, y1)]) == Correspondences.EditedBytes(s) + 1
  {
    hide BackwardPath, Correspondences.EditedBytes;
    BackwardPush(s, EditPiece(inner, x0, x1, y0, y1), inner.a, inner.b,
                 inner.prefix + x1, inner.prefix + y1, inner.oldEnd, inner.newEnd);
  }

  /** The pieces met on the way back from an endpoint of row r, by the predecessors the
      trace gives. */
  ghost function PathBack(t: Trace, inner: Interior, r: nat, x: nat, y: nat): seq<Correspondence>
    requires inner.Valid()
  {
    match Predecessor(t, r, x - y, |inner.Before()|, |inner.After()|)
    case None => []
    case Some(s) =>
      var sy := s.start - (x - y);
      if sy < 0 then []
      else
        (if x > s.start then [SnakePiece(inner, s.start, x, sy, y)] else [])
        + (if r > 0 then [EditPiece(inner, s.px, s.start, s.py, sy)] + PathBack(t, inner, r - 1, s.px, s.py) else [])
  }

  /** The path so far and what is left of it are the whole path. */
  ghost predicate OnPath(reverse: seq<Correspondence>, t: Trace, inner: Interior, level: nat, x: nat, y: nat,
                         whole: seq<Correspondence>)
    requires inner.Valid()
  {
    whole == if level == 0 then reverse else reverse + PathBack(t, inner, level - 1, x, y)
  }

  lemma PathGoesOn(reverse: seq<Correspondence>, t: Trace, inner: Interior, level: nat, x: nat, y: nat,
                   whole: seq<Correspondence>)
    requires inner.Valid() && OnPath(reverse, t, inner, level + 1, x, y, whole)
    requires
      var p := Predecessor(t, level, x - y, |inner.Before()|, |inner.After()|);
      p.Some? && 0 <= p.value.start - (x - y)
    ensures
      var s := Predecessor(t, level, x - y, |inner.Before()|, |inner.After()|).value;
      var sy: nat := s.start - (x - y);
      var snake := if x > s.start then reverse + [SnakePiece(inner, s.start, x, sy, y)] else reverse;
      var edit := if level > 0 then snake + [EditPiece(inner, s.px, s.start, s.py, sy)] else snake;
      OnPath(edit, t, inner, level, s.px, s.py, whole)
  {
    hide Predecessor, SnakePiece, EditPiece;
    assert reverse + [] == reverse;
  }

  method Reconstruct(trace: Trace, distance: nat, inner: Interior, cancel: Cancellation, ghost since: nat)
      returns (r: Result<seq<Correspondence>, ComparisonError>)
    requires inner.Valid()
    requires AllCellsOk(trace, inner.Before(), inner.After())
    requires Recorded(trace, distance, |inner.Before()|, |inner.After()|)
    requires cancel.Quiet(since)
    modifies cancel
    ensures r.Err? ==> r.error == Canceled && cancel.Stopped(since)
    ensures r.Ok? ==> cancel.Quiet(since) && cancel.polls == old(cancel.polls) + distance + 1
    ensures r.Ok? ==>
      && BackwardPath(r.value, inner.a, inner.b, inner.prefix, inner.prefix, inner.oldEnd, inner.newEnd)
      && Correspondences.EditedBytes(r.value) == distance
      && |r.value| <= 2 * distance + 1
      && r.value == PathBack(trace, inner, distance, |inner.Before()|, |inner.After()|)
  {
    hide OnPath, PathBack;
    hide Distance, AllCellsOk, Recorded, Predecessor, Snake, Correspondences.EditedBytes, BackTo, SnakePiece, EditPiece;
    var n, m := |inner.Before()|, |inner.After()|;
    var x: nat, y: nat := n, m;
    var reverse: seq<Correspondence> := [];
    StartsBackward(inner);
    ghost var whole := PathBack(trace, inner, distance, n, m);
    assert OnPath([], trace, inner, distance + 1, n, m, whole) by { PathStarts(trace, inner, distance, n, m); }
    for level := distance + 1 downto 0
      invariant x <= n && y <= m
      invariant if level == 0 then x == 0 && y == 0 else Recorded(trace, level - 1, x, y)
      invariant BackTo(reverse, inner, x, y) && OnPath(reverse, trace, inner, level, x, y, whole)
      invariant Correspondences.EditedBytes(reverse) == if level == 0 then distance else distance + 1 - level
      invariant |reverse| <= if level == 0 then 2 * distance + 1 else 2 * (distance + 1 - level)
      invariant cancel.Quiet(since) && cancel.polls + level == old(cancel.polls) + distance + 1
    {
      var stop := cancel.Poll();
      if stop { return Err(Canceled); }
      var k: int := x - y;
      RecordedSnake(trace, inner.Before(), inner.After(), level, x, y);
      var step := Predecessor(trace, level, k, n, m).value;
      var sy := step.start - k;
      PathGoesOn(reverse, trace, inner, level, x, y, whole);
      if x > step.start {
        PushSnake(reverse, inner, k, step.start, x);
        reverse := reverse + [SnakePiece(inner, step.start, x, sy, y)];
      }
      if level > 0 {
        PushEdit(reverse, inner, step.px, step.start, step.py, sy);
        reverse := reverse + [EditPiece(inner, step.px, step.start, step.py, sy)];
      }
      x, y := step.px, step.py;
    }
    BackToStart(reverse, inner);
    assert reverse == whole by { PathEnds(reverse, trace, inner, x, y, whole); }
    return Ok(reverse);
  }

  lemma PathStarts(t: Trace, inner: Interior, r: nat, x: nat, y: nat)
    requires inner.Valid()
    ensures OnPath([], t, inner, r + 1, x, y, PathBack(t, inner, r, x, y))
  {
    hide PathBack;
    assert [] + PathBack(t, inner, r, x, y) == PathBack(t, inner, r, x, y);
  }

  lemma PathEnds(reverse: seq<Correspondence>, t: Trace, inner: Interior, x: nat, y: nat, whole: seq<Correspondence>)
    requires inner.Valid() && OnPath(reverse, t, inner, 0, x, y, whole)
    ensures reverse == whole
  {
  }

  lemma BackToStart(s: seq<Correspondence>, inner: Interior)
    requires BackTo(s, inner, 0, 0)
    ensures BackwardPath(s, inner.a, inner.b, inner.prefix, inner.prefix, inner.oldEnd, inner.newEnd)
  {
  }

  lemma StartsBackward(inner: Interior)
    requires inner.Valid()
    ensures BackTo([], inner, |inner.Before()|, |inner.After()|) && Correspondences.EditedBytes([]) == 0
  {
  }

  // ----- The whole comparison -----

  /** The spans partition both captures in canonical form, byte-verified where
      equal, and leave something unresolved exactly when the result is not exact. */
  ghost predicate Faithful(c: CaptureComparison, a: seq<byte>, b: seq<byte>) {
    && Aligned(c.spans, a, b, |a|, |b|)
    && (HasUnresolved(c.spans) <==> !c.quality.Exact?)
  }

  /** Exact means the true minimum, spelled out by the spans; EditLimit means every
      script is longer than the limit. Exact beyond the limit happens only where the
      stripped ends leave nothing to search. */
  ghost predicate QualityHonest(c: CaptureComparison, a: seq<byte>, b: seq<byte>, limits: ComparisonLimits) {
    && (c.quality.Exact? ==>
          c.stats.editDistance == Some(Distance(a, b)) && Correspondences.EditedBytes(c.spans) == Distance(a, b))
    && (!c.quality.Exact? ==> c.stats.editDistance.None?)
    && (c.quality.EditLimit? ==> limits.maxEditDistance < Distance(a, b))
    && (c.stats.prefixEqualBytes + c.stats.suffixEqualBytes == Min(|a|, |b|) ==> c.quality.Exact?)
    && (c.quality.Exact? && limits.maxEditDistance < Distance(a, b) ==>
          c.stats.prefixEqualBytes + c.stats.suffixEqualBytes == Min(|a|, |b|))
  }

  /** The prefix and suffix found under this much work. */
  function PrefixWithin(a: seq<byte>, b: seq<byte>, work: nat): nat { Min(PrefixLength(a, b), work) }

  function SuffixWithin(a: seq<byte>, b: seq<byte>, work: nat): nat {
    var room := Min(|a|, |b|);
    var left := work - Min(MatchCost(PrefixLength(a, b), room), work);
    Min(SuffixLength(a, b, room - PrefixWithin(a, b, work)), left)
  }

  /** Comparing the lengths and the ends under this much work shows a difference. */
  predicate DifferenceSeen(a: seq<byte>, b: seq<byte>, work: nat) {
    var room, rest := Min(|a|, |b|), Min(|a|, |b|) - PrefixWithin(a, b, work);
    var left := work - Min(MatchCost(PrefixLength(a, b), room), work);
    || |a| != |b|
    || StripOf(PrefixLength(a, b), room, work).differed
    || StripOf(SuffixLength(a, b, rest), rest, left).differed
  }

  /** The reported prefix and suffix are the longest ones, as far as the work reached. */
  ghost predicate StripHonest(c: CaptureComparison, a: seq<byte>, b: seq<byte>, limits: ComparisonLimits) {
    && c.stats.prefixEqualBytes == PrefixWithin(a, b, limits.maxWork)
    && c.stats.suffixEqualBytes == SuffixWithin(a, b, limits.maxWork)
  }

  /** What finding the ends costs with this much work: at most every byte of the shorter
      capture and the two mismatches. */
  function EndsCost(a: seq<byte>, b: seq<byte>, work: nat): nat {
    var room, rest := Min(|a|, |b|), Min(|a|, |b|) - PrefixWithin(a, b, work);
    var first := Min(MatchCost(PrefixLength(a, b), room), work);
    first + Min(MatchCost(SuffixLength(a, b, rest), rest), work - first)
  }

  /** What is left between the ends found with this much work. */
  function InteriorWithin(a: seq<byte>, b: seq<byte>, work: nat): (inner: Interior)
    ensures inner.Valid()
  {
    Interior(a, b, PrefixWithin(a, b, work), |a| - SuffixWithin(a, b, work), |b| - SuffixWithin(a, b, work))
  }

  /** What is left between the longest common ends. */
  function InteriorOf(a: seq<byte>, b: seq<byte>): (inner: Interior)
    ensures inner.Valid()
  {
    var p := PrefixLength(a, b);
    var s := SuffixLength(a, b, Min(|a|, |b|) - p);
    Interior(a, b, p, |a| - s, |b| - s)
  }

  /** What finding the longest common ends costs. */
  function WholeEnds(a: seq<byte>, b: seq<byte>): nat {
    var room := Min(|a|, |b|);
    var p := PrefixLength(a, b);
    MatchCost(p, room) + MatchCost(SuffixLength(a, b, room - p), room - p)
  }

  /** The common ends use up the shorter capture, so that nothing is left to search. */
  predicate EndsMeet(a: seq<byte>, b: seq<byte>) {
    var room := Min(|a|, |b|);
    PrefixLength(a, b) + SuffixLength(a, b, room - PrefixLength(a, b)) == room
  }

  /** What a comparison needs: its ends, and a search unless they leave one side empty. */
  ghost function WorkNeeded(a: seq<byte>, b: seq<byte>, edits: nat): nat {
    var inner := InteriorOf(a, b);
    WholeEnds(a, b) +
    if EndsMeet(a, b) then 0 else SearchWork(inner.Before(), inner.After(), edits)
  }

  /** What the longest common ends leave of the shorter capture. */
  function InteriorLength(a: seq<byte>, b: seq<byte>): nat {
    var room := Min(|a|, |b|) - PrefixLength(a, b);
    room - SuffixLength(a, b, room)
  }

  /** Enough work when the shorter capture has this many bytes, its interior this many,
      and this many edits have to be tried. */
  ghost function EnoughWork(room: nat, inside: nat, edits: nat): nat {
    room + 2 + (edits + 1) * (edits + 2) / 2 * (inside + 2) + 4 * (edits + 1)
  }

  /** Identical and different are true of the captures. Undetermined is reported exactly
      when the work ran out before the lengths or the ends showed a difference. */
  ghost predicate RelationHonest(c: CaptureComparison, a: seq<byte>, b: seq<byte>, limits: ComparisonLimits) {
    && (c.relation.Identical? <==> c.quality.Exact? && a == b)
    && (c.relation.Different? ==> a != b)
    && (c.relation.Undetermined? <==> !c.quality.Exact? && !DifferenceSeen(a, b, limits.maxWork))
    && (c.relation.Undetermined? ==> c.quality.WorkLimit?)
  }

  /** The work reported is what the captures and the limits say: the ends, then every cell
      begun and the bytes compared for it, then one reconstruction. Giving up for lack of
      work means that there was not enough of it. */
  ghost predicate WorkHonest(c: CaptureComparison, a: seq<byte>, b: seq<byte>, limits: ComparisonLimits) {
    var inner, ends := InteriorWithin(a, b, limits.maxWork), EndsCost(a, b, limits.maxWork);
    && ends <= limits.maxWork && ends <= c.stats.workUnits
    && SearchHonest(c.quality, c.stats.frontierCells, inner.Before(), inner.After(), limits.maxEditDistance,
                    limits.maxWork - ends, c.stats.workUnits - ends)
  }

  /** What is reported of refining this interior with this much work left. */
  ghost predicate SearchHonest(quality: Quality, cells: nat, a: seq<byte>, b: seq<byte>, edits: nat, left: nat,
                               spent: nat) {
    if a == [] || b == [] then quality.Exact? && cells == 0 && spent == 0
    else
      && (quality.WorkLimit? <==> left < SearchWork(a, b, edits))
      && spent == SearchSpent(a, b, edits, left)
      && CellsBegun(a, b, edits, left, cells)
  }

  /** The spans are those of the ends found under this work, and of the path the search
      found between them if the result is exact. */
  ghost predicate SpansHonest(c: CaptureComparison, a: seq<byte>, b: seq<byte>, limits: ComparisonLimits) {
    c.spans == AllSpans(InteriorWithin(a, b, limits.maxWork), c.quality)
  }

  ghost predicate Bounded(c: CaptureComparison, a: seq<byte>, b: seq<byte>, limits: ComparisonLimits) {
    var tried := EditsTried(a, b, limits.maxEditDistance);
    && c.stats.frontierCells <= (tried + 1) * (tried + 2) / 2
    && |c.spans| <= 2 * tried + 5
  }

  lemma StripKeepsDistance(inner: Interior)
    requires inner.Valid()
    requires inner.a[..inner.prefix] == inner.b[..inner.prefix] && inner.a[inner.oldEnd..] == inner.b[inner.newEnd..]
    ensures Distance(inner.a, inner.b) == Distance(inner.Before(), inner.After())
  {
    hide Distance;
    var p, s := inner.a[..inner.prefix], inner.a[inner.oldEnd..];
    assert inner.a == p + (inner.Before() + s) && inner.b == p + (inner.After() + s);
    SharedPrefix(p, inner.Before() + s, inner.After() + s);
    SharedSuffix(inner.Before(), inner.After(), s);
  }

  /** Pieces appended from the last to the first. */
  ghost function AppendedBack(items: seq<Correspondence>, reverse: seq<Correspondence>): seq<Correspondence>
    decreases |reverse|
  {
    if reverse == [] then items
    else AppendedBack(Appended(items, reverse[|reverse| - 1]), reverse[..|reverse| - 1])
  }

  /** Append the backtracked spans, last found first. */
  method AppendReversed(spans: SpanBuffer, reverse: seq<Correspondence>, inner: Interior)
    requires inner.Valid()
    requires BackwardPath(reverse, inner.a, inner.b, inner.prefix, inner.prefix, inner.oldEnd, inner.newEnd)
    requires Aligned(spans.items, inner.a, inner.b, inner.prefix, inner.prefix)
    requires !HasUnresolved(spans.items)
    modifies spans
    ensures Aligned(spans.items, inner.a, inner.b, inner.oldEnd, inner.newEnd)
    ensures !HasUnresolved(spans.items)
    ensures Correspondences.EditedBytes(spans.items)
         == old(Correspondences.EditedBytes(spans.items)) + Correspondences.EditedBytes(reverse)
    ensures |spans.items| <= |old(spans.items)| + |reverse|
    ensures spans.items == AppendedBack(old(spans.items), reverse)
  {
    hide Aligned, HasUnresolved, Appended, Correspondences.EditedBytes;
    var i: nat := |reverse|;
    assert reverse[..|reverse|] == reverse;
    NoSpans(inner.a, inner.b);
    while i > 0
      invariant i <= |reverse|
      invariant Aligned(spans.items, inner.a, inner.b,
                        if i == 0 then inner.oldEnd else reverse[i - 1].before.start,
                        if i == 0 then inner.newEnd else reverse[i - 1].after.start)
      invariant !HasUnresolved(spans.items)
      invariant Correspondences.EditedBytes(spans.items) + Correspondences.EditedBytes(reverse[..i])
             == old(Correspondences.EditedBytes(spans.items)) + Correspondences.EditedBytes(reverse)
      invariant |spans.items| <= |old(spans.items)| + |reverse| - i
      invariant AppendedBack(spans.items, reverse[..i]) == AppendedBack(old(spans.items), reverse)
    {
      i := i - 1;
      var item := reverse[i];
      AppendedAligned(spans.items, item, inner.a, inner.b);
      AppendedUnresolved(spans.items, item);
      PushedEdits(reverse[..i], item);
      assert reverse[..i + 1] == reverse[..i] + [item];
      spans.Append(item.kind, item.before.start, item.before.end, item.after.start, item.after.end);
    }
  }

  /** Put one piece after the spans so far. */
  method AppendPiece(spans: SpanBuffer, kind: Kind, x0: nat, x1: nat, y0: nat, y1: nat,
                     ghost a: seq<byte>, ghost b: seq<byte>)
    requires Aligned(spans.items, a, b, x0, y0)
    requires Correspondence(kind, Range(x0, x1), Range(y0, y1)).Verified(a, b)
    modifies spans
    ensures Aligned(spans.items, a, b, x1, y1)
    ensures HasUnresolved(spans.items) <==>
      old(HasUnresolved(spans.items)) || (kind.Unresolved? && (x0 < x1 || y0 < y1))
    ensures Correspondences.EditedBytes(spans.items) == old(Correspondences.EditedBytes(spans.items)) +
      if kind.Equal? then 0 else x1 - x0 + y1 - y0
    ensures |spans.items| <= |old(spans.items)| + 1
    ensures spans.items == Appended(old(spans.items), Correspondence(kind, Range(x0, x1), Range(y0, y1)))
  {
    hide Aligned, HasUnresolved, Appended, Correspondences.EditedBytes;
    AppendedAligned(spans.items, Correspondence(kind, Range(x0, x1), Range(y0, y1)), a, b);
    AppendedUnresolved(spans.items, Correspondence(kind, Range(x0, x1), Range(y0, y1)));
    spans.Append(kind, x0, x1, y0, y1);
  }

  datatype Refined = Refined(quality: Quality, distance: Option<nat>, cells: nat, differed: bool)

  /** The spans once the interior is refined: changed where one side is empty, else the path
      the search found, else unresolved. */
  ghost function RefinedSpans(items: seq<Correspondence>, inner: Interior, quality: Quality): seq<Correspondence>
    requires inner.Valid()
  {
    var x, y := inner.Before(), inner.After();
    var all := (Range(inner.prefix, inner.oldEnd), Range(inner.prefix, inner.newEnd));
    if x == [] || y == [] then Appended(items, Correspondence(Changed, all.0, all.1))
    else if quality.Exact? then
      AppendedBack(items, PathBack(TraceOf(x, y, GoalCell(x, y) + 1), inner, Distance(x, y), |x|, |y|))
    else Appended(items, Correspondence(Unresolved, all.0, all.1))
  }

  /** All spans of a comparison that found these ends. */
  ghost function AllSpans(inner: Interior, quality: Quality): seq<Correspondence>
    requires inner.Valid()
  {
    var front := Appended([], Correspondence(Equal, Range(0, inner.prefix), Range(0, inner.prefix)));
    var back := Correspondence(Equal, Range(inner.oldEnd, |inner.a|), Range(inner.newEnd, |inner.b|));
    Appended(RefinedSpans(front, inner, quality), back)
  }

  /** Refine the bytes between the common prefix and suffix: directly when one
      side is empty, else by search, else leave them unresolved. */
  method RefineInterior(inner: Interior, edits: nat, spans: SpanBuffer, work: Work, cancel: Cancellation,
                        ghost since: nat)
      returns (r: Result<Refined, ComparisonError>)
    requires inner.Valid() && work.used <= work.limit && cancel.Quiet(since)
    requires Aligned(spans.items, inner.a, inner.b, inner.prefix, inner.prefix)
    requires !HasUnresolved(spans.items) && Correspondences.EditedBytes(spans.items) == 0
    modifies spans, work`used, cancel
    ensures work.used <= work.limit
    ensures r.Err? ==> r.error == Canceled && cancel.Stopped(since)
    ensures r.Ok? ==> cancel.Quiet(since)
    ensures r.Ok? ==> Aligned(spans.items, inner.a, inner.b, inner.oldEnd, inner.newEnd)
    ensures r.Ok? ==> (HasUnresolved(spans.items) <==> !r.value.quality.Exact?)
    ensures r.Ok? && r.value.quality.Exact? ==>
      var shortest := Distance(inner.Before(), inner.After());
      && r.value.distance == Some(shortest) && Correspondences.EditedBytes(spans.items) == shortest
      && (edits < shortest ==> inner.Before() == [] || inner.After() == [])
    ensures r.Ok? && !r.value.quality.Exact? ==>
      r.value.distance.None? && inner.Before() != [] && inner.After() != []
    ensures r.Ok? && r.value.quality.EditLimit? ==> edits < Distance(inner.Before(), inner.After())
    ensures r.Ok? && (r.value.differed || r.value.quality.EditLimit?) ==>
      old(work.used) < work.limit && inner.Before() != [] && inner.After() != []
    ensures r.Ok? ==> old(work.used) <= work.used
    ensures r.Ok? ==>
      work.used - old(work.used) <= cancel.polls - old(cancel.polls)
        + 4 * (EditsTried(inner.Before(), inner.After(), edits) + 1)
    ensures r.Ok? ==>
      SearchHonest(r.value.quality, r.value.cells, inner.Before(), inner.After(), edits,
                   work.limit - old(work.used), work.used - old(work.used))
    ensures r.Ok? ==> spans.items == RefinedSpans(old(spans.items), inner, r.value.quality)
    ensures r.Ok? ==>
      |spans.items| <= |old(spans.items)| + 2 * EditsTried(inner.Before(), inner.After(), edits) + 1
  {
    hide Distance, Aligned, HasUnresolved, Correspondences.EditedBytes, BackwardPath, Recorded, AllCellsOk, Row,
      SearchWork, SearchSpent, CellsBegun, Appended, AppendedBack, PathBack, TraceOf, GoalCell;
    var prefix, oldEnd, newEnd := inner.prefix, inner.oldEnd, inner.newEnd;
    var n, m := oldEnd - prefix, newEnd - prefix;
    if n == 0 || m == 0 {
      OneSided(inner.Before(), inner.After());
      AppendPiece(spans, Changed, prefix, oldEnd, prefix, newEnd, inner.a, inner.b);
      return Ok(Refined(Exact, Some(n + m), 0, false));
    }
    var end, trace, differed, cells := Search(inner.Before(), inner.After(), edits, work, cancel, since);
    if end.Stopped? { return Err(Canceled); }
    if end.Reached? {
      var reverse := Reconstruct(trace, end.distance, inner, cancel, since);
      if reverse.Err? { return Err(reverse.error); }
      AppendReversed(spans, reverse.value, inner);
      return Ok(Refined(Exact, Some(end.distance), cells, differed));
    }
    AppendPiece(spans, Unresolved, prefix, oldEnd, prefix, newEnd, inner.a, inner.b);
    return Ok(Refined(if end.OutOfWork? then WorkLimit else EditLimit, None, cells, differed));
  }

  datatype Stripped = Stripped(inner: Interior, suffix: nat, differed: bool)

  /** What was stripped with this much work left: the longest common ends it reaches.
      Any difference noticed is real, and bytes left on both sides without one mean that
      the work ran out. */
  ghost predicate StrippedHonest(s: Stripped, a: seq<byte>, b: seq<byte>, left: nat, spent: nat) {
    var inner := s.inner;
    && inner.Valid() && inner.a == a && inner.b == b
    && inner.prefix == PrefixWithin(a, b, left) && s.suffix == SuffixWithin(a, b, left)
    && |a| - inner.oldEnd == |b| - inner.newEnd == s.suffix
    && Distance(a, b) == Distance(inner.Before(), inner.After())
    && (s.differed ==> a != b) && (s.differed <==> DifferenceSeen(a, b, left))
    && (!s.differed && inner.Before() != [] && inner.After() != [] ==> spent == left)
    && spent == EndsCost(a, b, left)
  }

  lemma PrefixMatches(a: seq<byte>, b: seq<byte>, p: nat)
    requires p <= PrefixLength(a, b)
    ensures p <= Min(|a|, |b|) && a[..p] == b[..p]
    ensures p == PrefixLength(a, b) && p < Min(|a|, |b|) ==> a != b
  {
    assert p < Min(|a|, |b|) && a == b ==> a[p] == b[p];
  }

  lemma SuffixMatches(a: seq<byte>, b: seq<byte>, room: nat, s: nat)
    requires room <= Min(|a|, |b|) && s <= SuffixLength(a, b, room)
    ensures s <= room && a[|a| - s..] == b[|b| - s..]
    ensures s == SuffixLength(a, b, room) && s < room ==> a != b
  {
    var x, y := a[|a| - s..], b[|b| - s..];
    forall i | 0 <= i < s ensures x[i] == y[i] {
      assert SameBack(a, b, s - 1 - i);
    }
    assert a == b && s < room ==> a[|a| - 1 - s] == b[|b| - 1 - s];
  }

  /** Set the common prefix and suffix aside. */
  method StripEnds(a: seq<byte>, b: seq<byte>, work: Work, cancel: Cancellation, ghost since: nat)
      returns (r: Result<Stripped, ComparisonError>)
    requires work.used <= work.limit && cancel.Quiet(since)
    modifies work`used, cancel
    ensures work.used <= work.limit
    ensures r.Err? ==> r.error == Canceled && cancel.Stopped(since)
    ensures r.Ok? ==> cancel.Quiet(since) && old(work.used) <= work.used
    ensures work.used - old(work.used) <= cancel.polls - old(cancel.polls)
    ensures r.Ok? ==> StrippedHonest(r.value, a, b, work.limit - old(work.used), work.used - old(work.used))
    ensures r.Ok? ==>
      var inner := r.value.inner;
      a[..inner.prefix] == b[..inner.prefix] && a[inner.oldEnd..] == b[inner.newEnd..]
  {
    hide Distance, Matching, MatchingBack, PrefixLength, SuffixLength;
    var front := CommonPrefix(a, b, work, cancel, since);
    if front.Err? { return Err(front.error); }
    var prefix := front.value.count;
    PrefixMatches(a, b, prefix);
    var back := CommonSuffix(a, b, prefix, work, cancel, since);
    if back.Err? { return Err(back.error); }
    var suffix := back.value.count;
    SuffixMatches(a, b, Min(|a|, |b|) - prefix, suffix);
    var inner := Interior(a, b, prefix, |a| - suffix, |b| - suffix);
    StripKeepsDistance(inner);
    return Ok(Stripped(inner, suffix, |a| != |b| || front.value.differed || back.value.differed));
  }

  /** The finished alignment, before the report is made of it. */
  datatype Measured = Measured(spans: seq<Correspondence>, stripped: Stripped, refined: Refined)

  method Measure(a: seq<byte>, b: seq<byte>, edits: nat, work: Work, cancel: Cancellation, ghost since: nat)
      returns (r: Result<Measured, ComparisonError>)
    requires work.used == 0 && cancel.Quiet(since)
    modifies work`used, cancel
    ensures r.Err? ==> r.error == Canceled && cancel.Stopped(since)
    ensures r.Ok? ==>
      && cancel.Quiet(since) && work.used <= work.limit
      && MeasuredHonest(r.value, a, b, edits, work.limit, work.used)
      && work.used <= cancel.polls - old(cancel.polls) + 4 * (EditsTried(a, b, edits) + 1)
  {
    hide Distance, Aligned, HasUnresolved, Correspondences.EditedBytes, Row, StrippedHonest, SearchHonest,
      Correspondence.Verified, RefinedSpans, Appended;
    var spans := new SpanBuffer();
    var stripped := StripEnds(a, b, work, cancel, since);
    if stripped.Err? { return Err(stripped.error); }
    ghost var spent := work.used;
    var inner := stripped.value.inner;
    StrippedInside(stripped.value, a, b, work.limit, spent);
    EndsVerified(inner);
    NoSpans(a, b);
    AppendPiece(spans, Equal, 0, inner.prefix, 0, inner.prefix, a, b);
    var refined := RefineInterior(inner, edits, spans, work, cancel, since);
    if refined.Err? { return Err(refined.error); }
    AppendPiece(spans, Equal, inner.oldEnd, |a|, inner.newEnd, |b|, a, b);
    var m := Measured(spans.items, stripped.value, refined.value);
    assert MeasuredFrom(m, a, b, edits, work.limit, work.used, spent);
    return Ok(m);
  }

  lemma StrippedInside(s: Stripped, a: seq<byte>, b: seq<byte>, left: nat, spent: nat)
    requires StrippedHonest(s, a, b, left, spent)
    ensures s.inner.Valid() && s.inner.a == a && s.inner.b == b && |a| - s.inner.oldEnd == |b| - s.inner.newEnd
    ensures Distance(a, b) == Distance(s.inner.Before(), s.inner.After())
  {
  }

  lemma EndsVerified(inner: Interior)
    requires inner.Valid() && |inner.a| - inner.oldEnd == |inner.b| - inner.newEnd
    requires inner.a[..inner.prefix] == inner.b[..inner.prefix] && inner.a[inner.oldEnd..] == inner.b[inner.newEnd..]
    ensures Correspondence(Equal, Range(0, inner.prefix), Range(0, inner.prefix)).Verified(inner.a, inner.b)
    ensures
      Correspondence(Equal, Range(inner.oldEnd, |inner.a|), Range(inner.newEnd, |inner.b|)).Verified(inner.a, inner.b)
  {
    assert inner.a[inner.oldEnd..|inner.a|] == inner.a[inner.oldEnd..]
        && inner.b[inner.newEnd..|inner.b|] == inner.b[inner.newEnd..];
    assert inner.a[0..inner.prefix] == inner.a[..inner.prefix] && inner.b[0..inner.prefix] == inner.b[..inner.prefix];
  }

  ghost predicate MeasuredHonest(m: Measured, a: seq<byte>, b: seq<byte>, edits: nat, limit: nat, used: nat) {
    exists spent: nat :: MeasuredFrom(m, a, b, edits, limit, used, spent)
  }

  /** What is known of a finished alignment when stripping had spent this much. */
  ghost predicate MeasuredFrom(m: Measured, a: seq<byte>, b: seq<byte>, edits: nat, limit: nat, used: nat, spent: nat) {
    var inner, refined := m.stripped.inner, m.refined;
    var tried := EditsTried(a, b, edits);
    && StrippedHonest(m.stripped, a, b, limit, spent) && inner.Valid()
    && Aligned(m.spans, a, b, |a|, |b|) && (HasUnresolved(m.spans) <==> !refined.quality.Exact?)
    && |m.spans| <= 2 * tried + 5 && m.spans == AllSpans(inner, refined.quality)
    && (refined.quality.Exact? ==>
          var shortest := Distance(inner.Before(), inner.After());
          && refined.distance == Some(shortest) && Correspondences.EditedBytes(m.spans) == shortest
          && (edits < shortest ==> inner.Before() == [] || inner.After() == []))
    && (!refined.quality.Exact? ==> refined.distance.None? && inner.Before() != [] && inner.After() != [])
    && (refined.quality.EditLimit? ==> edits < Distance(inner.Before(), inner.After()))
    && (refined.differed || refined.quality.EditLimit? ==> spent < limit && inner.Before() != [] && inner.After() != [])
    && spent <= used && spent <= limit
    && SearchHonest(refined.quality, refined.cells, inner.Before(), inner.After(), edits, limit - spent, used - spent)
  }

  /** The report of a finished alignment. */
  function Report(m: Measured, used: nat): CaptureComparison {
    var quality, distance := m.refined.quality, m.refined.distance;
    var relation :=
      if quality.Exact? then (if distance == Some(0) then Identical else Different)
      else if m.stripped.differed || m.refined.differed then Different else Undetermined;
    CaptureComparison(m.spans, quality, relation,
                      Stats(used, m.refined.cells, m.stripped.inner.prefix, m.stripped.suffix, distance))
  }

  method Build(a: seq<byte>, b: seq<byte>, limits: ComparisonLimits, cancel: Cancellation)
      returns (r: Result<CaptureComparison, ComparisonError>)
    modifies cancel
    ensures r == Err(LimitsRefused) <==> !Admitted(a, b, limits)
    ensures r == Err(Canceled) ==> cancel.Stopped(old(cancel.polls))
    ensures r.Ok? ==> cancel.Quiet(old(cancel.polls))
    ensures r.Ok? ==> Faithful(r.value, a, b)
    ensures r.Ok? ==> QualityHonest(r.value, a, b, limits)
    ensures r.Ok? ==> StripHonest(r.value, a, b, limits)
    ensures r.Ok? ==> RelationHonest(r.value, a, b, limits)
    ensures r.Ok? ==> WorkHonest(r.value, a, b, limits) && SpansHonest(r.value, a, b, limits)
    ensures r.Ok? ==> Bounded(r.value, a, b, limits)
    ensures r.Ok? ==>
      r.value.stats.workUnits <= cancel.polls - old(cancel.polls) + 4 * (EditsTried(a, b, limits.maxEditDistance) + 1)
  {
    hide MeasuredHonest, Faithful, QualityHonest, StripHonest, RelationHonest, WorkHonest, SpansHonest, Bounded;
    if !Admitted(a, b, limits) { return Err(LimitsRefused); }
    ghost var since := cancel.polls;
    var stop := cancel.Poll();
    if stop { return Err(Canceled); }
    var work := new Work(limits.maxWork);
    var measured := Measure(a, b, limits.maxEditDistance, work, cancel, since);
    if measured.Err? { return Err(measured.error); }
    stop := cancel.Poll();
    if stop { return Err(Canceled); }
    Conclude(measured.value, a, b, limits, work.used);
    return Ok(Report(measured.value, work.used));
  }

  lemma Conclude(m: Measured, a: seq<byte>, b: seq<byte>, limits: ComparisonLimits, used: nat)
    requires used <= limits.maxWork && MeasuredHonest(m, a, b, limits.maxEditDistance, limits.maxWork, used)
    ensures
      var c := Report(m, used);
      && Faithful(c, a, b) && QualityHonest(c, a, b, limits) && StripHonest(c, a, b, limits)
      && RelationHonest(c, a, b, limits)
      && WorkHonest(c, a, b, limits) && SpansHonest(c, a, b, limits) && Bounded(c, a, b, limits)
  {
    hide MeasuredFrom, Distance;
    var d := limits.maxEditDistance;
    var spent: nat :| MeasuredFrom(m, a, b, d, limits.maxWork, used, spent);
    ConcludeSpans(m, a, b, limits, used, spent);
    ConcludeBounds(m, a, b, limits, used, spent);
    ConcludeQuality(m, a, b, limits, used, spent);
    ConcludeRelation(m, a, b, limits, used, spent);
    ConcludeWork(m, a, b, limits, used, spent);
  }

  /** The ends meet exactly when one side of what is between them is empty. */
  lemma InteriorEmpties(inner: Interior, suffix: nat)
    requires inner.Valid() && |inner.a| - inner.oldEnd == |inner.b| - inner.newEnd == suffix
    ensures inner.prefix + suffix == Min(|inner.a|, |inner.b|) <==> inner.Before() == [] || inner.After() == []
    ensures Min(|inner.Before()|, |inner.After()|) == Min(|inner.a|, |inner.b|) - inner.prefix - suffix
  {
    assert |inner.Before()| == |inner.a| - suffix - inner.prefix;
    assert |inner.After()| == |inner.b| - suffix - inner.prefix;
  }

  lemma CellsAreBounded(quality: Quality, cells: nat, a: seq<byte>, b: seq<byte>, edits: nat, left: nat, spent: nat)
    requires SearchHonest(quality, cells, a, b, edits, left, spent)
    ensures cells <= Row(EditsTried(a, b, edits) + 1)
  {
    hide Distance, Row, SearchWork, SearchSpent, WorkOf, SearchCells;
    SearchIsBounded(a, b, edits);
  }

  lemma ConcludeSpans(m: Measured, a: seq<byte>, b: seq<byte>, limits: ComparisonLimits, used: nat, spent: nat)
    requires MeasuredFrom(m, a, b, limits.maxEditDistance, limits.maxWork, used, spent)
    ensures Faithful(Report(m, used), a, b) && StripHonest(Report(m, used), a, b, limits)
  {
    hide Distance, EditsTried, Aligned, HasUnresolved, PrefixWithin, SuffixWithin, DifferenceSeen, EndsCost,
      SearchHonest, AllSpans, Correspondences.EditedBytes, Interior.Before, Interior.After;
  }

  lemma ConcludeBounds(m: Measured, a: seq<byte>, b: seq<byte>, limits: ComparisonLimits, used: nat, spent: nat)
    requires MeasuredFrom(m, a, b, limits.maxEditDistance, limits.maxWork, used, spent)
    ensures Bounded(Report(m, used), a, b, limits)
  {
    hide Distance, Aligned, HasUnresolved, Row, PrefixWithin, SuffixWithin, DifferenceSeen, EndsCost,
      SearchHonest, AllSpans, Correspondences.EditedBytes, Interior.Before, Interior.After;
    var inner, refined := m.stripped.inner, m.refined;
    RowClosedForm(EditsTried(a, b, limits.maxEditDistance) + 1);
    CellsAreBounded(refined.quality, refined.cells, inner.Before(), inner.After(), limits.maxEditDistance,
                    limits.maxWork - spent, used - spent);
  }

  lemma ConcludeQuality(m: Measured, a: seq<byte>, b: seq<byte>, limits: ComparisonLimits, used: nat, spent: nat)
    requires MeasuredFrom(m, a, b, limits.maxEditDistance, limits.maxWork, used, spent)
    ensures QualityHonest(Report(m, used), a, b, limits)
  {
    hide Distance, EditsTried, Aligned, HasUnresolved, Row, PrefixWithin, SuffixWithin, DifferenceSeen, EndsCost,
      SearchHonest, AllSpans, Correspondences.EditedBytes, Interior.Before, Interior.After;
    InteriorEmpties(m.stripped.inner, m.stripped.suffix);
  }

  lemma ConcludeRelation(m: Measured, a: seq<byte>, b: seq<byte>, limits: ComparisonLimits, used: nat, spent: nat)
    requires MeasuredFrom(m, a, b, limits.maxEditDistance, limits.maxWork, used, spent)
    ensures RelationHonest(Report(m, used), a, b, limits)
  {
    ZeroMeansEqual(a, b);
    hide Distance, EditsTried, Aligned, HasUnresolved, Row, PrefixWithin, SuffixWithin, DifferenceSeen, EndsCost,
      SearchHonest, AllSpans, Correspondences.EditedBytes;
  }

  lemma ConcludeWork(m: Measured, a: seq<byte>, b: seq<byte>, limits: ComparisonLimits, used: nat, spent: nat)
    requires used <= limits.maxWork && MeasuredFrom(m, a, b, limits.maxEditDistance, limits.maxWork, used, spent)
    ensures WorkHonest(Report(m, used), a, b, limits) && SpansHonest(Report(m, used), a, b, limits)
  {
    hide AllSpans;
    hide Distance, EditsTried, Aligned, HasUnresolved, PrefixWithin, SuffixWithin, DifferenceSeen, EndsCost,
      SearchHonest, AllSpans, Correspondences.EditedBytes, Interior.Before, Interior.After;
    assert m.stripped.inner == InteriorWithin(a, b, limits.maxWork);
  }

  lemma EnoughIsEnough(room: nat, inside: nat, d: nat)
    ensures EnoughWork(room, inside, d) == room + 2 + SearchCost(inside, inside, d)
  {
    RowClosedForm(d + 1);
  }

  /** Work for the whole ends finds them and spends just that; less is spent to the last
      unit and leaves bytes on both sides. */
  lemma EndsWithin(a: seq<byte>, b: seq<byte>, work: nat)
    ensures WholeEnds(a, b) <= Min(|a|, |b|) + 2
    ensures WholeEnds(a, b) <= work ==>
      InteriorWithin(a, b, work) == InteriorOf(a, b) && EndsCost(a, b, work) == WholeEnds(a, b)
    ensures work < WholeEnds(a, b) ==>
      EndsCost(a, b, work) == work && PrefixWithin(a, b, work) + SuffixWithin(a, b, work) < Min(|a|, |b|)
  {
    hide Matching, MatchingBack;
  }

  lemma NoSpans(a: seq<byte>, b: seq<byte>)
    ensures Aligned([], a, b, 0, 0) && !HasUnresolved([]) && Correspondences.EditedBytes([]) == 0
  {
  }

  lemma OneSided<T>(a: seq<T>, b: seq<T>)
    ensures a == [] || b == [] ==> Distance(a, b) == |a| + |b|
  {
  }

  // ----- What a reader of the report may conclude -----

  /** An exact report's spans are an edit script between the captures, and no
      script between them is cheaper. */
  lemma ExactIsAShortestScript(c: CaptureComparison, a: seq<byte>, b: seq<byte>, limits: ComparisonLimits)
    requires Faithful(c, a, b) && QualityHonest(c, a, b, limits) && c.quality.Exact?
    ensures Turns(ScriptOf(c.spans, a, b), a, b)
    ensures c.stats.editDistance == Some(Cost(ScriptOf(c.spans, a, b)))
    ensures forall script :: Turns(script, a, b) ==> Cost(ScriptOf(c.spans, a, b)) <= Cost(script)
  {
    hide Distance;
    AlignmentIsScript(c.spans, a, b, |a|, |b|);
    assert a[..|a|] == a && b[..|b|] == b;
    forall script | Turns(script, a, b) ensures Distance(a, b) <= Cost(script) {
      NoCheaperScript(script, a, b);
    }
  }

  /** The search never gives up on a distance within its limit. */
  lemma EditLimitRefusesOnlyLongerScripts(c: CaptureComparison, a: seq<byte>, b: seq<byte>, limits: ComparisonLimits)
    requires QualityHonest(c, a, b, limits) && c.quality.EditLimit?
    ensures forall script :: Turns(script, a, b) ==> limits.maxEditDistance < Cost(script)
  {
    hide Distance;
    forall script | Turns(script, a, b) ensures limits.maxEditDistance < Cost(script) {
      NoCheaperScript(script, a, b);
    }
  }

  /** The reported ends meet exactly when the true ones do and the work reaches them. */
  lemma StripsMeet(a: seq<byte>, b: seq<byte>, work: nat)
    ensures PrefixWithin(a, b, work) + SuffixWithin(a, b, work) == Min(|a|, |b|)
      <==> EndsMeet(a, b) && WholeEnds(a, b) <= work
  {
    hide Matching, MatchingBack;
    EndsWithin(a, b, work);
  }

  /** Beyond the edit limit a result is still exact in one case only, which depends on
      the captures and the work limit alone: the common ends use up the shorter capture
      and there is work enough to find that out. */
  lemma ExactBeyondTheLimit(c: CaptureComparison, a: seq<byte>, b: seq<byte>, limits: ComparisonLimits)
    requires QualityHonest(c, a, b, limits) && StripHonest(c, a, b, limits) && limits.maxEditDistance < Distance(a, b)
    ensures c.quality.Exact? <==> EndsMeet(a, b) && WholeEnds(a, b) <= limits.maxWork
  {
    hide Distance, PrefixWithin, SuffixWithin, EndsMeet, WholeEnds;
    StripsMeet(a, b, limits.maxWork);
  }

  /** Such a result exists: under an edit limit of zero, inserting two bytes into an
      empty capture is reported exactly. */
  lemma ExactBeyondTheLimitHappens(c: CaptureComparison)
    requires
      var limits := ComparisonLimits(2, 0, 0);
      StripHonest(c, [], [0, 0], limits) && QualityHonest(c, [], [0, 0], limits)
    ensures c.quality.Exact? && c.stats.editDistance == Some(2)
  {
    OneSided([], [0 as byte, 0]);
    hide Distance;
  }

  lemma InteriorKeepsDistance(a: seq<byte>, b: seq<byte>, work: nat)
    ensures
      var inner := InteriorWithin(a, b, work);
      Distance(a, b) == Distance(inner.Before(), inner.After())
  {
    hide Distance, Matching, MatchingBack;
    PrefixMatches(a, b, PrefixWithin(a, b, work));
    SuffixMatches(a, b, Min(|a|, |b|) - PrefixWithin(a, b, work), SuffixWithin(a, b, work));
    StripKeepsDistance(InteriorWithin(a, b, work));
  }

  /** A comparison gives up for lack of work exactly when the work its ends, its cells and
      its reconstruction need is more than the limit. */
  lemma WorkLimitMeansTooLittle(c: CaptureComparison, a: seq<byte>, b: seq<byte>, limits: ComparisonLimits)
    requires WorkHonest(c, a, b, limits)
    ensures c.quality.WorkLimit? <==> limits.maxWork < WorkNeeded(a, b, limits.maxEditDistance)
  {
    hide Distance, PrefixLength, SuffixLength, PrefixWithin, SuffixWithin, EndsCost, WholeEnds, SearchWork, SearchSpent,
      CellsBegun;
    EndsWithin(a, b, limits.maxWork);
    var inner := InteriorWithin(a, b, limits.maxWork);
    InteriorEmpties(inner, |a| - inner.oldEnd);
    SearchIsNotFree(inner.Before(), inner.After(), limits.maxEditDistance);
  }

  /** Work, edit limit and captures decide the quality. */
  lemma QualityIsDecided(c: CaptureComparison, a: seq<byte>, b: seq<byte>, limits: ComparisonLimits)
    requires QualityHonest(c, a, b, limits) && StripHonest(c, a, b, limits) && WorkHonest(c, a, b, limits)
    ensures
      var needed, short := WorkNeeded(a, b, limits.maxEditDistance), Distance(a, b) <= limits.maxEditDistance;
      && (c.quality.WorkLimit? <==> limits.maxWork < needed)
      && (c.quality.Exact? <==> needed <= limits.maxWork && (short || EndsMeet(a, b)))
      && (c.quality.EditLimit? <==> needed <= limits.maxWork && !short && !EndsMeet(a, b))
  {
    hide Distance, PrefixWithin, SuffixWithin, EndsMeet, WorkHonest, WholeEnds;
    WorkLimitMeansTooLittle(c, a, b, limits);
    if limits.maxEditDistance < Distance(a, b) { ExactBeyondTheLimit(c, a, b, limits); }
    assert WholeEnds(a, b) <= WorkNeeded(a, b, limits.maxEditDistance);
  }

  /** Captures and limits decide the whole report: cancellation aside, there is only one. */
  lemma ReportIsDetermined(c: CaptureComparison, d: CaptureComparison, a: seq<byte>, b: seq<byte>,
                           limits: ComparisonLimits)
    requires ReportHonest(c, a, b, limits) && ReportHonest(d, a, b, limits)
    ensures c == d
  {
    hide Distance, PrefixWithin, SuffixWithin, EndsMeet, WholeEnds, DifferenceSeen, EndsCost, SearchHonest, AllSpans,
      InteriorWithin, EditedBytes, WorkNeeded;
    QualityIsDecided(c, a, b, limits);
    QualityIsDecided(d, a, b, limits);
    var inner, ends := InteriorWithin(a, b, limits.maxWork), EndsCost(a, b, limits.maxWork);
    SearchIsDetermined(c.quality, c.stats.frontierCells, d.stats.frontierCells, inner.Before(), inner.After(),
                       limits.maxEditDistance, limits.maxWork - ends, c.stats.workUnits - ends,
                       d.stats.workUnits - ends);
  }

  /** What every report says. */
  ghost predicate ReportHonest(c: CaptureComparison, a: seq<byte>, b: seq<byte>, limits: ComparisonLimits) {
    && QualityHonest(c, a, b, limits) && StripHonest(c, a, b, limits) && RelationHonest(c, a, b, limits)
    && WorkHonest(c, a, b, limits) && SpansHonest(c, a, b, limits)
  }

  lemma SearchIsDetermined(quality: Quality, cells: nat, others: nat, a: seq<byte>, b: seq<byte>, edits: nat, left: nat,
                           spent: nat, used: nat)
    requires SearchHonest(quality, cells, a, b, edits, left, spent)
    requires SearchHonest(quality, others, a, b, edits, left, used)
    ensures cells == others && spent == used
  {
    hide SearchWork, SearchSpent, CellsBegun;
    if a != [] && b != [] { BegunIsDetermined(a, b, edits, left, cells, others); }
  }

  /** The work reported is within its limit, covers every stripped byte and begun cell, and
      where it ran out less than a reconstruction is left of it. */
  lemma WorkIsAccounted(c: CaptureComparison, a: seq<byte>, b: seq<byte>, limits: ComparisonLimits)
    requires StripHonest(c, a, b, limits) && WorkHonest(c, a, b, limits)
    ensures
      var stats, tried := c.stats, EditsTried(a, b, limits.maxEditDistance);
      && stats.prefixEqualBytes + stats.suffixEqualBytes + stats.frontierCells <= stats.workUnits <= limits.maxWork
      && (c.quality.WorkLimit? ==> limits.maxWork - stats.workUnits < 4 * (tried + 1))
  {
    hide Distance, PrefixLength, SuffixLength, SearchHonest, InteriorWithin;
    var inner, ends := InteriorWithin(a, b, limits.maxWork), EndsCost(a, b, limits.maxWork);
    InteriorKeepsDistance(a, b, limits.maxWork);
    SearchIsAccounted(c.quality, c.stats.frontierCells, inner.Before(), inner.After(), limits.maxEditDistance,
                      limits.maxWork - ends, c.stats.workUnits - ends);
  }

  lemma SearchIsAccounted(quality: Quality, cells: nat, a: seq<byte>, b: seq<byte>, edits: nat, left: nat, spent: nat)
    requires SearchHonest(quality, cells, a, b, edits, left, spent)
    ensures cells <= spent <= left
    ensures quality.WorkLimit? ==> left - spent < 4 * (EditsTried(a, b, edits) + 1)
  {
    hide Distance, SearchSpent, SearchWork, CellsBegun;
    if a != [] && b != [] {
      SpentCovers(a, b, edits, left, cells);
      if quality.WorkLimit? { LittleIsLeft(a, b, edits, left); }
    }
  }

  /** With enough work for as many edits as the captures need or the limit allows, the
      quality is decided by the captures and the edit limit: exact when the distance is
      within the limit or the common ends meet, else refused for the limit. */
  lemma EnoughWorkDecides(c: CaptureComparison, a: seq<byte>, b: seq<byte>, limits: ComparisonLimits, edits: nat)
    requires QualityHonest(c, a, b, limits) && StripHonest(c, a, b, limits) && WorkHonest(c, a, b, limits)
    requires limits.maxEditDistance <= edits || Distance(a, b) <= edits
    requires EnoughWork(Min(|a|, |b|), InteriorLength(a, b), edits) <= limits.maxWork
    ensures c.quality.Exact? <==> Distance(a, b) <= limits.maxEditDistance || EndsMeet(a, b)
    ensures c.quality.EditLimit? <==> limits.maxEditDistance < Distance(a, b) && !EndsMeet(a, b)
  {
    hide Distance, PrefixWithin, SuffixWithin, EndsMeet, EnoughWork, InteriorLength, WorkNeeded, WorkHonest,
      QualityHonest, StripHonest;
    QualityIsDecided(c, a, b, limits);
    NeededIsBounded(a, b, limits.maxEditDistance);
    MoreEditsCostMore(Min(|a|, |b|), InteriorLength(a, b), EditsTried(a, b, limits.maxEditDistance), edits);
  }

  /** The work needed is never more than the bound in lengths and edits. */
  lemma NeededIsBounded(a: seq<byte>, b: seq<byte>, edits: nat)
    ensures WorkNeeded(a, b, edits) <= EnoughWork(Min(|a|, |b|), InteriorLength(a, b), EditsTried(a, b, edits))
  {
    hide Distance, PrefixLength, SuffixLength, EndsCost, WholeEnds, SearchWork, SearchCost, EnoughWork;
    var inner, tried := InteriorOf(a, b), EditsTried(a, b, edits);
    EndsWithin(a, b, WholeEnds(a, b));
    InteriorKeepsDistance(a, b, WholeEnds(a, b));
    InteriorEmpties(inner, |a| - inner.oldEnd);
    SearchIsBounded(inner.Before(), inner.After(), edits);
    SameCosts(|inner.Before()|, |inner.After()|, tried);
    EnoughIsEnough(Min(|a|, |b|), InteriorLength(a, b), tried);
  }

  lemma SameCosts(n: nat, m: nat, edits: nat)
    ensures SearchCost(n, m, edits) == SearchCost(Min(n, m), Min(n, m), edits)
  {
  }

  lemma MoreEditsCostMore(room: nat, inside: nat, e: nat, f: nat)
    ensures EnoughWork(room, inside, Min(e, f)) <= EnoughWork(room, inside, f)
  {
    hide EnoughWork, CellCost, Row;
    EnoughIsEnough(room, inside, Min(e, f));
    EnoughIsEnough(room, inside, f);
    RowMonotone(Min(e, f) + 1, f + 1);
    CellCostGrows(Row(Min(e, f) + 1), Row(f + 1), inside, inside);
  }

  /** Whatever the quality, equal bytes of the old capture and all other bytes of
      the new one rebuild the new capture. */
  lemma SpansRebuildAfter(c: CaptureComparison, a: seq<byte>, b: seq<byte>)
    requires Faithful(c, a, b)
    ensures Rebuilt(c.spans, a, b) == b
  {
    AlignmentRebuilds(c.spans, a, b, |a|, |b|);
    assert b[..|b|] == b;
  }
}
