/** What the bounded search spends, as a function of the captures and the edit limit
    alone: one unit for every cell, one for every byte of the cell's run and one for
    the mismatch that ends a run inside the grid. */
module EditWork {
  import opened Basics
  import opened EditDistance
  import opened EditTrace

  // ----- One run -----

  /** How many bytes match from `start` on along diagonal k. */
  ghost function RunLength<T>(a: seq<T>, b: seq<T>, k: int, start: nat): nat
    decreases |a| - start
  {
    if start < |a| && 0 <= start - k < |b| && a[start] == b[start - k] then 1 + RunLength(a, b, k, start + 1) else 0
  }

  /** The bytes compared: the matching ones, and the two that end the run inside the grid. */
  ghost function RunCost<T>(a: seq<T>, b: seq<T>, k: int, start: nat): nat {
    var x := start + RunLength(a, b, k, start);
    RunLength(a, b, k, start) + if x < |a| && x - k < |b| then 1 else 0
  }

  lemma RunStep<T>(a: seq<T>, b: seq<T>, k: int, x: nat)
    requires x < |a| && 0 <= x - k < |b|
    ensures RunLength(a, b, k, x) == if a[x] == b[x - k] then 1 + RunLength(a, b, k, x + 1) else 0
    ensures RunCost(a, b, k, x) == 1 + if a[x] == b[x - k] then RunCost(a, b, k, x + 1) else 0
  {
  }

  lemma RunAtEdge<T>(a: seq<T>, b: seq<T>, k: int, x: nat)
    requires x == |a| || x - k == |b|
    ensures RunLength(a, b, k, x) == RunCost(a, b, k, x) == 0
  {
  }

  /** The run of matching bytes is the snake. */
  lemma {:induction false} RunIsSnake<T>(a: seq<T>, b: seq<T>, k: int, start: nat)
    requires start <= |a| && 0 <= start - k <= |b|
    ensures Snake(a, b, k, start, start + RunLength(a, b, k, start))
    ensures RunCost(a, b, k, start) <= Min(|a|, |b|) + 1
    decreases |a| - start
  {
    if start < |a| && start - k < |b| && a[start] == b[start - k] {
      RunIsSnake(a, b, k, start + 1);
      var x := start + RunLength(a, b, k, start);
      assert a[start..x] == [a[start]] + a[start + 1..x];
      assert b[start - k..x - k] == [b[start - k]] + b[start + 1 - k..x - k];
    }
  }

  // ----- All cells -----

  /** What belongs in the next cell: a hole where nothing arrives, else where the run
      from the furthest arrival ends. */
  ghost function CellOf<T>(t: Trace, a: seq<T>, b: seq<T>, d: nat, c: nat): Option<nat> {
    match Predecessor(t, d, Diagonal(d, c), |a|, |b|)
    case None => None
    case Some(s) => Some(s.start + RunLength(a, b, Diagonal(d, c), s.start))
  }

  /** What it costs to find that out. */
  ghost function CellWork<T>(t: Trace, a: seq<T>, b: seq<T>, d: nat, c: nat): nat {
    match Predecessor(t, d, Diagonal(d, c), |a|, |b|)
    case None => 1
    case Some(s) => 1 + RunCost(a, b, Diagonal(d, c), s.start)
  }

  /** The row and place of the cell with this number. */
  ghost function Place(i: nat): (p: (nat, nat))
    ensures p.1 <= p.0 && Row(p.0) + p.1 == i
  {
    if i == 0 then (0, 0)
    else
      var p := Place(i - 1);
      if p.1 < p.0 then (p.0, p.1 + 1) else (p.0 + 1, 0)
  }

  /** The first i cells of the search between these captures. */
  ghost function TraceOf<T>(a: seq<T>, b: seq<T>, i: nat): (t: Trace)
    ensures |t| == i
  {
    if i == 0 then []
    else
      var t := TraceOf(a, b, i - 1);
      t + [CellOf(t, a, b, Place(i - 1).0, Place(i - 1).1)]
  }

  /** What the first i cells cost. */
  ghost function WorkOf<T>(a: seq<T>, b: seq<T>, i: nat): nat {
    if i == 0 then 0
    else WorkOf(a, b, i - 1) + CellWork(TraceOf(a, b, i - 1), a, b, Place(i - 1).0, Place(i - 1).1)
  }

  lemma TraceStep<T>(a: seq<T>, b: seq<T>, d: nat, c: nat)
    requires c <= d
    ensures
      var i := Row(d) + c;
      && TraceOf(a, b, i + 1) == TraceOf(a, b, i) + [CellOf(TraceOf(a, b, i), a, b, d, c)]
      && WorkOf(a, b, i + 1) == WorkOf(a, b, i) + CellWork(TraceOf(a, b, i), a, b, d, c)
  {
    hide CellOf, CellWork, Row;
    var p := Place(Row(d) + c);
    LayoutIsInjective(p.0, p.1, d, c);
  }

  /** Every cell keeps what a recorded cell says about the captures. */
  lemma {:induction false} TraceIsOk<T>(a: seq<T>, b: seq<T>, i: nat)
    ensures AllCellsOk(TraceOf(a, b, i), a, b)
  {
    hide AllCellsOk, Predecessor, Snake, Distance, CellOk, Row;
    if i == 0 {
      NothingYet(a, b);
    } else {
      TraceIsOk(a, b, i - 1);
      var t, p := TraceOf(a, b, i - 1), Place(i - 1);
      CellIsOk(t, a, b, p.0, p.1);
      PushKeepsCells(t, CellOf(t, a, b, p.0, p.1), a, b, p.0, p.1);
    }
  }

  /** The empty trace, which costs nothing. */
  lemma NothingYet<T>(a: seq<T>, b: seq<T>)
    ensures Row(0) == 0 && TraceOf(a, b, 0) == [] && WorkOf(a, b, 0) == 0
    ensures AllCellsOk([], a, b) && NoGoal([], a, b)
  {
  }

  lemma CellIsOk<T>(t: Trace, a: seq<T>, b: seq<T>, d: nat, c: nat)
    requires AllCellsOk(t, a, b) && |t| == Row(d) + c && c <= d
    ensures CellOk(t + [CellOf(t, a, b, d, c)], a, b, d, c)
  {
    hide AllCellsOk, Predecessor, Snake, Distance, CellOk, Row, RunLength;
    match Predecessor(t, d, Diagonal(d, c), |a|, |b|)
    case None =>
      HoleIsSound(t, a, b, d, c);
    case Some(s) =>
      StartIsSound(t, a, b, d, Diagonal(d, c));
      RunIsSnake(a, b, Diagonal(d, c), s.start);
      SnakeIsSound(t, a, b, d, c, s.start + RunLength(a, b, Diagonal(d, c), s.start));
  }

  /** Later cells change nothing and are never free. */
  lemma {:induction false} TraceGrows<T>(a: seq<T>, b: seq<T>, i: nat, j: nat)
    requires i <= j
    ensures TraceOf(a, b, i) <= TraceOf(a, b, j) && WorkOf(a, b, i) + (j - i) <= WorkOf(a, b, j)
    decreases j
  {
    hide CellOf, Predecessor, RunCost;
    if i < j { TraceGrows(a, b, i, j - 1); }
  }

  // ----- Where the search ends -----

  lemma {:induction false} LengthsApart<T>(a: seq<T>, b: seq<T>)
    ensures |a| <= |b| + Distance(a, b) && |b| <= |a| + Distance(a, b)
    decreases |a| + |b|
  {
    if a != [] && b != [] {
      LengthsApart(a[1..], b[1..]);
      LengthsApart(a[1..], b);
      LengthsApart(a, b[1..]);
    }
  }

  /** The number of the cell that meets the goal: in the row of the distance, on the
      diagonal between the two ends. */
  ghost function GoalCell<T>(a: seq<T>, b: seq<T>): nat {
    LengthsApart(a, b);
    Row(Distance(a, b)) + (Distance(a, b) + |a| - |b|) / 2
  }

  lemma {:induction false} GoalPlace<T>(t: Trace, a: seq<T>, b: seq<T>, r: nat, j: nat)
    requires AllCellsOk(t, a, b) && j <= r <= Distance(a, b) && Row(r) + j < |t| && AtGoal(t, a, b, r, j)
    ensures r == Distance(a, b) && Row(r) + j == GoalCell(a, b)
  {
    hide AllCellsOk, Distance;
    CellIsSound(t, a, b, r, j);
    NothingLeft(a, b);
  }

  /** The search meets the goal there. */
  lemma GoalIsMet<T>(a: seq<T>, b: seq<T>)
    ensures
      var d, i := Distance(a, b), GoalCell(a, b);
      Row(d) <= i < Row(d + 1) && AtGoal(TraceOf(a, b, Row(d + 1)), a, b, d, i - Row(d))
  {
    hide AllCellsOk, Distance, TraceOf, Row, GoalCell, AtGoal;
    var d := Distance(a, b);
    var t := TraceOf(a, b, Row(d + 1));
    TraceIsOk(a, b, Row(d + 1));
    if NoGoal(t, a, b) {
      NoGoalMeansFar(t, a, b, d);
    } else {
      var r: nat, j: nat :| j <= r && Row(r) + j < |t| && AtGoal(t, a, b, r, j);
      RowStep(d);
      if d < r { RowMonotone(d + 1, r); }
      GoalPlace(t, a, b, r, j);
    }
  }

  lemma GoalStays<T>(a: seq<T>, b: seq<T>, i: nat)
    requires GoalCell(a, b) < i
    ensures !NoGoal(TraceOf(a, b, i), a, b)
  {
    hide Distance, TraceOf, WorkOf, Row, GoalCell;
    var d := Distance(a, b);
    GoalIsMet(a, b);
    RowStep(d);
    if i <= Row(d + 1) { TraceGrows(a, b, i, Row(d + 1)); } else { TraceGrows(a, b, Row(d + 1), i); }
    assert AtGoal(TraceOf(a, b, i), a, b, d, GoalCell(a, b) - Row(d));
  }

  /** No search is past that cell while it has not met the goal. */
  lemma BeforeGoal<T>(a: seq<T>, b: seq<T>, i: nat)
    requires NoGoal(TraceOf(a, b, i), a, b)
    ensures i <= GoalCell(a, b)
  {
    hide Distance, TraceOf, GoalCell, NoGoal;
    if GoalCell(a, b) < i { GoalStays(a, b, i); }
  }

  /** How many cells a search takes: all rows within the edit limit, or up to the goal. */
  ghost function SearchCells<T>(a: seq<T>, b: seq<T>, edits: nat): nat {
    if edits < Distance(a, b) then Row(edits + 1) else GoalCell(a, b) + 1
  }

  /** What a search needs: the cost of its cells, and the reconstruction if it meets the goal. */
  ghost function SearchWork<T>(a: seq<T>, b: seq<T>, edits: nat): nat {
    WorkOf(a, b, SearchCells(a, b, edits)) + if edits < Distance(a, b) then 0 else 4 * (Distance(a, b) + 1)
  }

  /** What a search spends of this much work. */
  ghost function SearchSpent<T>(a: seq<T>, b: seq<T>, edits: nat, left: nat): nat {
    if left < SearchWork(a, b, edits) then Min(left, WorkOf(a, b, SearchCells(a, b, edits)))
    else SearchWork(a, b, edits)
  }

  /** The cells begun with this much work: all, or the first that use it up. */
  ghost predicate CellsBegun<T>(a: seq<T>, b: seq<T>, edits: nat, left: nat, cells: nat) {
    && cells <= SearchCells(a, b, edits)
    && (cells < SearchCells(a, b, edits) ==> left <= WorkOf(a, b, cells))
    && (0 < cells ==> WorkOf(a, b, cells - 1) < left)
  }

  /** So much work begins just so many cells. */
  lemma BegunIsDetermined<T>(a: seq<T>, b: seq<T>, edits: nat, left: nat, cells: nat, others: nat)
    requires CellsBegun(a, b, edits, left, cells) && CellsBegun(a, b, edits, left, others)
    ensures cells == others
  {
    hide WorkOf, TraceOf, SearchCells;
    if cells < others { TraceGrows(a, b, cells, others - 1); }
    if others < cells { TraceGrows(a, b, others, cells - 1); }
  }

  /** A search that has not met the goal within its limit has this cell still to take. */
  lemma CellIsNeeded<T>(a: seq<T>, b: seq<T>, edits: nat, d: nat, c: nat)
    requires c <= d <= edits && NoGoal(TraceOf(a, b, Row(d) + c), a, b)
    ensures Row(d) + c < SearchCells(a, b, edits)
    ensures WorkOf(a, b, Row(d) + c + 1) <= WorkOf(a, b, SearchCells(a, b, edits)) <= SearchWork(a, b, edits)
  {
    hide Distance, TraceOf, WorkOf, Row, GoalCell, NoGoal;
    BeforeGoal(a, b, Row(d) + c);
    RowStep(d);
    RowMonotone(d + 1, edits + 1);
    TraceGrows(a, b, Row(d) + c + 1, SearchCells(a, b, edits));
  }

  lemma SearchIsNotFree<T>(a: seq<T>, b: seq<T>, edits: nat)
    ensures 0 < SearchWork(a, b, edits)
  {
    hide Distance, WorkOf, TraceOf, GoalCell;
    RowStep(edits);
    TraceGrows(a, b, 0, SearchCells(a, b, edits));
  }

  /** What is spent covers every cell begun. */
  lemma SpentCovers<T>(a: seq<T>, b: seq<T>, edits: nat, left: nat, cells: nat)
    requires CellsBegun(a, b, edits, left, cells)
    ensures cells <= SearchSpent(a, b, edits, left) <= left
  {
    hide Distance, WorkOf, TraceOf, SearchCells;
    TraceGrows(a, b, cells, SearchCells(a, b, edits));
    TraceGrows(a, b, 0, cells);
    if 0 < cells { TraceGrows(a, b, 0, cells - 1); }
  }

  /** Where there is too little, less than a reconstruction is left. */
  lemma LittleIsLeft(a: seq<byte>, b: seq<byte>, edits: nat, left: nat)
    requires left < SearchWork(a, b, edits)
    ensures left - SearchSpent(a, b, edits, left) < 4 * (EditsTried(a, b, edits) + 1)
  {
    hide Distance, WorkOf, TraceOf, SearchCells;
  }

  // ----- Bounds -----

  /** What so many cells cost at most: each is one unit, its run and a mismatch. */
  ghost function CellCost(cells: nat, n: nat, m: nat): nat { cells * (Min(n, m) + 2) }

  /** How many edits the search considers: no more than the captures need. */
  function EditsTried(a: seq<byte>, b: seq<byte>, edits: nat): nat { Min(edits, Distance(a, b)) }

  /** Enough for a search of this many edits and its reconstruction. */
  ghost function SearchCost(n: nat, m: nat, edits: nat): nat {
    CellCost(Row(edits + 1), n, m) + 4 * (edits + 1)
  }

  lemma CellCostGrows(c: nat, d: nat, n: nat, m: nat)
    requires c <= d
    ensures CellCost(c, n, m) <= CellCost(d, n, m) && CellCost(0, n, m) == 0
    ensures CellCost(c + 1, n, m) == CellCost(c, n, m) + Min(n, m) + 2
  {
  }

  lemma CellWorkIsBounded<T>(t: Trace, a: seq<T>, b: seq<T>, d: nat, c: nat)
    requires AllCellsOk(t, a, b) && |t| == Row(d) + c && c <= d
    ensures CellWork(t, a, b, d, c) <= Min(|a|, |b|) + 2
  {
    hide AllCellsOk, Predecessor, Distance, Row, RunCost, Snake;
    match Predecessor(t, d, Diagonal(d, c), |a|, |b|)
    case None =>
    case Some(s) =>
      StartIsSound(t, a, b, d, Diagonal(d, c));
      RunIsSnake(a, b, Diagonal(d, c), s.start);
  }

  lemma {:induction false} WorkIsBounded<T>(a: seq<T>, b: seq<T>, i: nat)
    ensures WorkOf(a, b, i) <= CellCost(i, |a|, |b|)
  {
    hide CellCost, CellWork, AllCellsOk, Row, TraceOf, Place;
    if i == 0 {
      CellCostGrows(0, 0, |a|, |b|);
    } else {
      WorkIsBounded(a, b, i - 1);
      TraceIsOk(a, b, i - 1);
      CellWorkIsBounded(TraceOf(a, b, i - 1), a, b, Place(i - 1).0, Place(i - 1).1);
      CellCostGrows(i - 1, i - 1, |a|, |b|);
    }
  }

  /** No search takes more cells or work than its edits and the shorter capture allow. */
  lemma SearchIsBounded(a: seq<byte>, b: seq<byte>, edits: nat)
    ensures SearchCells(a, b, edits) <= Row(EditsTried(a, b, edits) + 1)
    ensures SearchWork(a, b, edits) <= SearchCost(|a|, |b|, EditsTried(a, b, edits))
  {
    hide Distance, WorkOf, Row, GoalCell, CellCost, AtGoal, TraceOf;
    GoalIsMet(a, b);
    RowStep(Distance(a, b));
    var cells := SearchCells(a, b, edits);
    WorkIsBounded(a, b, cells);
    CellCostGrows(cells, Row(EditsTried(a, b, edits) + 1), |a|, |b|);
  }
}
