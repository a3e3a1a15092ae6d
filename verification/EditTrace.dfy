/** The triangular trace of the bounded greedy search: row r holds one cell for
    each diagonal -r, -r+2, .., r, all rows flattened into one sequence. A cell is
    the furthest x recorded on its diagonal, or a hole when no in-grid path gets
    there. */
module EditTrace {
  import opened Basics
  import opened EditDistance

  type Trace = seq<Option<nat>>

  datatype Step = Step(start: nat, px: nat, py: nat)

  /** Where a row starts: after all the cells of the rows before it. The closed
      form the search computes it with is `RowClosedForm`. */
  function Row(distance: nat): nat {
    if distance == 0 then 0 else Row(distance - 1) + distance
  }

  function Abs(k: int): nat { if k < 0 then -k else k }

  function Previous(t: Trace, distance: nat, k: int): Option<nat> {
    if Abs(k) > distance || (k + distance) % 2 != 0 then None
    else
      var i := Row(distance) + (k + distance) / 2;
      if i < |t| then t[i] else None
  }

  /** A deletion from an endpoint x of diagonal k - 1. */
  function RightStep(from: Option<nat>, k: int, n: nat, m: nat): Option<Step> {
    match from
    case None => None
    case Some(x) =>
      var y := x + 1 - k;
      if x < n && 0 <= y <= m then Some(Step(x + 1, x, y)) else None
  }

  /** An insertion from an endpoint x of diagonal k + 1. */
  function DownStep(from: Option<nat>, k: int, n: nat, m: nat): Option<Step> {
    match from
    case None => None
    case Some(x) =>
      var y := x - k;
      if 0 < y <= m then Some(Step(x, x, y - 1)) else None
  }

  /** The step further along its diagonal; ties prefer the insertion. */
  function Further(right: Option<Step>, down: Option<Step>): Option<Step> {
    match (right, down)
    case (Some(r), Some(d)) => if d.start >= r.start then down else right
    case (Some(_), None) => right
    case (None, _) => down
  }

  /** The snake's start and the endpoint it is reached from. Steps that leave the
      n by m grid are not eligible. */
  function Predecessor(t: Trace, distance: nat, k: int, n: nat, m: nat): Option<Step> {
    if distance == 0 then Some(Step(0, 0, 0))
    else Further(RightStep(Previous(t, distance - 1, k - 1), k, n, m),
                 DownStep(Previous(t, distance - 1, k + 1), k, n, m))
  }

  // ----- Layout -----

  lemma {:induction false} RowClosedForm(r: nat)
    ensures Row(r) == r * (r + 1) / 2
  {
    if 0 < r {
      RowClosedForm(r - 1);
      assert r * (r + 1) == (r - 1) * r + 2 * r;
    }
  }

  lemma RowStep(r: nat)
    ensures Row(r + 1) == Row(r) + r + 1
  {
  }

  lemma {:induction false} RowMonotone(r: nat, d: nat)
    requires r <= d
    ensures Row(r) <= Row(d)
    decreases d - r
  {
    if r < d {
      RowStep(r);
      RowMonotone(r + 1, d);
    }
  }

  /** A cell index determines its row and place: the layout has no collisions. */
  lemma LayoutIsInjective(r: nat, j: nat, d: nat, c: nat)
    requires j <= r && c <= d && Row(r) + j == Row(d) + c
    ensures r == d && j == c
  {
    RowStep(r);
    RowStep(d);
    if r < d { RowMonotone(r + 1, d); }
    if d < r { RowMonotone(d + 1, r); }
  }

  function Cell(t: Trace, r: nat, j: nat): Option<nat>
    requires Row(r) + j < |t|
  {
    t[Row(r) + j]
  }

  function Diagonal(r: nat, j: nat): int { 2 * j - r }

  lemma CellIsPrevious(t: Trace, r: nat, j: nat)
    requires j <= r && Row(r) + j < |t|
    ensures Previous(t, r, Diagonal(r, j)) == Cell(t, r, j)
  {
  }

  /** Endpoint (x, y) is recorded in row r. */
  ghost predicate Recorded(t: Trace, r: nat, x: nat, y: nat) {
    Previous(t, r, x - y) == Some(x)
  }

  lemma RecordedCell(t: Trace, r: nat, x: nat, y: nat) returns (j: nat)
    requires Recorded(t, r, x, y)
    ensures j <= r && Row(r) + j < |t| && Cell(t, r, j) == Some(x) && Diagonal(r, j) == x - y
  {
    hide Row;
    j := (x - y + r) / 2;
  }

  /** A predecessor is a recorded endpoint of the row before, one edit away. */
  lemma PredecessorIsRecorded(t: Trace, r: nat, k: int, n: nat, m: nat)
    requires 0 < r && Predecessor(t, r, k, n, m).Some?
    ensures
      var s := Predecessor(t, r, k, n, m).value;
      && Recorded(t, r - 1, s.px, s.py)
      && s.px <= s.start && s.py <= s.start - k
      && (s.start - s.px) + (s.start - k - s.py) == 1
      && (s.start == s.px || s.px < n) && s.start - k <= m
  {
    hide Row;
  }

  /** No eligible edit from the row before leads further along its diagonal than the
      predecessor's step, and where an insertion leads just as far it is the one taken. */
  lemma FurthestStep(t: Trace, r: nat, n: nat, m: nat, px: nat, py: nat, x: nat, y: nat)
    requires Recorded(t, r, px, py) && x <= n && y <= m
    requires (x == px + 1 && y == py) || (x == px && y == py + 1)
    ensures
      var p := Predecessor(t, r + 1, x - y, n, m);
      p.Some? && x <= p.value.start && (x == p.value.start && x == px ==> p.value == Step(x, px, py))
  {
    hide Row, Previous;
    if x == px {
      assert DownStep(Previous(t, r, x - y + 1), x - y, n, m) == Some(Step(x, px, py));
    } else {
      assert RightStep(Previous(t, r, x - y - 1), x - y, n, m) == Some(Step(x, px, py));
    }
  }

  lemma PreviousIsStable(t: Trace, u: Trace, r: nat, k: int)
    requires t <= u && Row(r + 1) <= |t|
    ensures Previous(u, r, k) == Previous(t, r, k)
  {
    RowStep(r);
  }

  /** Pushing cells never changes a predecessor taken from complete rows. */
  lemma PredecessorIsStable(t: Trace, u: Trace, r: nat, k: int, n: nat, m: nat)
    requires t <= u && Row(r) <= |t|
    ensures Predecessor(u, r, k, n, m) == Predecessor(t, r, k, n, m)
  {
    if 0 < r {
      PreviousIsStable(t, u, r - 1, k - 1);
      PreviousIsStable(t, u, r - 1, k + 1);
    }
  }

  // ----- Remaining distance -----

  function Rest<T(==)>(a: seq<T>, b: seq<T>, x: nat, y: nat): nat
    requires x <= |a| && y <= |b|
  {
    Distance(a[x..], b[y..])
  }

  ghost predicate Stuck<T>(a: seq<T>, b: seq<T>, x: nat, y: nat) {
    x < |a| && y < |b| ==> a[x] != b[y]
  }

  lemma EverythingRests<T>(a: seq<T>, b: seq<T>)
    ensures Rest(a, b, 0, 0) == Distance(a, b)
  {
    assert a[0..] == a && b[0..] == b;
  }

  lemma NothingLeft<T>(a: seq<T>, b: seq<T>)
    ensures Rest(a, b, |a|, |b|) == 0
  {
  }

  lemma RestAfterEdit<T>(a: seq<T>, b: seq<T>, x: nat, y: nat)
    requires x <= |a| && y <= |b|
    ensures x < |a| ==> Rest(a, b, x, y) <= Rest(a, b, x + 1, y) + 1
    ensures y < |b| ==> Rest(a, b, x, y) <= Rest(a, b, x, y + 1) + 1
  {
    hide Distance;
    DropOne(a[x..], b[y..]);
    if x < |a| { assert a[x..][1..] == a[x + 1..]; }
    if y < |b| { assert b[y..][1..] == b[y + 1..]; }
  }

  /** From a stuck point that is not finished, one of the two in-grid edits
      brings the end one edit closer. */
  lemma RestHelps<T>(a: seq<T>, b: seq<T>, x: nat, y: nat)
    requires x <= |a| && y <= |b| && Stuck(a, b, x, y) && 0 < Rest(a, b, x, y)
    ensures
      || (x < |a| && Rest(a, b, x + 1, y) == Rest(a, b, x, y) - 1)
      || (y < |b| && Rest(a, b, x, y + 1) == Rest(a, b, x, y) - 1)
  {
    hide Distance;
    SomeEditHelps(a[x..], b[y..]);
    if x < |a| { assert a[x..][1..] == a[x + 1..]; }
    if y < |b| { assert b[y..][1..] == b[y + 1..]; }
  }

  lemma {:induction false} RestAlongDiagonal<T>(a: seq<T>, b: seq<T>, x: nat, y: nat, z: nat)
    requires x <= z <= |a| && y + (z - x) <= |b|
    ensures Rest(a, b, z, y + (z - x)) <= Rest(a, b, x, y)
    decreases z - x
  {
    hide Distance;
    if x < z {
      assert a[x..][1..] == a[x + 1..] && b[y..][1..] == b[y + 1..];
      DropBoth(a[x..], b[y..]);
      RestAlongDiagonal(a, b, x + 1, y + 1, z);
    }
  }

  lemma RestAlongSnake<T>(a: seq<T>, b: seq<T>, x: nat, y: nat, z: nat)
    requires x <= z <= |a| && y + (z - x) <= |b|
    requires a[x..z] == b[y..y + (z - x)]
    ensures Rest(a, b, z, y + (z - x)) == Rest(a, b, x, y)
  {
    hide Distance;
    var w := y + (z - x);
    assert a[x..] == a[x..z] + a[z..] && b[y..] == b[y..w] + b[w..];
    SharedPrefix(a[x..z], a[z..], b[w..]);
  }

  lemma NothingRests<T>(a: seq<T>, b: seq<T>, x: nat, y: nat)
    requires x <= |a| && y <= |b| && Stuck(a, b, x, y) && Rest(a, b, x, y) == 0
    ensures x == |a| && y == |b|
  {
    ZeroMeansEqual(a[x..], b[y..]);
  }

  // ----- What every recorded cell keeps -----

  /** A hole has no eligible predecessor. Any other cell is the end of the
      maximal run of equal bytes from its predecessor's step, and no r edits plus
      the rest undercut the true distance. */
  ghost predicate CellOk<T>(t: Trace, a: seq<T>, b: seq<T>, r: nat, j: nat)
    requires Row(r) + j < |t|
  {
    var k := Diagonal(r, j);
    var p := Predecessor(t, r, k, |a|, |b|);
    match Cell(t, r, j)
    case None => p.None?
    case Some(x) => p.Some? && Snake(a, b, k, p.value.start, x) && Distance(a, b) <= r + Rest(a, b, x, x - k)
  }

  /** Equal bytes from `start` to `x` on diagonal k, inside the grid. */
  ghost predicate Matched<T>(a: seq<T>, b: seq<T>, k: int, start: nat, x: nat) {
    && start <= x <= |a| && 0 <= start - k && x - k <= |b|
    && a[start..x] == b[start - k..x - k]
  }

  /** The maximal run of equal bytes from `start`, ending at `x`. */
  ghost predicate Snake<T>(a: seq<T>, b: seq<T>, k: int, start: nat, x: nat) {
    Matched(a, b, k, start, x) && Stuck(a, b, x, x - k)
  }

  ghost predicate AllCellsOk<T>(t: Trace, a: seq<T>, b: seq<T>) {
    forall r: nat, j: nat :: j <= r && Row(r) + j < |t| ==> CellOk(t, a, b, r, j)
  }

  ghost predicate AtGoal<T>(t: Trace, a: seq<T>, b: seq<T>, r: nat, j: nat)
    requires Row(r) + j < |t|
  {
    Cell(t, r, j) == Some(|a|) && |a| - Diagonal(r, j) == |b|
  }

  ghost predicate NoGoal<T>(t: Trace, a: seq<T>, b: seq<T>) {
    forall r: nat, j: nat :: j <= r && Row(r) + j < |t| ==> !AtGoal(t, a, b, r, j)
  }

  /** Some cell of row r lies on a shortest path. */
  ghost predicate OnShortest<T>(t: Trace, a: seq<T>, b: seq<T>, r: nat, j: nat)
    requires Row(r) + j < |t|
  {
    match Cell(t, r, j)
    case None => false
    case Some(x) =>
      var y := x - Diagonal(r, j);
      x <= |a| && 0 <= y <= |b| && r + Rest(a, b, x, y) == Distance(a, b)
  }

  ghost predicate RowOnShortest<T>(t: Trace, a: seq<T>, b: seq<T>, r: nat)
    requires Row(r + 1) <= |t|
  {
    RowStep(r);
    exists j: nat :: j <= r && OnShortest(t, a, b, r, j)
  }

  lemma CellStays<T>(t: Trace, u: Trace, a: seq<T>, b: seq<T>, r: nat, j: nat)
    requires t <= u && j <= r && Row(r) + j < |t| && CellOk(t, a, b, r, j)
    ensures CellOk(u, a, b, r, j)
  {
    hide Distance, Rest, Snake, Predecessor, Row;
    PredecessorIsStable(t, u, r, Diagonal(r, j), |a|, |b|);
    assert Cell(u, r, j) == Cell(t, r, j);
  }

  /** Pushing one more cell keeps everything recorded so far. */
  lemma PushKeepsCells<T>(t: Trace, cell: Option<nat>, a: seq<T>, b: seq<T>, d: nat, c: nat)
    requires AllCellsOk(t, a, b) && |t| == Row(d) + c && c <= d
    requires CellOk(t + [cell], a, b, d, c)
    ensures AllCellsOk(t + [cell], a, b)
  {
    hide CellOk, Row;
    var u := t + [cell];
    forall r: nat, j: nat | j <= r && Row(r) + j < |u|
      ensures CellOk(u, a, b, r, j)
    {
      if Row(r) + j < |t| {
        CellStays(t, u, a, b, r, j);
      } else {
        LayoutIsInjective(r, j, d, c);
      }
    }
  }

  lemma PushKeepsNoGoal<T>(t: Trace, cell: Option<nat>, a: seq<T>, b: seq<T>, d: nat, c: nat)
    requires NoGoal(t, a, b) && |t| == Row(d) + c && c <= d
    requires cell.Some? ==> cell.value != |a| || |a| - Diagonal(d, c) != |b|
    ensures NoGoal(t + [cell], a, b)
  {
    hide Distance;
    var u := t + [cell];
    forall r: nat, j: nat | j <= r && Row(r) + j < |u|
      ensures !AtGoal(u, a, b, r, j)
    {
      if Row(r) + j < |t| {
        assert !AtGoal(t, a, b, r, j);
        assert Cell(u, r, j) == Cell(t, r, j);
      } else {
        LayoutIsInjective(r, j, d, c);
      }
    }
  }

  /** What a recorded cell says about the captures alone. */
  lemma CellIsSound<T>(t: Trace, a: seq<T>, b: seq<T>, r: nat, j: nat)
    requires AllCellsOk(t, a, b) && j <= r && Row(r) + j < |t| && Cell(t, r, j).Some?
    ensures
      var x := Cell(t, r, j).value;
      var y := x - Diagonal(r, j);
      x <= |a| && 0 <= y <= |b| && Stuck(a, b, x, y) && Distance(a, b) <= r + Rest(a, b, x, y)
  {
    hide Distance;
    assert CellOk(t, a, b, r, j);
  }

  lemma CellAt<T>(t: Trace, a: seq<T>, b: seq<T>, r: nat, j: nat)
    requires AllCellsOk(t, a, b) && j <= r && Row(r) + j < |t|
    ensures CellOk(t, a, b, r, j)
  {
    hide CellOk, Row;
  }

  lemma SnakeInside<T>(a: seq<T>, b: seq<T>, k: int, start: nat, x: nat)
    requires Snake(a, b, k, start, x)
    ensures x <= |a| && 0 <= x - k <= |b|
  {
  }

  /** Where a recorded endpoint's snake starts, and that it is sound. */
  lemma RecordedIsSound<T>(t: Trace, a: seq<T>, b: seq<T>, r: nat, x: nat, y: nat)
    requires AllCellsOk(t, a, b) && Recorded(t, r, x, y)
    ensures Predecessor(t, r, x - y, |a|, |b|).Some?
    ensures Snake(a, b, x - y, Predecessor(t, r, x - y, |a|, |b|).value.start, x)
    ensures x <= |a| && y <= |b| && Distance(a, b) <= r + Rest(a, b, x, y) && Abs(x - y) <= r
  {
    hide Distance, Predecessor, Rest, Previous, Row, Cell, Recorded, Snake, AllCellsOk;
    var j := RecordedCell(t, r, x, y);
    CellAt(t, a, b, r, j);
    SnakeInside(a, b, x - y, Predecessor(t, r, x - y, |a|, |b|).value.start, x);
  }

  lemma EditIsSound<T>(a: seq<T>, b: seq<T>, r: nat, px: nat, py: nat, x: nat, y: nat)
    requires px <= x <= |a| && py <= y <= |b| && x - px + y - py == 1
    requires Distance(a, b) <= r + Rest(a, b, px, py)
    ensures Distance(a, b) <= r + 1 + Rest(a, b, x, y)
  {
    hide Distance;
    RestAfterEdit(a, b, px, py);
  }

  /** The start of a snake never undercuts the true distance. */
  lemma StartIsSound<T>(t: Trace, a: seq<T>, b: seq<T>, r: nat, k: int)
    requires AllCellsOk(t, a, b)
    requires Predecessor(t, r, k, |a|, |b|).Some?
    requires r == 0 ==> k == 0
    ensures
      var s := Predecessor(t, r, k, |a|, |b|).value.start;
      s <= |a| && 0 <= s - k <= |b| && Distance(a, b) <= r + Rest(a, b, s, s - k)
  {
    hide Distance, Rest, Previous, CellOk, AllCellsOk, Cell, Further, Row;
    if r == 0 {
      EverythingRests(a, b);
    } else {
      PredecessorIsRecorded(t, r, k, |a|, |b|);
      var s := Predecessor(t, r, k, |a|, |b|).value;
      hide Predecessor, Recorded, Snake;
      RecordedIsSound(t, a, b, r - 1, s.px, s.py);
      EditIsSound(a, b, r - 1, s.px, s.py, s.start, s.start - k);
    }
  }

  /** The snake from a sound start ends in a sound cell. */
  lemma SnakeIsSound<T>(t: Trace, a: seq<T>, b: seq<T>, d: nat, c: nat, x: nat)
    requires AllCellsOk(t, a, b) && |t| == Row(d) + c && c <= d
    requires Predecessor(t, d, Diagonal(d, c), |a|, |b|).Some?
    requires Snake(a, b, Diagonal(d, c), Predecessor(t, d, Diagonal(d, c), |a|, |b|).value.start, x)
    ensures CellOk(t + [Some(x)], a, b, d, c)
  {
    hide Distance, Previous, Row, AllCellsOk, Predecessor;
    var k := Diagonal(d, c);
    StartIsSound(t, a, b, d, k);
    var s := Predecessor(t, d, k, |a|, |b|).value.start;
    RestAlongSnake(a, b, s, s - k, x);
    PredecessorIsStable(t, t + [Some(x)], d, k, |a|, |b|);
  }

  lemma HoleIsSound<T>(t: Trace, a: seq<T>, b: seq<T>, d: nat, c: nat)
    requires |t| == Row(d) + c && c <= d
    requires Predecessor(t, d, Diagonal(d, c), |a|, |b|).None?
    ensures CellOk(t + [None], a, b, d, c)
  {
    hide Distance;
    PredecessorIsStable(t, t + [None], d, Diagonal(d, c), |a|, |b|);
  }

  // ----- Shortest paths are never lost -----

  /** An eligible edit from row r is either taken in row r + 1 or beaten by a
      start further along the same diagonal. */
  lemma EligibleEditIsMet(t: Trace, r: nat, j: nat, px: nat, k: int, n: nat, m: nat, x: nat)
    requires j <= r && Row(r) + j < |t| && Cell(t, r, j) == Some(px)
    requires x <= n && 0 <= x - k <= m
    requires
      || (k == Diagonal(r, j) + 1 && x == px + 1)
      || (k == Diagonal(r, j) - 1 && x == px && 0 < x - k)
    ensures Predecessor(t, r + 1, k, n, m).Some?
    ensures x <= Predecessor(t, r + 1, k, n, m).value.start
  {
    CellIsPrevious(t, r, j);
    hide Row, Cell, Previous, Predecessor;
    FurthestStep(t, r, n, m, px, px - Diagonal(r, j), x, x - k);
  }

  /** If an edit leads to (x, x - k) one edit closer to the end, the cell of the
      next row on diagonal k is on a shortest path too. */
  lemma ShortestContinues<T>(t: Trace, a: seq<T>, b: seq<T>, r: nat, c: nat, x: nat)
    requires c <= r + 1 && Row(r + 1) + c < |t| && CellOk(t, a, b, r + 1, c)
    requires
      var k := Diagonal(r + 1, c);
      && x <= |a| && 0 <= x - k <= |b| && r + 1 + Rest(a, b, x, x - k) == Distance(a, b)
      && Predecessor(t, r + 1, k, |a|, |b|).Some?
      && x <= Predecessor(t, r + 1, k, |a|, |b|).value.start
    ensures OnShortest(t, a, b, r + 1, c)
  {
    hide Distance;
    var k := Diagonal(r + 1, c);
    var z := Cell(t, r + 1, c).value;
    RestAlongDiagonal(a, b, x, x - k, z);
  }

  lemma NotAtGoal<T>(t: Trace, a: seq<T>, b: seq<T>, r: nat, j: nat)
    requires AllCellsOk(t, a, b) && j <= r && Row(r) + j < |t| && Cell(t, r, j).Some?
    requires !AtGoal(t, a, b, r, j)
    ensures
      var x := Cell(t, r, j).value;
      var y := x - Diagonal(r, j);
      x <= |a| && 0 <= y <= |b| && Stuck(a, b, x, y) && 0 < Rest(a, b, x, y)
  {
    hide Distance;
    CellIsSound(t, a, b, r, j);
    var x := Cell(t, r, j).value;
    if Rest(a, b, x, x - Diagonal(r, j)) == 0 {
      NothingRests(a, b, x, x - Diagonal(r, j));
    }
  }

  /** A shortest path through row r goes on through row r + 1. */
  lemma ShortestStep<T>(t: Trace, a: seq<T>, b: seq<T>, r: nat, j: nat) returns (c: nat)
    requires j <= r && Row(r) + j < |t| && Row(r + 1) + r + 1 < |t|
    requires AllCellsOk(t, a, b) && !AtGoal(t, a, b, r, j) && OnShortest(t, a, b, r, j)
    ensures c <= r + 1 && OnShortest(t, a, b, r + 1, c)
  {
    hide Distance, AllCellsOk, CellOk, Row, Predecessor, Rest, Stuck;
    var px := Cell(t, r, j).value;
    var py := px - Diagonal(r, j);
    NotAtGoal(t, a, b, r, j);
    RestHelps(a, b, px, py);
    var right := px < |a| && Rest(a, b, px + 1, py) == Rest(a, b, px, py) - 1;
    var x := if right then px + 1 else px;
    c := if right then j + 1 else j;
    CellAt(t, a, b, r + 1, c);
    EligibleEditIsMet(t, r, j, px, Diagonal(r + 1, c), |a|, |b|, x);
    ShortestContinues(t, a, b, r, c, x);
  }

  lemma RowContinues<T>(t: Trace, a: seq<T>, b: seq<T>, r: nat)
    requires Row(r + 2) <= |t| && Row(r + 1) <= |t|
    requires AllCellsOk(t, a, b) && NoGoal(t, a, b) && RowOnShortest(t, a, b, r)
    ensures RowOnShortest(t, a, b, r + 1)
  {
    RowStep(r);
    RowStep(r + 1);
    hide AllCellsOk, OnShortest, AtGoal, Row;
    var j: nat :| j <= r && OnShortest(t, a, b, r, j);
    var c := ShortestStep(t, a, b, r, j);
  }

  /** Row 0 starts on a shortest path. */
  lemma FirstRow<T>(t: Trace, a: seq<T>, b: seq<T>)
    requires 1 <= |t| && AllCellsOk(t, a, b)
    ensures Row(1) <= |t| && RowOnShortest(t, a, b, 0)
  {
    hide Distance;
    assert CellOk(t, a, b, 0, 0);
    var x := Cell(t, 0, 0).value;
    RestAlongSnake(a, b, 0, 0, x);
    EverythingRests(a, b);
    assert OnShortest(t, a, b, 0, 0);
  }

  /** While the goal has not been met, every complete row is still on a shortest
      path, so the true distance lies beyond it. */
  lemma CompleteRowIsShort<T>(t: Trace, a: seq<T>, b: seq<T>, r: nat)
    requires Row(r + 1) <= |t| && AllCellsOk(t, a, b) && NoGoal(t, a, b)
    requires RowOnShortest(t, a, b, r)
    ensures r < Distance(a, b)
  {
    hide Distance;
    RowStep(r);
    var j: nat :| j <= r && OnShortest(t, a, b, r, j);
    var x := Cell(t, r, j).value;
    NotAtGoal(t, a, b, r, j);
  }

  /** All rows up to r complete without the goal: every script needs more than r
      edits. */
  lemma {:induction false} NoGoalMeansFar<T>(t: Trace, a: seq<T>, b: seq<T>, r: nat)
    requires Row(r + 1) <= |t| && AllCellsOk(t, a, b) && NoGoal(t, a, b)
    ensures RowOnShortest(t, a, b, r) && r < Distance(a, b)
    decreases r
  {
    hide Distance;
    if r == 0 {
      FirstRow(t, a, b);
    } else {
      RowStep(r);
      NoGoalMeansFar(t, a, b, r - 1);
      RowContinues(t, a, b, r - 1);
    }
    CompleteRowIsShort(t, a, b, r);
  }

  /** Meeting the goal for the first time in row d: d is the distance, and no
      longer script was needed. */
  lemma GoalIsShortest<T>(t: Trace, a: seq<T>, b: seq<T>, d: nat, c: nat)
    requires AllCellsOk(t, a, b) && NoGoal(t, a, b) && |t| == Row(d) + c && c <= d
    requires AllCellsOk(t + [Some(|a|)], a, b) && |a| - Diagonal(d, c) == |b|
    ensures Distance(a, b) == d
  {
    hide Distance, AllCellsOk, NoGoal, Rest;
    var u := t + [Some(|a|)];
    assert Cell(u, d, c) == Some(|a|);
    CellIsSound(u, a, b, d, c);
    NothingLeft(a, b);
    if 0 < d { NoGoalMeansFar(t, a, b, d - 1); }
  }
}
