/// The board of a Connect-N game (Assets/Scripts/Field.cs).
///
/// The first half of the module is the abstract value of a board and the
/// functions that specify the board operations; the second half is the class
/// `Field`, which keeps the grid in a two-dimensional array and updates it in
/// place, and whose methods are proved against those functions.
module Board {

  /// Contents of one cell: `Yellow` is the human player's piece, `Red` the
  /// computer's.
  datatype PieceType = Empty | Yellow | Red

  /// A grid indexed like the source's array: `g[x][y]` is column `x`, row `y`,
  /// and row 0 is the top of the board.
  type Grid = seq<seq<PieceType>>

  /// The abstract value of a `Field`.
  datatype State = State(
    rows: int, columns: int, piecesToWin: int, allowDiagonal: bool,
    grid: Grid, isPlayersTurn: bool, pieces: int,
    dropColumn: int, dropRow: int)

  predicate Shaped(g: Grid, columns: int, rows: int) {
    |g| == columns && forall x :: 0 <= x < |g| ==> |g[x]| == rows
  }

  /// Shape invariant: the grid has the stated dimensions and the recorded
  /// last move is a cell of it.
  predicate WellFormed(s: State) {
    && 1 <= s.rows && 1 <= s.columns
    && Shaped(s.grid, s.columns, s.rows)
    && 0 <= s.dropColumn < s.columns && 0 <= s.dropRow < s.rows
  }

  /// Counting invariant: the piece counter equals the number of occupied cells.
  predicate Counted(s: State) {
    s.pieces == Filled(s.grid)
  }

  /// The piece of the side whose turn it is.
  function PieceOf(isPlayersTurn: bool): PieceType {
    if isPlayersTurn then Yellow else Red
  }

  // ----- columns and legal moves -----

  /// Pieces rest on one another: below an occupied cell (at a higher row
  /// index) every cell is occupied.
  predicate SettledColumn(col: seq<PieceType>) {
    forall y, y' :: 0 <= y < y' < |col| && col[y] != Empty ==> col[y'] != Empty
  }

  /// No piece of the grid floats.
  predicate Settled(g: Grid) {
    forall x :: 0 <= x < |g| ==> SettledColumn(g[x])
  }

  predicate ColumnFull(col: seq<PieceType>) {
    forall y :: 0 <= y < |col| ==> col[y] != Empty
  }

  /// The row a piece dropped into this column comes to rest on: the
  /// highest-indexed empty row (the lowest on screen), or -1 for a full column.
  function HighestEmpty(col: seq<PieceType>): (r: int)
    ensures -1 <= r < |col|
    ensures r == -1 <==> ColumnFull(col)
    ensures 0 <= r ==> col[r] == Empty && forall y :: r < y < |col| ==> col[y] != Empty
  {
    if |col| == 0 then -1
    else if col[|col| - 1] == Empty then |col| - 1
    else HighestEmpty(col[..|col| - 1])
  }

  /// The columns below `n` that are not full, in increasing order.
  function PossibleDrops(g: Grid, n: nat): (r: seq<int>)
    requires n <= |g|
    ensures forall i, j :: 0 <= i < j < |r| ==> r[i] < r[j]
    ensures forall c :: c in r <==> 0 <= c < n && !ColumnFull(g[c])
  {
    if n == 0 then []
    else
      var r := PossibleDrops(g, n - 1);
      if ColumnFull(g[n - 1]) then r
      else
        assert forall i :: 0 <= i < |r| ==> r[i] in r;
        assert forall c :: c in r + [n - 1] <==> c in r || c == n - 1;
        r + [n - 1]
  }

  /// The legal moves of a board.
  function Drops(s: State): seq<int>
    requires WellFormed(s)
  {
    PossibleDrops(s.grid, s.columns)
  }

  // ----- counting pieces -----

  function FilledIn(col: seq<PieceType>): nat {
    if |col| == 0 then 0
    else (if col[0] == Empty then 0 else 1) + FilledIn(col[1..])
  }

  /// Number of occupied cells of a grid.
  function Filled(g: Grid): nat {
    if |g| == 0 then 0 else FilledIn(g[0]) + Filled(g[1..])
  }

  /// Occupying one empty cell of a column adds one to its count.
  lemma {:induction false} FilledInPlace(col: seq<PieceType>, y: int, p: PieceType)
    requires 0 <= y < |col| && col[y] == Empty && p != Empty
    ensures FilledIn(col[y := p]) == FilledIn(col) + 1
  {
    if y > 0 {
      assert col[y := p][1..] == col[1..][y - 1 := p];
      FilledInPlace(col[1..], y - 1, p);
    } else {
      assert col[y := p][1..] == col[1..];
    }
  }

  /// Occupying one empty cell of a grid adds one to its count.
  lemma {:induction false} FilledPlace(g: Grid, x: int, y: int, p: PieceType)
    requires 0 <= x < |g| && 0 <= y < |g[x]| && g[x][y] == Empty && p != Empty
    ensures Filled(g[x := g[x][y := p]]) == Filled(g) + 1
  {
    var h := g[x := g[x][y := p]];
    if x > 0 {
      assert h[1..] == g[1..][x - 1 := g[x][y := p]];
      FilledPlace(g[1..], x - 1, y, p);
    } else {
      assert h[1..] == g[1..];
      FilledInPlace(g[0], y, p);
    }
  }

  /// A column holds at most as many pieces as it has cells, and exactly as many
  /// when it is full.
  lemma {:induction false} FilledInBound(col: seq<PieceType>)
    ensures FilledIn(col) <= |col|
    ensures FilledIn(col) == |col| <==> ColumnFull(col)
  {
    if |col| > 0 {
      FilledInBound(col[1..]);
      if ColumnFull(col) {
        assert ColumnFull(col[1..]) by {
          forall y | 0 <= y < |col[1..]| ensures col[1..][y] != Empty {
            assert col[1..][y] == col[y + 1];
          }
        }
      }
      if FilledIn(col) == |col| {
        forall y | 0 <= y < |col| ensures col[y] != Empty {
          if y > 0 { assert col[y] == col[1..][y - 1]; }
        }
      }
    }
  }

  /// A `columns x rows` grid holds at most `columns * rows` pieces, and exactly
  /// that many when every column is full.
  lemma {:induction false} FilledBound(g: Grid, columns: nat, rows: nat)
    requires Shaped(g, columns, rows)
    ensures Filled(g) <= columns * rows
    ensures Filled(g) == columns * rows <==> forall x :: 0 <= x < columns ==> ColumnFull(g[x])
  {
    if columns > 0 {
      FilledInBound(g[0]);
      FilledBound(g[1..], columns - 1, rows);
      assert columns * rows == rows + (columns - 1) * rows;
      if forall x :: 0 <= x < columns ==> ColumnFull(g[x]) {
        assert forall x :: 0 <= x < columns - 1 ==> ColumnFull(g[1..][x]) by {
          forall x | 0 <= x < columns - 1 ensures ColumnFull(g[1..][x]) {
            assert g[1..][x] == g[x + 1];
          }
        }
      }
      if Filled(g) == columns * rows {
        forall x | 0 <= x < columns ensures ColumnFull(g[x]) {
          if x > 0 { assert g[x] == g[1..][x - 1]; }
        }
      }
    }
  }

  /// The counter shows room left exactly when some column has a legal move:
  /// `ContainsEmptyCell` and `GetPossibleDrops` agree on a counted board.
  lemma RoomIffDrops(s: State)
    requires WellFormed(s) && Counted(s)
    ensures s.pieces < s.rows * s.columns <==> Drops(s) != []
    ensures s.pieces <= s.rows * s.columns
  {
    FilledBound(s.grid, s.columns, s.rows);
    if s.pieces < s.rows * s.columns {
      var x :| 0 <= x < s.columns && !ColumnFull(s.grid[x]);
      assert x in Drops(s);
    }
    if Drops(s) != [] {
      assert Drops(s)[0] in Drops(s);
    }
  }

  // ----- moves -----

  /// `DropInColumn`: the mover's piece lands on the highest-indexed empty row
  /// of the column; a full column leaves the board as it was.
  function Dropped(s: State, col: int): (r: State)
    requires WellFormed(s) && 0 <= col < s.columns
    ensures WellFormed(r)
    ensures Counted(s) ==> Counted(r)
    ensures r.rows == s.rows && r.columns == s.columns && r.piecesToWin == s.piecesToWin
    ensures r.allowDiagonal == s.allowDiagonal && r.isPlayersTurn == s.isPlayersTurn
  {
    var row := HighestEmpty(s.grid[col]);
    if row < 0 then s
    else
      FilledPlace(s.grid, col, row, PieceOf(s.isPlayersTurn));
      s.(grid := s.grid[col := s.grid[col][row := PieceOf(s.isPlayersTurn)]],
         pieces := s.pieces + 1, dropColumn := col, dropRow := row)
  }

  /// `SwitchPlayer`.
  function Switched(s: State): State {
    s.(isPlayersTurn := !s.isPlayersTurn)
  }

  /// A drop lands on top of the pieces already in the column, so no piece
  /// floats afterwards.
  lemma DroppedKeepsSettled(s: State, col: int)
    requires WellFormed(s) && 0 <= col < s.columns && Settled(s.grid)
    ensures Settled(Dropped(s, col).grid)
  {
    var row := HighestEmpty(s.grid[col]);
    if row >= 0 {
      var old_col, new_col := s.grid[col], s.grid[col][row := PieceOf(s.isPlayersTurn)];
      assert SettledColumn(old_col);
      forall y, y' | 0 <= y < y' < |new_col| && new_col[y] != Empty ensures new_col[y'] != Empty {
        if y != row && y' != row {
          assert old_col[y] != Empty;
        }
      }
      assert Dropped(s, col).grid == s.grid[col := new_col];
    }
  }

  /// In a column without floating pieces, the column is full exactly when
  /// its top cell (row 0) is occupied.
  lemma FullIffTopOccupied(col: seq<PieceType>)
    requires SettledColumn(col) && |col| >= 1
    ensures ColumnFull(col) <==> col[0] != Empty
  {
    if col[0] != Empty {
      forall y | 0 <= y < |col| ensures col[y] != Empty {
        if y > 0 {
          assert col[0] != Empty;
        }
      }
    }
  }

  /// Handing over the move changes neither the outcome nor, done twice,
  /// the board.
  lemma SwitchKeepsOutcome(s: State)
    requires WellFormed(s)
    ensures Victory(Switched(s)) == Victory(s) && Terminal(Switched(s)) == Terminal(s)
    ensures Switched(Switched(s)) == s
  {
  }

  /// One move of the search: a drop followed by a change of turn.
  function Played(s: State, col: int): State
    requires WellFormed(s) && 0 <= col < s.columns
  {
    Switched(Dropped(s, col))
  }

  /// What a drop does to a board, cell by cell.
  lemma DropPlacesOnePiece(s: State, col: int)
    requires WellFormed(s) && Counted(s) && 0 <= col < s.columns
    ensures var r := Dropped(s, col); var row := HighestEmpty(s.grid[col]);
      && (ColumnFull(s.grid[col]) ==> r == s)
      && (!ColumnFull(s.grid[col]) ==>
            && s.grid[col][row] == Empty
            && r.grid[col][row] == PieceOf(s.isPlayersTurn)
            && (forall x, y :: 0 <= x < s.columns && 0 <= y < s.rows && (x, y) != (col, row) ==>
                  r.grid[x][y] == s.grid[x][y])
            && (forall y :: row <= y < s.rows ==> r.grid[col][y] != Empty)
            && r.pieces == s.pieces + 1 && r.dropColumn == col && r.dropRow == row)
  {
  }

  /// After a drop the column is still a legal move exactly when it kept an
  /// empty cell, and the other columns keep their status.
  lemma DropKeepsOtherMoves(s: State, col: int, c: int)
    requires WellFormed(s) && 0 <= col < s.columns
    requires c != col
    ensures c in Drops(Dropped(s, col)) <==> c in Drops(s)
  {
  }

  // ----- the win check -----

  /// Coordinate `d` steps from `v` along a direction component `dv`
  /// (`d` may be negative).
  function Off(v: int, dv: int, d: int): int {
    if dv > 0 then v + d else if dv < 0 then v - d else v
  }

  predicate CellIs(g: Grid, x: int, y: int, colour: PieceType) {
    0 <= x < |g| && 0 <= y < |g[x]| && g[x][y] == colour
  }

  /// The cell `d` steps from `(x, y)` along `(dx, dy)` is on the board and
  /// holds `colour`.
  predicate Matches(g: Grid, x: int, y: int, dx: int, dy: int, colour: PieceType, d: int) {
    CellIs(g, Off(x, dx, d), Off(y, dy, d), colour)
  }

  /// Length of the run of `colour` pieces that starts next to `(x, y)` and
  /// extends along `(dx, dy)`, counting at most `k` cells.
  function RunLen(g: Grid, x: int, y: int, dx: int, dy: int, colour: PieceType, k: nat): (r: nat)
    ensures r <= k
    ensures forall d :: 1 <= d <= r ==> Matches(g, x, y, dx, dy, colour, d)
    ensures r < k ==> !Matches(g, x, y, dx, dy, colour, r + 1)
  {
    if k == 0 then 0
    else
      var p := RunLen(g, x, y, dx, dy, colour, k - 1);
      if p == k - 1 && Matches(g, x, y, dx, dy, colour, k) then k else p
  }

  /// Pieces counted along one axis through `(x, y)`: the piece itself, the
  /// run along `(dx, dy)` and, when `both`, the run the opposite way.
  function AxisCount(g: Grid, x: int, y: int, colour: PieceType, n: nat, dx: int, dy: int, both: bool): nat {
    1 + RunLen(g, x, y, dx, dy, colour, n) + (if both then RunLen(g, x, y, -dx, -dy, colour, n) else 0)
  }

  /// `CheckForVictory`: the last piece played completes a run of
  /// `piecesToWin`, looking downwards in its column, both ways along its row
  /// and, when diagonals are allowed, both ways along both diagonals.
  predicate Victory(s: State)
    requires WellFormed(s)
  {
    var g, x, y, n := s.grid, s.dropColumn, s.dropRow, s.piecesToWin;
    var colour := g[x][y];
    && colour != Empty && 1 <= n
    && (|| AxisCount(g, x, y, colour, n, 0, 1, false) >= n
        || AxisCount(g, x, y, colour, n, 1, 0, true) >= n
        || (s.allowDiagonal && (|| AxisCount(g, x, y, colour, n, 1, 1, true) >= n
                                || AxisCount(g, x, y, colour, n, 1, -1, true) >= n)))
  }

  /// The end-of-game test used by the search: no room left, or a win.
  predicate Terminal(s: State)
    requires WellFormed(s)
  {
    !(s.pieces < s.rows * s.columns) || Victory(s)
  }

  /// The cell `d` steps from `(x, y)` along `(dx, dy)` is on the board.
  predicate OnGrid(g: Grid, x: int, y: int, dx: int, dy: int, d: int) {
    0 <= Off(x, dx, d) < |g| && 0 <= Off(y, dy, d) < |g[Off(x, dx, d)]|
  }

  /// What a direction flag of `CheckForVictory` means after `i` steps: while
  /// it is set, the run is unbroken or has left the board; once cleared, the
  /// run stopped short of `i`.
  predicate ScanFlag(g: Grid, x: int, y: int, dx: int, dy: int, colour: PieceType, i: nat, flag: bool) {
    && (flag ==> RunLen(g, x, y, dx, dy, colour, i) == i || !OnGrid(g, x, y, dx, dy, i))
    && (!flag ==> RunLen(g, x, y, dx, dy, colour, i) < i)
  }

  /// One step of a direction scan. The cell at distance `i` is looked at
  /// only while the flag is set and the cell is `inside` the board; the run
  /// grows by one exactly when the cell looked at holds `colour`, and the flag
  /// is cleared when it holds anything else.
  lemma ScanStep(g: Grid, rows: int, x: int, y: int, dx: int, dy: int, colour: PieceType,
                 scanned: nat, i: nat, flag: bool, inside: bool, cell: PieceType)
    requires i == scanned + 1 && -1 <= dx <= 1 && -1 <= dy <= 1
    requires Shaped(g, |g|, rows) && OnGrid(g, x, y, dx, dy, 0)
    requires ScanFlag(g, x, y, dx, dy, colour, scanned, flag)
    requires inside == OnGrid(g, x, y, dx, dy, i)
    requires inside ==> cell == g[Off(x, dx, i)][Off(y, dy, i)]
    ensures RunLen(g, x, y, dx, dy, colour, i)
              == RunLen(g, x, y, dx, dy, colour, scanned) + (if flag && inside && cell == colour then 1 else 0)
    ensures ScanFlag(g, x, y, dx, dy, colour, i, if flag && inside then cell == colour else flag)
  {
  }

  /// `n` consecutive cells along `(dx, dy)`, the cell `(x, y)` being the
  /// `s`-th of them, all on the board and all holding `colour`.
  predicate LineAt(g: Grid, x: int, y: int, dx: int, dy: int, colour: PieceType, s: int, n: int) {
    forall t :: -s <= t < n - s ==> Matches(g, x, y, dx, dy, colour, t)
  }

  /// Some line of `n` cells along `(dx, dy)` through `(x, y)` holds only `colour`.
  predicate LineThrough(g: Grid, x: int, y: int, dx: int, dy: int, colour: PieceType, n: int) {
    exists s :: 0 <= s < n && LineAt(g, x, y, dx, dy, colour, s, n)
  }

  /// A run is at least `m` long when its first `m` cells match.
  lemma RunLenAtLeast(g: Grid, x: int, y: int, dx: int, dy: int, colour: PieceType, k: nat, m: nat)
    requires m <= k
    requires forall d :: 1 <= d <= m ==> Matches(g, x, y, dx, dy, colour, d)
    ensures m <= RunLen(g, x, y, dx, dy, colour, k)
  {
  }

  /// `AxisCount` both ways, with the opposite direction named `(ex, ey)`.
  lemma AxisCountBothWays(g: Grid, x: int, y: int, dx: int, dy: int, ex: int, ey: int, colour: PieceType, n: nat)
    requires ex == -dx && ey == -dy
    ensures AxisCount(g, x, y, colour, n, dx, dy, true)
              == 1 + RunLen(g, x, y, dx, dy, colour, n) + RunLen(g, x, y, ex, ey, colour, n)
  {
    assert RunLen(g, x, y, ex, ey, colour, n) == RunLen(g, x, y, -dx, -dy, colour, n);
  }

  /// A count reached within `i <= n` steps both ways is reached by
  /// `AxisCount` looking `n` steps both ways.
  lemma EarlyCountReaches(g: Grid, x: int, y: int, dx: int, dy: int, ex: int, ey: int, colour: PieceType, n: nat, i: nat)
    requires ex == -dx && ey == -dy && i <= n
    requires 1 + RunLen(g, x, y, dx, dy, colour, i) + RunLen(g, x, y, ex, ey, colour, i) >= n
    ensures AxisCount(g, x, y, colour, n, dx, dy, true) >= n
  {
    RunLenAtLeast(g, x, y, dx, dy, colour, n, RunLen(g, x, y, dx, dy, colour, i));
    RunLenAtLeast(g, x, y, ex, ey, colour, n, RunLen(g, x, y, ex, ey, colour, i));
    AxisCountBothWays(g, x, y, dx, dy, ex, ey, colour, n);
  }

  /// Runs of `a` cells one way and `b` the other give a line of `a + b + 1`.
  lemma {:induction false} RunsGiveLine(g: Grid, x: int, y: int, colour: PieceType, n: nat, dx: int, dy: int)
    requires 1 <= n && CellIs(g, x, y, colour)
    requires AxisCount(g, x, y, colour, n, dx, dy, true) >= n
    ensures LineThrough(g, x, y, dx, dy, colour, n)
  {
    var b := RunLen(g, x, y, -dx, -dy, colour, n);
    var s := if b < n - 1 then b else n - 1;
    forall t | -s <= t < n - s ensures Matches(g, x, y, dx, dy, colour, t) {
      if t < 0 {
        assert Matches(g, x, y, -dx, -dy, colour, -t);
      }
    }
    assert LineAt(g, x, y, dx, dy, colour, s, n);
  }

  /// A line through the cell makes the runs on both sides long enough.
  lemma {:induction false} LineGivesRuns(g: Grid, x: int, y: int, colour: PieceType, n: nat, dx: int, dy: int)
    requires 1 <= n
    requires LineThrough(g, x, y, dx, dy, colour, n)
    ensures AxisCount(g, x, y, colour, n, dx, dy, true) >= n
  {
    var s :| 0 <= s < n && LineAt(g, x, y, dx, dy, colour, s, n);
    var ex, ey := -dx, -dy;
    forall d | 1 <= d <= s ensures Matches(g, x, y, ex, ey, colour, d) {
      assert Matches(g, x, y, dx, dy, colour, -d);
    }
    RunLenAtLeast(g, x, y, ex, ey, colour, n, s);
    RunLenAtLeast(g, x, y, dx, dy, colour, n, n - 1 - s);
    AxisCountBothWays(g, x, y, dx, dy, ex, ey, colour, n);
  }

  /// Counting both ways along an axis reaches `n` exactly when a line of `n`
  /// same-coloured cells along that axis passes through the cell.
  lemma AxisCountIffLine(g: Grid, x: int, y: int, colour: PieceType, n: nat, dx: int, dy: int)
    requires 1 <= n && CellIs(g, x, y, colour)
    ensures AxisCount(g, x, y, colour, n, dx, dy, true) >= n <==> LineThrough(g, x, y, dx, dy, colour, n)
  {
    if AxisCount(g, x, y, colour, n, dx, dy, true) >= n {
      RunsGiveLine(g, x, y, colour, n, dx, dy);
    }
    if LineThrough(g, x, y, dx, dy, colour, n) {
      LineGivesRuns(g, x, y, colour, n, dx, dy);
    }
  }

  /// Counting downwards only reaches `n` exactly when the `n` cells from the
  /// last piece downwards all hold its colour.
  lemma {:induction false} DownCountIffLine(g: Grid, x: int, y: int, colour: PieceType, n: nat)
    requires 1 <= n && CellIs(g, x, y, colour)
    ensures AxisCount(g, x, y, colour, n, 0, 1, false) >= n <==> LineAt(g, x, y, 0, 1, colour, 0, n)
  {
    var a := RunLen(g, x, y, 0, 1, colour, n);
    if LineAt(g, x, y, 0, 1, colour, 0, n) {
      RunLenAtLeast(g, x, y, 0, 1, colour, n, n - 1);
    }
  }

  /// The win check, restated without counting: the last piece is part of a
  /// line of `piecesToWin` pieces of its colour that runs downwards from it,
  /// along its row, or (when allowed) along one of its diagonals.
  lemma VictoryIffLine(s: State)
    requires WellFormed(s)
    ensures var g, x, y, n := s.grid, s.dropColumn, s.dropRow, s.piecesToWin;
      var colour := g[x][y];
      Victory(s) <==>
        && colour != Empty && 1 <= n
        && (|| LineAt(g, x, y, 0, 1, colour, 0, n)
            || LineThrough(g, x, y, 1, 0, colour, n)
            || (s.allowDiagonal && (LineThrough(g, x, y, 1, 1, colour, n) || LineThrough(g, x, y, 1, -1, colour, n))))
  {
    var g, x, y, n := s.grid, s.dropColumn, s.dropRow, s.piecesToWin;
    var colour := g[x][y];
    if colour != Empty && 1 <= n {
      DownCountIffLine(g, x, y, colour, n);
      AxisCountIffLine(g, x, y, colour, n, 1, 0);
      AxisCountIffLine(g, x, y, colour, n, 1, 1);
      AxisCountIffLine(g, x, y, colour, n, 1, -1);
    }
  }

  // ----- the board object -----

  /// The board the game and every search worker play on. `field[x, y]` is
  /// column `x`, row `y`; the dimensions, the win length and the diagonal
  /// setting never change after construction.
  class Field {
    const numberRows: int
    const numberColumns: int
    const numberPiecesToWin: int
    const allowDiagonalConnection: bool
    const field: array2<PieceType>
    var isPlayersTurn: bool
    var piecesNumber: int
    // the last move
    var dropColumn: int
    var dropRow: int

    /// The array as a grid value.
    ghost function Cells(): Grid
      reads field
    {
      seq(field.Length0, x requires 0 <= x < field.Length0 reads field =>
        seq(field.Length1, y requires 0 <= y < field.Length1 reads field => field[x, y]))
    }

    /// The abstract value of this board.
    ghost function Model(): State
      reads this, field
    {
      State(numberRows, numberColumns, numberPiecesToWin, allowDiagonalConnection,
            Cells(), isPlayersTurn, piecesNumber, dropColumn, dropRow)
    }

    /// The array has the board's dimensions, the counter and last move are
    /// consistent with the grid, and no piece floats.
    ghost predicate Valid()
      reads this, field
    {
      && field.Length0 == numberColumns && field.Length1 == numberRows
      && WellFormed(Model()) && Counted(Model()) && Settled(Cells())
    }

    /// A new, empty board; the side to move first is decided by the caller's
    /// coin flip.
    constructor (numRows: int, numColumns: int, numPiecesToWin: int, allowDiagonally: bool, playersTurn: bool)
      requires 1 <= numRows && 1 <= numColumns
      ensures Valid() && fresh(field)
      ensures numberRows == numRows && numberColumns == numColumns
      ensures numberPiecesToWin == numPiecesToWin && allowDiagonalConnection == allowDiagonally
      ensures isPlayersTurn == playersTurn && piecesNumber == 0
      ensures dropColumn == 0 && dropRow == 0
      ensures forall x, y :: 0 <= x < numColumns && 0 <= y < numRows ==> field[x, y] == Empty
    {
      numberRows, numberColumns := numRows, numColumns;
      numberPiecesToWin, allowDiagonalConnection := numPiecesToWin, allowDiagonally;
      isPlayersTurn := playersTurn;
      piecesNumber := 0;
      var cells := new PieceType[numColumns, numRows];
      var x := 0;
      while x < numColumns
        invariant 0 <= x <= numColumns
        invariant forall i, j :: 0 <= i < x && 0 <= j < numRows ==> cells[i, j] == Empty
      {
        var y := 0;
        while y < numRows
          invariant 0 <= y <= numRows
          invariant forall i, j :: 0 <= i < x && 0 <= j < numRows ==> cells[i, j] == Empty
          invariant forall j :: 0 <= j < y ==> cells[x, j] == Empty
        {
          cells[x, y] := Empty;
          y := y + 1;
        }
        x := x + 1;
      }
      field := cells;
      dropColumn, dropRow := 0, 0;
      new;
      EmptyGridIsUnfilled();
    }

    /// The copying constructor: copies the scalars and every cell, but not the
    /// last move, which is left at `(0, 0)`.
    constructor Copy(numRows: int, numColumns: int, numPiecesToWin: int, allowDiagonally: bool,
                     playersTurn: bool, pieces: int, source: array2<PieceType>)
      requires 1 <= numRows && 1 <= numColumns
      requires numColumns <= source.Length0 && numRows <= source.Length1
      ensures fresh(field) && field.Length0 == numColumns && field.Length1 == numRows
      ensures numberRows == numRows && numberColumns == numColumns
      ensures numberPiecesToWin == numPiecesToWin && allowDiagonalConnection == allowDiagonally
      ensures isPlayersTurn == playersTurn && piecesNumber == pieces
      ensures dropColumn == 0 && dropRow == 0
      ensures forall x, y :: 0 <= x < numColumns && 0 <= y < numRows ==> field[x, y] == source[x, y]
    {
      numberRows, numberColumns := numRows, numColumns;
      numberPiecesToWin, allowDiagonalConnection := numPiecesToWin, allowDiagonally;
      isPlayersTurn := playersTurn;
      piecesNumber := pieces;
      var cells := new PieceType[numColumns, numRows];
      var x := 0;
      while x < numColumns
        invariant 0 <= x <= numColumns
        invariant forall i, j :: 0 <= i < x && 0 <= j < numRows ==> cells[i, j] == source[i, j]
      {
        var y := 0;
        while y < numRows
          invariant 0 <= y <= numRows
          invariant forall i, j :: 0 <= i < x && 0 <= j < numRows ==> cells[i, j] == source[i, j]
          invariant forall j :: 0 <= j < y ==> cells[x, j] == source[x, j]
        {
          cells[x, y] := source[x, y];
          y := y + 1;
        }
        x := x + 1;
      }
      field := cells;
      // never assigned here: the fields keep their zero default
      dropColumn, dropRow := 0, 0;
    }

    /// `GetPossibleCells`: every column that is not full, mapped to the row a
    /// piece dropped there would land on.
    method GetPossibleCells() returns (possibleCells: map<int, int>)
      requires Valid()
      ensures forall x :: x in possibleCells <==> 0 <= x < numberColumns && !ColumnFull(Cells()[x])
      ensures forall x :: x in possibleCells ==> possibleCells[x] == HighestEmpty(Cells()[x])
    {
      CellsAre();
      possibleCells := map[];
      var x := 0;
      while x < numberColumns
        invariant 0 <= x <= numberColumns
        invariant forall c :: c in possibleCells <==> 0 <= c < x && !ColumnFull(Cells()[c])
        invariant forall c :: c in possibleCells ==> possibleCells[c] == HighestEmpty(Cells()[c])
      {
        var y := numberRows - 1;
        while y >= 0
          invariant -1 <= y < numberRows
          invariant forall j :: y < j < numberRows ==> field[x, j] != Empty
        {
          if field[x, y] == Empty {
            possibleCells := possibleCells[x := y];
            break;
          }
          y := y - 1;
        }
        x := x + 1;
      }
    }

    /// `GetPossibleDrops`: the legal moves, i.e. the columns that are not
    /// full, in increasing order.
    method GetPossibleDrops() returns (possibleDrops: seq<int>)
      requires Valid()
      ensures possibleDrops == Drops(Model())
    {
      CellsAre();
      possibleDrops := [];
      var x := 0;
      while x < numberColumns
        invariant 0 <= x <= numberColumns
        invariant possibleDrops == PossibleDrops(Cells(), x)
      {
        var room := HasEmptyFromTop(x);
        if room {
          possibleDrops := possibleDrops + [x];
        }
        x := x + 1;
      }
    }

    /// The inner loop of `GetPossibleDrops`: column `x` scanned from the
    /// top row down for an empty cell.
    method HasEmptyFromTop(x: int) returns (room: bool)
      requires Valid() && 0 <= x < numberColumns
      ensures room == !ColumnFull(Cells()[x])
    {
      CellsAre();
      var y := numberRows - 1;
      while y >= 0
        invariant -1 <= y < numberRows
        invariant forall j :: y < j < numberRows ==> field[x, j] != Empty
      {
        if field[x, y] == Empty {
          return true;
        }
        y := y - 1;
      }
      return false;
    }

    /// `GetRandomMove`: some legal move, or -1 when there is none. The
    /// random index becomes an arbitrary choice.
    method GetRandomMove() returns (move: int)
      requires Valid()
      ensures Drops(Model()) == [] ==> move == -1
      ensures Drops(Model()) != [] ==> move in Drops(Model())
    {
      var moves := GetPossibleDrops();
      if |moves| > 0 {
        var k :| 0 <= k < |moves|;
        return moves[k];
      }
      return -1;
    }

    /// `DropInColumn`: places the mover's piece on the highest-indexed empty
    /// row of the column and returns that row, or returns -1 and changes
    /// nothing when the column is full. The turn is not switched.
    method DropInColumn(col: int) returns (row: int)
      requires Valid() && 0 <= col < numberColumns
      modifies this, field
      ensures Valid()
      ensures Model() == Dropped(old(Model()), col)
      ensures row == HighestEmpty(old(Cells())[col])
    {
      var full := IsColumnFull(col);
      if full {
        return -1;
      }
      CellsAre();
      ghost var g := Cells();
      var i := numberRows - 1;
      while field[col, i] != Empty
        invariant HighestEmpty(g[col]) <= i < numberRows
        invariant forall y :: i < y < numberRows ==> field[col, y] != Empty
        decreases i
      {
        i := i - 1;
      }
      var piece := if isPlayersTurn then Yellow else Red;
      field[col, i] := piece;
      piecesNumber := piecesNumber + 1;
      dropColumn := col;
      dropRow := i;
      CellsAre();
      assert Cells() == g[col := g[col][i := piece]] by {
        forall x | 0 <= x < numberColumns ensures Cells()[x] == g[col := g[col][i := piece]][x] {
        }
      }
      assert Model() == Dropped(old(Model()), col);
      DroppedKeepsSettled(old(Model()), col);
      return i;
    }

    /// `IsColumnFull`: no cell of the column is empty.
    method IsColumnFull(col: int) returns (full: bool)
      requires Valid() && 0 <= col < numberColumns
      ensures full == ColumnFull(Cells()[col])
    {
      CellsAre();
      var i := 0;
      while i < numberRows
        invariant 0 <= i <= numberRows
        invariant forall y :: 0 <= y < i ==> field[col, y] != Empty
      {
        if field[col, i] == Empty {
          return false;
        }
        i := i + 1;
      }
      return true;
    }

    /// `SwitchPlayer`: hands the move to the other side.
    method SwitchPlayer()
      modifies this
      ensures Model() == Switched(old(Model()))
      ensures Valid() == old(Valid())
    {
      isPlayersTurn := !isPlayersTurn;
    }

    /// A drop followed by the change of turn, as the search plays each of
    /// its moves.
    method DropAndSwitch(col: int)
      requires Valid() && 0 <= col < numberColumns
      modifies this, field
      ensures Valid() && Model() == Played(old(Model()), col)
    {
      var _ := DropInColumn(col);
      SwitchPlayer();
    }

    /// The cell `d` steps from the last move along `(dx, dy)` is on the board.
    predicate Inside(dx: int, dy: int, d: int)
      reads this
    {
      0 <= Off(dropColumn, dx, d) < numberColumns && 0 <= Off(dropRow, dy, d) < numberRows
    }

    /// `CheckForVictory`: whether the last piece played completes a line,
    /// scanning outwards from it with one flag per direction that is cleared
    /// at the first cell of another colour: downwards, then along the row,
    /// then along both diagonals when they are allowed. It changes nothing.
    method CheckForVictory() returns (won: bool)
      requires Valid()
      ensures won == Victory(Model())
    {
      var colour := field[dropColumn, dropRow];
      if colour == Empty {
        return false;
      }
      won := ScanDownwards(colour);
      if won {
        return;
      }
      won := ScanBothWays(colour, 1, 0);
      if won {
        return;
      }
      if allowDiagonalConnection {
        won := ScanBothWays(colour, 1, 1);
        if won {
          return;
        }
        won := ScanBothWays(colour, 1, -1);
      }
    }

    /// The vertical loop of `CheckForVictory`: the run below the last piece,
    /// counting the piece itself, reaches `numberPiecesToWin`.
    method ScanDownwards(colour: PieceType) returns (reached: bool)
      requires Valid() && colour == field[dropColumn, dropRow]
      ensures reached == (1 <= numberPiecesToWin
                          && AxisCount(Cells(), dropColumn, dropRow, colour, numberPiecesToWin, 0, 1, false) >= numberPiecesToWin)
    {
      ghost var g, x, y := Cells(), dropColumn, dropRow;
      var bottomDirection := true;
      var currentAlignment := 1;
      var i := 1;
      ghost var scanned: nat := 0;
      while i <= numberPiecesToWin
        invariant 1 <= i && (i == 1 || i <= numberPiecesToWin + 1) && scanned == i - 1
        invariant currentAlignment == 1 + RunLen(g, x, y, 0, 1, colour, scanned)
        invariant ScanFlag(g, x, y, 0, 1, colour, scanned, bottomDirection)
        invariant 1 < i ==> currentAlignment < numberPiecesToWin
      {
        bottomDirection, currentAlignment := StepOutwards(g, colour, 0, 1, scanned, i, bottomDirection, currentAlignment);
        if currentAlignment >= numberPiecesToWin {
          RunLenAtLeast(g, x, y, 0, 1, colour, numberPiecesToWin, currentAlignment - 1);
          return true;
        }
        scanned := i;
        i := i + 1;
      }
      return false;
    }

    /// One of the two-way loops of `CheckForVictory` (the row, and each
    /// diagonal): the runs on both sides of the last piece along `(dx, dy)`,
    /// plus the piece itself, reach `numberPiecesToWin`.
    method ScanBothWays(colour: PieceType, dx: int, dy: int) returns (reached: bool)
      requires Valid() && colour == field[dropColumn, dropRow]
      requires -1 <= dx <= 1 && -1 <= dy <= 1
      ensures reached == (1 <= numberPiecesToWin
                          && AxisCount(Cells(), dropColumn, dropRow, colour, numberPiecesToWin, dx, dy, true) >= numberPiecesToWin)
    {
      ghost var g, x, y := Cells(), dropColumn, dropRow;
      var ex, ey := -dx, -dy;
      var forward := true;
      var backward := true;
      var currentAlignment := 1;
      var i := 1;
      ghost var scanned: nat := 0;
      while i <= numberPiecesToWin
        invariant 1 <= i && (i == 1 || i <= numberPiecesToWin + 1) && scanned == i - 1
        invariant currentAlignment == 1 + RunLen(g, x, y, dx, dy, colour, scanned) + RunLen(g, x, y, ex, ey, colour, scanned)
        invariant ScanFlag(g, x, y, dx, dy, colour, scanned, forward)
        invariant ScanFlag(g, x, y, ex, ey, colour, scanned, backward)
        invariant 1 < i ==> currentAlignment < numberPiecesToWin
      {
        forward, currentAlignment := StepOutwards(g, colour, dx, dy, scanned, i, forward, currentAlignment);
        backward, currentAlignment := StepOutwards(g, colour, ex, ey, scanned, i, backward, currentAlignment);
        if currentAlignment >= numberPiecesToWin {
          EarlyCountReaches(g, x, y, dx, dy, ex, ey, colour, numberPiecesToWin, i);
          return true;
        }
        scanned := i;
        i := i + 1;
      }
      if 1 <= numberPiecesToWin {
        AxisCountBothWays(g, x, y, dx, dy, ex, ey, colour, numberPiecesToWin);
      }
      return false;
    }

    /// One direction of one round of a scan: while the direction is still
    /// open and the cell `i` steps away is on the board, a piece of `colour`
    /// there adds to the alignment and anything else closes the direction.
    /// The run along `(dx, dy)` grows by exactly what is added.
    method StepOutwards(ghost g: Grid, colour: PieceType, dx: int, dy: int, ghost scanned: nat, i: nat,
                        open: bool, alignment: int)
      returns (open': bool, alignment': int)
      requires Valid() && g == Cells() && colour == field[dropColumn, dropRow]
      requires -1 <= dx <= 1 && -1 <= dy <= 1 && i == scanned + 1
      requires ScanFlag(g, dropColumn, dropRow, dx, dy, colour, scanned, open)
      ensures ScanFlag(g, dropColumn, dropRow, dx, dy, colour, i, open')
      ensures alignment' == alignment + RunLen(g, dropColumn, dropRow, dx, dy, colour, i)
                                      - RunLen(g, dropColumn, dropRow, dx, dy, colour, scanned)
    {
      CellsAre();
      var inside := Inside(dx, dy, i);
      ScanStep(g, numberRows, dropColumn, dropRow, dx, dy, colour, scanned, i, open, inside,
               if inside then field[Off(dropColumn, dx, i), Off(dropRow, dy, i)] else Empty);
      open', alignment' := open, alignment;
      if open && inside {
        if field[Off(dropColumn, dx, i), Off(dropRow, dy, i)] == colour {
          alignment' := alignment + 1;
        } else {
          open' := false;
        }
      }
    }

    /// `ContainsEmptyCell`: decided from the counter alone, which on a valid
    /// board is the same as asking whether some cell is empty.
    function ContainsEmptyCell(): (r: bool)
      reads this, field
      requires Valid()
      ensures r <==> exists x, y :: 0 <= x < numberColumns && 0 <= y < numberRows && field[x, y] == Empty
      ensures r <==> Drops(Model()) != []
    {
      RoomIffDrops(Model());
      RoomIffEmptyCell();
      piecesNumber < numberRows * numberColumns
    }

    /// A legal move exists exactly when some cell is empty.
    lemma RoomIffEmptyCell()
      requires Valid()
      ensures Drops(Model()) != [] <==>
        exists x, y :: 0 <= x < numberColumns && 0 <= y < numberRows && field[x, y] == Empty
    {
      CellsAre();
      var g := Cells();
      if Drops(Model()) != [] {
        var c := Drops(Model())[0];
        assert c in Drops(Model());
        var y :| 0 <= y < numberRows && g[c][y] == Empty;
        assert field[c, y] == Empty;
      }
      if exists x, y :: 0 <= x < numberColumns && 0 <= y < numberRows && field[x, y] == Empty {
        var x, y :| 0 <= x < numberColumns && 0 <= y < numberRows && field[x, y] == Empty;
        assert g[x][y] == Empty;
        assert x in Drops(Model());
      }
    }

    /// `Clone`: a fresh board with the same dimensions, settings, turn,
    /// counter and cells; the last move is not copied and reads `(0, 0)`.
    method Clone() returns (c: Field)
      requires Valid()
      ensures fresh(c) && fresh(c.field) && c.Valid()
      ensures c.Model() == Model().(dropColumn := 0, dropRow := 0)
    {
      c := new Field.Copy(numberRows, numberColumns, numberPiecesToWin, allowDiagonalConnection,
                          isPlayersTurn, piecesNumber, field);
      assert c.Cells() == Cells() by {
        forall x | 0 <= x < numberColumns ensures c.Cells()[x] == Cells()[x] {
        }
      }
    }

    /// `IsColumnFull` scans the whole column, but on a board without
    /// floating pieces its top cell alone decides it.
    lemma FullIffTopCell(x: int)
      requires Valid() && 0 <= x < numberColumns
      ensures ColumnFull(Cells()[x]) <==> field[x, 0] != Empty
    {
      CellsAre();
      FullIffTopOccupied(Cells()[x]);
    }

    /// The grid value reads the array cell by cell.
    lemma CellsAre()
      ensures Shaped(Cells(), field.Length0, field.Length1)
      ensures forall x, y :: 0 <= x < field.Length0 && 0 <= y < field.Length1 ==> Cells()[x][y] == field[x, y]
    {
    }

    /// An all-empty grid holds no pieces.
    lemma EmptyGridIsUnfilled()
      requires field.Length0 == numberColumns && field.Length1 == numberRows
      requires forall x, y :: 0 <= x < numberColumns && 0 <= y < numberRows ==> field[x, y] == Empty
      ensures Filled(Cells()) == 0 && Settled(Cells())
    {
      var g := Cells();
      forall x | 0 <= x < |g| ensures FilledIn(g[x]) == 0 {
        NoPieceInEmptyColumn(g[x]);
      }
      NoPieceInEmptyGrid(g);
    }
  }

  lemma {:induction false} NoPieceInEmptyColumn(col: seq<PieceType>)
    requires forall y :: 0 <= y < |col| ==> col[y] == Empty
    ensures FilledIn(col) == 0
  {
    if |col| > 0 {
      NoPieceInEmptyColumn(col[1..]);
    }
  }

  lemma {:induction false} NoPieceInEmptyGrid(g: Grid)
    requires forall x :: 0 <= x < |g| ==> FilledIn(g[x]) == 0
    ensures Filled(g) == 0
  {
    if |g| > 0 {
      NoPieceInEmptyGrid(g[1..]);
    }
  }
}
