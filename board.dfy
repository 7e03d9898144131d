/** The minesweeper board: building a `width × height` grid, placing the
    mines, writing every empty cell's neighbour count, and the reveal
    cascade that opens connected empty cells.

    The grid is indexed `grid[x][y]` with `0 <= x < width` (the outer
    vector) and `0 <= y < height`. Coordinates are unbounded integers, so a
    neighbour to the left of column 0 is the coordinate -1, which lies
    outside the grid and therefore is "no neighbour". */
module MinesweeperBoard {
  import opened Common
  import opened MinesweeperTiles

  type Grid = seq<seq<Tile>>
  type Coord = (int, int)

  datatype Dimensions = Dimensions(width: nat, height: nat, mineCount: nat)

  /** The board size and mine count of each difficulty; every preset leaves
      at least one cell free of mines. */
  function Preset(d: Difficulty): (p: Dimensions)
    ensures 0 < p.mineCount < p.width * p.height
  {
    match d
    case Easy => Dimensions(9, 9, 10)
    case Medium => Dimensions(16, 16, 40)
    case Hard => Dimensions(16, 30, 99)
  }

  // ---------------------------------------------------------------------
  // Grid vocabulary

  predicate Shape(g: Grid, width: int, height: int) {
    |g| == width && forall x :: 0 <= x < |g| ==> |g[x]| == height
  }

  predicate InGrid(g: Grid, x: int, y: int) {
    0 <= x < |g| && 0 <= y < |g[x]|
  }

  /** Before any cell is revealed: every cell is a hidden mine or a hidden empty cell. */
  ghost predicate AllHidden(g: Grid) {
    forall x, y :: InGrid(g, x, y) ==> g[x][y] == Invisible(Mine) || HiddenEmpty(g[x][y])
  }

  /** The cells that currently read as mines. */
  ghost function MineSet(g: Grid): set<Coord> {
    set x, y | 0 <= x < |g| && 0 <= y < |g[x]| && IsMine(g[x][y]) :: (x, y)
  }

  /** The cells that are still hidden. */
  ghost function HiddenSet(g: Grid): set<Coord> {
    set x, y | 0 <= x < |g| && 0 <= y < |g[x]| && g[x][y].Invisible? :: (x, y)
  }

  /** p is one of the eight cells around (x, y). */
  ghost predicate Adjacent(p: Coord, x: int, y: int) {
    x - 1 <= p.0 <= x + 1 && y - 1 <= p.1 <= y + 1 && p != (x, y)
  }

  /** The mines among the eight cells around (x, y). */
  ghost function NeighbourMines(g: Grid, x: int, y: int): set<Coord> {
    set p | p in MineSet(g) && Adjacent(p, x, y)
  }

  /** A finished board: every cell is a placed tile and every empty cell
      stores the number of its neighbouring mines. */
  ghost predicate Consistent(g: Grid, width: int, height: int) {
    && Shape(g, width, height)
    && (forall x, y :: 0 <= x < width && 0 <= y < height ==> Placed(g[x][y]))
    && (forall x, y :: 0 <= x < width && 0 <= y < height && Core(g[x][y]).Empty? ==>
          Core(g[x][y]).surrounding == |NeighbourMines(g, x, y)|)
  }

  // ---------------------------------------------------------------------
  // Neighbour count

  /** 1 when (x, y) is on the grid and reads as a mine, else 0. */
  function MineAt(g: Grid, x: int, y: int): nat {
    if InGrid(g, x, y) && IsMine(g[x][y]) then 1 else 0
  }

  /** The eight neighbour probes, in the order the game makes them. The
      result is the number of neighbouring mines, so at most 8. */
  function Surrounding(g: Grid, x: int, y: int): (n: nat)
    ensures n == |NeighbourMines(g, x, y)|
    ensures n <= 8
  {
    NeighbourCount(g, x, y);
    MineAt(g, x + 1, y) + MineAt(g, x - 1, y)
    + MineAt(g, x + 1, y + 1) + MineAt(g, x - 1, y - 1)
    + MineAt(g, x + 1, y - 1) + MineAt(g, x - 1, y + 1)
    + MineAt(g, x, y + 1) + MineAt(g, x, y - 1)
  }

  /** The probes as a build with overflow checks makes them on `usize`
      coordinates: the second probe subtracts 1 from x and the fourth from
      y, so a cell in row or column 0 panics (`None`) before the count is
      complete; elsewhere the count is the same. */
  function SurroundingChecked(g: Grid, x: nat, y: nat): (r: Option<nat>)
    ensures r.Some? ==> r.value == Surrounding(g, x, y)
  {
    if x == 0 then None
    else if y == 0 then None
    else Some(Surrounding(g, x, y))
  }

  /** With overflow checks, counting a cell on the first row or column of
      any grid panics, although the count there is well defined. */
  lemma EdgeCountPanics(g: Grid, x: nat, y: nat)
    requires InGrid(g, x, y) && (x == 0 || y == 0)
    ensures SurroundingChecked(g, x, y) == None
    ensures Surrounding(g, x, y) == |NeighbourMines(g, x, y)|
  {
  }

  lemma MineAtSet(g: Grid, x: int, y: int)
    ensures MineAt(g, x, y) == Bit(MineSet(g), (x, y))
  {
    if InGrid(g, x, y) && IsMine(g[x][y]) {
      assert (x, y) in MineSet(g);
    }
  }

  /** The count the eight probes add up is the size of the neighbour set. */
  lemma NeighbourCount(g: Grid, x: int, y: int)
    ensures |NeighbourMines(g, x, y)| ==
      MineAt(g, x + 1, y) + MineAt(g, x - 1, y)
      + MineAt(g, x + 1, y + 1) + MineAt(g, x - 1, y - 1)
      + MineAt(g, x + 1, y - 1) + MineAt(g, x - 1, y + 1)
      + MineAt(g, x, y + 1) + MineAt(g, x, y - 1)
  {
    var m := MineSet(g);
    ProbesRing(m, x, y);
    HitsTally(Probes(x, y), m);
    ProbesTally(m, x, y);
    MineAtSet(g, x + 1, y);
    MineAtSet(g, x - 1, y);
    MineAtSet(g, x + 1, y + 1);
    MineAtSet(g, x - 1, y - 1);
    MineAtSet(g, x + 1, y - 1);
    MineAtSet(g, x - 1, y + 1);
    MineAtSet(g, x, y + 1);
    MineAtSet(g, x, y - 1);
  }

  function Bit(m: set<Coord>, p: Coord): nat {
    if p in m then 1 else 0
  }

  /** The eight cells the count probes, in probe order. */
  function Probes(x: int, y: int): seq<Coord> {
    [(x + 1, y), (x - 1, y), (x + 1, y + 1), (x - 1, y - 1),
     (x + 1, y - 1), (x - 1, y + 1), (x, y + 1), (x, y - 1)]
  }

  /** The members of m that occur in s. */
  ghost function Hits(s: seq<Coord>, m: set<Coord>): set<Coord> {
    set p | p in s && p in m
  }

  /** The number of entries of s that are in m. */
  function Tally(s: seq<Coord>, m: set<Coord>): nat {
    if s == [] then 0 else Bit(m, s[0]) + Tally(s[1..], m)
  }

  /** Probing distinct cells one by one counts the members hit. */
  lemma {:induction false} HitsTally(s: seq<Coord>, m: set<Coord>)
    requires NoRepeats(s)
    ensures |Hits(s, m)| == Tally(s, m)
  {
    if s != [] {
      var t := s[1..];
      assert NoRepeats(t) by {
        forall i, j | 0 <= i < j < |t| ensures t[i] != t[j] {
          assert t[i] == s[i + 1] && t[j] == s[j + 1];
        }
      }
      HitsTally(t, m);
      assert Hits(s, m) == Hits(t, m) + (if s[0] in m then {s[0]} else {});
      assert s[0] !in t;
    }
  }

  /** The probes are the eight neighbours, each probed once. */
  lemma ProbesRing(m: set<Coord>, x: int, y: int)
    ensures NoRepeats(Probes(x, y))
    ensures (set p | p in m && Adjacent(p, x, y)) == Hits(Probes(x, y), m)
  {
  }

  lemma ProbesTally(m: set<Coord>, x: int, y: int)
    ensures Tally(Probes(x, y), m) ==
      Bit(m, (x + 1, y)) + Bit(m, (x - 1, y)) + Bit(m, (x + 1, y + 1)) + Bit(m, (x - 1, y - 1))
      + Bit(m, (x + 1, y - 1)) + Bit(m, (x - 1, y + 1)) + Bit(m, (x, y + 1)) + Bit(m, (x, y - 1))
  {
    var s0 := Probes(x, y);
    var s1 := s0[1..];
    var s2 := s1[1..];
    var s3 := s2[1..];
    var s4 := s3[1..];
    var s5 := s4[1..];
    var s6 := s5[1..];
    var s7 := s6[1..];
    assert s7[1..] == [];
    assert Tally(s7, m) == Bit(m, (x, y - 1));
    assert Tally(s6, m) == Bit(m, (x, y + 1)) + Tally(s7, m);
    assert Tally(s5, m) == Bit(m, (x - 1, y + 1)) + Tally(s6, m);
    assert Tally(s4, m) == Bit(m, (x + 1, y - 1)) + Tally(s5, m);
    assert Tally(s3, m) == Bit(m, (x - 1, y - 1)) + Tally(s4, m);
    assert Tally(s2, m) == Bit(m, (x + 1, y + 1)) + Tally(s3, m);
    assert Tally(s1, m) == Bit(m, (x - 1, y)) + Tally(s2, m);
  }

  /** Two grids of the same shape that agree on where the mines are have
      the same mine set, hence the same neighbour counts everywhere. */
  lemma SameMinesSameCounts(g1: Grid, g2: Grid)
    requires |g1| == |g2| && forall x :: 0 <= x < |g1| ==> |g1[x]| == |g2[x]|
    requires forall x, y :: InGrid(g1, x, y) ==> IsMine(g1[x][y]) == IsMine(g2[x][y])
    ensures MineSet(g1) == MineSet(g2)
  {
    assert forall p :: p in MineSet(g1) <==> p in MineSet(g2);
  }

  // ---------------------------------------------------------------------
  // Building the board

  /** The fresh grid: `width` rows of `height` hidden empty cells. */
  method StarterGrid(width: nat, height: nat) returns (rows: Grid)
    ensures Shape(rows, width, height)
    ensures forall x, y :: 0 <= x < width && 0 <= y < height ==> rows[x][y] == Invisible(Empty(0))
  {
    rows := [];
    for i := 0 to width
      invariant |rows| == i
      invariant forall x :: 0 <= x < i ==> |rows[x]| == height
      invariant forall x, y :: 0 <= x < i && 0 <= y < height ==> rows[x][y] == Invisible(Empty(0))
    {
      var cols := [];
      for j := 0 to height
        invariant |cols| == j
        invariant forall y :: 0 <= y < j ==> cols[y] == Invisible(Empty(0))
      {
        cols := cols + [StarterTile()];
      }
      rows := rows + [cols];
    }
  }

  /** The coordinates a sequence of random draws names. */
  ghost function PickSet(picks: seq<Coord>): set<Coord> {
    set p | p in picks
  }

  lemma MineSetUpdate(g: Grid, x: int, y: int, t: Tile)
    requires InGrid(g, x, y)
    ensures MineSet(g[x := g[x][y := t]]) ==
      if IsMine(t) then MineSet(g) + {(x, y)} else MineSet(g) - {(x, y)}
  {
    var g' := g[x := g[x][y := t]];
    forall p ensures p in MineSet(g') <==> p in (if IsMine(t) then MineSet(g) + {(x, y)} else MineSet(g) - {(x, y)}) {
      var (a, b) := p;
      if InGrid(g, a, b) && (a, b) != (x, y) {
        assert g'[a][b] == g[a][b];
      }
    }
  }

  /** Turning one hidden empty cell into a hidden mine adds exactly that
      cell to the mine set. */
  lemma PlaceMine(g0: Grid, g: Grid, x: int, y: int, width: int, height: int)
    requires Shape(g, width, height) && AllHidden(g) && InGrid(g, x, y) && HiddenEmpty(g[x][y])
    requires MinesAdded(g0, g)
    ensures (x, y) !in MineSet(g)
    ensures var g' := g[x := g[x][y := Invisible(Mine)]];
      Shape(g', width, height) && AllHidden(g') && MineSet(g') == MineSet(g) + {(x, y)}
      && MinesAdded(g0, g')
  {
    MineSetUpdate(g, x, y, Invisible(Mine));
  }

  /** g1 is g0 with some cells replaced by hidden mines. */
  ghost predicate MinesAdded(g0: Grid, g1: Grid) {
    && SameShape(g0, g1)
    && forall x, y :: InGrid(g0, x, y) ==> g1[x][y] == g0[x][y] || g1[x][y] == Invisible(Mine)
  }

  /** Mine placement. `picks` stands for the random generator: each entry
      is a coordinate drawn uniformly from the board. A draw that lands on
      a hidden empty cell turns it into a hidden mine and counts; a draw
      on a mine is wasted. Placement stops once `mineCount` mines have
      been counted (or, in the model, when the draws are used up). */
  method AssignMines(grid: Grid, mineCount: nat, width: nat, height: nat, picks: seq<Coord>)
      returns (board: Grid, count: nat)
    requires Shape(grid, width, height) && AllHidden(grid)
    requires forall p :: p in picks ==> 0 <= p.0 < width && 0 <= p.1 < height
    ensures Shape(board, width, height) && AllHidden(board) && MinesAdded(grid, board)
    ensures |MineSet(board)| == |MineSet(grid)| + count && count <= mineCount
    ensures MineSet(grid) <= MineSet(board) <= MineSet(grid) + PickSet(picks)
    ensures count < mineCount ==> MineSet(board) == MineSet(grid) + PickSet(picks)
    ensures |MineSet(grid) + PickSet(picks)| >= |MineSet(grid)| + mineCount ==> count == mineCount
  {
    board, count := grid, 0;
    var i := 0;
    PlacingStart(grid, picks, mineCount, width, height);
    while count < mineCount && i < |picks|
      invariant Placing(grid, board, picks, i, count, mineCount, width, height)
    {
      var (x, y) := picks[i];
      DrawStep(grid, board, picks, i, count, mineCount, width, height);
      var tile := board[x][y];
      if tile.Invisible? && IsEmpty(tile.inner) {
        board := board[x := board[x][y := Invisible(Mine)]];
        count := count + 1;
      }
      i := i + 1;
    }
    PlacingDone(grid, board, picks, i, count, mineCount, width, height);
  }

  /** The state of mine placement after `i` draws of which `count` hit. */
  ghost predicate Placing(grid: Grid, board: Grid, picks: seq<Coord>, i: int, count: int, mineCount: int,
                          width: int, height: int) {
    && 0 <= i <= |picks| && 0 <= count <= mineCount
    && (forall p :: p in picks ==> 0 <= p.0 < width && 0 <= p.1 < height)
    && Shape(board, width, height) && AllHidden(board) && MinesAdded(grid, board)
    && MineSet(board) == MineSet(grid) + PickSet(picks[..i])
    && |MineSet(board)| == |MineSet(grid)| + count
  }

  /** One draw of mine placement keeps the loop's state. */
  lemma DrawStep(grid: Grid, board: Grid, picks: seq<Coord>, i: int, count: int, mineCount: int,
                 width: int, height: int)
    requires Placing(grid, board, picks, i, count, mineCount, width, height)
    requires i < |picks| && count < mineCount
    ensures 0 <= picks[i].0 < width && 0 <= picks[i].1 < height
    ensures var (x, y) := picks[i];
      var tile := board[x][y];
      if tile.Invisible? && IsEmpty(tile.inner) then
        Placing(grid, board[x := board[x][y := Invisible(Mine)]], picks, i + 1, count + 1, mineCount, width, height)
      else
        Placing(grid, board, picks, i + 1, count, mineCount, width, height)
  {
    assert picks[i] in picks;
    var (x, y) := picks[i];
    PickSetStep(picks, i);
    var tile := board[x][y];
    if tile.Invisible? && IsEmpty(tile.inner) {
      PlaceMine(grid, board, x, y, width, height);
      var next := board[x := board[x][y := Invisible(Mine)]];
      UnionStep(MineSet(next), MineSet(board), MineSet(grid), PickSet(picks[..i]), PickSet(picks[..i + 1]), (x, y));
    } else {
      MineMember(board, x, y);
      UnionAbsorb(MineSet(board), MineSet(grid), PickSet(picks[..i]), PickSet(picks[..i + 1]), (x, y));
    }
  }

  lemma MineMember(g: Grid, x: int, y: int)
    requires InGrid(g, x, y) && IsMine(g[x][y])
    ensures (x, y) in MineSet(g)
  {
  }

  /** Set algebra of one successful draw. */
  lemma UnionStep<T>(next: set<T>, cur: set<T>, base: set<T>, drawn: set<T>, drawn': set<T>, e: T)
    requires next == cur + {e} && e !in cur
    requires cur == base + drawn && drawn' == drawn + {e}
    ensures next == base + drawn' && |next| == |cur| + 1
  {
  }

  /** Set algebra of a wasted draw. */
  lemma UnionAbsorb<T>(cur: set<T>, base: set<T>, drawn: set<T>, drawn': set<T>, e: T)
    requires e in cur && cur == base + drawn && drawn' == drawn + {e}
    ensures cur == base + drawn'
  {
  }

  lemma PlacingStart(grid: Grid, picks: seq<Coord>, mineCount: nat, width: int, height: int)
    requires Shape(grid, width, height) && AllHidden(grid)
    requires forall p :: p in picks ==> 0 <= p.0 < width && 0 <= p.1 < height
    ensures Placing(grid, grid, picks, 0, 0, mineCount, width, height)
  {
    assert PickSet(picks[..0]) == {};
  }

  /** What placement has achieved when the loop stops. */
  lemma PlacingDone(grid: Grid, board: Grid, picks: seq<Coord>, i: int, count: int, mineCount: int,
                    width: int, height: int)
    requires Placing(grid, board, picks, i, count, mineCount, width, height)
    requires count < mineCount ==> i == |picks|
    ensures MineSet(grid) <= MineSet(board) <= MineSet(grid) + PickSet(picks)
    ensures count < mineCount ==> MineSet(board) == MineSet(grid) + PickSet(picks)
    ensures |MineSet(grid) + PickSet(picks)| >= |MineSet(grid)| + mineCount ==> count == mineCount
  {
    PickSetPrefix(picks, i);
    if count < mineCount {
      assert picks[..|picks|] == picks;
    }
  }

  lemma PickSetPrefix(picks: seq<Coord>, i: int)
    requires 0 <= i <= |picks|
    ensures PickSet(picks[..i]) <= PickSet(picks)
  {
    forall p | p in PickSet(picks[..i]) ensures p in PickSet(picks) {
      var k :| 0 <= k < i && picks[..i][k] == p;
      assert picks[k] == p;
    }
  }

  lemma PickSetStep(picks: seq<Coord>, i: int)
    requires 0 <= i < |picks|
    ensures PickSet(picks[..i + 1]) == PickSet(picks[..i]) + {picks[i]}
  {
    assert picks[..i + 1] == picks[..i] + [picks[i]];
  }

  /** The count each cell receives: mines stay, every other cell becomes a
      hidden empty cell carrying its neighbour count. */
  function Counted(g: Grid, x: int, y: int): Tile
    requires InGrid(g, x, y)
  {
    if IsMine(g[x][y]) then g[x][y] else Invisible(Empty(Surrounding(g, x, y)))
  }

  /** The adjacency pass, rewriting the grid in place row by row. Only
      non-mine cells are rewritten, so the mines every later count reads
      are those of the input; the result is the count of the input grid at
      every cell, and therefore also of the output grid. */
  method AssignSurrounding(grid: Grid, width: nat, height: nat) returns (board: Grid)
    requires Shape(grid, width, height) && AllHidden(grid)
    ensures Shape(board, width, height) && AllHidden(board)
    ensures forall x, y :: 0 <= x < width && 0 <= y < height ==>
              board[x][y] == (if IsMine(grid[x][y]) then grid[x][y]
                              else Invisible(Empty(|NeighbourMines(grid, x, y)|)))
    ensures MineSet(board) == MineSet(grid)
    ensures Consistent(board, width, height)
  {
    board := grid;
    CountingStart(grid, width, height);
    for row := 0 to width
      invariant Counting(grid, board, row, 0, width, height)
    {
      for col := 0 to height
        invariant Counting(grid, board, row, col, width, height)
      {
        CountStep(grid, board, row, col, width, height);
        if IsEmpty(board[row][col]) {
          board := board[row := board[row][col := Invisible(Empty(Surrounding(board, row, col)))]];
        }
      }
      RowDone(grid, board, row, width, height);
    }
    CountingDone(grid, board, width, height);
  }

  /** The adjacency pass has rewritten every cell before (row, col) in
      row-major order and no other. */
  ghost predicate Counting(grid: Grid, board: Grid, row: int, col: int, width: int, height: int) {
    && Shape(grid, width, height) && AllHidden(grid) && Shape(board, width, height)
    && forall x, y :: 0 <= x < width && 0 <= y < height ==>
         board[x][y] == (if x < row || (x == row && y < col) then Counted(grid, x, y) else grid[x][y])
  }

  lemma CountingStart(grid: Grid, width: int, height: int)
    requires Shape(grid, width, height) && AllHidden(grid)
    ensures Counting(grid, grid, 0, 0, width, height)
  {
  }

  /** While counting, the board has the mines of the input grid. */
  lemma CountingMines(grid: Grid, board: Grid, row: int, col: int, width: int, height: int)
    requires Counting(grid, board, row, col, width, height)
    ensures forall x, y :: InGrid(board, x, y) ==> IsMine(board[x][y]) == IsMine(grid[x][y])
    ensures MineSet(board) == MineSet(grid)
  {
    forall x, y | InGrid(board, x, y) ensures IsMine(board[x][y]) == IsMine(grid[x][y]) {
      assert board[x][y] == grid[x][y] || board[x][y] == Counted(grid, x, y);
    }
    SameMinesSameCounts(board, grid);
  }

  lemma CountStep(grid: Grid, board: Grid, row: int, col: int, width: int, height: int)
    requires Counting(grid, board, row, col, width, height)
    requires 0 <= row < width && 0 <= col < height
    ensures InGrid(board, row, col)
    ensures if IsEmpty(board[row][col]) then
        Counting(grid, board[row := board[row][col := Invisible(Empty(Surrounding(board, row, col)))]],
                 row, col + 1, width, height)
      else
        Counting(grid, board, row, col + 1, width, height)
  {
    CountingMines(grid, board, row, col, width, height);
    var t := board[row][col];
    assert t == grid[row][col];
    if IsEmpty(t) {
      SameMinesSameSurrounding(board, grid, row, col);
      var next := board[row := board[row][col := Invisible(Empty(Surrounding(board, row, col)))]];
      forall x, y | 0 <= x < width && 0 <= y < height
        ensures next[x][y] == (if x < row || (x == row && y < col + 1) then Counted(grid, x, y) else grid[x][y])
      {
        if x != row || y != col {
          assert next[x][y] == board[x][y];
        }
      }
    }
  }

  lemma SameMinesSameSurrounding(g1: Grid, g2: Grid, x: int, y: int)
    requires MineSet(g1) == MineSet(g2)
    ensures Surrounding(g1, x, y) == Surrounding(g2, x, y)
  {
    assert NeighbourMines(g1, x, y) == NeighbourMines(g2, x, y);
  }

  lemma RowDone(grid: Grid, board: Grid, row: int, width: int, height: int)
    requires Counting(grid, board, row, height, width, height)
    ensures Counting(grid, board, row + 1, 0, width, height)
  {
  }

  lemma CountingDone(grid: Grid, board: Grid, width: int, height: int)
    requires Counting(grid, board, width, 0, width, height)
    ensures AllHidden(board)
    ensures forall x, y :: 0 <= x < width && 0 <= y < height ==>
              board[x][y] == (if IsMine(grid[x][y]) then grid[x][y]
                              else Invisible(Empty(|NeighbourMines(grid, x, y)|)))
    ensures MineSet(board) == MineSet(grid)
    ensures Consistent(board, width, height)
  {
    CountingMines(grid, board, width, 0, width, height);
  }

  /** The whole generator: fresh grid, mines from the draws, then counts.
      With enough distinct draws exactly `mineCount` cells are mines. */
  method InitBoard(width: nat, height: nat, mineCount: nat, picks: seq<Coord>) returns (rows: Grid)
    requires forall p :: p in picks ==> 0 <= p.0 < width && 0 <= p.1 < height
    ensures Consistent(rows, width, height) && AllHidden(rows)
    ensures MineSet(rows) <= PickSet(picks)
    ensures |MineSet(rows)| <= mineCount
    ensures |PickSet(picks)| >= mineCount ==> |MineSet(rows)| == mineCount
  {
    rows := StarterGrid(width, height);
    assert MineSet(rows) == {};
    var count;
    rows, count := AssignMines(rows, mineCount, width, height, picks);
    rows := AssignSurrounding(rows, width, height);
  }

  // ---------------------------------------------------------------------
  // The reveal cascade, stated on grid values

  ghost predicate SameShape(g0: Grid, g1: Grid) {
    |g0| == |g1| && forall x :: 0 <= x < |g0| ==> |g0[x]| == |g1[x]|
  }

  /** g1 differs from g0 only by hidden empty cells turned visible, with
      their content kept. */
  ghost predicate Opened(g0: Grid, g1: Grid) {
    && SameShape(g0, g1)
    && forall x, y :: InGrid(g0, x, y) ==>
         g1[x][y] == g0[x][y] || (HiddenEmpty(g0[x][y]) && g1[x][y] == Visible(g0[x][y].inner))
  }

  /** (x, y) was hidden in g0 and is visible in g1. */
  ghost predicate Newly(g0: Grid, g1: Grid, x: int, y: int) {
    InGrid(g0, x, y) && InGrid(g1, x, y) && g0[x][y].Invisible? && g1[x][y].Visible?
  }

  /** (x, y) is off the grid, or not a hidden empty cell. */
  ghost predicate Settled(g: Grid, x: int, y: int) {
    !InGrid(g, x, y) || !HiddenEmpty(g[x][y])
  }

  /** Every cell opened between g0 and g1 whose count is 0 has no hidden
      empty cell among its four orthogonal neighbours. */
  ghost predicate Closed(g0: Grid, g1: Grid) {
    forall a, b :: Newly(g0, g1, a, b) && g1[a][b].inner == Empty(0) ==>
      Settled(g1, a + 1, b) && Settled(g1, a - 1, b) && Settled(g1, a, b + 1) && Settled(g1, a, b - 1)
  }

  /** q is one of the four orthogonal neighbours of p. */
  predicate Step(p: Coord, q: Coord) {
    || (q.0 == p.0 + 1 && q.1 == p.1) || (q.0 == p.0 - 1 && q.1 == p.1)
    || (q.0 == p.0 && q.1 == p.1 + 1) || (q.0 == p.0 && q.1 == p.1 - 1)
  }

  /** A chain of cells opened between g0 and g1, each an orthogonal
      neighbour of the one before and every one but the last of count 0:
      the route along which a reveal spreads. */
  ghost predicate Trail(g0: Grid, g1: Grid, p: seq<Coord>) {
    && |p| > 0
    && (forall i :: 0 <= i < |p| ==> OnTrail(g0, g1, p, i))
    && (forall i :: 0 <= i < |p| - 1 ==> Linked(g1, p, i))
  }

  /** The i-th cell of p was opened between g0 and g1. */
  ghost predicate OnTrail(g0: Grid, g1: Grid, p: seq<Coord>, i: int) {
    0 <= i < |p| && Newly(g0, g1, p[i].0, p[i].1)
  }

  /** The i-th cell of p has count 0 in g1 and the next cell is one of its
      orthogonal neighbours. */
  ghost predicate Linked(g1: Grid, p: seq<Coord>, i: int) {
    0 <= i < |p| - 1 && InGrid(g1, p[i].0, p[i].1) && g1[p[i].0][p[i].1] == Visible(Empty(0)) && Step(p[i], p[i + 1])
  }

  /** (a, b) is reached from (x, y) along a trail. */
  ghost predicate Reached(g0: Grid, g1: Grid, x: int, y: int, a: int, b: int) {
    exists p :: Trail(g0, g1, p) && p[0] == (x, y) && p[|p| - 1] == (a, b)
  }

  /** Every cell opened between g0 and g1 is reached from (x, y). */
  ghost predicate Connected(g0: Grid, g1: Grid, x: int, y: int) {
    forall a, b :: Newly(g0, g1, a, b) ==> Reached(g0, g1, x, y, a, b)
  }

  /** What a reveal at (x, y) does to the grid: it only opens hidden empty
      cells; off the grid, on a visible cell or on a mine it changes
      nothing; on a hidden cell with a non-zero count it opens that cell
      alone; afterwards (x, y) is no longer a hidden empty cell; the opened
      region is closed under the zero-count cascade; and every opened cell
      is reached from (x, y) through opened cells of count 0. By
      `CascadeUnique` this fixes the resulting grid. */
  ghost predicate Cascade(g0: Grid, g1: Grid, x: int, y: int) {
    && Opened(g0, g1)
    && (!InGrid(g0, x, y) || g0[x][y].Visible? || IsMine(g0[x][y]) ==> g1 == g0)
    && (InGrid(g0, x, y) && HiddenEmpty(g0[x][y]) && g0[x][y].inner != Empty(0) ==>
          g1 == g0[x := g0[x][y := Visible(g0[x][y].inner)]])
    && (InGrid(g0, x, y) ==> !HiddenEmpty(g1[x][y]))
    && Closed(g0, g1)
    && Connected(g0, g1, x, y)
  }

  lemma OpenedRefl(g: Grid)
    ensures Opened(g, g) && Closed(g, g)
  {
  }

  lemma OpenedTrans(g0: Grid, g1: Grid, g2: Grid)
    requires Opened(g0, g1) && Opened(g1, g2)
    ensures Opened(g0, g2)
  {
    forall x, y | InGrid(g0, x, y)
      ensures g2[x][y] == g0[x][y] || (HiddenEmpty(g0[x][y]) && g2[x][y] == Visible(g0[x][y].inner))
    {
      assert InGrid(g1, x, y);
    }
  }

  lemma SettledKept(g1: Grid, g2: Grid, x: int, y: int)
    requires Opened(g1, g2) && Settled(g1, x, y)
    ensures Settled(g2, x, y)
  {
  }

  /** Opening only ever removes hidden cells. */
  lemma OpenedHidden(g0: Grid, g1: Grid)
    requires Opened(g0, g1)
    ensures HiddenSet(g1) <= HiddenSet(g0)
    ensures |HiddenSet(g1)| <= |HiddenSet(g0)|
  {
    forall p | p in HiddenSet(g1) ensures p in HiddenSet(g0) {
      var (a, b) := p;
      assert InGrid(g0, a, b);
    }
    SubsetCard(HiddenSet(g1), HiddenSet(g0));
  }

  /** Opening preserves where the mines are, hence the whole consistency
      of the board. */
  lemma OpenedConsistent(g0: Grid, g1: Grid, width: int, height: int)
    requires Consistent(g0, width, height) && Opened(g0, g1)
    ensures Consistent(g1, width, height)
    ensures MineSet(g1) == MineSet(g0)
  {
    forall x, y | InGrid(g0, x, y) ensures IsMine(g0[x][y]) == IsMine(g1[x][y]) && Core(g0[x][y]) == Core(g1[x][y]) {
    }
    SameMinesSameCounts(g0, g1);
  }

  lemma ClosedTrans(g0: Grid, g1: Grid, g2: Grid)
    requires Opened(g0, g1) && Closed(g0, g1) && Opened(g1, g2) && Closed(g1, g2)
    ensures Closed(g0, g2)
  {
    forall a, b | Newly(g0, g2, a, b) && g2[a][b].inner == Empty(0)
      ensures Settled(g2, a + 1, b) && Settled(g2, a - 1, b) && Settled(g2, a, b + 1) && Settled(g2, a, b - 1)
    {
      if g1[a][b].Visible? {
        assert Newly(g0, g1, a, b);
        assert g2[a][b] == g1[a][b];
        SettledKept(g1, g2, a + 1, b);
        SettledKept(g1, g2, a - 1, b);
        SettledKept(g1, g2, a, b + 1);
        SettledKept(g1, g2, a, b - 1);
      } else {
        assert Newly(g1, g2, a, b);
      }
    }
  }

  lemma CascadeTrans(g0: Grid, g1: Grid, g2: Grid, x: int, y: int)
    requires Opened(g0, g1) && Closed(g0, g1) && Cascade(g1, g2, x, y)
    ensures Opened(g0, g2) && Closed(g0, g2)
  {
    OpenedTrans(g0, g1, g2);
    ClosedTrans(g0, g1, g2);
  }

  /** The first step of a reveal: one hidden empty cell becomes visible. */
  lemma OpenOne(g0: Grid, g1: Grid, x: int, y: int, width: int, height: int)
    requires Consistent(g0, width, height) && InGrid(g0, x, y) && HiddenEmpty(g0[x][y])
    requires g1 == g0[x := g0[x][y := Visible(g0[x][y].inner)]]
    ensures Opened(g0, g1) && Consistent(g1, width, height)
    ensures |HiddenSet(g1)| < |HiddenSet(g0)|
    ensures g1[x][y].inner != Empty(0) ==> Cascade(g0, g1, x, y)
  {
    assert Opened(g0, g1);
    OpenedConsistent(g0, g1, width, height);
    OpenedHidden(g0, g1);
    assert (x, y) in HiddenSet(g0) && (x, y) !in HiddenSet(g1);
    StrictSubsetCard(HiddenSet(g1), HiddenSet(g0), (x, y));
    forall a, b | Newly(g0, g1, a, b) ensures a == x && b == y {
    }
    forall a, b | Newly(g0, g1, a, b) ensures Reached(g0, g1, x, y, a, b) {
      assert Trail(g0, g1, [(x, y)]);
    }
  }

  /** The last step of a zero-count reveal: the opened cell's four
      neighbours are settled, so the whole opened region is closed. */
  lemma CloseCentre(g0: Grid, g1: Grid, g5: Grid, x: int, y: int)
    requires InGrid(g0, x, y) && HiddenEmpty(g0[x][y])
    requires g1 == g0[x := g0[x][y := Visible(g0[x][y].inner)]]
    requires Opened(g0, g1) && Opened(g1, g5) && Closed(g1, g5)
    requires Settled(g5, x + 1, y) && Settled(g5, x - 1, y) && Settled(g5, x, y + 1) && Settled(g5, x, y - 1)
    ensures Closed(g0, g5)
  {
    forall a, b | Newly(g0, g5, a, b) && g5[a][b].inner == Empty(0)
      ensures Settled(g5, a + 1, b) && Settled(g5, a - 1, b) && Settled(g5, a, b + 1) && Settled(g5, a, b - 1)
    {
      if a != x || b != y {
        assert g1[a][b] == g0[a][b];
        assert Newly(g1, g5, a, b);
      }
    }
  }

  /** A zero-count reveal: the cell is opened, then the four orthogonal
      neighbours are revealed in turn; together that is a cascade. */
  lemma ZeroCascade(g0: Grid, g1: Grid, g2: Grid, g3: Grid, g4: Grid, g5: Grid, x: int, y: int)
    requires InGrid(g0, x, y) && g0[x][y] == Invisible(Empty(0))
    requires g1 == g0[x := g0[x][y := Visible(g0[x][y].inner)]] && Opened(g0, g1)
    requires Cascade(g1, g2, x + 1, y) && Cascade(g2, g3, x - 1, y)
    requires Cascade(g3, g4, x, y + 1) && Cascade(g4, g5, x, y - 1)
    ensures Cascade(g0, g5, x, y)
  {
    CascadeTrans(g1, g1, g2, x + 1, y);
    CascadeTrans(g1, g2, g3, x - 1, y);
    CascadeTrans(g1, g3, g4, x, y + 1);
    CascadeTrans(g1, g4, g5, x, y - 1);
    SettledKept(g2, g3, x + 1, y);
    SettledKept(g3, g4, x + 1, y);
    SettledKept(g4, g5, x + 1, y);
    SettledKept(g3, g4, x - 1, y);
    SettledKept(g4, g5, x - 1, y);
    SettledKept(g4, g5, x, y + 1);
    CloseCentre(g0, g1, g5, x, y);
    OpenedTrans(g0, g1, g5);
    assert InGrid(g1, x, y) && g1[x][y].Visible?;
    ZeroConnected(g0, g1, g2, g3, g4, g5, x, y);
  }

  /** A trail between the middle grids of a run of openings is a trail
      of the whole run. */
  lemma TrailLift(g0: Grid, g1: Grid, g2: Grid, g3: Grid, p: seq<Coord>)
    requires Opened(g0, g1) && Opened(g1, g2) && Opened(g2, g3) && Trail(g1, g2, p)
    ensures Trail(g0, g3, p)
  {
    forall i | 0 <= i < |p|
      ensures OnTrail(g0, g3, p, i) && g3[p[i].0][p[i].1] == g2[p[i].0][p[i].1]
    {
      assert OnTrail(g1, g2, p, i);
      var (a, b) := p[i];
      assert InGrid(g0, a, b) && InGrid(g3, a, b);
    }
    forall i | 0 <= i < |p| - 1 ensures Linked(g3, p, i) {
      assert Linked(g2, p, i) && OnTrail(g1, g2, p, i);
    }
  }

  /** A cell reached from the neighbour (sx, sy) of an opened zero cell
      (x, y) during a later reveal is reached from (x, y). */
  lemma ReachLift(g0: Grid, ga: Grid, gb: Grid, g5: Grid, x: int, y: int, sx: int, sy: int, a: int, b: int)
    requires Newly(g0, g5, x, y) && g5[x][y].inner == Empty(0) && Step((x, y), (sx, sy))
    requires Opened(g0, ga) && Opened(ga, gb) && Opened(gb, g5)
    requires Reached(ga, gb, sx, sy, a, b)
    ensures Reached(g0, g5, x, y, a, b)
  {
    var p := TrailOf(ga, gb, sx, sy, a, b);
    TrailLift(g0, ga, gb, g5, p);
    ReachCons(g0, g5, x, y, sx, sy, a, b, p);
  }

  /** A trail that witnesses (a, b) being reached from (x, y). */
  lemma TrailOf(g0: Grid, g1: Grid, x: int, y: int, a: int, b: int) returns (p: seq<Coord>)
    requires Reached(g0, g1, x, y, a, b)
    ensures Trail(g0, g1, p) && p[0] == (x, y) && p[|p| - 1] == (a, b)
    ensures p[0].0 == x && p[0].1 == y && p[|p| - 1].0 == a && p[|p| - 1].1 == b
  {
    p :| Trail(g0, g1, p) && p[0] == (x, y) && p[|p| - 1] == (a, b);
  }

  /** A cell reached from a neighbour (sx, sy) of an opened zero cell
      (x, y) is reached from (x, y). */
  lemma ReachCons(g0: Grid, g5: Grid, x: int, y: int, sx: int, sy: int, a: int, b: int, p: seq<Coord>)
    requires Newly(g0, g5, x, y) && g5[x][y].inner == Empty(0) && Step((x, y), (sx, sy))
    requires Trail(g0, g5, p) && p[0] == (sx, sy) && p[|p| - 1] == (a, b)
    ensures Reached(g0, g5, x, y, a, b)
  {
    TrailCons(g0, g5, x, y, p);
    ReachedBy(g0, g5, [(x, y)] + p, x, y, a, b);
  }

  /** A trail from (x, y) to (a, b) witnesses that (a, b) is reached. */
  lemma ReachedBy(g0: Grid, g1: Grid, p: seq<Coord>, x: int, y: int, a: int, b: int)
    requires Trail(g0, g1, p) && p[0] == (x, y) && p[|p| - 1] == (a, b)
    ensures Reached(g0, g1, x, y, a, b)
  {
  }

  /** An opened zero cell next to the start of a trail extends it. */
  lemma TrailCons(g0: Grid, g5: Grid, x: int, y: int, p: seq<Coord>)
    requires Trail(g0, g5, p) && Newly(g0, g5, x, y) && g5[x][y].inner == Empty(0) && Step((x, y), p[0])
    ensures Trail(g0, g5, [(x, y)] + p) && ([(x, y)] + p)[0] == (x, y)
    ensures ([(x, y)] + p)[|p|] == p[|p| - 1]
  {
    var q := [(x, y)] + p;
    forall i | 0 <= i < |q| ensures OnTrail(g0, g5, q, i) {
      if i > 0 { assert OnTrail(g0, g5, p, i - 1) && q[i] == p[i - 1]; }
    }
    forall i | 0 <= i < |q| - 1 ensures Linked(g5, q, i) {
      if i > 0 { assert Linked(g5, p, i - 1) && q[i] == p[i - 1] && q[i + 1] == p[i]; }
    }
  }

  /** Every cell a zero-count reveal opens is the cell itself or is
      reached from one of its four neighbours, hence from the cell. */
  lemma ZeroConnected(g0: Grid, g1: Grid, g2: Grid, g3: Grid, g4: Grid, g5: Grid, x: int, y: int)
    requires InGrid(g0, x, y) && g0[x][y] == Invisible(Empty(0))
    requires g1 == g0[x := g0[x][y := Visible(g0[x][y].inner)]] && Opened(g0, g1)
    requires Opened(g1, g2) && Connected(g1, g2, x + 1, y)
    requires Opened(g2, g3) && Connected(g2, g3, x - 1, y)
    requires Opened(g3, g4) && Connected(g3, g4, x, y + 1)
    requires Opened(g4, g5) && Connected(g4, g5, x, y - 1)
    ensures Connected(g0, g5, x, y)
  {
    OpenedCell(g0, g1, x, y);
    ConnectStep(g0, g1, g2, x, y, x + 1, y);
    ConnectStep(g0, g2, g3, x, y, x - 1, y);
    ConnectStep(g0, g3, g4, x, y, x, y + 1);
    ConnectStep(g0, g4, g5, x, y, x, y - 1);
  }

  /** Opening the one cell (x, y) reaches just that cell. */
  lemma OpenedCell(g0: Grid, g1: Grid, x: int, y: int)
    requires InGrid(g0, x, y) && g0[x][y].Invisible?
    requires g1 == g0[x := g0[x][y := Visible(g0[x][y].inner)]]
    ensures Newly(g0, g1, x, y) && g1[x][y].inner == g0[x][y].inner
    ensures Connected(g0, g1, x, y)
  {
    forall a, b | Newly(g0, g1, a, b) ensures Reached(g0, g1, x, y, a, b) {
      assert a == x && b == y;
      assert Trail(g0, g1, [(x, y)]);
    }
  }

  /** A reveal started next to an opened zero cell (x, y) keeps every
      opened cell reachable from (x, y). */
  lemma ConnectStep(g0: Grid, ga: Grid, gb: Grid, x: int, y: int, sx: int, sy: int)
    requires Opened(g0, ga) && Opened(ga, gb)
    requires Connected(g0, ga, x, y) && Connected(ga, gb, sx, sy)
    requires Newly(g0, ga, x, y) && ga[x][y].inner == Empty(0) && Step((x, y), (sx, sy))
    ensures Opened(g0, gb) && Connected(g0, gb, x, y)
    ensures Newly(g0, gb, x, y) && gb[x][y] == ga[x][y]
  {
    OpenedTrans(g0, ga, gb);
    OpenedRefl(g0);
    OpenedRefl(gb);
    assert InGrid(ga, x, y);
    forall a, b | Newly(g0, gb, a, b) ensures Reached(g0, gb, x, y, a, b) {
      assert InGrid(ga, a, b);
      if ga[a][b].Visible? {
        assert Reached(g0, ga, x, y, a, b);
        var p :| Trail(g0, ga, p) && p[0] == (x, y) && p[|p| - 1] == (a, b);
        TrailLift(g0, g0, ga, gb, p);
      } else {
        assert Reached(ga, gb, sx, sy, a, b);
        ReachLift(g0, ga, gb, gb, x, y, sx, sy, a, b);
      }
    }
  }

  /** Along a trail of one cascade from (x, y), every cell is opened by
      any other cascade that opens (x, y): each zero cell the second
      cascade opens leaves no hidden empty neighbour behind. */
  lemma {:induction false} TrailOpens(g0: Grid, g1: Grid, g2: Grid, p: seq<Coord>, k: int)
    requires Opened(g0, g1) && Opened(g0, g2) && Closed(g0, g2)
    requires Trail(g0, g1, p) && Newly(g0, g2, p[0].0, p[0].1) && 0 <= k < |p|
    ensures Newly(g0, g2, p[k].0, p[k].1)
    decreases k
  {
    if k > 0 {
      TrailOpens(g0, g1, g2, p, k - 1);
      assert OnTrail(g0, g1, p, k - 1) && Linked(g1, p, k - 1) && OnTrail(g0, g1, p, k);
      var (c, d) := p[k - 1];
      var (a, b) := p[k];
      assert g2[c][d].inner == Empty(0);
      assert Settled(g2, a, b);
    }
  }

  /** A cell one cascade from (x, y) opens, every cascade from (x, y)
      opens. */
  lemma CascadeCovers(g0: Grid, g1: Grid, g2: Grid, x: int, y: int, a: int, b: int)
    requires Opened(g0, g1) && Connected(g0, g1, x, y) && Newly(g0, g1, a, b)
    requires Opened(g0, g2) && Closed(g0, g2) && (InGrid(g0, x, y) ==> !HiddenEmpty(g2[x][y]))
    ensures Newly(g0, g2, a, b)
  {
    var p := TrailOf(g0, g1, x, y, a, b);
    assert OnTrail(g0, g1, p, 0);
    StartOpened(g0, g1, g2, x, y);
    TrailEndOpens(g0, g1, g2, p, a, b);
  }

  /** The last cell of such a trail is opened too. */
  lemma TrailEndOpens(g0: Grid, g1: Grid, g2: Grid, p: seq<Coord>, a: int, b: int)
    requires Opened(g0, g1) && Opened(g0, g2) && Closed(g0, g2)
    requires Trail(g0, g1, p) && Newly(g0, g2, p[0].0, p[0].1)
    requires p[|p| - 1].0 == a && p[|p| - 1].1 == b
    ensures Newly(g0, g2, a, b)
  {
    TrailOpens(g0, g1, g2, p, |p| - 1);
  }

  /** The start of a cascade that opens anything is opened by every
      cascade from there. */
  lemma StartOpened(g0: Grid, g1: Grid, g2: Grid, x: int, y: int)
    requires Opened(g0, g1) && Opened(g0, g2) && Newly(g0, g1, x, y)
    requires InGrid(g0, x, y) ==> !HiddenEmpty(g2[x][y])
    ensures Newly(g0, g2, x, y)
  {
    assert InGrid(g2, x, y);
  }

  /** Two grids with the same shape and the same cells are equal. */
  lemma GridEq(g1: Grid, g2: Grid)
    requires SameShape(g1, g2)
    requires forall a, b :: InGrid(g1, a, b) ==> g1[a][b] == g2[a][b]
    ensures g1 == g2
  {
    forall a | 0 <= a < |g1| ensures g1[a] == g2[a] {
      assert forall b :: 0 <= b < |g1[a]| ==> InGrid(g1, a, b);
    }
  }

  /** The cascade determines the grid it leaves: two grids that are both
      a cascade from (x, y) on g0 are the same. */
  lemma CascadeUnique(g0: Grid, g1: Grid, g2: Grid, x: int, y: int)
    requires Cascade(g0, g1, x, y) && Cascade(g0, g2, x, y)
    ensures g1 == g2
  {
    forall a, b | InGrid(g1, a, b) ensures g1[a][b] == g2[a][b] {
      assert InGrid(g0, a, b) && InGrid(g2, a, b);
      if Newly(g0, g1, a, b) {
        CascadeCovers(g0, g1, g2, x, y, a, b);
      } else if Newly(g0, g2, a, b) {
        CascadeCovers(g0, g2, g1, x, y, a, b);
      }
    }
    GridEq(g1, g2);
  }

  /** A reveal off the grid, on a visible cell or on a mine is a cascade
      that changes nothing. */
  lemma Unchanged(g: Grid, x: int, y: int)
    requires !InGrid(g, x, y) || !HiddenEmpty(g[x][y])
    ensures Cascade(g, g, x, y)
  {
  }

  lemma CascadeHidden(g0: Grid, g1: Grid, x: int, y: int)
    requires Cascade(g0, g1, x, y)
    ensures |HiddenSet(g1)| <= |HiddenSet(g0)|
  {
    OpenedHidden(g0, g1);
  }

  lemma ConsistentCell(g: Grid, width: int, height: int, x: int, y: int)
    requires Consistent(g, width, height) && 0 <= x < width && 0 <= y < height
    ensures InGrid(g, x, y) && Placed(g[x][y])
  {
  }

  // ---------------------------------------------------------------------
  // The board object

  class Board {
    var grid: Grid
    const width: nat
    const height: nat
    const mineCount: nat

    ghost predicate Valid()
      reads this
    {
      Consistent(grid, width, height)
    }

    /** A new round at the given difficulty; `picks` stands for the random
        draws of mine placement. */
    constructor (difficulty: Difficulty, picks: seq<Coord>)
      requires forall p :: p in picks ==>
                 0 <= p.0 < Preset(difficulty).width && 0 <= p.1 < Preset(difficulty).height
      ensures Valid() && AllHidden(grid)
      ensures Dimensions(width, height, mineCount) == Preset(difficulty)
      ensures MineSet(grid) <= PickSet(picks) && |MineSet(grid)| <= mineCount
      ensures |PickSet(picks)| >= mineCount ==> |MineSet(grid)| == mineCount
    {
      var p := Preset(difficulty);
      var rows := InitBoard(p.width, p.height, p.mineCount, picks);
      width, height, mineCount := p.width, p.height, p.mineCount;
      grid := rows;
    }

    /** Whether the cell is a mine; the source indexes without a bounds
        check, so the cell must be on the board. */
    function CheckMine(x: int, y: int): (r: bool)
      reads this
      requires Valid() && 0 <= x < width && 0 <= y < height
      ensures r <==> grid[x][y] == Invisible(Mine)
      ensures r <==> (x, y) in MineSet(grid)
    {
      PlacedQueries(grid[x][y]);
      IsMine(grid[x][y])
    }

    /** The recursive reveal. It terminates because every recursive call
        is made after a hidden cell has been opened. */
    method RevealAdjacent(x: int, y: int)
      requires Valid()
      modifies this
      ensures Valid()
      ensures Cascade(old(grid), grid, x, y)
      decreases |HiddenSet(grid)|
    {
      if x < 0 || y < 0 || x >= width || y >= height {
        Unchanged(grid, x, y);
        return;
      }
      ConsistentCell(grid, width, height, x, y);
      var tile := grid[x][y];
      if IsVisible(tile) || IsMine(tile) {
        Unchanged(grid, x, y);
        return;
      }
      match GetEmpty(tile)
      case None =>
        assert false;
      case Some(surrounding) =>
        ghost var g0 := grid;
        grid := grid[x := grid[x][y := Visible(GetInner(tile))]];
        OpenOne(g0, grid, x, y, width, height);
        if surrounding == 0 {
          ghost var g1 := grid;
          RevealAdjacent(x + 1, y);
          ghost var g2 := grid;
          CascadeHidden(g1, g2, x + 1, y);
          RevealAdjacent(x - 1, y);
          ghost var g3 := grid;
          CascadeHidden(g2, g3, x - 1, y);
          RevealAdjacent(x, y + 1);
          ghost var g4 := grid;
          CascadeHidden(g3, g4, x, y + 1);
          RevealAdjacent(x, y - 1);
          ZeroCascade(g0, g1, g2, g3, g4, grid, x, y);
        }
    }
  }
}
