/** The hidden field of one game: where the mines are and how many mines surround every
    other cell. A field cell holds BOMB (10) or a neighbour count 0..8; the field is
    indexed [x, y] with x < rows and y < columns, as in the component. */
module Board {
  import opened Tiles

  type Coord = (int, int)

  predicate InGrid(rows: int, columns: int, x: int, y: int) {
    0 <= x < rows && 0 <= y < columns
  }

  /** The 8 offsets of the neighbourhood, in the order the cascade visits them. */
  const Around: seq<Coord> := [(-1, -1), (-1, 0), (-1, 1), (0, -1), (0, 1), (1, -1), (1, 0), (1, 1)]

  /** The cells holding a mine. */
  ghost function Mines(f: array2<int>): set<Coord>
    reads f
  {
    set i, j | 0 <= i < f.Length0 && 0 <= j < f.Length1 && f[i, j] == BOMB :: (i, j)
  }

  /** Among the first k offsets of Around, the number that lead from (x, y) to an
      in-bounds cell of mines. */
  ghost function MinesAround(mines: set<Coord>, rows: int, columns: int, x: int, y: int, k: nat): (n: nat)
    requires k <= |Around|
    ensures n <= k
  {
    if k == 0 then 0
    else MinesAround(mines, rows, columns, x, y, k - 1) + MineAt(mines, rows, columns, x + Around[k - 1].0, y + Around[k - 1].1)
  }

  /** 1 when (i, j) is in the field and in mines, else 0. */
  ghost function MineAt(mines: set<Coord>, rows: int, columns: int, i: int, j: int): nat {
    if InGrid(rows, columns, i, j) && (i, j) in mines then 1 else 0
  }

  /** The number of mines among the in-bounds 8-neighbours of (x, y). */
  ghost function AdjacentMines(mines: set<Coord>, rows: int, columns: int, x: int, y: int): (n: nat)
    ensures n <= 8
  {
    MinesAround(mines, rows, columns, x, y, |Around|)
  }

  /** A well-formed field: every cell is a mine or holds the number of its neighbours that are. */
  ghost predicate IsBoard(f: array2<int>)
    reads f
  {
    forall i, j {:trigger AdjacentMines(Mines(f), f.Length0, f.Length1, i, j)} ::
      0 <= i < f.Length0 && 0 <= j < f.Length1 ==>
      f[i, j] == BOMB || f[i, j] == AdjacentMines(Mines(f), f.Length0, f.Length1, i, j)
  }

  /** The distinct coordinates among some draws. */
  ghost function Drawn(draws: seq<Coord>): set<Coord> {
    set c | c in draws
  }

  /** Every cell of a well-formed field is a mine or a count in 0..8. */
  lemma BoardValues(f: array2<int>, x: int, y: int)
    requires IsBoard(f) && InGrid(f.Length0, f.Length1, x, y)
    ensures f[x, y] == BOMB || 0 <= f[x, y] <= 8
  {
    assert f[x, y] == BOMB || f[x, y] == AdjacentMines(Mines(f), f.Length0, f.Length1, x, y);
  }

  /** No offset counted by a zero count leads to a mine. */
  lemma {:induction false} NoMineAroundZero(mines: set<Coord>, rows: int, columns: int, x: int, y: int, k: nat, m: nat)
    requires k <= |Around| && m < k && MinesAround(mines, rows, columns, x, y, k) == 0
    ensures MineAt(mines, rows, columns, x + Around[m].0, y + Around[m].1) == 0
  {
    if m < k - 1 {
      NoMineAroundZero(mines, rows, columns, x, y, k - 1, m);
    }
  }

  /** A 0-cell of a well-formed field has no mine among its neighbours. */
  lemma ZeroHasNoMineAround(f: array2<int>, x: int, y: int, m: int)
    requires IsBoard(f) && InGrid(f.Length0, f.Length1, x, y) && f[x, y] == 0
    requires 0 <= m < |Around| && InGrid(f.Length0, f.Length1, x + Around[m].0, y + Around[m].1)
    ensures f[x + Around[m].0, y + Around[m].1] != BOMB
  {
    assert f[x, y] == AdjacentMines(Mines(f), f.Length0, f.Length1, x, y);
    NoMineAroundZero(Mines(f), f.Length0, f.Length1, x, y, |Around|, m);
  }

  /** The m-th neighbour of (x, y). */
  function Neighbour(x: int, y: int, m: int): Coord
    requires 0 <= m < |Around|
  {
    (x + Around[m].0, y + Around[m].1)
  }

  /** The offsets come in opposite pairs: stepping back from the k-th neighbour by the
      (7 - k)-th offset returns to the cell. */
  lemma NeighbourBack(x: int, y: int, k: int)
    requires 0 <= k < |Around|
    ensures 0 <= 7 - k < |Around|
    ensures Neighbour(Neighbour(x, y, k).0, Neighbour(x, y, k).1, 7 - k) == (x, y)
  {
  }

  /** What the cascade needs to know of a field: every cell is a mine or a count 0..8,
      and no in-bounds neighbour of a 0-cell is a mine. */
  ghost predicate SafeToCascade(f: array2<int>)
    reads f
  {
    (forall i, j :: 0 <= i < f.Length0 && 0 <= j < f.Length1 ==> f[i, j] == BOMB || 0 <= f[i, j] <= 8) &&
    (forall i, j, m {:trigger f[i, j], Neighbour(i, j, m)} ::
      0 <= i < f.Length0 && 0 <= j < f.Length1 && 0 <= m < |Around| && f[i, j] == 0 &&
      InGrid(f.Length0, f.Length1, Neighbour(i, j, m).0, Neighbour(i, j, m).1) ==>
        f[Neighbour(i, j, m).0, Neighbour(i, j, m).1] != BOMB)
  }

  lemma BoardSafeToCascade(f: array2<int>)
    requires IsBoard(f)
    ensures SafeToCascade(f)
  {
    forall i, j | 0 <= i < f.Length0 && 0 <= j < f.Length1
      ensures f[i, j] == BOMB || 0 <= f[i, j] <= 8
    {
      BoardValues(f, i, j);
    }
    forall i, j, m | 0 <= i < f.Length0 && 0 <= j < f.Length1 && 0 <= m < |Around| && f[i, j] == 0 &&
      InGrid(f.Length0, f.Length1, Neighbour(i, j, m).0, Neighbour(i, j, m).1)
      ensures f[Neighbour(i, j, m).0, Neighbour(i, j, m).1] != BOMB
    {
      ZeroHasNoMineAround(f, i, j, m);
    }
  }

  /** The mines of a field that matches a set cell by cell are that set. */
  lemma MinesAre(f: array2<int>, m: set<Coord>)
    requires forall p :: p in m ==> InGrid(f.Length0, f.Length1, p.0, p.1)
    requires forall i, j :: 0 <= i < f.Length0 && 0 <= j < f.Length1 ==> (f[i, j] == BOMB <==> (i, j) in m)
    ensures Mines(f) == m
  {
  }

  /** The neighbour count spelled out offset by offset. */
  lemma AdjacentMinesByCell(mines: set<Coord>, rows: int, columns: int, x: int, y: int)
    ensures AdjacentMines(mines, rows, columns, x, y) ==
      MineAt(mines, rows, columns, x - 1, y - 1) + MineAt(mines, rows, columns, x - 1, y) +
      MineAt(mines, rows, columns, x - 1, y + 1) + MineAt(mines, rows, columns, x, y - 1) +
      MineAt(mines, rows, columns, x, y + 1) + MineAt(mines, rows, columns, x + 1, y - 1) +
      MineAt(mines, rows, columns, x + 1, y) + MineAt(mines, rows, columns, x + 1, y + 1)
  {
    assert MinesAround(mines, rows, columns, x, y, 1) == MinesAround(mines, rows, columns, x, y, 0) + MineAt(mines, rows, columns, x + Around[0].0, y + Around[0].1);
    assert MinesAround(mines, rows, columns, x, y, 2) == MinesAround(mines, rows, columns, x, y, 1) + MineAt(mines, rows, columns, x + Around[1].0, y + Around[1].1);
    assert MinesAround(mines, rows, columns, x, y, 3) == MinesAround(mines, rows, columns, x, y, 2) + MineAt(mines, rows, columns, x + Around[2].0, y + Around[2].1);
    assert MinesAround(mines, rows, columns, x, y, 4) == MinesAround(mines, rows, columns, x, y, 3) + MineAt(mines, rows, columns, x + Around[3].0, y + Around[3].1);
    assert MinesAround(mines, rows, columns, x, y, 5) == MinesAround(mines, rows, columns, x, y, 4) + MineAt(mines, rows, columns, x + Around[4].0, y + Around[4].1);
    assert MinesAround(mines, rows, columns, x, y, 6) == MinesAround(mines, rows, columns, x, y, 5) + MineAt(mines, rows, columns, x + Around[5].0, y + Around[5].1);
    assert MinesAround(mines, rows, columns, x, y, 7) == MinesAround(mines, rows, columns, x, y, 6) + MineAt(mines, rows, columns, x + Around[6].0, y + Around[6].1);
    assert MinesAround(mines, rows, columns, x, y, 8) == MinesAround(mines, rows, columns, x, y, 7) + MineAt(mines, rows, columns, x + Around[7].0, y + Around[7].1);
  }

  /** 1 when (i, j) is in the field and holds a mine, else 0. */
  function BombAt(f: array2<int>, i: int, j: int): nat
    reads f
  {
    if 0 <= i < f.Length0 && 0 <= j < f.Length1 && f[i, j] == BOMB then 1 else 0
  }

  lemma BombAtIsMineAt(f: array2<int>, i: int, j: int)
    ensures BombAt(f, i, j) == MineAt(Mines(f), f.Length0, f.Length1, i, j)
  {
    if BombAt(f, i, j) == 1 {
      assert (i, j) in Mines(f);
    }
  }

  /** The neighbour count of a field cell, read off the field offset by offset. */
  lemma AdjacentMinesOfField(f: array2<int>, x: int, y: int)
    ensures AdjacentMines(Mines(f), f.Length0, f.Length1, x, y) ==
      BombAt(f, x - 1, y - 1) + BombAt(f, x - 1, y) + BombAt(f, x - 1, y + 1) + BombAt(f, x, y - 1) +
      BombAt(f, x, y + 1) + BombAt(f, x + 1, y - 1) + BombAt(f, x + 1, y) + BombAt(f, x + 1, y + 1)
  {
    AdjacentMinesByCell(Mines(f), f.Length0, f.Length1, x, y);
    BombAtIsMineAt(f, x - 1, y - 1);
    BombAtIsMineAt(f, x - 1, y);
    BombAtIsMineAt(f, x - 1, y + 1);
    BombAtIsMineAt(f, x, y - 1);
    BombAtIsMineAt(f, x, y + 1);
    BombAtIsMineAt(f, x + 1, y - 1);
    BombAtIsMineAt(f, x + 1, y);
    BombAtIsMineAt(f, x + 1, y + 1);
  }

  /** countNearBombs: the number of in-bounds neighbours of (x, y) holding a mine. */
  method CountNearBombs(grid: array2<int>, x: int, y: int) returns (nearBombs: nat)
    requires InGrid(grid.Length0, grid.Length1, x, y)
    ensures nearBombs == AdjacentMines(Mines(grid), grid.Length0, grid.Length1, x, y)
  {
    var rows, columns := grid.Length0, grid.Length1;
    nearBombs := 0;
    if x - 1 >= 0 && y - 1 >= 0 && grid[x - 1, y - 1] == BOMB { nearBombs := nearBombs + 1; }
    assert nearBombs == BombAt(grid, x - 1, y - 1);
    if y - 1 >= 0 && grid[x, y - 1] == BOMB { nearBombs := nearBombs + 1; }
    assert nearBombs == BombAt(grid, x - 1, y - 1) + BombAt(grid, x, y - 1);
    if x + 1 < rows && y - 1 >= 0 && grid[x + 1, y - 1] == BOMB { nearBombs := nearBombs + 1; }
    assert nearBombs == BombAt(grid, x - 1, y - 1) + BombAt(grid, x, y - 1) + BombAt(grid, x + 1, y - 1);
    if x - 1 >= 0 && grid[x - 1, y] == BOMB { nearBombs := nearBombs + 1; }
    assert nearBombs == BombAt(grid, x - 1, y - 1) + BombAt(grid, x, y - 1) + BombAt(grid, x + 1, y - 1) + BombAt(grid, x - 1, y);
    if x + 1 < rows && grid[x + 1, y] == BOMB { nearBombs := nearBombs + 1; }
    assert nearBombs == BombAt(grid, x - 1, y - 1) + BombAt(grid, x, y - 1) + BombAt(grid, x + 1, y - 1) + BombAt(grid, x - 1, y) + BombAt(grid, x + 1, y);
    if x - 1 >= 0 && y + 1 < columns && grid[x - 1, y + 1] == BOMB { nearBombs := nearBombs + 1; }
    assert nearBombs == BombAt(grid, x - 1, y - 1) + BombAt(grid, x, y - 1) + BombAt(grid, x + 1, y - 1) + BombAt(grid, x - 1, y) + BombAt(grid, x + 1, y) + BombAt(grid, x - 1, y + 1);
    if y + 1 < columns && grid[x, y + 1] == BOMB { nearBombs := nearBombs + 1; }
    assert nearBombs == BombAt(grid, x - 1, y - 1) + BombAt(grid, x, y - 1) + BombAt(grid, x + 1, y - 1) + BombAt(grid, x - 1, y) + BombAt(grid, x + 1, y) + BombAt(grid, x - 1, y + 1) + BombAt(grid, x, y + 1);
    if x + 1 < rows && y + 1 < columns && grid[x + 1, y + 1] == BOMB { nearBombs := nearBombs + 1; }
    assert nearBombs == BombAt(grid, x - 1, y - 1) + BombAt(grid, x, y - 1) + BombAt(grid, x + 1, y - 1) + BombAt(grid, x - 1, y) + BombAt(grid, x + 1, y) + BombAt(grid, x - 1, y + 1) + BombAt(grid, x, y + 1) + BombAt(grid, x + 1, y + 1);
    AdjacentMinesOfField(grid, x, y);
  }

  lemma {:induction false} SubsetCard<T>(a: set<T>, b: set<T>)
    requires a <= b
    ensures |a| <= |b|
  {
    if a != {} {
      var e :| e in a;
      SubsetCard(a - {e}, b - {e});
    }
  }

  /** The first k+1 draws add the draw at k to the coordinates of the first k. */
  lemma DrawnSnoc(draws: seq<Coord>, k: nat)
    requires k < |draws|
    ensures Drawn(draws[..k + 1]) == Drawn(draws[..k]) + {draws[k]}
  {
    assert draws[..k + 1] == draws[..k] + [draws[k]];
  }

  /** The grids of a new game (index.tsx 60-74): every field cell 0, every tile idle. */
  method NewGrids(rows: nat, columns: nat) returns (field: array2<int>, tiles: array2<Tile>)
    ensures fresh(field) && fresh(tiles)
    ensures field.Length0 == rows && field.Length1 == columns
    ensures tiles.Length0 == rows && tiles.Length1 == columns
    ensures forall i, j :: 0 <= i < rows && 0 <= j < columns ==> field[i, j] == 0
    ensures forall i, j :: 0 <= i < rows && 0 <= j < columns ==> tiles[i, j] == Idle
  {
    field := new int[rows, columns];
    tiles := new Tile[rows, columns];
    for x := 0 to rows
      invariant forall i, j :: 0 <= i < x && 0 <= j < columns ==> field[i, j] == 0 && tiles[i, j] == Idle
    {
      for y := 0 to columns
        invariant forall i, j :: 0 <= i < x && 0 <= j < columns ==> field[i, j] == 0 && tiles[i, j] == Idle
        invariant forall j :: 0 <= j < y ==> field[x, j] == 0 && tiles[x, j] == Idle
      {
        field[x, y] := 0;
        tiles[x, y] := Idle;
      }
    }
  }

  /** A prefix of the draws holds at most as many distinct coordinates as all of them. */
  lemma DrawnPrefixCard(draws: seq<Coord>, n: nat)
    requires n <= |draws|
    ensures |Drawn(draws[..n])| <= |Drawn(draws)|
  {
    assert Drawn(draws[..n]) <= Drawn(draws);
    SubsetCard(Drawn(draws[..n]), Drawn(draws));
  }

  /** Every draw is a coordinate of the field, as Math.floor(Math.random() * n) is below n. */
  ghost predicate DrawsInField(field: array2<int>, draws: seq<Coord>) {
    forall k :: 0 <= k < |draws| ==> 0 <= draws[k].0 < field.Length0 && 0 <= draws[k].1 < field.Length1
  }

  /** Draws already among the placed mines do not add to the drawn coordinates. */
  lemma {:induction false} DrawnRejected(draws: seq<Coord>, a: nat, b: nat, placed: set<Coord>)
    requires a <= b <= |draws|
    requires Drawn(draws[..a]) == placed
    requires forall k :: a <= k < b ==> draws[k] in placed
    ensures Drawn(draws[..b]) == placed
  {
    if a < b {
      DrawnRejected(draws, a, b - 1, placed);
      DrawnSnoc(draws, b - 1);
    }
  }

  /** The do-while of index.tsx 83-88: take draws from index start on until one lands on a
      cell still holding 0. Not found means the draws ran out first. */
  method DrawEmptyCell(field: array2<int>, draws: seq<Coord>, start: nat) returns (found: bool, x: int, y: int, next: nat)
    requires start <= |draws|
    requires DrawsInField(field, draws)
    ensures start <= next <= |draws|
    ensures found ==> start < next && (x, y) == draws[next - 1] && field[draws[next - 1].0, draws[next - 1].1] == 0
    ensures !found ==> next == |draws|
    ensures forall k :: start <= k < next && (k < next - 1 || !found) ==> field[draws[k].0, draws[k].1] != 0
  {
    next := start;
    found := false;
    x, y := 0, 0;
    while next < |draws|
      invariant start <= next <= |draws|
      invariant forall k :: start <= k < next ==> field[draws[k].0, draws[k].1] != 0
    {
      x, y := draws[next].0, draws[next].1;
      next := next + 1;
      if field[x, y] == 0 {
        found := true;
        return;
      }
    }
  }

  /** A draw taken after some rejected ones adds one new coordinate. */
  lemma AcceptDraw(draws: seq<Coord>, used: nat, next: nat, placed: set<Coord>)
    requires used < next <= |draws|
    requires Drawn(draws[..used]) == placed
    requires forall k :: used <= k < next - 1 ==> draws[k] in placed
    requires draws[next - 1] !in placed
    ensures Drawn(draws[..next]) == placed + {draws[next - 1]}
    ensures draws[next - 1] !in draws[..next - 1]
  {
    DrawnRejected(draws, used, next - 1, placed);
    DrawnSnoc(draws, next - 1);
    assert draws[next - 1] !in Drawn(draws[..next - 1]);
  }

  /** When every remaining draw is rejected, the drawn coordinates are the placed ones. */
  lemma RejectRest(draws: seq<Coord>, used: nat, placed: set<Coord>)
    requires used <= |draws|
    requires Drawn(draws[..used]) == placed
    requires forall k :: used <= k < |draws| ==> draws[k] in placed
    ensures Drawn(draws) == placed
  {
    DrawnRejected(draws, used, |draws|, placed);
    assert draws[..|draws|] == draws;
  }

  /** Mine placement by rejection sampling (index.tsx 77-92). Math.random is replaced by
      the sequence draws of the coordinates it would produce; a draw landing on a mine is
      rejected and the next one is taken. When the draws run out before every mine is
      placed, the component would go on drawing forever: here ok is false. Otherwise the mines
      are exactly the coordinates of the first used draws, the shortest prefix holding bombs
      distinct coordinates. */
  method PlaceBombs(field: array2<int>, bombs: nat, draws: seq<Coord>) returns (ok: bool, used: nat)
    requires forall i, j :: 0 <= i < field.Length0 && 0 <= j < field.Length1 ==> field[i, j] == 0
    requires DrawsInField(field, draws)
    modifies field
    ensures used <= |draws|
    ensures ok <==> bombs <= |Drawn(draws)|
    ensures ok ==> Mines(field) == Drawn(draws[..used]) && |Mines(field)| == bombs
    ensures ok && used > 0 ==> draws[used - 1] !in draws[..used - 1]
    ensures forall i, j :: 0 <= i < field.Length0 && 0 <= j < field.Length1 ==> field[i, j] == 0 || field[i, j] == BOMB
  {
    ghost var placed: set<Coord> := {};
    used := 0;
    for b := 0 to bombs
      invariant used <= |draws|
      invariant placed == Drawn(draws[..used]) && |placed| == b
      invariant b > 0 ==> used > 0 && draws[used - 1] !in draws[..used - 1]
      invariant forall p :: p in placed ==> InGrid(field.Length0, field.Length1, p.0, p.1)
      invariant forall i, j :: 0 <= i < field.Length0 && 0 <= j < field.Length1 ==>
        (field[i, j] == BOMB <==> (i, j) in placed) && (field[i, j] == 0 || field[i, j] == BOMB)
    {
      var found, x, y, next := DrawEmptyCell(field, draws, used);
      if !found {
        RejectRest(draws, used, placed);
        ok, used := false, next;
        return;
      }
      AcceptDraw(draws, used, next, placed);
      used := next;
      field[x, y] := BOMB;
      placed := placed + {(x, y)};
    }
    ok := true;
    MinesAre(field, placed);
    DrawnPrefixCard(draws, used);
  }

  /** Numbering (index.tsx 95-104): every cell that is not a mine gets its neighbour count,
      computed in place on the field being filled. */
  method NumberTiles(field: array2<int>)
    requires forall i, j :: 0 <= i < field.Length0 && 0 <= j < field.Length1 ==> field[i, j] == 0 || field[i, j] == BOMB
    modifies field
    ensures IsBoard(field)
    ensures Mines(field) == old(Mines(field))
  {
    ghost var mines := Mines(field);
    for x := 0 to field.Length0
      invariant forall i, j :: 0 <= i < field.Length0 && 0 <= j < field.Length1 ==> (field[i, j] == BOMB <==> (i, j) in mines)
      invariant forall i, j :: 0 <= i < x && 0 <= j < field.Length1 ==>
        field[i, j] == BOMB || field[i, j] == AdjacentMines(mines, field.Length0, field.Length1, i, j)
      invariant forall i, j :: x <= i < field.Length0 && 0 <= j < field.Length1 ==> field[i, j] == 0 || field[i, j] == BOMB
    {
      NumberRow(field, x, mines);
    }
    MinesAre(field, mines);
  }

  /** One pass of the inner loop of index.tsx 97-103, over row x. */
  method NumberRow(field: array2<int>, x: int, ghost mines: set<Coord>)
    requires 0 <= x < field.Length0
    requires forall p :: p in mines ==> InGrid(field.Length0, field.Length1, p.0, p.1)
    requires forall i, j :: 0 <= i < field.Length0 && 0 <= j < field.Length1 ==> (field[i, j] == BOMB <==> (i, j) in mines)
    requires forall j :: 0 <= j < field.Length1 ==> field[x, j] == 0 || field[x, j] == BOMB
    modifies field
    ensures forall i, j :: 0 <= i < field.Length0 && 0 <= j < field.Length1 ==> (field[i, j] == BOMB <==> (i, j) in mines)
    ensures forall j :: 0 <= j < field.Length1 ==>
      field[x, j] == BOMB || field[x, j] == AdjacentMines(mines, field.Length0, field.Length1, x, j)
    ensures forall i, j :: 0 <= i < field.Length0 && i != x && 0 <= j < field.Length1 ==> field[i, j] == old(field[i, j])
  {
    for y := 0 to field.Length1
      invariant forall i, j :: 0 <= i < field.Length0 && 0 <= j < field.Length1 ==> (field[i, j] == BOMB <==> (i, j) in mines)
      invariant forall j :: 0 <= j < y ==>
        field[x, j] == BOMB || field[x, j] == AdjacentMines(mines, field.Length0, field.Length1, x, j)
      invariant forall j :: y <= j < field.Length1 ==> field[x, j] == 0 || field[x, j] == BOMB
      invariant forall i, j :: 0 <= i < field.Length0 && i != x && 0 <= j < field.Length1 ==> field[i, j] == old(field[i, j])
    {
      if field[x, y] == 0 {
        MinesAre(field, mines);
        var n := CountNearBombs(field, x, y);
        field[x, y] := n;
      }
    }
  }
}
