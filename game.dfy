/** The Minesweeper component (index.tsx): its state, the reset that deals a new board,
    the click handler and the timer step. React's useState hooks become the fields of a
    Game object; each handler is one atomic step from the state it was called in to the
    next state, and reads the counters as they were when it was called, as the
    component's closures do. The onVictory and onGameover callbacks become the events a
    click returns. */
module Game {
  import opened Tiles
  import opened Board
  import opened Reveal

  datatype Stage = Ready | Playing | Complete | Gameover

  /** The two mouse events the tiles listen to: 'click' and 'contextmenu'. */
  datatype Button = Left | Right

  datatype Clicks = Clicks(left: nat, right: nat)

  /** MinesweeperResults (index.tsx 24-36). */
  datatype Results = Results(time: nat, points: int, bombs: nat, tiles: nat, clicks: Clicks)

  /** A call of onVictory or onGameover with its results. */
  datatype Event = OnVictory(results: Results) | OnGameover(results: Results)

  /** The stages in which the handler ignores every click (index.tsx 126). */
  predicate Ended(s: Stage) {
    s == Complete || s == Gameover
  }

  ghost predicate AllIdle(t: array2<Tile>)
    reads t
  {
    forall i, j :: 0 <= i < t.Length0 && 0 <= j < t.Length1 ==> t[i, j] == Idle
  }

  ghost predicate NoEndTiles(t: array2<Tile>)
    reads t
  {
    forall i, j :: 0 <= i < t.Length0 && 0 <= j < t.Length1 ==> !IsEndTile(t[i, j])
  }

  ghost predicate NoDoubts(t: array2<Tile>)
    reads t
  {
    forall i, j :: 0 <= i < t.Length0 && 0 <= j < t.Length1 ==> t[i, j] != Doubt
  }

  /** How one tile may change while the game is played without it showing anything untrue:
      an idle tile is opened to what its cell holds, or a closed tile is marked (a doubt only
      with question marks on), or a mine tile is flagged by the victory sweep. */
  predicate PlayStep(v: int, before: Tile, after: Tile, useDoubtFlag: bool) {
    || after == before
    || (before == Idle && OpensTo(v, after))
    || (IsClosed(before) && (after == Idle || after == Flag || (useDoubtFlag && after == Doubt)))
  }

  /** A tile that changes by a play step keeps agreeing with its cell, shows no end tile
      and, with question marks off, no doubt. */
  lemma PlayStepKeepsTrue(v: int, before: Tile, after: Tile, useDoubtFlag: bool)
    requires PlayStep(v, before, after, useDoubtFlag)
    requires Agrees(before, v) && !IsEndTile(before) && (!useDoubtFlag ==> before != Doubt)
    ensures Agrees(after, v) && !IsEndTile(after) && (!useDoubtFlag ==> after != Doubt)
  {
  }

  /** The board part of handleGameReset (index.tsx 60-104): fresh grids, the mines on the
      first distinct draws, the numbers around them and every tile idle; no board when the
      draws hold fewer distinct cells than there are mines. */
  method Deal(rows: nat, columns: nat, bombs: nat, draws: seq<Coord>)
    returns (ok: bool, field: array2<int>, tiles: array2<Tile>, ghost used: nat)
    requires forall k :: 0 <= k < |draws| ==> InGrid(rows, columns, draws[k].0, draws[k].1)
    ensures ok <==> bombs <= |Drawn(draws)|
    ensures fresh(field) && fresh(tiles) && SameShape(field, tiles) && field.Length0 == rows && field.Length1 == columns
    ensures ok ==> used <= |draws| && Mines(field) == Drawn(draws[..used]) && |Mines(field)| == bombs
    ensures ok ==> IsBoard(field) && AllIdle(tiles)
  {
    field, tiles := NewGrids(rows, columns);
    assert AllIdle(tiles);
    ok, used := PlaceBombs(field, bombs, draws);
    if ok {
      NumberTiles(field);
    }
  }

  /** A board whose tiles are all idle shows nothing untrue. */
  lemma IdleTilesAreTrue(field: array2<int>, tiles: array2<Tile>)
    requires SameShape(field, tiles) && AllIdle(tiles)
    ensures Consistent(field, tiles) && NoDoubts(tiles) && NoEndTiles(tiles)
  {
  }

  /** The tiles after a click on the mine at (x, y): it explodes, the other mines and the
      wrong flags are shown, and when the victory check passes anyway the remaining
      closed mines get a flag. */
  twostate predicate MineHit(field: array2<int>, tiles: array2<Tile>, x: int, y: int, won: bool)
    requires SameShape(field, tiles) && InGrid(tiles.Length0, tiles.Length1, x, y)
    reads field, tiles
  {
    tiles[x, y] == Exploded &&
    forall i, j :: 0 <= i < tiles.Length0 && 0 <= j < tiles.Length1 && (i, j) != (x, y) ==>
      var swept := AfterBombSweep(field[i, j] == BOMB, old(tiles[i, j]));
      tiles[i, j] == if won then AfterFlagSweep(field[i, j] == BOMB, swept) else swept
  }

  /** The tiles after a click on the cell (x, y) without a mine: it shows what it holds;
      a 0-cell cascades, opening idle cells without a mine only, each next to a cell it
      cleared, the cleared cells one chain of neighbours from (x, y) and each ending with
      no idle neighbour; on victory the closed mines get a flag. */
  twostate predicate SafeOpened(field: array2<int>, tiles: array2<Tile>, x: int, y: int, won: bool)
    requires SameShape(field, tiles) && InGrid(tiles.Length0, tiles.Length1, x, y)
    reads field, tiles
  {
    && OpensTo(field[x, y], tiles[x, y])
    && (forall i, j :: 0 <= i < tiles.Length0 && 0 <= j < tiles.Length1 && field[i, j] == BOMB ==>
          tiles[i, j] == if won then AfterFlagSweep(true, old(tiles[i, j])) else old(tiles[i, j]))
    && (forall i, j :: 0 <= i < tiles.Length0 && 0 <= j < tiles.Length1 && field[i, j] != BOMB ==>
          tiles[i, j] == old(tiles[i, j]) || (old(tiles[i, j]) == Idle && OpensTo(field[i, j], tiles[i, j])))
    && (field[x, y] != 0 ==>
          forall i, j :: 0 <= i < tiles.Length0 && 0 <= j < tiles.Length1 && (i, j) != (x, y) && field[i, j] != BOMB ==>
            tiles[i, j] == old(tiles[i, j]))
    && CascadeFrom(old(Snapshot(tiles)), Snapshot(tiles), Mines(field), x, y)
  }

  /** The tiles of a left click on an idle cell without a mine (index.tsx 143-157 and 176):
      the cell is opened, then the victory check runs. The game is won exactly when every
      cell without a mine is open. */
  method OpenSafe(field: array2<int>, tiles: array2<Tile>, bombs: nat, x: int, y: int) returns (won: bool)
    requires SameShape(field, tiles) && IsBoard(field) && |Mines(field)| == bombs
    requires Consistent(field, tiles) && NoEndTiles(tiles)
    requires InGrid(tiles.Length0, tiles.Length1, x, y) && tiles[x, y] == Idle && field[x, y] != BOMB
    modifies tiles
    ensures won <==> |ClosedCells(tiles)| == bombs
    ensures won <==> AllSafeOpen(field, tiles)
    ensures SafeOpened(field, tiles, x, y, won)
    ensures forall i, j :: 0 <= i < tiles.Length0 && 0 <= j < tiles.Length1 ==>
      PlayStep(field[i, j], old(tiles[i, j]), tiles[i, j], false)
    ensures Consistent(field, tiles) && NoEndTiles(tiles)
    ensures old(NoDoubts(tiles)) ==> NoDoubts(tiles)
  {
    ghost var start := Snapshot(tiles);
    BoardSafeToCascade(field);
    ghost var order := OpenClicked(field, tiles, x, y);
    ghost var cascaded := Snapshot(tiles);
    label Opened:
    assert forall i, j :: 0 <= i < tiles.Length0 && 0 <= j < tiles.Length1 && field[i, j] == BOMB ==>
      IsClosed(tiles[i, j]);
    VictoryMeansAllSafeOpen(field, tiles);
    won := CheckVictory(field, tiles, bombs);
    forall i, j | 0 <= i < tiles.Length0 && 0 <= j < tiles.Length1
      ensures PlayStep(field[i, j], old(tiles[i, j]), tiles[i, j], false)
    {
      assert field[i, j] != BOMB ==> tiles[i, j] == old@Opened(tiles[i, j]);
    }
    forall i, j | 0 <= i < tiles.Length0 && 0 <= j < tiles.Length1
      ensures Agrees(tiles[i, j], field[i, j]) && !IsEndTile(tiles[i, j])
      ensures old(tiles[i, j]) != Doubt ==> tiles[i, j] != Doubt
    {
      PlayStepKeepsTrue(field[i, j], old(tiles[i, j]), tiles[i, j], old(tiles[i, j]) == Doubt);
    }
    ghost var swept := Snapshot(tiles);
    forall c | Differs(cascaded, swept, c)
      ensures c in Mines(field) && cascaded[c] != Clear && swept[c] == Flag
    {
      assert swept[c] == tiles[c.0, c.1] && field[c.0, c.1] == BOMB;
    }
    SweepKeepsCascade(start, cascaded, swept, Mines(field), order, x, y);
  }

  /** The tiles of a left click on an idle mine (index.tsx 143 and 160-176): it explodes,
      every mine and wrong flag is shown, then the victory check runs. */
  method Explode(field: array2<int>, tiles: array2<Tile>, bombs: nat, x: int, y: int) returns (won: bool)
    requires SameShape(field, tiles) && Consistent(field, tiles)
    requires InGrid(tiles.Length0, tiles.Length1, x, y) && tiles[x, y] == Idle && field[x, y] == BOMB
    modifies tiles
    ensures won <==> |ClosedCells(tiles)| == bombs
    ensures MineHit(field, tiles, x, y, won)
    ensures Consistent(field, tiles)
    ensures old(NoDoubts(tiles)) ==> NoDoubts(tiles)
  {
    tiles[x, y] := Exploded;
    ShowAllBombs(field, tiles);
    won := CheckVictory(field, tiles, bombs);
  }

  class Game {
    // The props: a change of props is a new Game.
    const rows: nat
    const columns: nat
    const bombs: nat
    const useDoubtFlag: bool

    // The component's state (index.tsx 44-53).
    var field: array2<int>
    var tiles: array2<Tile>
    var flags: int
    var timer: nat
    var stage: Stage
    var leftClicks: nat
    var rightClicks: nat

    /** Whether a board has been dealt; before the first reset both grids are empty. */
    ghost var dealt: bool

    ghost predicate Valid()
      reads this, field, tiles
    {
      && SameShape(field, tiles)
      && (if dealt then field.Length0 == rows && field.Length1 == columns && |Mines(field)| == bombs
          else field.Length0 == 0 && field.Length1 == 0)
      && IsBoard(field)
      && Consistent(field, tiles)
      && (!useDoubtFlag ==> NoDoubts(tiles))
      && (!Ended(stage) ==> NoEndTiles(tiles))
      && (stage == Ready ==> AllIdle(tiles) && flags == 0 && timer == 0 && leftClicks == 0 && rightClicks == 0)
    }

    /** The results record of handlesVictory and handlesGameover (index.tsx 363-400). */
    function GameResults(points: int): Results
      reads this
    {
      Results(timer, points, bombs, rows * columns, Clicks(leftClicks, rightClicks))
    }

    /** The initial values of the useState hooks, before the mount effect deals a board. */
    constructor (rows: nat, columns: nat, bombs: nat, useDoubtFlag: bool)
      ensures this.rows == rows && this.columns == columns && this.bombs == bombs && this.useDoubtFlag == useDoubtFlag
      ensures Valid() && !dealt
      ensures field.Length0 == 0 && field.Length1 == 0
      ensures stage == Ready && flags == 0 && timer == 0 && leftClicks == 0 && rightClicks == 0
    {
      this.rows := rows;
      this.columns := columns;
      this.bombs := bombs;
      this.useDoubtFlag := useDoubtFlag;
      field := new int[0, 0];
      tiles := new Tile[0, 0];
      flags, timer, stage := 0, 0, Ready;
      leftClicks, rightClicks := 0, 0;
      dealt := false;
    }

    /** handleGameReset (index.tsx 57-116), with the coordinates Math.random would produce
        given as draws. When the draws hold enough distinct cells, a new board is dealt with
        its mines on the first used draws, every tile idle and every counter back to 0.
        Otherwise the component would go on drawing forever before setting any state: here
        nothing changes and ok is false. */
    method Reset(draws: seq<Coord>) returns (ok: bool, ghost used: nat)
      requires Valid()
      requires forall k :: 0 <= k < |draws| ==> InGrid(rows, columns, draws[k].0, draws[k].1)
      modifies this
      ensures Valid()
      ensures ok <==> bombs <= |Drawn(draws)|
      ensures ok ==> fresh(field) && fresh(tiles) && dealt && field.Length0 == rows && field.Length1 == columns
      ensures ok ==> used <= |draws| && Mines(field) == Drawn(draws[..used]) && |Mines(field)| == bombs
      ensures ok ==> AllIdle(tiles) && stage == Ready && flags == 0 && timer == 0 && leftClicks == 0 && rightClicks == 0
      ensures !ok ==> unchanged(this)
    {
      var newField, newTiles;
      ok, newField, newTiles, used := Deal(rows, columns, bombs, draws);
      if !ok {
        return;
      }
      Install(newField, newTiles);
    }

    /** The state updates of handleGameReset (index.tsx 106-115): the new board, every tile
        idle, and the timer, the flag counter, the stage and the clicks back to their start. */
    method Install(newField: array2<int>, newTiles: array2<Tile>)
      requires SameShape(newField, newTiles) && newField.Length0 == rows && newField.Length1 == columns
      requires IsBoard(newField) && |Mines(newField)| == bombs && AllIdle(newTiles)
      modifies this
      ensures Valid() && dealt && field == newField && tiles == newTiles
      ensures stage == Ready && flags == 0 && timer == 0 && leftClicks == 0 && rightClicks == 0
    {
      IdleTilesAreTrue(newField, newTiles);
      field, tiles, timer, flags, stage, leftClicks, rightClicks := newField, newTiles, 0, 0, Ready, 0, 0;
      dealt := true;
    }

    /** The timer effect (index.tsx 404-411), one second at a time: the timer only runs while
        the game is being played. */
    method Tick()
      requires Valid()
      modifies this
      ensures Valid()
      ensures timer == if old(stage) == Playing then old(timer) + 1 else old(timer)
      ensures stage == old(stage) && flags == old(flags) && leftClicks == old(leftClicks) && rightClicks == old(rightClicks)
      ensures field == old(field) && tiles == old(tiles) && dealt == old(dealt)
    {
      if stage == Playing {
        timer := timer + 1;
      }
    }

    /** Every tile is what it was. */
    twostate predicate TilesKept()
      requires old(tiles) == tiles
      reads this, tiles
    {
      forall i, j :: 0 <= i < tiles.Length0 && 0 <= j < tiles.Length1 ==> tiles[i, j] == old(tiles[i, j])
    }

    /** The stage and every counter are what they were. */
    twostate predicate StateKept()
      reads this
    {
      stage == old(stage) && flags == old(flags) && timer == old(timer) && leftClicks == old(leftClicks) &&
      rightClicks == old(rightClicks)
    }

    /** The 'click' branch of handleTileClick (index.tsx 137-177) with the state updates of
        226-230. A tile that is not idle ignores the click. Otherwise the click is counted,
        the cell is opened or explodes, and the victory check decides: the game is complete
        exactly when as many tiles are closed as there are mines, lost when a mine was hit,
        and playing otherwise. The results carry the clicks counted before this one. */
    twostate predicate LeftClicked(x: int, y: int, events: seq<Event>)
      requires old(tiles) == tiles && old(field) == field && SameShape(field, tiles) && InGrid(tiles.Length0, tiles.Length1, x, y)
      reads this, field, tiles
    {
      if old(tiles[x, y]) != Idle then
        StateKept() && TilesKept() && events == []
      else
        var mine := field[x, y] == BOMB;
        var won := |ClosedCells(tiles)| == bombs;
        && leftClicks == old(leftClicks) + 1
        && rightClicks == old(rightClicks) && flags == old(flags) && timer == old(timer)
        && stage == (if won then Complete else if mine then Gameover else Playing)
        && events == (if mine then [OnGameover(old(GameResults(0)))] else []) + (if won then [OnVictory(old(GameResults(100)))] else [])
        && (mine ==> MineHit(field, tiles, x, y, won))
        && (!mine ==> SafeOpened(field, tiles, x, y, won))
    }

    /** The 'contextmenu' branch of handleTileClick (index.tsx 181-224) with the state updates
        of 226-230: a closed tile moves one step through the marking cycle, the click is
        counted, the flag counter moves and the game is playing; any other tile ignores it. */
    twostate predicate RightClicked(x: int, y: int)
      requires old(tiles) == tiles && InGrid(tiles.Length0, tiles.Length1, x, y)
      reads this, tiles
    {
      match FlagCycle(old(tiles[x, y]), useDoubtFlag)
      case None => StateKept() && TilesKept()
      case Some(marking) =>
        && tiles[x, y] == marking.tile
        && (forall i, j :: 0 <= i < tiles.Length0 && 0 <= j < tiles.Length1 && (i, j) != (x, y) ==> tiles[i, j] == old(tiles[i, j]))
        && flags == old(flags) + marking.flagDelta
        && rightClicks == old(rightClicks) + 1
        && stage == Playing
        && leftClicks == old(leftClicks) && timer == old(timer)
    }

    /** handleTileClick (index.tsx 120-231): a click after the game has ended changes
        nothing; otherwise the button decides. */
    method HandleTileClick(button: Button, x: int, y: int) returns (events: seq<Event>)
      requires Valid() && InGrid(tiles.Length0, tiles.Length1, x, y)
      modifies this, tiles
      ensures Valid()
      ensures field == old(field) && tiles == old(tiles) && dealt == old(dealt)
      ensures Ended(old(stage)) ==> StateKept() && TilesKept() && events == []
      ensures !Ended(old(stage)) && button == Left ==> LeftClicked(x, y, events)
      ensures !Ended(old(stage)) && button == Right ==> RightClicked(x, y) && events == []
      ensures !Ended(old(stage)) && button == Left && old(tiles[x, y]) == Idle && field[x, y] != BOMB ==>
        (stage == Complete <==> AllSafeOpen(field, tiles))
      ensures forall k :: 0 <= k < |events| ==>
        var r := events[k].results;
        && r.points == (if events[k].OnVictory? then 100 else 0)
        && r.tiles == rows * columns && r.bombs == bombs && r.time == old(timer)
        && r.clicks == Clicks(old(leftClicks), old(rightClicks))
    {
      if stage == Complete || stage == Gameover {
        return [];
      }
      if button == Left {
        events := LeftClick(x, y);
      } else {
        RightClick(x, y);
        events := [];
      }
    }

    /** The 'click' branch; the three cases of index.tsx 146-173 exclude each other, as the
        field value decides them. */
    method LeftClick(x: int, y: int) returns (events: seq<Event>)
      requires Valid() && InGrid(tiles.Length0, tiles.Length1, x, y) && !Ended(stage)
      modifies tiles, this
      ensures Valid()
      ensures field == old(field) && tiles == old(tiles) && dealt == old(dealt)
      ensures LeftClicked(x, y, events)
      ensures old(tiles[x, y]) == Idle && field[x, y] != BOMB ==> (stage == Complete <==> AllSafeOpen(field, tiles))
    {
      if tiles[x, y] != Idle {
        return [];
      }
      if field[x, y] == BOMB {
        events := MineClick(x, y);
      } else {
        events := SafeClick(x, y);
      }
    }

    /** A left click on an idle cell without a mine (index.tsx 143-157 and 176). */
    method SafeClick(x: int, y: int) returns (events: seq<Event>)
      requires Valid() && InGrid(tiles.Length0, tiles.Length1, x, y) && !Ended(stage)
      requires tiles[x, y] == Idle && field[x, y] != BOMB
      modifies tiles, this
      ensures Valid()
      ensures field == old(field) && tiles == old(tiles) && dealt == old(dealt)
      ensures var won := |ClosedCells(tiles)| == bombs;
        && leftClicks == old(leftClicks) + 1
        && rightClicks == old(rightClicks) && flags == old(flags) && timer == old(timer)
        && stage == (if won then Complete else Playing)
        && events == (if won then [OnVictory(old(GameResults(100)))] else [])
        && SafeOpened(field, tiles, x, y, won)
      ensures stage == Complete <==> AllSafeOpen(field, tiles)
    {
      var won := OpenSafe(field, tiles, bombs, x, y);
      events := if won then [OnVictory(GameResults(100))] else [];
      leftClicks, stage := leftClicks + 1, if won then Complete else Playing;
    }

    /** A left click on an idle mine (index.tsx 143 and 160-176). */
    method MineClick(x: int, y: int) returns (events: seq<Event>)
      requires Valid() && InGrid(tiles.Length0, tiles.Length1, x, y) && !Ended(stage)
      requires tiles[x, y] == Idle && field[x, y] == BOMB
      modifies tiles, this
      ensures Valid()
      ensures field == old(field) && tiles == old(tiles) && dealt == old(dealt)
      ensures var won := |ClosedCells(tiles)| == bombs;
        && leftClicks == old(leftClicks) + 1
        && rightClicks == old(rightClicks) && flags == old(flags) && timer == old(timer)
        && stage == (if won then Complete else Gameover)
        && events == [OnGameover(old(GameResults(0)))] + (if won then [OnVictory(old(GameResults(100)))] else [])
        && MineHit(field, tiles, x, y, won)
    {
      events := [OnGameover(GameResults(0))];
      var won := Explode(field, tiles, bombs, x, y);
      if won {
        events := events + [OnVictory(GameResults(100))];
      }
      leftClicks := leftClicks + 1;
      stage := if won then Complete else Gameover;
    }

    method RightClick(x: int, y: int)
      requires Valid() && InGrid(tiles.Length0, tiles.Length1, x, y) && !Ended(stage)
      modifies tiles, this
      ensures Valid()
      ensures field == old(field) && tiles == old(tiles) && dealt == old(dealt)
      ensures RightClicked(x, y)
    {
      var tile, delta;
      if tiles[x, y] == Idle {
        tile, delta := Flag, 1;
      } else if tiles[x, y] == Flag {
        tile, delta := if useDoubtFlag then Doubt else Idle, -1;
      } else if tiles[x, y] == Doubt {
        tile, delta := Idle, -1;
      } else {
        return;
      }
      tiles[x, y] := tile;
      forall i, j | 0 <= i < tiles.Length0 && 0 <= j < tiles.Length1
        ensures Agrees(tiles[i, j], field[i, j]) && !IsEndTile(tiles[i, j]) && (!useDoubtFlag ==> tiles[i, j] != Doubt)
      {
        PlayStepKeepsTrue(field[i, j], old(tiles[i, j]), tiles[i, j], useDoubtFlag);
      }
      rightClicks, flags, stage := rightClicks + 1, flags + delta, Playing;
    }
  }
}
