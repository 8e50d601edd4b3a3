/** What a click does to the tiles grid: the cascade through clear cells, the two
    end-of-game sweeps and the count of closed tiles the victory check relies on. Each
    operation works in place on the tiles grid, reading the field, as the component's
    helpers do on their newTiles argument. */
module Reveal {
  import opened Tiles
  import opened Board

  /** The field and the tiles grid describe the same rows x columns board. */
  predicate SameShape(field: array2<int>, tiles: array2<Tile>) {
    field.Length0 == tiles.Length0 && field.Length1 == tiles.Length1
  }

  /** The cells whose tile is idle. */
  ghost function IdleCells(t: array2<Tile>): set<Coord>
    reads t
  {
    set i, j | 0 <= i < t.Length0 && 0 <= j < t.Length1 && t[i, j] == Idle :: (i, j)
  }

  /** The cells whose tile is closed (idle, flag or doubt). */
  ghost function ClosedCells(t: array2<Tile>): set<Coord>
    reads t
  {
    set i, j | 0 <= i < t.Length0 && 0 <= j < t.Length1 && IsClosed(t[i, j]) :: (i, j)
  }

  /** The closed cells that come before (x, y) in row-major order. */
  ghost function ClosedBefore(t: array2<Tile>, x: int, y: int): set<Coord>
    reads t
  {
    set i, j | 0 <= i < t.Length0 && 0 <= j < t.Length1 && (i < x || (i == x && j < y)) && IsClosed(t[i, j]) :: (i, j)
  }

  /** The tiles of a grid, by cell. */
  ghost function Snapshot(t: array2<Tile>): imap<Coord, Tile>
    reads t
  {
    imap c: Coord | InGrid(t.Length0, t.Length1, c.0, c.1) :: t[c.0, c.1]
  }

  /** No in-bounds neighbour of (x, y) is still idle. */
  ghost predicate Settled(t: array2<Tile>, x: int, y: int)
    reads t
  {
    SettledAt(Snapshot(t), (x, y))
  }

  /** Cell c is off the grid or not idle. */
  ghost predicate NoIdleAt(t: imap<Coord, Tile>, c: Coord) {
    c in t ==> t[c] != Idle
  }

  /** None of the first k neighbours of c is an idle cell of the grid. */
  ghost predicate SettledUpTo(t: imap<Coord, Tile>, c: Coord, k: int)
    requires k <= |Around|
  {
    forall m :: 0 <= m < k ==> NoIdleAt(t, Neighbour(c.0, c.1, m))
  }

  /** No neighbour of c is an idle cell of the grid. */
  ghost predicate SettledAt(t: imap<Coord, Tile>, c: Coord) {
    SettledUpTo(t, c, |Around|)
  }

  /** From before to after, no tile becomes idle. */
  ghost predicate NoNewIdle(before: imap<Coord, Tile>, after: imap<Coord, Tile>) {
    before.Keys == after.Keys &&
    forall c {:trigger Differs(before, after, c)} :: Differs(before, after, c) ==> after[c] != Idle
  }

  /** A change that makes no tile idle keeps every neighbour that was not idle so. */
  lemma SettledKept(before: imap<Coord, Tile>, after: imap<Coord, Tile>, c: Coord, k: int)
    requires k <= |Around| && NoNewIdle(before, after) && SettledUpTo(before, c, k)
    ensures SettledUpTo(after, c, k)
  {
    forall m | 0 <= m < k
      ensures NoIdleAt(after, Neighbour(c.0, c.1, m))
    {
      assert NoIdleAt(before, Neighbour(c.0, c.1, m));
      assert Neighbour(c.0, c.1, m) in after ==> !Differs(before, after, Neighbour(c.0, c.1, m)) || after[Neighbour(c.0, c.1, m)] != Idle;
    }
  }

  /** Cell c is in both grids and its tile differs between them. */
  ghost predicate Differs(before: imap<Coord, Tile>, after: imap<Coord, Tile>, c: Coord) {
    c in before && c in after && after[c] != before[c]
  }

  /** From before to after, no tile changes but the one of (x, y). */
  ghost predicate OnlyChangeAt(before: imap<Coord, Tile>, after: imap<Coord, Tile>, x: int, y: int) {
    forall c {:trigger Differs(before, after, c)} :: Differs(before, after, c) ==> c == (x, y)
  }

  /** From before to after, only idle tiles change. */
  ghost predicate OnlyIdleChange(before: imap<Coord, Tile>, after: imap<Coord, Tile>) {
    before.Keys == after.Keys &&
    forall c {:trigger Differs(before, after, c)} :: Differs(before, after, c) ==> before[c] == Idle
  }

  /** Cell c was idle before and is clear after. */
  ghost predicate ClearedIn(before: imap<Coord, Tile>, after: imap<Coord, Tile>, c: Coord) {
    c in before && c in after && before[c] == Idle && after[c] == Clear
  }

  /** The m-th neighbour of (x, y) is a cell that was idle before and is clear after. */
  ghost predicate ClearedNeighbour(before: imap<Coord, Tile>, after: imap<Coord, Tile>, x: int, y: int, m: int)
    requires 0 <= m < |Around|
  {
    ClearedIn(before, after, Neighbour(x, y, m))
  }

  /** Every cell other than (x, y) that changed from before to after has a neighbour that
      was idle before and is clear after: a cascade spreads only from cleared cells. */
  ghost predicate ChangesNear(before: imap<Coord, Tile>, after: imap<Coord, Tile>, x: int, y: int) {
    forall c {:trigger Differs(before, after, c)} :: Differs(before, after, c) && c != (x, y) ==>
      exists m :: 0 <= m < |Around| && ClearedNeighbour(before, after, c.0, c.1, m)
  }

  /** Every cell other than (x, y) and outside mines that changed from before to after
      has a neighbour that was idle before and is clear after. */
  ghost predicate SafeChangesNear(before: imap<Coord, Tile>, after: imap<Coord, Tile>, mines: set<Coord>, x: int, y: int) {
    forall c {:trigger Differs(before, after, c)} :: Differs(before, after, c) && c != (x, y) && c !in mines ==>
      exists m :: 0 <= m < |Around| && ClearedNeighbour(before, after, c.0, c.1, m)
  }

  /** From before to after, only cells of mines change, each to a flag, and no clear tile
      does. */
  ghost predicate OnlyMinesChange(before: imap<Coord, Tile>, after: imap<Coord, Tile>, mines: set<Coord>) {
    before.Keys == after.Keys &&
    forall c {:trigger Differs(before, after, c)} :: Differs(before, after, c) ==> c in mines && before[c] != Clear && after[c] == Flag
  }

  /** A sweep that touches only mines after a cascade keeps every other change next to a
      cell the cascade cleared. */
  lemma SweepKeepsChangesNear(start: imap<Coord, Tile>, cascaded: imap<Coord, Tile>, swept: imap<Coord, Tile>, mines: set<Coord>, x: int, y: int)
    requires ChangesNear(start, cascaded, x, y) && OnlyMinesChange(cascaded, swept, mines)
    ensures SafeChangesNear(start, swept, mines, x, y)
  {
    forall c | Differs(start, swept, c) && c != (x, y) && c !in mines
      ensures exists m :: 0 <= m < |Around| && ClearedNeighbour(start, swept, c.0, c.1, m)
    {
      assert !Differs(cascaded, swept, c);
      assert Differs(start, cascaded, c);
      var m :| 0 <= m < |Around| && ClearedNeighbour(start, cascaded, c.0, c.1, m);
      assert !Differs(cascaded, swept, Neighbour(c.0, c.1, m));
      assert ClearedNeighbour(start, swept, c.0, c.1, m);
    }
  }

  /** One step of the cascade from a cleared (x, y) into its k-th neighbour keeps every
      change, its own and the neighbour's, next to a cleared cell. */
  lemma ChangesNearStep(start: imap<Coord, Tile>, mid: imap<Coord, Tile>, now: imap<Coord, Tile>, x: int, y: int, k: int)
    requires 0 <= k < |Around|
    requires OnlyIdleChange(start, mid) && OnlyIdleChange(mid, now)
    requires (x, y) in start && start[(x, y)] == Idle && mid[(x, y)] == Clear
    requires ChangesNear(start, mid, x, y)
    requires ChangesNear(mid, now, Neighbour(x, y, k).0, Neighbour(x, y, k).1)
    ensures OnlyIdleChange(start, now) && ChangesNear(start, now, x, y)
  {
    forall c | Differs(start, now, c)
      ensures start[c] == Idle
    {
      if !Differs(start, mid, c) {
        assert Differs(mid, now, c);
      }
    }
    forall c | Differs(start, now, c) && c != (x, y)
      ensures exists m :: 0 <= m < |Around| && ClearedNeighbour(start, now, c.0, c.1, m)
    {
      if Differs(start, mid, c) {
        var m :| 0 <= m < |Around| && ClearedNeighbour(start, mid, c.0, c.1, m);
        assert !Differs(mid, now, Neighbour(c.0, c.1, m));
        assert ClearedNeighbour(start, now, c.0, c.1, m);
      } else if c == Neighbour(x, y, k) {
        NeighbourBack(x, y, k);
        assert !Differs(mid, now, (x, y));
        assert ClearedNeighbour(start, now, c.0, c.1, 7 - k);
      } else {
        assert Differs(mid, now, c);
        var m :| 0 <= m < |Around| && ClearedNeighbour(mid, now, c.0, c.1, m);
        assert !Differs(start, mid, Neighbour(c.0, c.1, m)) || start[Neighbour(c.0, c.1, m)] == Idle;
        assert ClearedNeighbour(start, now, c.0, c.1, m);
      }
    }
  }

  /** Each cell of order after the first is a neighbour of an earlier one. */
  ghost predicate Linked(order: seq<Coord>) {
    forall n :: 0 < n < |order| ==>
      exists p, m :: 0 <= p < n && 0 <= m < |Around| && order[n] == Neighbour(order[p].0, order[p].1, m)
  }

  /** order lists the cells cleared from before to after, in the order they were cleared:
      every cell that became clear is listed, the first is (x, y), and each later one is
      a neighbour of an earlier one; a cascade spreads only through the cells it clears. */
  ghost predicate ClearChain(before: imap<Coord, Tile>, after: imap<Coord, Tile>, order: seq<Coord>, x: int, y: int) {
    && (|order| > 0 ==> order[0] == (x, y))
    && (forall n :: 0 <= n < |order| ==> ClearedIn(before, after, order[n]))
    && Linked(order)
    && (forall c {:trigger ClearedIn(before, after, c)} :: ClearedIn(before, after, c) ==> c in order)
  }

  /** One step of the cascade from a cleared (x, y) into its k-th neighbour: the cells that
      step clears, listed after those cleared so far, still form one chain from (x, y). */
  lemma ClearChainStep(start: imap<Coord, Tile>, mid: imap<Coord, Tile>, now: imap<Coord, Tile>,
                       order: seq<Coord>, more: seq<Coord>, x: int, y: int, k: int)
    requires 0 <= k < |Around|
    requires OnlyIdleChange(start, mid) && OnlyIdleChange(mid, now)
    requires ClearChain(start, mid, order, x, y) && |order| > 0
    requires ClearChain(mid, now, more, Neighbour(x, y, k).0, Neighbour(x, y, k).1)
    ensures ClearChain(start, now, order + more, x, y)
  {
    var all := order + more;
    forall n | 0 <= n < |all|
      ensures ClearedIn(start, now, all[n])
    {
      if n < |order| {
        assert ClearedIn(start, mid, order[n]);
        assert !Differs(mid, now, order[n]);
      } else {
        assert ClearedIn(mid, now, more[n - |order|]);
        assert !Differs(start, mid, more[n - |order|]);
      }
    }
    forall n | 0 < n < |all|
      ensures exists p, m :: 0 <= p < n && 0 <= m < |Around| && all[n] == Neighbour(all[p].0, all[p].1, m)
    {
      if n < |order| {
        var p, m :| 0 <= p < n && 0 <= m < |Around| && order[n] == Neighbour(order[p].0, order[p].1, m);
        assert all[n] == Neighbour(all[p].0, all[p].1, m);
      } else if n == |order| {
        assert all[n] == Neighbour(all[0].0, all[0].1, k);
      } else {
        var p, m :| 0 <= p < n - |order| && 0 <= m < |Around| && more[n - |order|] == Neighbour(more[p].0, more[p].1, m);
        assert all[n] == Neighbour(all[p + |order|].0, all[p + |order|].1, m);
      }
    }
    forall c | ClearedIn(start, now, c)
      ensures c in all
    {
      if !Differs(mid, now, c) {
        assert ClearedIn(start, mid, c);
      } else {
        assert ClearedIn(mid, now, c);
      }
    }
  }

  /** Every cell cleared from before to after ends with no idle neighbour. */
  ghost predicate ClearedSettled(before: imap<Coord, Tile>, after: imap<Coord, Tile>) {
    forall c {:trigger ClearedIn(before, after, c)} :: ClearedIn(before, after, c) ==> SettledAt(after, c)
  }

  /** What a cascade from (x, y) does to the tiles, order listing the cells it clears: only
      idle tiles change, every change sits next to a cleared cell, the cleared cells form
      one chain from (x, y) and each ends with no idle neighbour. */
  ghost predicate Spread(before: imap<Coord, Tile>, after: imap<Coord, Tile>, order: seq<Coord>, x: int, y: int) {
    SpreadUpTo(before, after, order, x, y, |Around|)
  }

  /** Spread while the cascade from (x, y) has visited only its first k neighbours: (x, y)
      itself need have no idle neighbour among those k only. */
  ghost predicate SpreadUpTo(before: imap<Coord, Tile>, after: imap<Coord, Tile>, order: seq<Coord>, x: int, y: int, k: int)
    requires k <= |Around|
  {
    && OnlyIdleChange(before, after) && ChangesNear(before, after, x, y) && ClearChain(before, after, order, x, y)
    && (forall c {:trigger ClearedIn(before, after, c)} :: ClearedIn(before, after, c) && c != (x, y) ==> SettledAt(after, c))
    && (ClearedIn(before, after, (x, y)) ==> SettledUpTo(after, (x, y), k))
  }

  /** One step of the cascade from a cleared (x, y) into its k-th neighbour, which ends
      not idle, keeps Spread and settles one more neighbour of (x, y). */
  lemma SpreadStep(start: imap<Coord, Tile>, mid: imap<Coord, Tile>, now: imap<Coord, Tile>,
                   order: seq<Coord>, more: seq<Coord>, x: int, y: int, k: int)
    requires 0 <= k < |Around|
    requires SpreadUpTo(start, mid, order, x, y, k) && |order| > 0
    requires Spread(mid, now, more, Neighbour(x, y, k).0, Neighbour(x, y, k).1)
    requires NoIdleAt(now, Neighbour(x, y, k))
    ensures SpreadUpTo(start, now, order + more, x, y, k + 1)
  {
    assert ClearedIn(start, mid, order[0]);
    ChangesNearStep(start, mid, now, x, y, k);
    ClearChainStep(start, mid, now, order, more, x, y, k);
    assert NoNewIdle(mid, now) by {
      forall c | Differs(mid, now, c)
        ensures now[c] != Idle
      {
      }
    }
    forall c | ClearedIn(start, now, c)
      ensures c != (x, y) ==> SettledAt(now, c)
      ensures c == (x, y) ==> SettledUpTo(now, c, k + 1)
    {
      if ClearedIn(start, mid, c) {
        SettledKept(mid, now, c, if c == (x, y) then k else |Around|);
      } else {
        assert !Differs(start, mid, c) && ClearedIn(mid, now, c);
      }
    }
  }

  /** A sweep that flags only mines after a cascade from (x, y) keeps what the cascade did
      to every other cell: each change sits next to a cleared cell, the cleared cells are
      the same chain, and each still has no idle neighbour. */
  lemma SweepKeepsCascade(start: imap<Coord, Tile>, cascaded: imap<Coord, Tile>, swept: imap<Coord, Tile>,
                          mines: set<Coord>, order: seq<Coord>, x: int, y: int)
    requires Spread(start, cascaded, order, x, y) && OnlyMinesChange(cascaded, swept, mines)
    ensures ClearChain(start, swept, order, x, y)
    ensures CascadeFrom(start, swept, mines, x, y)
  {
    SweepKeepsChangesNear(start, cascaded, swept, mines, x, y);
    forall c | ClearedIn(start, cascaded, c)
      ensures SettledAt(cascaded, c)
    {
      if c == (x, y) {
        assert SettledUpTo(cascaded, c, |Around|);
      }
    }
    assert NoNewIdle(cascaded, swept);
    forall c | ClearedIn(start, swept, c)
      ensures SettledAt(swept, c)
    {
      assert !Differs(cascaded, swept, c);
      assert ClearedIn(start, cascaded, c);
      SettledKept(cascaded, swept, c, |Around|);
    }
    forall n | 0 <= n < |order|
      ensures ClearedIn(start, swept, order[n])
    {
      assert ClearedIn(start, cascaded, order[n]);
      assert !Differs(cascaded, swept, order[n]);
    }
    forall c | ClearedIn(start, swept, c)
      ensures c in order
    {
      assert !Differs(cascaded, swept, c);
      assert ClearedIn(start, cascaded, c);
    }
    assert ClearChain(start, swept, order, x, y);
  }

  /** No cell of the chain up to index n is in walled, when (x, y) is not and every
      neighbour of a cell of walled is in walled or was not cleared. */
  lemma {:induction false} ChainAvoidsWalled(before: imap<Coord, Tile>, after: imap<Coord, Tile>, order: seq<Coord>,
                                             x: int, y: int, walled: set<Coord>, n: nat)
    requires ClearChain(before, after, order, x, y) && (x, y) !in walled
    requires forall w, m :: w in walled && 0 <= m < |Around| ==>
      Neighbour(w.0, w.1, m) in walled || !ClearedIn(before, after, Neighbour(w.0, w.1, m))
    requires n < |order|
    ensures order[n] !in walled
  {
    if n > 0 {
      var p, m :| 0 <= p < n && 0 <= m < |Around| && order[n] == Neighbour(order[p].0, order[p].1, m);
      ChainAvoidsWalled(before, after, order, x, y, walled, p);
      assert ClearedIn(before, after, order[p]);
      NeighbourBack(order[p].0, order[p].1, m);
    }
  }

  /** A cascade from (x, y) clears no cell that a wall of cells it did not clear separates
      from (x, y): cells held in by walled, whose every neighbour is in walled or was not
      cleared, stay uncleared. */
  lemma CascadeStopsAtWall(before: imap<Coord, Tile>, after: imap<Coord, Tile>, order: seq<Coord>,
                           x: int, y: int, walled: set<Coord>)
    requires ClearChain(before, after, order, x, y) && (x, y) !in walled
    requires forall w, m :: w in walled && 0 <= m < |Around| ==>
      Neighbour(w.0, w.1, m) in walled || !ClearedIn(before, after, Neighbour(w.0, w.1, m))
    ensures forall w :: w in walled ==> !ClearedIn(before, after, w)
  {
    forall w | w in walled && ClearedIn(before, after, w)
      ensures false
    {
      var n :| 0 <= n < |order| && order[n] == w;
      ChainAvoidsWalled(before, after, order, x, y, walled, n);
    }
  }

  /** What a click at (x, y) leaves of the cascade once the sweeps have run: every change
      outside mines sits next to a cleared cell, the cleared cells form one chain from
      (x, y), and each ends with no idle neighbour. */
  ghost predicate CascadeFrom(before: imap<Coord, Tile>, after: imap<Coord, Tile>, mines: set<Coord>, x: int, y: int) {
    && SafeChangesNear(before, after, mines, x, y)
    && (exists order :: ClearChain(before, after, order, x, y))
    && ClearedSettled(before, after)
  }

  /** On a one-row board of six cells, a cascade from (0, 0) that does not clear (0, 3)
      clears neither (0, 4) nor (0, 5): the 0-cells beyond a numbered cell stay closed. */
  lemma RowCascadeStopsAtNumber(before: imap<Coord, Tile>, after: imap<Coord, Tile>, order: seq<Coord>)
    requires forall c :: c in before <==> InGrid(1, 6, c.0, c.1)
    requires ClearChain(before, after, order, 0, 0)
    requires !ClearedIn(before, after, (0, 3))
    ensures !ClearedIn(before, after, (0, 4)) && !ClearedIn(before, after, (0, 5))
  {
    var walled := {(0, 4), (0, 5)};
    forall w, m | w in walled && 0 <= m < |Around|
      ensures Neighbour(w.0, w.1, m) in walled || !ClearedIn(before, after, Neighbour(w.0, w.1, m))
    {
      assert Neighbour(w.0, w.1, m) == (w.0 + Around[m].0, w.1 + Around[m].1);
    }
    CascadeStopsAtWall(before, after, order, 0, 0, walled);
  }

  /** Every tile tells the truth about its field cell. */
  ghost predicate Consistent(field: array2<int>, tiles: array2<Tile>)
    reads field, tiles
  {
    SameShape(field, tiles) &&
    forall i, j :: 0 <= i < tiles.Length0 && 0 <= j < tiles.Length1 ==> Agrees(tiles[i, j], field[i, j])
  }

  /** Every cell without a mine has been opened. */
  ghost predicate AllSafeOpen(field: array2<int>, tiles: array2<Tile>)
    requires SameShape(field, tiles)
    reads field, tiles
  {
    forall i, j :: 0 <= i < tiles.Length0 && 0 <= j < tiles.Length1 && field[i, j] != BOMB ==> !IsClosed(tiles[i, j])
  }

  lemma {:induction false} StrictSubsetCard<T>(a: set<T>, b: set<T>, e: T)
    requires e in b && a <= b - {e}
    ensures |a| < |b|
  {
    SubsetCard(a, b - {e});
    assert b == (b - {e}) + {e};
  }

  lemma {:induction false} SubsetSameCard<T>(a: set<T>, b: set<T>)
    requires a <= b && |a| == |b|
    ensures a == b
  {
    if a != b {
      var e :| e in b && e !in a;
      StrictSubsetCard(a, b, e);
    }
  }

  /** openNearTiles (index.tsx 297-328). Off-grid coordinates, a tile that is not idle and
      a mine are left alone; an idle numbered cell shows its digit; an idle 0-cell is
      cleared and the eight neighbours are opened in the component's order. Only idle tiles
      change, each to what its cell holds, so no mine, flag or doubt is touched; order lists
      the cells this call clears, one chain of neighbours from (x, y), each ending with no
      idle neighbour, and every other cell it changes lies next to one it cleared. Each
      recursion first turns one idle tile non-idle, which is why it terminates. */
  method OpenNearTiles(field: array2<int>, tiles: array2<Tile>, x: int, y: int) returns (ghost order: seq<Coord>)
    requires SameShape(field, tiles) && SafeToCascade(field)
    modifies tiles
    decreases |IdleCells(tiles)|
    ensures forall i, j :: 0 <= i < tiles.Length0 && 0 <= j < tiles.Length1 ==>
      tiles[i, j] == old(tiles[i, j]) || (old(tiles[i, j]) == Idle && OpensTo(field[i, j], tiles[i, j]))
    ensures InGrid(tiles.Length0, tiles.Length1, x, y) && old(tiles[x, y]) == Idle && field[x, y] != BOMB ==>
      OpensTo(field[x, y], tiles[x, y])
    ensures !(InGrid(tiles.Length0, tiles.Length1, x, y) && old(tiles[x, y]) == Idle && field[x, y] == 0) ==>
      OnlyChangeAt(old(Snapshot(tiles)), Snapshot(tiles), x, y)
    ensures IdleCells(tiles) <= old(IdleCells(tiles))
    ensures Spread(old(Snapshot(tiles)), Snapshot(tiles), order, x, y)
  {
    ghost var start := Snapshot(tiles);
    order := [];
    if x < 0 || x >= tiles.Length0 || y < 0 || y >= tiles.Length1 {
      return;
    }
    if tiles[x, y] == Idle {
      if 1 <= field[x, y] <= 8 {
        tiles[x, y] := Num(field[x, y]);
        forall c | Differs(start, Snapshot(tiles), c)
          ensures c == (x, y)
        {
        }
      } else if field[x, y] == 0 {
        ghost var entry := IdleCells(tiles);
        tiles[x, y] := Clear;
        forall c | Differs(start, Snapshot(tiles), c)
          ensures c == (x, y)
        {
        }
        order := [(x, y)];
        for k := 0 to |Around|
          invariant tiles[x, y] == Clear
          invariant forall i, j :: 0 <= i < tiles.Length0 && 0 <= j < tiles.Length1 ==>
            tiles[i, j] == old(tiles[i, j]) || (old(tiles[i, j]) == Idle && OpensTo(field[i, j], tiles[i, j]))
          invariant IdleCells(tiles) <= entry - {(x, y)}
          invariant SpreadUpTo(start, Snapshot(tiles), order, x, y, k) && |order| > 0
        {
          StrictSubsetCard(IdleCells(tiles), entry, (x, y));
          var (i, j) := Neighbour(x, y, k);
          ghost var mid := Snapshot(tiles);
          ghost var more := OpenNearTiles(field, tiles, i, j);
          assert NoIdleAt(Snapshot(tiles), (i, j)) by {
            if InGrid(tiles.Length0, tiles.Length1, i, j) {
              assert field[i, j] != BOMB;
            }
          }
          SpreadStep(start, mid, Snapshot(tiles), order, more, x, y, k);
          order := order + more;
        }
      }
    }
  }

  /** The number and clear cases of a left click (index.tsx 145-157) on an idle cell without
      a mine: it shows its digit, or the cascade starts from it. */
  method OpenClicked(field: array2<int>, tiles: array2<Tile>, x: int, y: int) returns (ghost order: seq<Coord>)
    requires SameShape(field, tiles) && SafeToCascade(field)
    requires InGrid(tiles.Length0, tiles.Length1, x, y) && tiles[x, y] == Idle && field[x, y] != BOMB
    modifies tiles
    ensures OpensTo(field[x, y], tiles[x, y])
    ensures forall i, j :: 0 <= i < tiles.Length0 && 0 <= j < tiles.Length1 ==>
      tiles[i, j] == old(tiles[i, j]) || (old(tiles[i, j]) == Idle && OpensTo(field[i, j], tiles[i, j]))
    ensures field[x, y] != 0 ==>
      forall i, j :: 0 <= i < tiles.Length0 && 0 <= j < tiles.Length1 && (i, j) != (x, y) ==> tiles[i, j] == old(tiles[i, j])
    ensures Spread(old(Snapshot(tiles)), Snapshot(tiles), order, x, y)
  {
    ghost var start := Snapshot(tiles);
    order := [];
    if 1 <= field[x, y] <= 8 {
      tiles[x, y] := Num(field[x, y]);
      forall c | Differs(start, Snapshot(tiles), c)
        ensures c == (x, y)
      {
      }
    }
    if field[x, y] == 0 {
      order := OpenNearTiles(field, tiles, x, y);
    }
  }

  /** showAllBombs (index.tsx 254-274): every idle mine is shown and every flag on a cell
      without a mine is shown as wrong; every other tile is kept. */
  method ShowAllBombs(field: array2<int>, tiles: array2<Tile>)
    requires SameShape(field, tiles)
    modifies tiles
    ensures forall i, j :: 0 <= i < tiles.Length0 && 0 <= j < tiles.Length1 ==>
      tiles[i, j] == AfterBombSweep(field[i, j] == BOMB, old(tiles[i, j]))
  {
    for x := 0 to tiles.Length0
      invariant forall i, j :: 0 <= i < x && 0 <= j < tiles.Length1 ==>
        tiles[i, j] == AfterBombSweep(field[i, j] == BOMB, old(tiles[i, j]))
      invariant forall i, j :: x <= i < tiles.Length0 && 0 <= j < tiles.Length1 ==> tiles[i, j] == old(tiles[i, j])
    {
      for y := 0 to tiles.Length1
        invariant forall i, j :: 0 <= i < x && 0 <= j < tiles.Length1 ==>
          tiles[i, j] == AfterBombSweep(field[i, j] == BOMB, old(tiles[i, j]))
        invariant forall j :: 0 <= j < y ==> tiles[x, j] == AfterBombSweep(field[x, j] == BOMB, old(tiles[x, j]))
        invariant forall i, j :: 0 <= i < tiles.Length0 && 0 <= j < tiles.Length1 && (i > x || (i == x && j >= y)) ==>
          tiles[i, j] == old(tiles[i, j])
      {
        if field[x, y] == BOMB {
          if tiles[x, y] == Idle {
            tiles[x, y] := Bomb;
          }
        } else if tiles[x, y] == Flag {
          tiles[x, y] := WrongFlag;
        }
      }
    }
  }

  /** showAllFlags (index.tsx 277-294): every idle or doubted mine gets a flag; every
      other tile is kept. */
  method ShowAllFlags(field: array2<int>, tiles: array2<Tile>)
    requires SameShape(field, tiles)
    modifies tiles
    ensures forall i, j :: 0 <= i < tiles.Length0 && 0 <= j < tiles.Length1 ==>
      tiles[i, j] == AfterFlagSweep(field[i, j] == BOMB, old(tiles[i, j]))
  {
    for x := 0 to tiles.Length0
      invariant forall i, j :: 0 <= i < x && 0 <= j < tiles.Length1 ==>
        tiles[i, j] == AfterFlagSweep(field[i, j] == BOMB, old(tiles[i, j]))
      invariant forall i, j :: x <= i < tiles.Length0 && 0 <= j < tiles.Length1 ==> tiles[i, j] == old(tiles[i, j])
    {
      for y := 0 to tiles.Length1
        invariant forall i, j :: 0 <= i < x && 0 <= j < tiles.Length1 ==>
          tiles[i, j] == AfterFlagSweep(field[i, j] == BOMB, old(tiles[i, j]))
        invariant forall j :: 0 <= j < y ==> tiles[x, j] == AfterFlagSweep(field[x, j] == BOMB, old(tiles[x, j]))
        invariant forall i, j :: 0 <= i < tiles.Length0 && 0 <= j < tiles.Length1 && (i > x || (i == x && j >= y)) ==>
          tiles[i, j] == old(tiles[i, j])
      {
        if field[x, y] == BOMB {
          if tiles[x, y] == Idle || tiles[x, y] == Doubt {
            tiles[x, y] := Flag;
          }
        }
      }
    }
  }

  /** One more cell in row-major order adds it to the closed cells before it when it is closed. */
  lemma ClosedBeforeStep(t: array2<Tile>, x: int, y: int)
    requires 0 <= x < t.Length0 && 0 <= y < t.Length1
    ensures |ClosedBefore(t, x, y + 1)| == |ClosedBefore(t, x, y)| + (if IsClosed(t[x, y]) then 1 else 0)
  {
    if IsClosed(t[x, y]) {
      assert ClosedBefore(t, x, y + 1) == ClosedBefore(t, x, y) + {(x, y)};
    } else {
      assert ClosedBefore(t, x, y + 1) == ClosedBefore(t, x, y);
    }
  }

  lemma ClosedBeforeRow(t: array2<Tile>, x: int)
    requires 0 <= x
    ensures ClosedBefore(t, x, t.Length1) == ClosedBefore(t, x + 1, 0)
  {
  }

  lemma ClosedBeforeEnds(t: array2<Tile>)
    ensures ClosedBefore(t, 0, 0) == {}
    ensures ClosedBefore(t, t.Length0, 0) == ClosedCells(t)
  {
  }

  /** The counting loop of checkVictory (index.tsx 334-343): the number of closed tiles. */
  method CountClosedTiles(tiles: array2<Tile>) returns (closedTiles: nat)
    ensures closedTiles == |ClosedCells(tiles)|
  {
    closedTiles := 0;
    ClosedBeforeEnds(tiles);
    for x := 0 to tiles.Length0
      invariant closedTiles == |ClosedBefore(tiles, x, 0)|
    {
      for y := 0 to tiles.Length1
        invariant closedTiles == |ClosedBefore(tiles, x, y)|
      {
        ClosedBeforeStep(tiles, x, y);
        if tiles[x, y] == Idle || tiles[x, y] == Flag || tiles[x, y] == Doubt {
          closedTiles := closedTiles + 1;
        }
      }
      ClosedBeforeRow(tiles, x);
    }
  }

  /** The tile part of checkVictory (index.tsx 331-360): victory when as many tiles are
      closed as there are mines, in which case the closed mines get a flag. The flags keep
      every closed tile closed, so the count is the same afterwards, and make no tile idle,
      so a cell with no idle neighbour keeps none. */
  method CheckVictory(field: array2<int>, tiles: array2<Tile>, bombs: nat) returns (won: bool)
    requires SameShape(field, tiles)
    modifies tiles
    ensures won <==> old(|ClosedCells(tiles)|) == bombs
    ensures forall i, j :: 0 <= i < tiles.Length0 && 0 <= j < tiles.Length1 ==>
      tiles[i, j] == if won then AfterFlagSweep(field[i, j] == BOMB, old(tiles[i, j])) else old(tiles[i, j])
    ensures ClosedCells(tiles) == old(ClosedCells(tiles))
    ensures forall i, j :: 0 <= i < tiles.Length0 && 0 <= j < tiles.Length1 && old(Settled(tiles, i, j)) ==> Settled(tiles, i, j)
  {
    var closedTiles := CountClosedTiles(tiles);
    won := closedTiles == bombs;
    if won {
      ShowAllFlags(field, tiles);
      forall i, j | 0 <= i < tiles.Length0 && 0 <= j < tiles.Length1
        ensures IsClosed(tiles[i, j]) <==> old(IsClosed(tiles[i, j]))
      {
        FlagSweepKeepsClosed(field[i, j] == BOMB, old(tiles[i, j]));
      }
    }
    ghost var before, after := old(Snapshot(tiles)), Snapshot(tiles);
    forall c | Differs(before, after, c)
      ensures after[c] != Idle
    {
      assert after[c] == tiles[c.0, c.1] && before[c] == old(tiles[c.0, c.1]);
    }
    forall i, j | 0 <= i < tiles.Length0 && 0 <= j < tiles.Length1 && old(Settled(tiles, i, j))
      ensures Settled(tiles, i, j)
    {
      SettledKept(before, after, (i, j), |Around|);
    }
  }

  /** What the victory check means while every mine is still closed: as many closed tiles
      as mines exactly when every cell without a mine has been opened. */
  lemma {:induction false} VictoryMeansAllSafeOpen(field: array2<int>, tiles: array2<Tile>)
    requires SameShape(field, tiles)
    requires forall i, j :: 0 <= i < tiles.Length0 && 0 <= j < tiles.Length1 && field[i, j] == BOMB ==> IsClosed(tiles[i, j])
    ensures |ClosedCells(tiles)| == |Mines(field)| <==> AllSafeOpen(field, tiles)
  {
    assert Mines(field) <= ClosedCells(tiles);
    if |ClosedCells(tiles)| == |Mines(field)| {
      SubsetSameCard(Mines(field), ClosedCells(tiles));
      forall i, j | 0 <= i < tiles.Length0 && 0 <= j < tiles.Length1 && field[i, j] != BOMB
        ensures !IsClosed(tiles[i, j])
      {
        assert IsClosed(tiles[i, j]) ==> (i, j) in ClosedCells(tiles);
      }
    }
    if AllSafeOpen(field, tiles) {
      assert ClosedCells(tiles) == Mines(field);
    }
  }
}
