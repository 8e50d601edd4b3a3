/** The player-visible state of one tile and the per-tile rules the game applies to it.
    The component stores these as strings ("idle", "flag", "doubt", "clear", "1".."8",
    "exploded", "bomb", "wrong-flag"); here they are a closed datatype. */
module Tiles {

  /** The field value that marks a mine; every other field cell holds 0..8. */
  const BOMB: int := 10

  /** The digit a numbered tile shows. */
  type Digit = n: int | 1 <= n <= 8 witness 1

  datatype Tile =
    | Idle                // closed, unmarked
    | Flag                // closed, marked as a mine
    | Doubt               // closed, marked with a question mark
    | Clear               // open, no mine around
    | Num(n: Digit)       // open, n mines around
    | Exploded            // the mine the player clicked
    | Bomb                // a mine shown at game over
    | WrongFlag           // a flag shown at game over on a cell without a mine

  /** Tiles that still count as closed for the victory check. */
  predicate IsClosed(t: Tile) {
    t == Idle || t == Flag || t == Doubt
  }

  /** The tile a left click (or the cascade) shows for a non-mine field value. */
  function Revealed(v: int): (t: Tile)
    requires 0 <= v <= 8
    ensures !IsClosed(t) && Agrees(t, v)
    ensures v == 0 <==> t == Clear
    ensures v != 0 ==> t == Num(v)
  {
    if v == 0 then Clear else Num(v)
  }

  /** t is the tile a cell with field value v shows once it is opened. */
  predicate OpensTo(v: int, t: Tile) {
    0 <= v <= 8 && t == Revealed(v)
  }

  /** Tiles that only appear once the game is over. */
  predicate IsEndTile(t: Tile) {
    t == Exploded || t == Bomb || t == WrongFlag
  }

  /** A tile agrees with its field value: what it shows is true of the cell. */
  predicate Agrees(t: Tile, v: int) {
    match t
    case Clear => v == 0
    case Num(n) => v == n
    case Exploded => v == BOMB
    case Bomb => v == BOMB
    case WrongFlag => v != BOMB
    case _ => true
  }

  /** What the game-over sweep does to one tile: an idle mine is shown, a flag on a
      non-mine is shown as wrong; everything else is left as it is. */
  function AfterBombSweep(mine: bool, t: Tile): (r: Tile)
    ensures mine ==> r != Idle
    ensures !mine ==> r != Flag
    ensures r != t ==> (mine && t == Idle && r == Bomb) || (!mine && t == Flag && r == WrongFlag)
  {
    if mine then (if t == Idle then Bomb else t)
    else if t == Flag then WrongFlag
    else t
  }

  /** What the victory sweep does to one tile: an idle or doubted mine gets a flag. */
  function AfterFlagSweep(mine: bool, t: Tile): (r: Tile)
    ensures mine ==> r != Idle && r != Doubt
    ensures r != t ==> mine && (t == Idle || t == Doubt) && r == Flag
  {
    if mine && (t == Idle || t == Doubt) then Flag else t
  }

  /** The effect of a right click on one tile: the new tile and the change to the flag
      counter, or None when the click is ignored. */
  datatype Marking = Marking(tile: Tile, flagDelta: int)

  datatype Option<T> = None | Some(value: T)

  /** A right click acts exactly on the closed tiles, always changes the tile it acts on
      and leaves it closed. */
  function FlagCycle(t: Tile, useDoubtFlag: bool): (r: Option<Marking>)
    ensures r.Some? <==> IsClosed(t)
    ensures r.Some? ==> IsClosed(r.value.tile) && r.value.tile != t
  {
    match t
    case Idle => Some(Marking(Flag, 1))
    case Flag => Some(Marking(if useDoubtFlag then Doubt else Idle, -1))
    case Doubt => Some(Marking(Idle, -1))
    case _ => None
  }

  /** With question marks on, three right clicks take an idle tile back to idle and leave
      the flag counter one lower: the step from doubt to idle also decrements it. */
  lemma DoubtCycleLosesAFlag()
    ensures var m1 := FlagCycle(Idle, true).value;
            var m2 := FlagCycle(m1.tile, true).value;
            var m3 := FlagCycle(m2.tile, true).value;
            m1.tile == Flag && m2.tile == Doubt && m3.tile == Idle &&
            m1.flagDelta + m2.flagDelta + m3.flagDelta == -1
  {
  }

  /** Without question marks, two right clicks take an idle tile back to idle and the flag
      counter back to where it was. */
  lemma PlainCycleKeepsFlags()
    ensures var m1 := FlagCycle(Idle, false).value;
            var m2 := FlagCycle(m1.tile, false).value;
            m1.tile == Flag && m2.tile == Idle && m1.flagDelta + m2.flagDelta == 0
  {
  }

  /** The flag counter moves by one on every accepted right click, up exactly when a flag
      is placed; a doubt is only ever reached with question marks on. */
  lemma FlagCycleDelta(t: Tile, useDoubtFlag: bool)
    requires FlagCycle(t, useDoubtFlag).Some?
    ensures var m := FlagCycle(t, useDoubtFlag).value;
            (m.flagDelta == 1 <==> m.tile == Flag) && (m.flagDelta == 1 || m.flagDelta == -1) &&
            (m.tile == Doubt ==> useDoubtFlag && t == Flag)
  {
  }

  /** The victory sweep keeps closed tiles closed and open tiles open, so the victory
      check counts the same number afterwards. */
  lemma FlagSweepKeepsClosed(mine: bool, t: Tile)
    ensures IsClosed(AfterFlagSweep(mine, t)) <==> IsClosed(t)
  {
  }

  lemma SweepsKeepAgreement(mine: bool, t: Tile, v: int)
    requires mine <==> v == BOMB
    requires Agrees(t, v)
    ensures Agrees(AfterBombSweep(mine, t), v)
    ensures Agrees(AfterFlagSweep(mine, t), v)
  {
  }
}
