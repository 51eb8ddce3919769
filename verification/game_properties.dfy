/** Properties of the engine that relate several commands or follow a
    state through a command: the reachable-state invariant, moves undoing
    each other, what a lock writes, and hard-drop scoring. */
module GameProperties {
  import opened Tetromino
  import opened Playfield
  import opened TetrisGame

  /** Every reachable state, running or over, satisfies what locking needs. */
  lemma ReachableIsLockable(g: Game)
    requires Invariant(g)
    ensures Lockable(g)
  {
    var n :| 0 <= n < 4 && g.current.offsets == TurnN(Shape(g.current.kind), n);
  }

  lemma MoveLeftKeepsInvariant(g: Game)
    requires Invariant(g)
    ensures Invariant(MoveLeft(g).game) && MoveLeft(g).game.gameOver == g.gameOver
  {
    var n :| 0 <= n < 4 && g.current.offsets == TurnN(Shape(g.current.kind), n);
    assert MoveLeft(g).game.current.offsets == TurnN(Shape(g.current.kind), n);
  }

  lemma MoveRightKeepsInvariant(g: Game)
    requires Invariant(g)
    ensures Invariant(MoveRight(g).game) && MoveRight(g).game.gameOver == g.gameOver
  {
    var n :| 0 <= n < 4 && g.current.offsets == TurnN(Shape(g.current.kind), n);
    assert MoveRight(g).game.current.offsets == TurnN(Shape(g.current.kind), n);
  }

  /** A successful move left is undone by a move right, which then always
      succeeds, and the other way round. */
  lemma MoveLeftThenRight(g: Game)
    requires WellFormed(g.board) && IsValidPosition(g.board, g.current)
    ensures MoveLeft(g).moved ==> MoveRight(MoveLeft(g).game) == Step(g, true)
    ensures MoveRight(g).moved ==> MoveLeft(MoveRight(g).game) == Step(g, true)
  {
    assert Shifted(Shifted(g.current, -1), 1) == g.current;
    assert Shifted(Shifted(g.current, 1), -1) == g.current;
  }

  /** Locking a reachable game gives a reachable state again; a running
      game ends exactly when the promoted piece does not fit. */
  lemma LockKeepsInvariant(g: Game, spawn: Kind)
    requires Invariant(g)
    ensures Lockable(g)
    ensures Invariant(Lock(g, spawn))
    ensures !g.gameOver ==> (Lock(g, spawn).gameOver <==> !IsValidPosition(Lock(g, spawn).board, g.next))
  {
    ReachableIsLockable(g);
    SpawnFitsEmptyBoard(g.next.kind);
  }

  lemma MoveDownKeepsInvariant(g: Game, spawn: Kind)
    requires Invariant(g)
    ensures Lockable(g)
    ensures Invariant(MoveDown(g, spawn).game)
    ensures MoveDown(g, spawn).moved ==> MoveDown(g, spawn).game.gameOver == g.gameOver
  {
    ReachableIsLockable(g);
    LockKeepsInvariant(g, spawn);
    var n :| 0 <= n < 4 && g.current.offsets == TurnN(Shape(g.current.kind), n);
    assert Lowered(g.current, 1).offsets == TurnN(Shape(g.current.kind), n);
  }

  /** Rotation, with or without a kick, keeps a game reachable. */
  lemma RotateKeepsInvariant(g: Game)
    requires Invariant(g)
    ensures Invariant(Rotate(g)) && Rotate(g).gameOver == g.gameOver
  {
    var t := RotateClockwise(g.current);
    RotateKeepsFamily(g.current);
    var tries := [0] + Kicks;
    var r := Rotate(g);
    if exists i | 0 <= i < |tries| :: IsValidPosition(g.board, Shifted(t, tries[i])) {
      var i := FirstFitIndex(g.board, t, tries);
      var n :| 0 <= n < 4 && t.offsets == TurnN(Shape(t.kind), n);
      assert Shifted(t, tries[i]).offsets == TurnN(Shape(t.kind), n);
    }
  }

  /** Some shift in a list at which a piece fits gives a first such shift. */
  lemma {:induction false} FirstFitIndex(b: Grid, t: Piece, kicks: seq<int>) returns (i: int)
    requires WellFormed(b)
    requires exists j | 0 <= j < |kicks| :: IsValidPosition(b, Shifted(t, kicks[j]))
    ensures FirstFit(b, t, kicks, i)
  {
    var j :| 0 <= j < |kicks| && IsValidPosition(b, Shifted(t, kicks[j]));
    i := 0;
    while !IsValidPosition(b, Shifted(t, kicks[i]))
      invariant 0 <= i <= j
      invariant forall k | 0 <= k < i :: !IsValidPosition(b, Shifted(t, kicks[k]))
      decreases j - i
    {
      i := i + 1;
    }
  }

  /** The resting row of a dropped piece is unique. */
  lemma LandingIsUnique(g: Game, d1: nat, d2: nat)
    requires WellFormed(g.board) && LandsAt(g, d1) && LandsAt(g, d2)
    ensures d1 == d2
  {
  }

  /** The lock that ends a hard drop happens where the piece lands and
      scores the cleared lines at that game's level. */
  lemma HardDropLock(g: Game, spawn: Kind) returns (d: nat, l: Game)
    requires Lockable(g)
    ensures LandsAt(g, d) && HardDrop(g, spawn) == WithBonus(l, d)
    ensures var m := Landed(g, d);
            && m.lines <= l.lines <= m.lines + 4
            && l.score == m.score + LinePoints[l.lines - m.lines] * m.level
  {
    var r := HardDrop(g, spawn);
    d :| LandsAt(g, d) && r == WithBonus(Lock(Landed(g, d), spawn), d);
    l := Lock(Landed(g, d), spawn);
  }

  /** The bonus adds to the score of a lock made with `g`'s counters and
      leaves the line count alone. */
  lemma BonusOnTop(l: Game, m: Game, g: Game, d: nat)
    requires m.score == g.score && m.lines == g.lines && m.level == g.level
    requires m.lines <= l.lines <= m.lines + 4
    requires l.score == m.score + LinePoints[l.lines - m.lines] * m.level
    ensures WithBonus(l, d).lines == l.lines
    ensures WithBonus(l, d).score == g.score + LinePoints[l.lines - g.lines] * g.level + 2 * d
    ensures WithBonus(l, d).score >= g.score
  {
  }

  /** A hard drop scores two points per row dropped on top of the points of
      the lines its single lock clears, at the level in effect before. */
  lemma HardDropScore(g: Game, spawn: Kind)
    requires Lockable(g)
    ensures var r := HardDrop(g, spawn);
            exists d: nat :: LandsAt(g, d)
              && r.score == g.score + LinePoints[r.lines - g.lines] * g.level + 2 * d
    ensures HardDrop(g, spawn).score >= g.score
  {
    var d, l := HardDropLock(g, spawn);
    BonusOnTop(l, Landed(g, d), g, d);
    var r := WithBonus(l, d);
    assert LandsAt(g, d) && r.score == g.score + LinePoints[r.lines - g.lines] * g.level + 2 * d;
  }

  /** Lowering the piece to the row where it lands keeps the state
      reachable: the resting position fits whenever the starting one did. */
  lemma LandedKeepsInvariant(g: Game, d: nat)
    requires Invariant(g) && LandsAt(g, d)
    ensures Invariant(Landed(g, d)) && Landed(g, d).gameOver == g.gameOver
  {
    var landed := Landed(g, d);
    var n :| 0 <= n < 4 && g.current.offsets == TurnN(Shape(g.current.kind), n);
    assert landed.current.offsets == TurnN(Shape(landed.current.kind), n);
    if d > 0 {
      assert IsValidPosition(g.board, Lowered(g.current, d));
    } else {
      assert landed == g;
    }
  }

  lemma HardDropKeepsInvariant(g: Game, spawn: Kind)
    requires Invariant(g)
    ensures Lockable(g)
    ensures Invariant(HardDrop(g, spawn))
  {
    ReachableIsLockable(g);
    var r := HardDrop(g, spawn);
    var d: nat :| LandsAt(g, d) && r == WithBonus(Lock(Landed(g, d), spawn), d);
    LandedKeepsInvariant(g, d);
    LockKeepsInvariant(Landed(g, d), spawn);
  }

  /** Locking writes the piece's kind into each of its blocks at row 0 or
      below, and into no other cell. */
  lemma LockStampsVisibleBlocks(g: Game)
    requires Lockable(g)
    ensures var placed := Paint(g.board, Blocks(g.current), g.current.kind);
            && (forall i | 0 <= i < |Blocks(g.current)| && Blocks(g.current)[i].y >= 0 ::
                  placed[Blocks(g.current)[i].y][Blocks(g.current)[i].x] == Filled(g.current.kind))
            && (forall y, x | 0 <= y < Height && 0 <= x < Width && Point(x, y) !in Blocks(g.current) ::
                  placed[y][x] == g.board[y][x])
  {
    var bs := Blocks(g.current);
    forall i | 0 <= i < |bs| && bs[i].y >= 0
      ensures Inside(bs[i])
    {
    }
  }

  /** Every shape has a block on its anchor, so a new piece cannot fit once
      the middle cell of the top row is taken. */
  lemma SpawnCellTakenEndsGame(b: Grid, k: Kind)
    requires WellFormed(b) && b[0][Width / 2] != Empty
    ensures !IsValidPosition(b, Spawn(k))
  {
    var p := Spawn(k);
    var i :| 0 <= i < |p.offsets| && p.offsets[i] == Point(0, 0);
    ValidPositionIff(b, p);
  }

  /** Blocks above the board are checked against the side walls only: a
      piece wholly above the board fits or not regardless of the board. */
  lemma AboveBoardIgnoresCells(b1: Grid, b2: Grid, p: Piece)
    requires WellFormed(b1) && WellFormed(b2)
    requires forall i | 0 <= i < |p.offsets| :: p.y + p.offsets[i].y < 0
    ensures IsValidPosition(b1, p) == IsValidPosition(b2, p)
  {
    ValidPositionIff(b1, p);
    ValidPositionIff(b2, p);
  }

  /** In a reachable game, a lock that leaves the middle cell of the top row
      filled ends the game: the promoted piece was spawned there and covers
      that cell. */
  lemma FilledSpawnCellEndsGame(g: Game, spawn: Kind)
    requires Invariant(g)
    ensures Lockable(g)
    ensures Lock(g, spawn).board[0][Width / 2] != Empty ==> Lock(g, spawn).gameOver
  {
    ReachableIsLockable(g);
    var r := Lock(g, spawn);
    if r.board[0][Width / 2] != Empty {
      SpawnCellTakenEndsGame(r.board, g.next.kind);
    }
  }
}
