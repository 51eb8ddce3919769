/** The game engine: validity of a piece position, locking, line clearing
    with scoring and levels, the player's moves, rotation with wall kicks,
    hard drop, and the board shown to the player. Every command is a pure
    transition from one game state to the next. Where the game would draw a
    random kind for a new piece, the caller supplies the kind. */
module TetrisGame {
  import opened Tetromino
  import opened Playfield

  /** Points for clearing 0, 1, 2, 3 or 4 lines with one lock, before the
      level multiplier. */
  const LinePoints: seq<nat> := [0, 100, 300, 500, 800]

  /** Horizontal shifts tried, in order, when a rotated piece does not fit. */
  const Kicks: seq<int> := [1, -1, 2, -2]

  datatype Game = Game(
    board: Grid,
    current: Piece,
    next: Piece,
    score: nat,
    lines: nat,
    level: nat,
    gameOver: bool)

  /** The state after a move, and whether the move happened. */
  datatype Step = Step(game: Game, moved: bool)

  datatype Option<T> = None | Some(value: T)

  function Shifted(p: Piece, dx: int): Piece {
    p.(x := p.x + dx)
  }

  function Lowered(p: Piece, dy: int): Piece {
    p.(y := p.y + dy)
  }

  /** A cell a block may not occupy: left or right of the board, below it,
      or an occupied cell of the board. Cells above the board are free. */
  predicate Blocked(b: Grid, q: Point)
    requires WellFormed(b)
  {
    q.x < 0 || q.x >= Width || q.y >= Height || (q.y >= 0 && b[q.y][q.x] != Empty)
  }

  /** The block-by-block check of a position: bounds first, then occupancy
      for blocks on the board. */
  function Fits(b: Grid, bs: seq<Point>): (ok: bool)
    requires WellFormed(b)
    ensures !ok <==> exists i | 0 <= i < |bs| :: Blocked(b, bs[i])
    decreases |bs|
  {
    if bs == [] then true
    else
      var q := bs[0];
      if q.x < 0 || q.x >= Width || q.y >= Height then false
      else if q.y >= 0 && b[q.y][q.x] != Empty then false
      else
        assert forall i | 1 <= i < |bs| :: bs[i] == bs[1..][i - 1];
        Fits(b, bs[1..])
  }

  /** Every block is within the columns of the board and above its bottom. */
  predicate InBounds(p: Piece) {
    forall i | 0 <= i < |p.offsets| ::
      0 <= p.x + p.offsets[i].x < Width && p.y + p.offsets[i].y < Height
  }

  /** Whether piece `p` may stand where it is on board `b`. */
  function IsValidPosition(b: Grid, p: Piece): (ok: bool)
    requires WellFormed(b)
    ensures ok ==> InBounds(p)
  {
    var bs := Blocks(p);
    assert forall i | 0 <= i < |p.offsets| :: bs[i].x == p.x + p.offsets[i].x && bs[i].y == p.y + p.offsets[i].y;
    Fits(b, bs)
  }

  /** A position is invalid exactly when some block is left or right of the
      board, below it, or on an occupied cell; blocks above the board are
      checked against the side walls only. */
  lemma ValidPositionIff(b: Grid, p: Piece)
    requires WellFormed(b)
    ensures !IsValidPosition(b, p) <==> exists i | 0 <= i < |p.offsets| ::
              var q := Point(p.x + p.offsets[i].x, p.y + p.offsets[i].y);
              q.x < 0 || q.x >= Width || q.y >= Height || (q.y >= 0 && b[q.y][q.x] != Empty)
  {
    var bs := Blocks(p);
    assert forall i | 0 <= i < |p.offsets| :: bs[i].x == p.x + p.offsets[i].x && bs[i].y == p.y + p.offsets[i].y;
  }

  /** What locking needs: a board of the right size with no full row (so at
      most four rows can complete), a four-block piece, and every block of it
      within the columns and above the bottom. */
  predicate Lockable(g: Game) {
    WellFormed(g.board) && NoFullRow(g.board)
    && |g.current.offsets| == 4 && InBounds(g.current)
  }

  /** What holds of every state the game reaches: a well-formed board with
      no full row, both pieces in one of their kind's orientations, the next
      piece at its spawn position, the current piece within the columns and
      above the bottom, the level derived from the lines cleared, and, while
      the game is on, the current piece in a valid position. */
  predicate Invariant(g: Game) {
    && WellFormed(g.board) && NoFullRow(g.board)
    && InFamily(g.current) && InFamily(g.next)
    && g.next == Spawn(g.next.kind)
    && InBounds(g.current)
    && g.level == g.lines / 10 + 1
    && (!g.gameOver ==> IsValidPosition(g.board, g.current))
  }

  /** A fresh game with pieces of the given kinds. */
  function NewGame(first: Kind, second: Kind): (g: Game)
    ensures Invariant(g) && !g.gameOver
    ensures g.score == 0 && g.lines == 0 && g.level == 1
    ensures g.current == Spawn(first) && g.next == Spawn(second)
    ensures forall y, x | 0 <= y < Height && 0 <= x < Width :: g.board[y][x] == Empty
  {
    SpawnFitsEmptyBoard(first);
    Game(EmptyGrid(), Spawn(first), Spawn(second), 0, 0, 1, false)
  }

  /** Removes the full rows; when there were any, adds them to the line
      count, scores them at the level in effect so far, and recomputes the
      level. */
  function ClearLines(g: Game): (r: Game)
    requires WellFormed(g.board)
    requires |FullRows(g.board)| < |LinePoints|
    ensures WellFormed(r.board) && NoFullRow(r.board)
    ensures r.lines - g.lines == |FullRows(g.board)|
    ensures r.board == Blank(r.lines - g.lines) + Survivors(g.board)
    ensures r.score == g.score + LinePoints[r.lines - g.lines] * g.level >= g.score
    ensures r.lines == g.lines ==> r == g
    ensures r.lines > g.lines ==> r.level == r.lines / 10 + 1
    ensures r.current == g.current && r.next == g.next && r.gameOver == g.gameOver
  {
    var full := FullRows(g.board);
    ClearRowsAsFilter(g.board);
    ClearedIsWellFormed(g.board);
    var board := DropRows(g.board, full);
    if |full| > 0 then
      var lines := g.lines + |full|;
      g.(board := board, lines := lines,
         score := g.score + LinePoints[|full|] * g.level,
         level := lines / 10 + 1)
    else
      g.(board := board)
  }

  /** Writes the current piece into the board, clears full lines, makes the
      next piece current, and takes a new piece of kind `spawn` as next. The
      game is over when the new current piece does not fit. */
  function Lock(g: Game, spawn: Kind): (r: Game)
    requires Lockable(g)
    ensures WellFormed(r.board) && NoFullRow(r.board)
    ensures g.lines <= r.lines <= g.lines + 4
    ensures r.board == Blank(r.lines - g.lines)
                       + Survivors(Paint(g.board, Blocks(g.current), g.current.kind))
    ensures r.score == g.score + LinePoints[r.lines - g.lines] * g.level >= g.score
    ensures r.lines == g.lines ==> r.level == g.level
    ensures r.lines > g.lines ==> r.level == r.lines / 10 + 1
    ensures r.current == g.next && r.next == Spawn(spawn)
    ensures r.gameOver <==> g.gameOver || !IsValidPosition(r.board, r.current)
  {
    var placed := Paint(g.board, Blocks(g.current), g.current.kind);
    PaintCompletesFewRows(g.board, Blocks(g.current), g.current.kind);
    var c := ClearLines(g.(board := placed));
    var over := c.gameOver || !IsValidPosition(c.board, g.next);
    c.(current := g.next, next := Spawn(spawn), gameOver := over)
  }

  function MoveLeft(g: Game): (r: Step)
    requires WellFormed(g.board)
    ensures r.moved <==> IsValidPosition(g.board, Shifted(g.current, -1))
    ensures r.moved ==> r.game == g.(current := g.current.(x := g.current.x - 1))
    ensures !r.moved ==> r.game == g
  {
    var p := Shifted(g.current, -1);
    if IsValidPosition(g.board, p) then Step(g.(current := p), true) else Step(g, false)
  }

  function MoveRight(g: Game): (r: Step)
    requires WellFormed(g.board)
    ensures r.moved <==> IsValidPosition(g.board, Shifted(g.current, 1))
    ensures r.moved ==> r.game == g.(current := g.current.(x := g.current.x + 1))
    ensures !r.moved ==> r.game == g
  {
    var p := Shifted(g.current, 1);
    if IsValidPosition(g.board, p) then Step(g.(current := p), true) else Step(g, false)
  }

  /** One row down if that fits; otherwise the piece stays and is locked. */
  function MoveDown(g: Game, spawn: Kind): (r: Step)
    requires Lockable(g)
    ensures r.moved <==> IsValidPosition(g.board, Lowered(g.current, 1))
    ensures r.moved ==> r.game == g.(current := g.current.(y := g.current.y + 1))
    ensures !r.moved ==> r.game == Lock(g, spawn)
    ensures r.game.score >= g.score
  {
    var p := Lowered(g.current, 1);
    if IsValidPosition(g.board, p) then Step(g.(current := p), true)
    else Step(Lock(g, spawn), false)
  }

  /** The game with its current piece lowered by `d` rows. */
  function Landed(g: Game, d: int): Game {
    g.(current := Lowered(g.current, d))
  }

  /** Lowering the current piece by 1, 2, ..., `d` rows fits, by `d + 1`
      rows does not: the piece comes to rest `d` rows down. */
  predicate LandsAt(g: Game, d: nat)
    requires WellFormed(g.board)
  {
    && Lockable(Landed(g, d))
    && (forall j | 1 <= j <= d :: IsValidPosition(g.board, Lowered(g.current, j)))
    && !IsValidPosition(g.board, Lowered(g.current, d + 1))
  }

  lemma DescendStep(g: Game, d: nat)
    requires Lockable(g)
    requires IsValidPosition(g.board, Lowered(g.current, 1))
    requires LandsAt(Landed(g, 1), d)
    ensures LandsAt(g, d + 1)
    ensures Landed(Landed(g, 1), d) == Landed(g, d + 1)
  {
    var g1 := Landed(g, 1);
    forall j | 1 <= j <= d + 1
      ensures IsValidPosition(g.board, Lowered(g.current, j))
    {
      if j > 1 {
        assert Lowered(g1.current, j - 1) == Lowered(g.current, j);
      }
    }
    assert Lowered(g1.current, d + 1) == Lowered(g.current, d + 2);
  }

  /** A successful move down keeps the piece lockable and brings its first
      block one row closer to the bottom. */
  lemma StepDownKeepsLockable(g: Game)
    requires Lockable(g) && IsValidPosition(g.board, Lowered(g.current, 1))
    ensures Lockable(Landed(g, 1))
    ensures 0 < Height - (Landed(g, 1).current.y + Landed(g, 1).current.offsets[0].y)
              < Height - (g.current.y + g.current.offsets[0].y)
  {
  }

  /** How many rows the current piece can still move down: the number of
      successful moves a hard drop makes before its failing move locks. */
  function DropDistance(g: Game): (d: nat)
    requires Lockable(g)
    ensures LandsAt(g, d)
    decreases Height - (g.current.y + g.current.offsets[0].y)
  {
    if IsValidPosition(g.board, Lowered(g.current, 1)) then
      StepDownKeepsLockable(g);
      var d := DropDistance(Landed(g, 1));
      DescendStep(g, d);
      d + 1
    else
      assert Landed(g, 0) == g;
      0
  }

  /** Once the piece rests, the next move down fails and locks it there. */
  lemma RestingMoveLocks(g: Game, d: nat, spawn: Kind)
    requires WellFormed(g.board) && LandsAt(g, d)
    ensures !MoveDown(Landed(g, d), spawn).moved
    ensures MoveDown(Landed(g, d), spawn).game == Lock(Landed(g, d), spawn)
  {
    assert Lowered(Landed(g, d).current, 1) == Lowered(g.current, d + 1);
  }

  /** Adds the hard-drop bonus of two points per row dropped. */
  function WithBonus(l: Game, d: nat): (r: Game)
    ensures r.score == l.score + 2 * d
  {
    l.(score := l.score + 2 * d)
  }

  /** Drops the piece as far as it goes, locks it, and adds two points per
      row dropped. The successful moves down only change the row; the move
      that fails locks the piece where it rests. */
  function HardDrop(g: Game, spawn: Kind): (r: Game)
    requires Lockable(g)
    ensures exists d: nat :: LandsAt(g, d) && r == WithBonus(Lock(Landed(g, d), spawn), d)
  {
    var d := DropDistance(g);
    RestingMoveLocks(g, d, spawn);
    WithBonus(MoveDown(Landed(g, d), spawn).game, d)
  }

  /** The first of the horizontal shifts `kicks` at which `t` fits, if any. */
  function TryKicks(b: Grid, t: Piece, kicks: seq<int>): (r: Option<Piece>)
    requires WellFormed(b)
    ensures r.None? <==> forall i | 0 <= i < |kicks| :: !IsValidPosition(b, Shifted(t, kicks[i]))
    ensures r.Some? ==> exists i | 0 <= i < |kicks| :: FirstFit(b, t, kicks, i) && r.value == Shifted(t, kicks[i])
    decreases |kicks|
  {
    if kicks == [] then None
    else if IsValidPosition(b, Shifted(t, kicks[0])) then
      assert FirstFit(b, t, kicks, 0);
      Some(Shifted(t, kicks[0]))
    else
      var r := TryKicks(b, t, kicks[1..]);
      assert forall i | 1 <= i < |kicks| :: kicks[i] == kicks[1..][i - 1];
      assert forall i | 0 <= i < |kicks| - 1 :: FirstFit(b, t, kicks[1..], i) ==> FirstFit(b, t, kicks, i + 1);
      r
  }

  /** Shift `kicks[i]` is the first of `kicks` at which `t` fits. */
  predicate FirstFit(b: Grid, t: Piece, kicks: seq<int>, i: int)
    requires WellFormed(b)
  {
    && 0 <= i < |kicks|
    && IsValidPosition(b, Shifted(t, kicks[i]))
    && forall j | 0 <= j < i :: !IsValidPosition(b, Shifted(t, kicks[j]))
  }

  lemma FirstFitUnique(b: Grid, t: Piece, kicks: seq<int>, i: int, j: int)
    requires WellFormed(b) && FirstFit(b, t, kicks, i) && FirstFit(b, t, kicks, j)
    ensures i == j
  {
  }

  /** Trying the unshifted piece first and then the wall kicks is trying
      the shifts 0, 1, -1, 2, -2 in that order. */
  lemma TriesStartUnshifted(b: Grid, t: Piece)
    requires WellFormed(b)
    ensures TryKicks(b, t, [0] + Kicks)
            == if IsValidPosition(b, t) then Some(t) else TryKicks(b, t, Kicks)
  {
    assert Shifted(t, 0) == t;
    assert ([0] + Kicks)[1..] == Kicks;
  }

  /** Rotates the current piece clockwise; if it no longer fits, tries the
      wall kicks in order, and if none fits, turns it back. */
  function Rotate(g: Game): (r: Game)
    requires WellFormed(g.board)
    ensures r == g.(current := r.current)
    ensures r.current.y == g.current.y && r.current.kind == g.current.kind
    ensures var t := RotateClockwise(g.current);
            forall i | FirstFit(g.board, t, [0] + Kicks, i) :: r.current == Shifted(t, ([0] + Kicks)[i])
    ensures var t := RotateClockwise(g.current);
            (forall i | 0 <= i < |[0] + Kicks| :: !IsValidPosition(g.board, Shifted(t, ([0] + Kicks)[i]))) ==> r == g
  {
    var t := RotateClockwise(g.current);
    TriesStartUnshifted(g.board, t);
    if IsValidPosition(g.board, t) then
      g.(current := t)
    else
      match TryKicks(g.board, t, Kicks)
      case Some(k) => g.(current := k)
      case None =>
        RotateRoundTrip(g.current);
        g.(current := RotateCounterclockwise(t))
  }

  /** The board with the current piece drawn in, for display. */
  function DisplayBoard(g: Game): (d: Grid)
    requires WellFormed(g.board)
    ensures WellFormed(d)
    ensures forall y, x | 0 <= y < Height && 0 <= x < Width ::
              d[y][x] == if Point(x, y) in Blocks(g.current) then Filled(g.current.kind) else g.board[y][x]
  {
    Paint(g.board, Blocks(g.current), g.current.kind)
  }

  /** A new piece of any kind fits on the empty board. */
  lemma SpawnFitsEmptyBoard(k: Kind)
    ensures IsValidPosition(EmptyGrid(), Spawn(k))
  {
    var p := Spawn(k);
    forall i | 0 <= i < |p.offsets|
      ensures !Blocked(EmptyGrid(), Point(p.x + p.offsets[i].x, p.y + p.offsets[i].y))
    {
    }
  }
}
