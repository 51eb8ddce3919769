/** Falling pieces: the seven shape kinds, their canonical block offsets,
    the absolute cells a piece covers, and quarter-turn rotation. */
module Tetromino {

  /** Playfield dimensions, in cells. */
  const Width: int := 10
  const Height: int := 20

  datatype Kind = I | O | T | S | Z | J | L

  /** A board coordinate, or an offset from a piece's anchor. x grows to the
      right and y grows downwards; row 0 is the top row of the board. */
  datatype Point = Point(x: int, y: int)

  /** A piece: its kind, the offsets of its blocks from the anchor, and the
      anchor (x, y). Only rotation changes the offsets. */
  datatype Piece = Piece(kind: Kind, offsets: seq<Point>, x: int, y: int)

  /** The offsets a freshly created piece of kind `k` starts with. */
  function Shape(k: Kind): (s: seq<Point>)
    ensures |s| == 4
    ensures forall i, j | 0 <= i < j < |s| :: s[i] != s[j]
    ensures Point(0, 0) in s
  {
    match k
    case I => [Point(0, -1), Point(0, 0), Point(0, 1), Point(0, 2)]
    case O => [Point(0, 0), Point(0, 1), Point(1, 0), Point(1, 1)]
    case T => [Point(0, 0), Point(-1, 0), Point(1, 0), Point(0, 1)]
    case S => [Point(0, 0), Point(1, 0), Point(0, 1), Point(-1, 1)]
    case Z => [Point(0, 0), Point(-1, 0), Point(0, 1), Point(1, 1)]
    case J => [Point(0, 0), Point(0, -1), Point(0, 1), Point(-1, 1)]
    case L => [Point(0, 0), Point(0, -1), Point(0, 1), Point(1, 1)]
  }

  /** A new piece of kind `k` at the spawn anchor: the middle column of the
      top row. */
  function Spawn(k: Kind): (p: Piece)
    ensures InFamily(p) && p.kind == k
    ensures p.offsets == Shape(k)
    ensures p.x == Width / 2 && p.y == 0
  {
    assert TurnN(Shape(k), 0) == Shape(k);
    Piece(k, Shape(k), Width / 2, 0)
  }

  /** The absolute board cells covered by `p`, one per offset. */
  function Blocks(p: Piece): (bs: seq<Point>)
    ensures |bs| == |p.offsets|
    ensures forall i {:trigger bs[i]} | 0 <= i < |bs| :: bs[i] == Point(p.x + p.offsets[i].x, p.y + p.offsets[i].y)
  {
    seq(|p.offsets|, i requires 0 <= i < |p.offsets| =>
      Point(p.x + p.offsets[i].x, p.y + p.offsets[i].y))
  }

  /** A quarter turn clockwise of every offset: (dx, dy) becomes (-dy, dx). */
  function Turn(s: seq<Point>): (r: seq<Point>)
    ensures |r| == |s|
    ensures forall i | 0 <= i < |s| :: r[i] == Point(-s[i].y, s[i].x)
  {
    seq(|s|, i requires 0 <= i < |s| => Point(-s[i].y, s[i].x))
  }

  /** A quarter turn counterclockwise of every offset: (dx, dy) becomes (dy, -dx). */
  function Unturn(s: seq<Point>): (r: seq<Point>)
    ensures |r| == |s|
    ensures forall i | 0 <= i < |s| :: r[i] == Point(s[i].y, -s[i].x)
  {
    seq(|s|, i requires 0 <= i < |s| => Point(s[i].y, -s[i].x))
  }

  /** `n` successive clockwise quarter turns. */
  function TurnN(s: seq<Point>, n: nat): (r: seq<Point>)
    ensures |r| == |s|
    decreases n
  {
    if n == 0 then s else Turn(TurnN(s, n - 1))
  }

  /** The piece's offsets are one of the four orientations of its kind's
      canonical shape. */
  predicate InFamily(p: Piece) {
    exists n :: 0 <= n < 4 && p.offsets == TurnN(Shape(p.kind), n)
  }

  /** Clockwise rotation of a piece; the square O piece is left as it is. */
  function RotateClockwise(p: Piece): (r: Piece)
    ensures r.kind == p.kind && r.x == p.x && r.y == p.y
    ensures |r.offsets| == |p.offsets|
    ensures p.kind == O ==> r == p
    ensures p.kind != O ==> forall i | 0 <= i < |p.offsets| ::
              r.offsets[i] == Point(-p.offsets[i].y, p.offsets[i].x)
  {
    if p.kind == O then p else p.(offsets := Turn(p.offsets))
  }

  /** Counterclockwise rotation of a piece; the O piece is left as it is. */
  function RotateCounterclockwise(p: Piece): (r: Piece)
    ensures r.kind == p.kind && r.x == p.x && r.y == p.y
    ensures |r.offsets| == |p.offsets|
    ensures p.kind == O ==> r == p
    ensures p.kind != O ==> forall i | 0 <= i < |p.offsets| ::
              r.offsets[i] == Point(p.offsets[i].y, -p.offsets[i].x)
  {
    if p.kind == O then p else p.(offsets := Unturn(p.offsets))
  }

  /** The two quarter turns undo each other, offset by offset. */
  lemma TurnUnturn(s: seq<Point>)
    ensures Unturn(Turn(s)) == s
    ensures Turn(Unturn(s)) == s
  {
    assert forall i | 0 <= i < |s| :: Unturn(Turn(s))[i] == s[i];
    assert forall i | 0 <= i < |s| :: Turn(Unturn(s))[i] == s[i];
  }

  /** Four clockwise quarter turns restore every offset. */
  lemma TurnFour(s: seq<Point>)
    ensures TurnN(s, 4) == s
  {
    var s1 := Turn(s);
    var s2 := Turn(s1);
    var s3 := Turn(s2);
    assert TurnN(s, 4) == Turn(s3);
    forall i | 0 <= i < |s|
      ensures Turn(s3)[i] == s[i]
    {
      assert s1[i] == Point(-s[i].y, s[i].x);
      assert s2[i] == Point(-s[i].x, -s[i].y);
      assert s3[i] == Point(s[i].y, -s[i].x);
    }
  }

  /** Rotating clockwise four times gives back the same piece, for every kind. */
  lemma RotateFourTimes(p: Piece)
    ensures RotateClockwise(RotateClockwise(RotateClockwise(RotateClockwise(p)))) == p
  {
    if p.kind != O {
      TurnFour(p.offsets);
      assert TurnN(p.offsets, 4) == Turn(Turn(Turn(Turn(p.offsets))));
    }
  }

  /** A clockwise rotation followed by a counterclockwise one (or the other
      way round) gives back the same piece. */
  lemma RotateRoundTrip(p: Piece)
    ensures RotateCounterclockwise(RotateClockwise(p)) == p
    ensures RotateClockwise(RotateCounterclockwise(p)) == p
  {
    TurnUnturn(p.offsets);
  }

  /** The O piece keeps its offsets under both rotations. */
  lemma SquareNeverTurns(p: Piece)
    requires p.kind == O
    ensures RotateClockwise(p).offsets == p.offsets
    ensures RotateCounterclockwise(p).offsets == p.offsets
  {
  }

  /** Rotation keeps a piece's offsets within its kind's four orientations. */
  lemma RotateKeepsFamily(p: Piece)
    requires InFamily(p)
    ensures InFamily(RotateClockwise(p))
    ensures InFamily(RotateCounterclockwise(p))
  {
    var s := Shape(p.kind);
    var n :| 0 <= n < 4 && p.offsets == TurnN(s, n);
    if p.kind != O {
      TurnFour(s);
      if n < 3 {
        assert Turn(p.offsets) == TurnN(s, n + 1);
      } else {
        assert Turn(p.offsets) == TurnN(s, 0);
      }
      if n > 0 {
        TurnUnturn(TurnN(s, n - 1));
        assert Unturn(p.offsets) == TurnN(s, n - 1);
      } else {
        TurnUnturn(TurnN(s, 3));
        assert Unturn(p.offsets) == TurnN(s, 3);
      }
    }
  }
}
