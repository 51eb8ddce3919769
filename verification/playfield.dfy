/** The board: a Height x Width grid of cells, the scan for full rows, the
    removal of full rows, and the painting of a piece's blocks into it. */
module Playfield {
  import opened Tetromino

  /** A cell is empty or holds the kind of the piece locked there. */
  datatype Cell = Empty | Filled(kind: Kind)

  type Row = seq<Cell>

  /** Rows from top (index 0) to bottom. */
  type Grid = seq<Row>

  predicate WellFormed(b: Grid) {
    |b| == Height && forall y | 0 <= y < |b| :: |b[y]| == Width
  }

  function EmptyRow(): (r: Row)
    ensures |r| == Width
    ensures forall x | 0 <= x < |r| :: r[x] == Empty
  {
    seq(Width, _ => Empty)
  }

  /** `n` fresh empty rows. */
  function Blank(n: nat): (rs: Grid)
    ensures |rs| == n
    ensures forall y | 0 <= y < n :: rs[y] == EmptyRow()
  {
    seq(n, _ => EmptyRow())
  }

  /** The board a game starts with. */
  function EmptyGrid(): (b: Grid)
    ensures WellFormed(b)
    ensures forall y, x | 0 <= y < Height && 0 <= x < Width :: b[y][x] == Empty
    ensures NoFullRow(b)
  {
    assert EmptyRow()[0] == Empty;
    Blank(Height)
  }

  predicate IsFull(row: Row) {
    forall x | 0 <= x < |row| :: row[x] != Empty
  }

  predicate NoFullRow(b: Grid) {
    forall y | 0 <= y < |b| :: !IsFull(b[y])
  }

  predicate Increasing(ys: seq<int>) {
    forall i, j | 0 <= i < j < |ys| :: ys[i] < ys[j]
  }

  predicate Within(ys: seq<int>, lo: int, hi: int) {
    forall i | 0 <= i < |ys| :: lo <= ys[i] < hi
  }

  /** The indices of the full rows at or below row `from`, top to bottom:
      the scan that finds the lines to clear. */
  function FullRowsFrom(b: Grid, from: nat): (ys: seq<int>)
    requires from <= |b|
    ensures Increasing(ys) && Within(ys, from, |b|)
    ensures forall i | 0 <= i < |ys| :: IsFull(b[ys[i]])
    ensures forall y | from <= y < |b| && IsFull(b[y]) :: y in ys
    decreases |b| - from
  {
    if from == |b| then []
    else if IsFull(b[from]) then [from] + FullRowsFrom(b, from + 1)
    else FullRowsFrom(b, from + 1)
  }

  /** The indices of all full rows, top to bottom. */
  function FullRows(b: Grid): (ys: seq<int>)
    ensures Increasing(ys) && Within(ys, 0, |b|)
    ensures forall y | 0 <= y < |b| :: IsFull(b[y]) <==> y in ys
  {
    FullRowsFrom(b, 0)
  }

  /** Deletes row `y` and inserts an empty row on top. */
  function DropRow(b: Grid, y: int): (r: Grid)
    requires 0 <= y < |b|
    ensures |r| == |b|
    ensures r[0] == EmptyRow()
    ensures forall i | 0 <= i < y :: r[i + 1] == b[i]
    ensures forall i | y < i < |b| :: r[i] == b[i]
  {
    [EmptyRow()] + b[..y] + b[y + 1..]
  }

  /** Deletes the listed rows one after the other, in list order, each time
      inserting an empty row on top. Indices refer to the board as it is when
      each row is deleted. */
  function DropRows(b: Grid, ys: seq<int>): (r: Grid)
    requires Within(ys, 0, |b|)
    ensures |r| == |b|
    decreases |ys|
  {
    if ys == [] then b else DropRows(DropRow(b, ys[0]), ys[1..])
  }

  /** The rows that are not full, in their original order. */
  function Survivors(b: Grid): (r: Grid)
    ensures |r| <= |b|
    ensures forall j | 0 <= j < |r| :: !IsFull(r[j])
  {
    if b == [] then []
    else if IsFull(b[0]) then Survivors(b[1..])
    else [b[0]] + Survivors(b[1..])
  }

  /** Rows that all have width `Width` keep it when the full ones are
      filtered out. */
  lemma {:induction false} SurvivorsWidth(b: Grid)
    requires forall y | 0 <= y < |b| :: |b[y]| == Width
    ensures forall j | 0 <= j < |Survivors(b)| :: |Survivors(b)[j]| == Width
  {
    if b != [] {
      SurvivorsWidth(b[1..]);
    }
  }

  /** The rows of `c` from `from` on, minus the rows listed in `ys`. */
  ghost function Kept(c: Grid, ys: seq<int>, from: int): Grid
    requires 0 <= from <= |c| && Increasing(ys) && Within(ys, from, |c|)
    decreases |ys|
  {
    if ys == [] then c[from..] else c[from..ys[0]] + Kept(c, ys[1..], ys[0] + 1)
  }

  /** `Kept` looks only at the rows from `from` on. */
  lemma {:induction false} KeptSuffix(c: Grid, d: Grid, ys: seq<int>, from: int)
    requires |c| == |d| && 0 <= from <= |c|
    requires forall i | from <= i < |c| :: c[i] == d[i]
    requires Increasing(ys) && Within(ys, from, |c|)
    ensures Kept(c, ys, from) == Kept(d, ys, from)
    decreases |ys|
  {
    if ys == [] {
      assert c[from..] == d[from..];
    } else {
      assert c[from..ys[0]] == d[from..ys[0]];
      KeptSuffix(c, d, ys[1..], ys[0] + 1);
    }
  }

  lemma BlankGrows(n: nat)
    ensures Blank(n) + [EmptyRow()] == Blank(n + 1)
  {
  }

  /** Deleting row `y` shifts the rows above it down by one and leaves the
      rows below it in place. */
  lemma DropRowParts(c: Grid, y: int)
    requires 0 <= y < |c|
    ensures DropRow(c, y)[..y + 1] == [EmptyRow()] + c[..y]
    ensures forall i | y + 1 <= i < |c| :: DropRow(c, y)[i] == c[i]
  {
  }

  /** Sequence bookkeeping for one step of `DropRowsShape`. */
  lemma Reassemble(c: Grid, p: int, y: int, n: nat, kept: Grid)
    requires 0 <= p <= y <= |c|
    ensures Blank(n) + ([EmptyRow()] + c[..y]) + kept == Blank(n + 1) + c[..p] + (c[p..y] + kept)
  {
    assert c[..y] == c[..p] + c[p..y];
    BlankGrows(n);
  }

  /** One step of `DropRowsShape`: from the shape after the first deletion
      to the shape of the whole. */
  lemma DropRowsShapeStep(c: Grid, ys: seq<int>, p: int)
    requires 0 <= p <= |c| && Increasing(ys) && Within(ys, p, |c|) && ys != []
    requires DropRows(DropRow(c, ys[0]), ys[1..])
             == Blank(|ys| - 1) + DropRow(c, ys[0])[..ys[0] + 1] + Kept(DropRow(c, ys[0]), ys[1..], ys[0] + 1)
    ensures DropRows(c, ys) == Blank(|ys|) + c[..p] + Kept(c, ys, p)
  {
    var y := ys[0];
    var rest := ys[1..];
    var c1 := DropRow(c, y);
    var kept := Kept(c, rest, y + 1);
    DropRowParts(c, y);
    KeptSuffix(c1, c, rest, y + 1);
    assert DropRows(c, ys) == Blank(|rest|) + ([EmptyRow()] + c[..y]) + kept;
    Reassemble(c, p, y, |rest|, kept);
  }

  /** Deleting increasing indices one by one, each time inserting an empty
      row on top, leaves the untouched prefix, then the kept rows, under as
      many empty rows as were deleted. */
  lemma {:induction false} DropRowsShape(c: Grid, ys: seq<int>, p: int)
    requires 0 <= p <= |c| && Increasing(ys) && Within(ys, p, |c|)
    ensures DropRows(c, ys) == Blank(|ys|) + c[..p] + Kept(c, ys, p)
    decreases |ys|
  {
    if ys == [] {
      assert c[..p] + c[p..] == c;
    } else {
      DropRowsShape(DropRow(c, ys[0]), ys[1..], ys[0] + 1);
      DropRowsShapeStep(c, ys, p);
    }
  }

  /** A row that is not listed is kept. */
  lemma KeptStep(c: Grid, ys: seq<int>, i: int)
    requires 0 <= i < |c| && Increasing(ys) && Within(ys, i + 1, |c|)
    ensures Kept(c, ys, i) == [c[i]] + Kept(c, ys, i + 1)
  {
    if ys == [] {
      assert c[i..] == [c[i]] + c[i + 1..];
    } else {
      assert c[i..ys[0]] == [c[i]] + c[i + 1..ys[0]];
    }
  }

  /** A listed row is dropped. */
  lemma KeptSkip(c: Grid, ys: seq<int>, i: int)
    requires 0 <= i < |c| && Increasing(ys) && Within(ys, i + 1, |c|)
    ensures Increasing([i] + ys) && Within([i] + ys, i, |c|)
    ensures Kept(c, [i] + ys, i) == Kept(c, ys, i + 1)
  {
    assert ([i] + ys)[1..] == ys;
  }

  /** The filter unfolds one row at a time. */
  lemma SurvivorsStep(c: Grid, i: int)
    requires 0 <= i < |c|
    ensures Survivors(c[i..]) == if IsFull(c[i]) then Survivors(c[i + 1..])
                                 else [c[i]] + Survivors(c[i + 1..])
  {
    assert c[i..][0] == c[i] && c[i..][1..] == c[i + 1..];
  }

  /** Removing the full rows found from row `i` on keeps exactly the rows
      from `i` on that are not full. */
  lemma {:induction false} KeptFullRows(c: Grid, i: nat)
    requires i <= |c|
    ensures Kept(c, FullRowsFrom(c, i), i) == Survivors(c[i..])
    decreases |c| - i
  {
    if i < |c| {
      KeptFullRows(c, i + 1);
      SurvivorsStep(c, i);
      var rest := FullRowsFrom(c, i + 1);
      if IsFull(c[i]) {
        KeptSkip(c, rest, i);
      } else {
        KeptStep(c, rest, i);
      }
    }
  }

  /** Clearing as the game does it (delete each full row top to bottom,
      inserting an empty row on top each time) gives one empty row per full
      row, followed by the rows that were not full, in their original order. */
  lemma ClearRowsAsFilter(b: Grid)
    ensures DropRows(b, FullRows(b)) == Blank(|FullRows(b)|) + Survivors(b)
  {
    var ys := FullRows(b);
    calc {
      DropRows(b, ys);
      { DropRowsShape(b, ys, 0); }
      Blank(|ys|) + b[..0] + Kept(b, ys, 0);
      { assert b[..0] == []; }
      Blank(|ys|) + Kept(b, ys, 0);
      { KeptFullRows(b, 0); assert b[0..] == b; }
      Blank(|ys|) + Survivors(b);
    }
  }

  /** The board after clearing keeps its dimensions and has no full row. */
  lemma ClearedIsWellFormed(b: Grid)
    requires WellFormed(b)
    ensures |Blank(|FullRows(b)|) + Survivors(b)| == Height
    ensures WellFormed(Blank(|FullRows(b)|) + Survivors(b))
    ensures NoFullRow(Blank(|FullRows(b)|) + Survivors(b))
  {
    ClearRowsAsFilter(b);
    var k := |FullRows(b)|;
    var r := Blank(k) + Survivors(b);
    assert !IsFull(EmptyRow()) by {
      assert EmptyRow()[0] == Empty;
    }
    forall y | 0 <= y < |r|
      ensures |r[y]| == Width && !IsFull(r[y])
    {
      if y >= k {
        SurvivorsWidth(b);
        assert r[y] == Survivors(b)[y - k];
      }
    }
  }

  /** A cell of the board proper. */
  predicate Inside(q: Point) {
    0 <= q.x < Width && 0 <= q.y < Height
  }

  /** Writes kind `k` into cell `q` when `q` is on the board. */
  function PaintCell(b: Grid, q: Point, k: Kind): (r: Grid)
    requires WellFormed(b)
    ensures WellFormed(r)
  {
    if Inside(q) then b[q.y := b[q.y][q.x := Filled(k)]] else b
  }

  /** Writes kind `k` into every listed cell that is on the board, and
      leaves every other cell alone. */
  function Paint(b: Grid, bs: seq<Point>, k: Kind): (r: Grid)
    requires WellFormed(b)
    ensures WellFormed(r)
    ensures forall y, x | 0 <= y < Height && 0 <= x < Width ::
              r[y][x] == if Point(x, y) in bs then Filled(k) else b[y][x]
    decreases |bs|
  {
    if bs == [] then b
    else
      var r := Paint(PaintCell(b, bs[0], k), bs[1..], k);
      assert forall q :: q in bs <==> q == bs[0] || q in bs[1..];
      r
  }

  /** The rows the listed cells lie in. */
  function RowsOf(bs: seq<Point>): (ys: set<int>)
    ensures |ys| <= |bs|
    ensures forall i | 0 <= i < |bs| :: bs[i].y in ys
  {
    if bs == [] then {} else {bs[0].y} + RowsOf(bs[1..])
  }

  /** An increasing list drawn from a set is no longer than the set. */
  lemma {:induction false} IncreasingWithin(ys: seq<int>, s: set<int>)
    requires Increasing(ys)
    requires forall i | 0 <= i < |ys| :: ys[i] in s
    ensures |ys| <= |s|
    decreases |ys|
  {
    if ys != [] {
      IncreasingWithin(ys[1..], s - {ys[0]});
    }
  }

  /** Painting cells into a board without full rows completes at most one
      row per painted cell: only rows holding a painted cell can become full. */
  lemma PaintCompletesFewRows(b: Grid, bs: seq<Point>, k: Kind)
    requires WellFormed(b) && NoFullRow(b)
    ensures |FullRows(Paint(b, bs, k))| <= |bs|
  {
    var p := Paint(b, bs, k);
    var ys := FullRows(p);
    forall i | 0 <= i < |ys|
      ensures ys[i] in RowsOf(bs)
    {
      var y := ys[i];
      assert !IsFull(b[y]);
      var x :| 0 <= x < |b[y]| && b[y][x] == Empty;
      assert p[y][x] != Empty;
      assert Point(x, y) in bs;
      var j :| 0 <= j < |bs| && bs[j] == Point(x, y);
      assert bs[j].y == y;
    }
    IncreasingWithin(ys, RowsOf(bs));
  }
}
