/** The falling piece: the shape table it is spawned from, the test that it
    fits on the field, and its three moves, each of which tries a candidate
    position and rolls back when the candidate does not fit. */
module Pieces {
  import opened Board

  /** The shape codes of the 7 pieces (I, Z, S, T, L, J, O). A code v names a
      cell of a 2-wide, 4-tall box: column v % 2, row v / 2. */
  function Figure(shapeNr: int): (codes: seq<int>)
    requires 0 <= shapeNr < 7
    ensures |codes| == 4
    ensures forall i :: 0 <= i < 4 ==> 0 <= codes[i] <= 7
  {
    [[1, 3, 5, 7], [2, 4, 5, 7], [3, 5, 4, 6], [3, 5, 4, 7],
     [2, 3, 5, 7], [3, 5, 7, 6], [2, 3, 4, 5]][shapeNr]
  }

  /** The cell a shape code stands for. Codes are never negative, so Dafny's
      Euclidean % and / agree with truncating division here. */
  function Decode(v: int): Point
    requires 0 <= v
  {
    Point(v % 2, v / 2)
  }

  /** The four points a freshly spawned piece occupies. They lie in columns
      0..1 and rows 0..3, so inside the field. */
  function Spawn(shapeNr: int): (s: seq<Point>)
    requires 0 <= shapeNr < 7
    ensures |s| == 4
    ensures forall i :: 0 <= i < 4 ==> 0 <= s[i].x <= 1 && 0 <= s[i].y <= 3
  {
    seq(4, i requires 0 <= i < 4 => Decode(Figure(shapeNr)[i]))
  }

  predicate InBounds(s: seq<Point>) {
    forall i :: 0 <= i < |s| ==> 0 <= s[i].x < N && 0 <= s[i].y < M
  }

  /** A point the piece may occupy: on the field and over an unoccupied cell.
      A row above the field (y < 0) is refused as well. */
  predicate Free(p: Point, g: Grid)
    requires IsGrid(g)
  {
    0 <= p.x < N && p.y < M && 0 <= p.y && !(g[p.y][p.x] > 0)
  }

  /** What the piece's check computes: every point is free. */
  predicate Fits(s: seq<Point>, g: Grid)
    requires IsGrid(g)
  {
    forall i :: 0 <= i < |s| ==> Free(s[i], g)
  }

  /** Every point moved dx columns. */
  function Shifted(s: seq<Point>, dx: int): seq<Point> {
    seq(|s|, i requires 0 <= i < |s| => Point(s[i].x + dx, s[i].y))
  }

  /** Every point moved one row down. */
  function Dropped(s: seq<Point>): seq<Point> {
    seq(|s|, i requires 0 <= i < |s| => Point(s[i].x, s[i].y + 1))
  }

  /** Point p turned a quarter about centre c. */
  function RotateAbout(c: Point, p: Point): Point {
    Point(c.x - (p.y - c.y), c.y + (p.x - c.x))
  }

  /** Every point turned a quarter about the second point of the shape. */
  function Rotated(s: seq<Point>): seq<Point>
    requires |s| >= 2
  {
    var c := s[1];
    seq(|s|, i requires 0 <= i < |s| => RotateAbout(c, s[i]))
  }

  /** A move's outcome: the candidate when it fits, else the backup. */
  function Attempt(backup: seq<Point>, candidate: seq<Point>, g: Grid): (s: seq<Point>)
    requires IsGrid(g)
    ensures s == candidate || s == backup
    ensures s != candidate ==> !Fits(candidate, g)
  {
    if Fits(candidate, g) then candidate else backup
  }

  /** The field after the piece's cells are written with colour. */
  function Painted(g: Grid, s: seq<Point>, color: int): (h: Grid)
    ensures |h| == |g| && forall r :: 0 <= r < |g| ==> |h[r]| == |g[r]|
  {
    seq(|g|, r requires 0 <= r < |g| =>
      seq(|g[r]|, c requires 0 <= c < |g[r]| =>
        if Point(c, r) in s then color else g[r][c]))
  }

  // ---------------------------------------------------------------------
  // Properties of the shapes and the moves
  // ---------------------------------------------------------------------

  /** The I piece (shape 0) spawns as a vertical bar in column 1. */
  lemma SpawnI()
    ensures Spawn(0) == [Point(1, 0), Point(1, 1), Point(1, 2), Point(1, 3)]
  {
  }

  /** A spawned piece fits on the empty field. */
  lemma SpawnFitsEmpty(shapeNr: int)
    requires 0 <= shapeNr < 7
    ensures Fits(Spawn(shapeNr), EmptyGrid())
  {
    var s := Spawn(shapeNr);
    forall i | 0 <= i < |s| ensures Free(s[i], EmptyGrid()) {
      assert 0 <= s[i].x <= 1 && 0 <= s[i].y <= 3;
    }
  }

  /** A shape that fits lies on the field. */
  lemma FitsInBounds(s: seq<Point>, g: Grid)
    requires IsGrid(g) && Fits(s, g)
    ensures InBounds(s)
  {
    forall i | 0 <= i < |s| ensures 0 <= s[i].x < N && 0 <= s[i].y < M {
      assert Free(s[i], g);
    }
  }

  /** Trying a move keeps a fitting piece fitting, whether the move is taken
      or rolled back; and a piece on the field stays on the field. */
  lemma AttemptKeepsFit(backup: seq<Point>, candidate: seq<Point>, g: Grid)
    requires IsGrid(g)
    ensures Fits(backup, g) ==> Fits(Attempt(backup, candidate, g), g)
    ensures InBounds(backup) ==> InBounds(Attempt(backup, candidate, g))
  {
    if Fits(candidate, g) {
      FitsInBounds(candidate, g);
    }
  }

  /** A zero sideways move changes nothing, whatever the field. */
  lemma ShiftZero(s: seq<Point>)
    ensures Shifted(s, 0) == s
    ensures forall g :: IsGrid(g) ==> Attempt(s, Shifted(s, 0), g) == s
  {
    assert forall i :: 0 <= i < |s| ==> Shifted(s, 0)[i] == s[i];
  }

  /** A sideways move adds dx to every column, keeps every row, and is undone
      by the opposite move. */
  lemma ShiftBack(s: seq<Point>, dx: int)
    ensures |Shifted(s, dx)| == |s|
    ensures forall i :: 0 <= i < |s| ==>
      Shifted(s, dx)[i].x == s[i].x + dx && Shifted(s, dx)[i].y == s[i].y
    ensures Shifted(Shifted(s, dx), -dx) == s
  {
    var t := Shifted(Shifted(s, dx), -dx);
    assert forall i :: 0 <= i < |s| ==> t[i] == s[i];
  }

  /** A rotation keeps the pivot where it is and keeps the number of
      points. */
  lemma RotatePivot(s: seq<Point>)
    requires |s| >= 2
    ensures |Rotated(s)| == |s| && Rotated(s)[1] == s[1]
  {
  }

  /** Four quarter turns about the same centre bring a point back. */
  lemma RotateAboutFour(c: Point, p: Point)
    ensures RotateAbout(c, RotateAbout(c, RotateAbout(c, RotateAbout(c, p)))) == p
  {
  }

  /** Four rotations in a row restore the original shape: the pivot stays
      put, so all four turn about the same centre. */
  lemma RotateFourTimes(s: seq<Point>)
    requires |s| >= 2
    ensures Rotated(Rotated(Rotated(Rotated(s)))) == s
  {
    var s1 := Rotated(s);
    RotatePivot(s);
    var s2 := Rotated(s1);
    RotatePivot(s1);
    var s3 := Rotated(s2);
    RotatePivot(s2);
    var s4 := Rotated(s3);
    forall i | 0 <= i < |s| ensures s4[i] == s[i] {
      RotateAboutFour(s[1], s[i]);
    }
  }

  /** Four rotations in a row that are all accepted bring the piece back to
      where it started. */
  lemma FourAcceptedRotations(s: seq<Point>, g: Grid)
    requires IsGrid(g) && |s| >= 2
    requires Fits(Rotated(s), g) && Fits(Rotated(Rotated(s)), g)
    requires Fits(Rotated(Rotated(Rotated(s))), g)
    requires Fits(Rotated(Rotated(Rotated(Rotated(s)))), g)
    ensures var s1 := Attempt(s, Rotated(s), g);
      var s2 := Attempt(s1, Rotated(s1), g);
      var s3 := Attempt(s2, Rotated(s2), g);
      Attempt(s3, Rotated(s3), g) == s
  {
    RotatePivot(s);
    RotatePivot(Rotated(s));
    RotatePivot(Rotated(Rotated(s)));
    RotateFourTimes(s);
  }

  /** The O piece is not left in place by a rotation: it turns about its
      top right cell, (1, 1), so the square moves up one row. */
  lemma RotateO()
    ensures Rotated(Spawn(6)) == [Point(1, 0), Point(1, 1), Point(0, 0), Point(0, 1)]
    ensures (set p | p in Rotated(Spawn(6))) == (set p | p in Spawn(6) :: Point(p.x, p.y - 1))
    ensures (set p | p in Rotated(Spawn(6))) != (set p | p in Spawn(6))
  {
    var o := Spawn(6);
    assert o == [Point(0, 1), Point(1, 1), Point(0, 2), Point(1, 2)];
    assert Point(0, 2) in (set p | p in o);
    var r := Rotated(o);
    assert r == [Point(1, 0), Point(1, 1), Point(0, 0), Point(0, 1)];
    assert Point(0, 2) !in (set p | p in r);
    var up := set p | p in o :: Point(p.x, p.y - 1);
    assert Point(0, 0) in up && Point(1, 0) in up && Point(0, 1) in up && Point(1, 1) in up;
    assert forall q :: q in up ==> q in r;
  }

  /** On the empty field an I piece moves one column left from its spawn
      position, and a second move left is refused because column -1 is off
      the field. */
  lemma MoveLeftExample()
    ensures Attempt(Spawn(0), Shifted(Spawn(0), -1), EmptyGrid())
         == [Point(0, 0), Point(0, 1), Point(0, 2), Point(0, 3)]
    ensures var s := [Point(0, 0), Point(0, 1), Point(0, 2), Point(0, 3)];
      Attempt(s, Shifted(s, -1), EmptyGrid()) == s
  {
    SpawnI();
    var s := [Point(0, 0), Point(0, 1), Point(0, 2), Point(0, 3)];
    assert Shifted(Spawn(0), -1) == s;
    SpawnFitsEmpty(0);
    assert Fits(s, EmptyGrid()) by {
      forall i | 0 <= i < 4 ensures Free(s[i], EmptyGrid()) {
      }
    }
    assert !Free(Shifted(s, -1)[0], EmptyGrid());
  }

  /** Locking writes colour into exactly the piece's cells: afterwards each of
      them is occupied (so the locked piece no longer fits) and every other
      cell is as before. */
  lemma PaintedCells(g: Grid, s: seq<Point>, color: int)
    requires IsGrid(g) && InBounds(s) && color > 0
    ensures IsGrid(Painted(g, s, color))
    ensures forall i :: 0 <= i < |s| ==> Painted(g, s, color)[s[i].y][s[i].x] == color
    ensures forall r, c :: 0 <= r < M && 0 <= c < N && Point(c, r) !in s ==>
      Painted(g, s, color)[r][c] == g[r][c]
    ensures forall i :: 0 <= i < |s| ==> !Free(s[i], Painted(g, s, color))
  {
    var h := Painted(g, s, color);
    forall i | 0 <= i < |s| ensures h[s[i].y][s[i].x] == color {
      assert Point(s[i].x, s[i].y) == s[i];
    }
  }

  /** Locking with a colour keeps every cell empty or a colour. */
  lemma PaintedInRange(g: Grid, s: seq<Point>, color: int)
    requires IsGrid(g) && CellsInRange(g) && 1 <= color <= MaxColor
    ensures IsGrid(Painted(g, s, color)) && CellsInRange(Painted(g, s, color))
  {
  }

  /** Moving down adds one to every row and keeps every column. */
  lemma DroppedPoints(s: seq<Point>)
    ensures |Dropped(s)| == |s|
    ensures forall i :: 0 <= i < |s| ==> Dropped(s)[i].x == s[i].x && Dropped(s)[i].y == s[i].y + 1
  {
  }

  // ---------------------------------------------------------------------
  // The piece object
  // ---------------------------------------------------------------------

  /** The active piece: four points, updated in place. */
  class Tetromino {
    const shape: array<Point>

    ghost predicate Valid() {
      shape.Length == 4
    }

    /** Decodes shape shapeNr of the table into board points. */
    constructor (shapeNr: int)
      requires 0 <= shapeNr < 7
      ensures Valid() && fresh(shape)
      ensures shape[..] == Spawn(shapeNr)
    {
      var a := new Point[4];
      for i := 0 to 4
        invariant forall t :: 0 <= t < i ==> a[t] == Spawn(shapeNr)[t]
      {
        var v := Figure(shapeNr)[i];
        a[i] := Point(v % 2, v / 2);
      }
      shape := a;
    }

    /** Whether every point is on the field and over an empty cell. */
    method Check(field: array2<int>) returns (ok: bool)
      requires Valid() && IsBoard(field)
      ensures ok <==> Fits(shape[..], Snapshot(field))
    {
      ghost var g := Snapshot(field);
      for i := 0 to 4
        invariant forall t :: 0 <= t < i ==> Free(shape[t], g)
      {
        var p := shape[i];
        if p.x < 0 || p.x >= N || p.y >= M {
          assert !Free(shape[..][i], g);
          return false;
        } else if p.y < 0 {
          // A point above the field (y < 0) has no cell to read, so it is refused.
          assert !Free(shape[..][i], g);
          return false;
        } else if field[p.y, p.x] > 0 {
          assert !Free(shape[..][i], g);
          return false;
        }
      }
      return true;
    }

    /** Moves the piece dx columns, or leaves it where it was when the moved
        piece would not fit. */
    method MoveAlongX(dx: int, field: array2<int>)
      requires Valid() && IsBoard(field)
      modifies shape
      ensures shape[..] == Attempt(old(shape[..]), Shifted(old(shape[..]), dx), Snapshot(field))
    {
      var backup := shape[..];
      for i := 0 to 4
        invariant forall t :: 0 <= t < i ==> shape[t] == Point(backup[t].x + dx, backup[t].y)
        invariant forall t :: i <= t < 4 ==> shape[t] == backup[t]
      {
        shape[i] := shape[i].(x := shape[i].x + dx);
      }
      assert shape[..] == Shifted(backup, dx);
      var ok := Check(field);
      if !ok {
        forall t | 0 <= t < 4 {
          shape[t] := backup[t];
        }
        assert shape[..] == backup;
      }
    }

    /** Turns the piece a quarter about its second point, or leaves it as it
        was when the turned piece would not fit. */
    method Rotate(field: array2<int>)
      requires Valid() && IsBoard(field)
      modifies shape
      ensures shape[..] == Attempt(old(shape[..]), Rotated(old(shape[..])), Snapshot(field))
    {
      var backup := shape[..];
      var center := shape[1];
      for i := 0 to 4
        invariant forall t :: 0 <= t < i ==> shape[t] == RotateAbout(center, backup[t])
        invariant forall t :: i <= t < 4 ==> shape[t] == backup[t]
      {
        var x := shape[i].y - center.y;
        var y := shape[i].x - center.x;
        shape[i] := Point(center.x - x, center.y + y);
      }
      assert shape[..] == Rotated(backup);
      var ok := Check(field);
      if !ok {
        forall t | 0 <= t < 4 {
          shape[t] := backup[t];
        }
        assert shape[..] == backup;
      }
    }

    /** Moves the piece one row down and reports true, or leaves it where it
        was and reports false when the lowered piece would not fit. */
    method MoveDown(field: array2<int>) returns (moved: bool)
      requires Valid() && IsBoard(field)
      modifies shape
      ensures moved <==> Fits(Dropped(old(shape[..])), Snapshot(field))
      ensures shape[..] == Attempt(old(shape[..]), Dropped(old(shape[..])), Snapshot(field))
    {
      var backup := shape[..];
      for i := 0 to 4
        invariant forall t :: 0 <= t < i ==> shape[t] == Point(backup[t].x, backup[t].y + 1)
        invariant forall t :: i <= t < 4 ==> shape[t] == backup[t]
      {
        shape[i] := shape[i].(y := shape[i].y + 1);
      }
      assert shape[..] == Dropped(backup);
      var ok := Check(field);
      if !ok {
        forall t | 0 <= t < 4 {
          shape[t] := backup[t];
        }
        assert shape[..] == backup;
        return false;
      }
      return true;
    }

    /** Writes colorNum into the piece's four cells of the field. */
    method PrintToField(colorNum: int, field: array2<int>)
      requires Valid() && IsBoard(field) && InBounds(shape[..])
      modifies field
      ensures forall r, c :: 0 <= r < M && 0 <= c < N ==>
        field[r, c] == if Point(c, r) in shape[..] then colorNum else old(field[r, c])
      ensures Snapshot(field) == Painted(old(Snapshot(field)), shape[..], colorNum)
    {
      for i := 0 to 4
        invariant forall r, c :: 0 <= r < M && 0 <= c < N ==>
          field[r, c] == if Point(c, r) in shape[..i] then colorNum else old(field[r, c])
      {
        assert shape[..i + 1] == shape[..i] + [shape[i]];
        field[shape[i].y, shape[i].x] := colorNum;
      }
      assert shape[..4] == shape[..];
      GridExt(Snapshot(field), Painted(old(Snapshot(field)), shape[..], colorNum));
    }
  }

  /** An I piece spawned on an empty field slides one column left, and is
      refused a second slide because that would take it off the field. */
  method SlideLeftTwice() returns (first: seq<Point>, second: seq<Point>)
    ensures first == [Point(0, 0), Point(0, 1), Point(0, 2), Point(0, 3)]
    ensures second == first
  {
    var field := new int[M, N]((r, c) => Empty);
    GridExt(Snapshot(field), EmptyGrid());
    var piece := new Tetromino(0);
    MoveLeftExample();
    piece.MoveAlongX(-1, field);
    first := piece.shape[..];
    piece.MoveAlongX(-1, field);
    second := piece.shape[..];
  }
}
