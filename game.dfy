/** One frame of the game: the player's sideways move and rotation, gravity
    with locking and respawn, and the line-clearing pass with its score. */
module Tetris {
  import opened Board
  import opened Pieces

  /** Everything one frame reads and writes: the settled cells, the active
      piece, the colour it will be locked with, and the score. */
  datatype GameState = GameState(grid: Grid, shape: seq<Point>, color: int, score: int)

  /** The game's invariant: a well-shaped field of empty or coloured cells,
      a four-point piece on the field, a colour in 1..7, and a score made of
      whole cleared rows. */
  predicate WellFormed(st: GameState) {
    IsGrid(st.grid) && CellsInRange(st.grid) &&
    |st.shape| == 4 && InBounds(st.shape) &&
    1 <= st.color <= MaxColor &&
    st.score >= 0 && st.score % 100 == 0
  }

  /** Start of play: empty field, colour 1, the piece of shape 0, score 0. */
  function Initial(): (st: GameState)
    ensures WellFormed(st)
  {
    GameState(EmptyGrid(), Spawn(0), 1, 0)
  }

  /** The piece after the sideways move and the optional rotation. */
  function Steered(st: GameState, dx: int, rotate: bool): (s: seq<Point>)
    requires IsGrid(st.grid) && |st.shape| == 4
    ensures |s| == 4
  {
    var s1 := Attempt(st.shape, Shifted(st.shape, dx), st.grid);
    if rotate then Attempt(s1, Rotated(s1), st.grid) else s1
  }

  /** Whether gravity locks the piece: it fires and the lowered piece does
      not fit. */
  predicate Lands(st: GameState, fall: bool)
    requires IsGrid(st.grid)
  {
    fall && !Fits(Dropped(st.shape), st.grid)
  }

  /** Gravity: when it fires the piece moves down a row, or, when the lowered
      piece does not fit, the piece is locked into the field with its colour
      and the piece of shape nextColor - 1 takes its place. */
  function Gravity(st: GameState, fall: bool, nextColor: int): (st': GameState)
    requires IsGrid(st.grid) && 1 <= nextColor <= MaxColor
    ensures IsGrid(st'.grid) && st'.score == st.score
  {
    if !fall then st
    else if Fits(Dropped(st.shape), st.grid) then st.(shape := Dropped(st.shape))
    else GameState(Painted(st.grid, st.shape, st.color), Spawn(nextColor - 1), nextColor, st.score)
  }

  /** The line-clearing pass and its score, 100 for each full row. */
  function ClearPass(st: GameState): GameState
    requires IsGrid(st.grid)
  {
    st.(grid := ClearedGrid(st.grid), score := st.score + 100 * FullCount(st.grid, 1))
  }

  /** One frame: steer, let gravity act, clear lines. */
  function Step(st: GameState, dx: int, rotate: bool, fall: bool, nextColor: int): GameState
    requires IsGrid(st.grid) && |st.shape| == 4 && 1 <= nextColor <= MaxColor
  {
    ClearPass(Gravity(st.(shape := Steered(st, dx, rotate)), fall, nextColor))
  }

  // ---------------------------------------------------------------------
  // Properties of a frame
  // ---------------------------------------------------------------------

  /** Steering keeps a piece on the field and keeps a fitting piece fitting. */
  lemma SteeredKeepsFit(st: GameState, dx: int, rotate: bool)
    requires IsGrid(st.grid) && |st.shape| == 4
    ensures InBounds(st.shape) ==> InBounds(Steered(st, dx, rotate))
    ensures Fits(st.shape, st.grid) ==> Fits(Steered(st, dx, rotate), st.grid)
  {
    var s1 := Attempt(st.shape, Shifted(st.shape, dx), st.grid);
    AttemptKeepsFit(st.shape, Shifted(st.shape, dx), st.grid);
    AttemptKeepsFit(s1, Rotated(s1), st.grid);
  }

  /** A frame keeps the game's invariant. */
  lemma StepWellFormed(st: GameState, dx: int, rotate: bool, fall: bool, nextColor: int)
    requires WellFormed(st) && 1 <= nextColor <= MaxColor
    ensures WellFormed(Step(st, dx, rotate, fall, nextColor))
  {
    var s := Steered(st, dx, rotate);
    SteeredKeepsFit(st, dx, rotate);
    var st1 := st.(shape := s);
    if Lands(st1, fall) {
      PaintedInRange(st.grid, s, st.color);
    } else if fall {
      FitsInBounds(Dropped(s), st.grid);
    }
    ClearedWellFormed(Gravity(st1, fall, nextColor).grid);
  }

  /** The score never falls, and grows by 100 for each full row among rows
      1..M-1 of the field as it stands after gravity. */
  lemma StepScore(st: GameState, dx: int, rotate: bool, fall: bool, nextColor: int)
    requires IsGrid(st.grid) && |st.shape| == 4 && 1 <= nextColor <= MaxColor
    ensures var g := Gravity(st.(shape := Steered(st, dx, rotate)), fall, nextColor).grid;
      var st' := Step(st, dx, rotate, fall, nextColor);
      st'.score >= st.score &&
      st'.score - st.score == 100 * FullCount(g, 1) &&
      st'.score - st.score <= 100 * (M - 1)
  {
    var g := Gravity(st.(shape := Steered(st, dx, rotate)), fall, nextColor).grid;
    KeptPlusFull(g, 1);
  }

  /** The field only takes the piece's cells when gravity fires and the
      lowered piece does not fit; otherwise the colour stays and only the
      line-clearing pass touches the field. */
  lemma LockOnlyOnLanding(st: GameState, dx: int, rotate: bool, fall: bool, nextColor: int)
    requires IsGrid(st.grid) && |st.shape| == 4 && 1 <= nextColor <= MaxColor
    requires !Lands(st.(shape := Steered(st, dx, rotate)), fall)
    ensures Step(st, dx, rotate, fall, nextColor).grid == ClearedGrid(st.grid)
    ensures Step(st, dx, rotate, fall, nextColor).color == st.color
    ensures Step(st, dx, rotate, fall, nextColor).shape ==
      if fall then Dropped(Steered(st, dx, rotate)) else Steered(st, dx, rotate)
  {
  }

  /** On landing the piece's cells carry its colour, and the next piece is a
      fresh spawn of shape nextColor - 1 with colour nextColor. */
  lemma LandingLocksAndRespawns(st: GameState, fall: bool, nextColor: int)
    requires WellFormed(st) && 1 <= nextColor <= MaxColor
    requires Lands(st, fall)
    ensures forall i :: 0 <= i < 4 ==>
      Gravity(st, fall, nextColor).grid[st.shape[i].y][st.shape[i].x] == st.color
    ensures forall r, c :: 0 <= r < M && 0 <= c < N && Point(c, r) !in st.shape ==>
      Gravity(st, fall, nextColor).grid[r][c] == st.grid[r][c]
    ensures Gravity(st, fall, nextColor).shape == Spawn(nextColor - 1)
    ensures Gravity(st, fall, nextColor).color == nextColor
  {
    PaintedCells(st.grid, st.shape, st.color);
  }

  /** A frame with no input, no gravity and no full row changes nothing. */
  lemma QuietFrame(st: GameState, nextColor: int)
    requires WellFormed(st) && 1 <= nextColor <= MaxColor
    requires FullCount(st.grid, 1) == 0
    ensures Step(st, 0, false, false, nextColor) == st
  {
    ShiftZero(st.shape);
    NoFullRowUnchanged(st.grid);
  }

  // ---------------------------------------------------------------------
  // The game object
  // ---------------------------------------------------------------------

  class Game {
    /** The settled cells, row-major, row 0 at the top. */
    const field: array2<int>
    /** The active piece. */
    var piece: Tetromino
    /** The colour the active piece will be locked with. */
    var colorNum: int
    var scoreValue: int

    ghost function State(): GameState
      reads this, field, piece.shape
    {
      GameState(Snapshot(field), piece.shape[..], colorNum, scoreValue)
    }

    ghost predicate Valid()
      reads this, field, piece.shape
    {
      IsBoard(field) && piece.Valid() && WellFormed(State())
    }

    /** An empty field, colour 1, the first piece of shape colorNum - 1 = 0,
        score 0. */
    constructor ()
      ensures Valid() && fresh(field) && fresh(piece.shape)
      ensures State() == Initial()
    {
      field := new int[M, N]((r, c) => Empty);
      colorNum := 1;
      piece := new Tetromino(0);
      scoreValue := 0;
      new;
      GridExt(Snapshot(field), EmptyGrid());
    }

    /** The line-clearing pass: rows M-1 down to 1 are copied down onto a
        write cursor k, which moves up past every row that is not full; a
        full row is overwritten by the next copy and scores 100. */
    method ClearLines()
      requires IsBoard(field)
      modifies field, this`scoreValue
      ensures Snapshot(field) == ClearedGrid(old(Snapshot(field)))
      ensures scoreValue == old(scoreValue) + 100 * FullCount(old(Snapshot(field)), 1)
    {
      ghost var g := Snapshot(field);
      ProgressEnds(g);
      var k := M - 1;
      var i := M - 1;
      while i > 0
        invariant 0 <= i <= k <= M - 1
        invariant k == M - 1 - |Kept(g, i + 1)|
        invariant scoreValue == old(scoreValue) + 100 * FullCount(g, i + 1)
        invariant Snapshot(field) == Progress(g, i)
      {
        ProgressStep(g, i);
        var count := CopyRow(i, k);
        CountFull(g[i]);
        if count < N {
          k := k - 1;
        } else {
          scoreValue := scoreValue + 100;
        }
        i := i - 1;
      }
    }

    /** The inner loop of the pass: counts the occupied cells of row i while
        copying row i onto row k, cell by cell from the left. */
    method CopyRow(i: int, k: int) returns (count: nat)
      requires IsBoard(field) && 0 <= i <= k < M
      modifies field
      ensures count == Count(old(Snapshot(field))[i])
      ensures forall c :: 0 <= c < N ==> field[k, c] == old(field[i, c])
      ensures forall r, c :: 0 <= r < M && 0 <= c < N && r != k ==> field[r, c] == old(field[r, c])
      ensures Snapshot(field) == old(Snapshot(field))[k := old(Snapshot(field))[i]]
    {
      ghost var row := old(Snapshot(field))[i];
      count := 0;
      for j := 0 to N
        invariant count == Count(row[..j])
        invariant forall c :: 0 <= c < j ==> field[k, c] == row[c]
        invariant forall r, c :: 0 <= r < M && 0 <= c < N && !(r == k && c < j) ==>
          field[r, c] == old(field[r, c])
      {
        assert row[..j + 1][..j] == row[..j];
        if field[i, j] > 0 {
          count := count + 1;
        }
        field[k, j] := field[i, j];
      }
      assert row[..N] == row;
      GridExt(Snapshot(field), old(Snapshot(field))[k := row]);
    }

    /** The player's sideways move, then the rotation if requested. */
    method Steer(dx: int, rotate: bool)
      requires Valid()
      modifies piece.shape
      ensures piece.shape[..] == Steered(old(State()), dx, rotate)
    {
      piece.MoveAlongX(dx, field);
      if rotate {
        piece.Rotate(field);
      }
    }

    /** The gravity tick: move down, or lock, draw the next colour and spawn. */
    method ApplyGravity(fall: bool, nextColor: int)
      requires IsBoard(field) && piece.Valid() && InBounds(piece.shape[..])
      requires 1 <= nextColor <= MaxColor
      modifies this, field, piece.shape
      ensures IsBoard(field) && piece.Valid()
      ensures State() == Gravity(old(State()), fall, nextColor)
      ensures piece == old(piece) || fresh(piece.shape)
    {
      if fall {
        var moved := piece.MoveDown(field);
        if !moved {
          piece.PrintToField(colorNum, field);
          colorNum := nextColor;
          piece := new Tetromino(colorNum - 1);
        }
      }
    }

    /** One frame with the player's input (dx, rotate), the gravity tick
        (fall) and the colour drawn for the next piece. */
    method Frame(dx: int, rotate: bool, fall: bool, nextColor: int)
      requires Valid() && 1 <= nextColor <= MaxColor
      modifies this, field, piece.shape
      ensures Valid()
      ensures State() == Step(old(State()), dx, rotate, fall, nextColor)
      ensures piece == old(piece) || fresh(piece.shape)
    {
      ghost var st := State();
      Steer(dx, rotate);
      SteeredKeepsFit(st, dx, rotate);
      ghost var steered := State();
      assert steered == st.(shape := Steered(st, dx, rotate));
      ApplyGravity(fall, nextColor);
      ghost var dropped := State();
      ClearLines();
      assert State() == ClearPass(dropped);
      StepWellFormed(st, dx, rotate, fall, nextColor);
    }
  }
}
