/** The playing field: a fixed M x N matrix of cells (row 0 at the top), the
    coordinates used on it, and the reference definition of what one
    line-clearing pass over it produces. */
module Board {

  /** Number of rows and of columns of the field. */
  const M: int := 20
  const N: int := 10

  /** A board coordinate: column x, row y. */
  datatype Point = Point(x: int, y: int)

  /** A value copy of the field, row by row. */
  type Grid = seq<seq<int>>

  /** The 0 cell is empty, 1..7 is the colour of a settled block. */
  const Empty: int := 0
  const MaxColor: int := 7

  predicate IsGrid(g: Grid) {
    |g| == M && forall r :: 0 <= r < |g| ==> |g[r]| == N
  }

  predicate IsBoard(f: array2<int>) {
    f.Length0 == M && f.Length1 == N
  }

  /** Every cell is empty or holds a colour. */
  predicate CellsInRange(g: Grid) {
    forall r, c :: 0 <= r < |g| && 0 <= c < |g[r]| ==> Empty <= g[r][c] <= MaxColor
  }

  function EmptyGrid(): (g: Grid)
    ensures IsGrid(g) && CellsInRange(g)
    ensures forall r, c :: 0 <= r < M && 0 <= c < N ==> g[r][c] == Empty
  {
    seq(M, r => seq(N, c => Empty))
  }

  /** The contents of the field array as a value. */
  ghost function Snapshot(f: array2<int>): (g: Grid)
    reads f
    ensures |g| == f.Length0
    ensures forall r :: 0 <= r < f.Length0 ==> |g[r]| == f.Length1
    ensures forall r, c :: 0 <= r < f.Length0 && 0 <= c < f.Length1 ==> g[r][c] == f[r, c]
  {
    seq(f.Length0, r requires 0 <= r < f.Length0 reads f =>
      seq(f.Length1, c requires 0 <= c < f.Length1 reads f => f[r, c]))
  }

  /** Two grids of the same shape that agree cell by cell are equal. */
  lemma GridExt(a: Grid, b: Grid)
    requires |a| == |b|
    requires forall r :: 0 <= r < |a| ==> |a[r]| == |b[r]|
    requires forall r, c :: 0 <= r < |a| && 0 <= c < |a[r]| ==> a[r][c] == b[r][c]
    ensures a == b
  {
    forall r | 0 <= r < |a|
      ensures a[r] == b[r]
    {
      assert forall c :: 0 <= c < |a[r]| ==> a[r][c] == b[r][c];
    }
  }

  // ---------------------------------------------------------------------
  // Line clearing (the bottom-up compaction run once per frame)
  // ---------------------------------------------------------------------

  /** Number of occupied (positive) cells in a row, counted left to right. */
  function Count(row: seq<int>): (n: nat)
    ensures n <= |row|
  {
    if row == [] then 0
    else Count(row[..|row| - 1]) + (if row[|row| - 1] > 0 then 1 else 0)
  }

  /** A row is full when every one of its cells is occupied. */
  predicate Full(row: seq<int>) {
    forall c :: 0 <= c < |row| ==> row[c] > 0
  }

  /** The pass's test "count < N" says exactly that the row is not full. */
  lemma {:induction false} CountFull(row: seq<int>)
    ensures Count(row) == |row| <==> Full(row)
  {
    if row != [] {
      var init := row[..|row| - 1];
      CountFull(init);
      assert forall c :: 0 <= c < |init| ==> init[c] == row[c];
    }
  }

  /** The rows among g[lo..] that are not full, bottom row first: the rows
      the pass keeps, in the order it writes them. */
  function Kept(g: Grid, lo: nat): (rs: seq<seq<int>>)
    ensures lo <= |g| ==> |rs| <= |g| - lo
    ensures forall row :: row in rs ==> row in g
    ensures IsGrid(g) ==> forall t :: 0 <= t < |rs| ==> |rs[t]| == N
    decreases |g| - lo
  {
    if lo >= |g| then []
    else Kept(g, lo + 1) + (if Full(g[lo]) then [] else [g[lo]])
  }

  /** No row the pass keeps is full. */
  lemma {:induction false} KeptNotFull(g: Grid, lo: nat)
    ensures forall t :: 0 <= t < |Kept(g, lo)| ==> !Full(Kept(g, lo)[t])
    decreases |g| - lo
  {
    if lo < |g| {
      KeptNotFull(g, lo + 1);
    }
  }

  /** Number of full rows among g[lo..]. */
  function FullCount(g: Grid, lo: nat): nat
    decreases |g| - lo
  {
    if lo >= |g| then 0
    else FullCount(g, lo + 1) + (if Full(g[lo]) then 1 else 0)
  }

  /** Every row among g[lo..] is either kept or counted as full. */
  lemma {:induction false} KeptPlusFull(g: Grid, lo: nat)
    requires lo <= |g|
    ensures |Kept(g, lo)| + FullCount(g, lo) == |g| - lo
    decreases |g| - lo
  {
    if lo < |g| {
      KeptPlusFull(g, lo + 1);
    }
  }

  /** Where the write cursor stops: one row above the last kept row. */
  function Cursor(g: Grid): int
    requires IsGrid(g)
  {
    M - 1 - |Kept(g, 1)|
  }

  /** The final cursor equals the number of full rows among rows 1..M-1, so
      it lies in 0..M-1. */
  lemma CursorIsFullCount(g: Grid)
    requires IsGrid(g)
    ensures Cursor(g) == FullCount(g, 1)
    ensures 0 <= Cursor(g) <= M - 1
  {
    KeptPlusFull(g, 1);
  }

  /** Row r after the pass. Below the cursor: the kept rows, bottom-up in
      their original order. At the cursor: the last row written there, which
      is row 1 when row 1 was full (it was copied onto the cursor row and then
      dropped), else the old contents. Above the cursor: untouched, the
      pass never clears them. */
  function ClearedRow(g: Grid, r: int): (row: seq<int>)
    requires IsGrid(g) && 0 <= r < M
    ensures row in g
  {
    var K := Kept(g, 1);
    var k := M - 1 - |K|;
    if r > k then K[M - 1 - r]
    else if r == k && Full(g[1]) then g[1]
    else g[r]
  }

  /** The whole field after one line-clearing pass, as the pass is written. */
  function ClearedGrid(g: Grid): Grid
    requires IsGrid(g)
  {
    seq(M, r requires 0 <= r < M => ClearedRow(g, r))
  }

  /** Row r part-way through the pass, once rows M-1 down to i+1 have been
      copied: the same three zones as in ClearedRow, around the cursor the
      pass has reached. ClearedRow is the case i = 0. */
  function ProgressRow(g: Grid, i: int, r: int): (row: seq<int>)
    requires IsGrid(g) && 0 <= i < M && 0 <= r < M
    ensures |row| == N
  {
    var K := Kept(g, i + 1);
    var k := M - 1 - |K|;
    if r > k then K[M - 1 - r]
    else if r == k && i + 1 < M && Full(g[i + 1]) then g[i + 1]
    else g[r]
  }

  /** The whole field part-way through the pass. */
  function Progress(g: Grid, i: int): (h: Grid)
    requires IsGrid(g) && 0 <= i < M
    ensures IsGrid(h)
  {
    seq(M, r requires 0 <= r < M => ProgressRow(g, i, r))
  }

  /** Before the pass reads any row the field is untouched; once it has read
      row 1 the field is the pass's result. */
  lemma ProgressEnds(g: Grid)
    requires IsGrid(g)
    ensures Progress(g, M - 1) == g
    ensures Progress(g, 0) == ClearedGrid(g)
  {
    assert forall r :: 0 <= r < M ==> Progress(g, M - 1)[r] == g[r];
    assert forall r :: 0 <= r < M ==> Progress(g, 0)[r] == ClearedGrid(g)[r];
  }

  /** One step of the pass, on rows M-1..i+1 done, reading row i with the
      cursor at k: the cursor is never above row i, row i is still intact,
      the step writes row i onto row k and nothing else, and the cursor moves
      up exactly when row i is not full. */
  lemma ProgressStep(g: Grid, i: int)
    requires IsGrid(g) && 1 <= i < M
    ensures var k := M - 1 - |Kept(g, i + 1)|;
      i <= k &&
      Progress(g, i)[i] == g[i] &&
      Progress(g, i - 1) == Progress(g, i)[k := g[i]] &&
      M - 1 - |Kept(g, i)| == (if Full(g[i]) then k else k - 1) &&
      FullCount(g, i) == FullCount(g, i + 1) + (if Full(g[i]) then 1 else 0)
  {
    KeptPlusFull(g, i + 1);
    var K := Kept(g, i + 1);
    var k := M - 1 - |K|;
    if !Full(g[i]) {
      assert Kept(g, i) == K + [g[i]];
    }
    assert Progress(g, i)[i] == ProgressRow(g, i, i);
    var before := Progress(g, i);
    var after := Progress(g, i - 1);
    forall r | 0 <= r < M ensures after[r] == before[k := g[i]][r] {
      assert after[r] == ProgressRow(g, i - 1, r);
      assert before[r] == ProgressRow(g, i, r);
    }
  }

  /** A pass keeps the field's shape and its cells' range: every row of the
      result is a row of the input. */
  lemma ClearedWellFormed(g: Grid)
    requires IsGrid(g)
    ensures IsGrid(ClearedGrid(g))
    ensures CellsInRange(g) ==> CellsInRange(ClearedGrid(g))
    ensures forall r :: 0 <= r < M ==> ClearedGrid(g)[r] in g
  {
    var h := ClearedGrid(g);
    forall r | 0 <= r < M ensures h[r] in g && |h[r]| == N {
      assert h[r] == ClearedRow(g, r);
    }
  }

  /** With no full row among 1..M-1 nothing is kept out, so the pass changes
      nothing. */
  lemma {:induction false} KeptAllRows(g: Grid, lo: nat)
    requires 1 <= lo <= |g| && FullCount(g, lo) == 0
    ensures |Kept(g, lo)| == |g| - lo
    ensures forall t :: 0 <= t < |g| - lo ==> Kept(g, lo)[t] == g[|g| - 1 - t]
    decreases |g| - lo
  {
    if lo < |g| {
      KeptAllRows(g, lo + 1);
    }
  }

  lemma NoFullRowUnchanged(g: Grid)
    requires IsGrid(g) && FullCount(g, 1) == 0
    ensures ClearedGrid(g) == g
  {
    KeptAllRows(g, 1);
    var h := ClearedGrid(g);
    forall r | 0 <= r < M ensures h[r] == g[r] {
      assert h[r] == ClearedRow(g, r);
      if r > 0 {
        assert Kept(g, 1)[M - 1 - r] == g[r];
      }
    }
  }

  /** A full row at index r >= lo is counted. */
  lemma {:induction false} FullCountAtLeastOne(g: Grid, lo: nat, r: int)
    requires lo <= r < |g| && Full(g[r])
    ensures FullCount(g, lo) >= 1
    decreases |g| - lo
  {
    if lo < r {
      FullCountAtLeastOne(g, lo + 1, r);
    }
  }

  /** Row 1 is the last row the pass reads. When it is full it is copied onto
      the cursor row before being dropped, and rows above the cursor are
      kept, so row 1 is still full afterwards and the next pass scores it
      again. */
  lemma FullRowOneSurvives(g: Grid)
    requires IsGrid(g) && Full(g[1])
    ensures Full(ClearedGrid(g)[1])
    ensures FullCount(ClearedGrid(g), 1) >= 1
  {
    CursorIsFullCount(g);
    FullCountAtLeastOne(g, 1, 1);
    ClearedWellFormed(g);
    var h := ClearedGrid(g);
    assert h[1] == ClearedRow(g, 1);
    assert h[1] == g[1];
    FullCountAtLeastOne(h, 1, 1);
  }

  /** When row 1 is not full but some row below it is, the pass leaves two
      copies of row 1: the moved one at row k+1, where k is the number of
      cleared rows, and the stale original still at row 1. The cursor row k
      and every row above it keep their old contents. */
  lemma StaleRowAtCursor(g: Grid)
    requires IsGrid(g) && !Full(g[1]) && FullCount(g, 1) >= 1
    ensures var k := FullCount(g, 1);
      k + 1 < M &&
      ClearedGrid(g)[k + 1] == g[1] &&
      ClearedGrid(g)[1] == g[1] &&
      ClearedGrid(g)[k] == g[k] &&
      forall r :: 0 <= r < k ==> ClearedGrid(g)[r] == g[r]
  {
    CursorIsFullCount(g);
    var k := FullCount(g, 1);
    var K := Kept(g, 1);
    assert K == Kept(g, 2) + [g[1]];
    assert k + 1 <= M - 1;
    assert ClearedGrid(g)[k + 1] == ClearedRow(g, k + 1) == K[|K| - 1];
    assert ClearedGrid(g)[k] == ClearedRow(g, k);
  }

  /** Rows lo..hi-1, none of them full, are appended to what the rows below
      them keep, in bottom-up order, and add nothing to the full count. */
  lemma {:induction false} KeptNonFull(g: Grid, lo: nat, hi: nat)
    requires lo <= hi <= |g|
    requires forall r :: lo <= r < hi ==> !Full(g[r])
    ensures |Kept(g, lo)| == |Kept(g, hi)| + (hi - lo)
    ensures Kept(g, lo)[..|Kept(g, hi)|] == Kept(g, hi)
    ensures forall u :: |Kept(g, hi)| <= u < |Kept(g, lo)| ==>
      Kept(g, lo)[u] == g[hi - 1 - (u - |Kept(g, hi)|)]
    ensures FullCount(g, lo) == FullCount(g, hi)
    decreases hi - lo
  {
    if lo < hi {
      KeptNonFull(g, lo + 1, hi);
      var K := Kept(g, lo + 1);
      assert Kept(g, lo) == K + [g[lo]];
      assert (K + [g[lo]])[..|Kept(g, hi)|] == K[..|Kept(g, hi)|];
    }
  }

  /** Rows lo..hi-1, all of them full, keep nothing and are all counted. */
  lemma {:induction false} KeptFull(g: Grid, lo: nat, hi: nat)
    requires lo <= hi <= |g|
    requires forall r :: lo <= r < hi ==> Full(g[r])
    ensures Kept(g, lo) == Kept(g, hi)
    ensures FullCount(g, lo) == FullCount(g, hi) + (hi - lo)
    decreases hi - lo
  {
    if lo < hi {
      KeptFull(g, lo + 1, hi);
    }
  }

  /** What the pass keeps and counts when rows a..a+n-1 are the only full
      rows among 1..M-1. */
  lemma BlockKept(g: Grid, a: int, n: int)
    requires IsGrid(g) && 1 <= a && 1 <= n && a + n <= M
    requires forall r :: a <= r < a + n ==> Full(g[r])
    requires forall r :: 1 <= r < M && !(a <= r < a + n) ==> !Full(g[r])
    ensures FullCount(g, 1) == n
    ensures |Kept(g, 1)| == M - 1 - n
    ensures forall u :: 0 <= u < M - a - n ==> Kept(g, 1)[u] == g[M - 1 - u]
    ensures forall u :: M - a - n <= u < M - 1 - n ==> Kept(g, 1)[u] == g[M - 1 - n - u]
  {
    KeptNonFull(g, a + n, M);
    KeptFull(g, a, a + n);
    KeptNonFull(g, 1, a);
    var K := Kept(g, 1);
    var Ka := Kept(g, a);
    assert |Kept(g, M)| == 0;
    assert |Ka| == M - a - n;
    forall u | 0 <= u < M - a - n ensures K[u] == g[M - 1 - u] {
      assert K[u] == K[..|Ka|][u] == Ka[u];
    }
  }

  /** A block of n adjacent full rows a..a+n-1 (the only full rows among
      1..M-1) scores n rows; the rows below the block stay, the rows 1..a-1
      above it move down by exactly n, and rows 0..n keep their old contents,
      except that row n receives row 1 when the block starts at row 1. */
  lemma ClearBlock(g: Grid, a: int, n: int)
    requires IsGrid(g) && 1 <= a && 1 <= n && a + n <= M
    requires forall r :: a <= r < a + n ==> Full(g[r])
    requires forall r :: 1 <= r < M && !(a <= r < a + n) ==> !Full(g[r])
    ensures FullCount(g, 1) == n
    ensures forall r :: a + n <= r < M ==> ClearedGrid(g)[r] == g[r]
    ensures forall r :: n < r < a + n ==> ClearedGrid(g)[r] == g[r - n]
    ensures ClearedGrid(g)[n] == (if a == 1 then g[1] else g[n])
    ensures forall r :: 0 <= r < n ==> ClearedGrid(g)[r] == g[r]
  {
    BlockKept(g, a, n);
    var h := ClearedGrid(g);
    forall r | 0 <= r < M ensures h[r] == ClearedRow(g, r) {
    }
  }

  /** One full row at the bottom of an otherwise empty field: the pass
      scores it once and leaves the whole field empty. */
  lemma ClearBottomRow(g: Grid)
    requires IsGrid(g) && Full(g[M - 1])
    requires forall r, c :: 0 <= r < M - 1 && 0 <= c < N ==> g[r][c] == Empty
    ensures FullCount(g, 1) == 1
    ensures ClearedGrid(g) == EmptyGrid()
  {
    var e := EmptyGrid();
    forall r | 0 <= r < M - 1 ensures g[r] == e[r] && !Full(g[r]) {
      assert forall c :: 0 <= c < N ==> g[r][c] == e[r][c];
      assert g[r][0] == Empty;
    }
    ClearBlock(g, M - 1, 1);
    var h := ClearedGrid(g);
    forall r | 0 <= r < M ensures h[r] == e[r] {
      if r > 1 {
        assert h[r] == g[r - 1] == e[r - 1];
      } else {
        assert h[r] == g[r];
      }
    }
  }
}
