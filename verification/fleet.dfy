/** The arithmetic of fleet construction: how many aliens fit across and down
    the screen and where the alien of each grid cell is placed. Python's `//`
    floors; every divisor here is positive, where flooring and Dafny's `/`
    agree. */
module Fleet {
  import opened Config
  import opened Geometry
  import opened Aliens

  function Max0(n: int): nat { if n < 0 then 0 else n }

  /** Aliens per row: the screen less one alien width of margin on each side,
      with each alien taking its own width plus one width of spacing. */
  function Columns(screenWidth: int, w: Positive): int {
    (screenWidth - 2 * w) / (2 * w)
  }

  /** Rows of aliens: the screen less eight alien heights and the ship's
      height, each row taking two alien heights. */
  function Rows(screenHeight: int, h: Positive, shipHeight: int): int {
    (screenHeight - 8 * h - shipHeight) / (2 * h)
  }

  /** The rectangle of the alien in column `n` of row `r`. */
  function Cell(w: Positive, h: Positive, n: int, r: int): Rect {
    Rect(w + 2 * w * n, h * 2 + 2 * h * r, w, h)
  }

  /** The first `n` cells of row `r`, left to right: what one pass of the
      inner loop of `_create_fleet` places. */
  function Row(w: Positive, h: Positive, r: int, n: int): (row: seq<Rect>)
    ensures |row| == Max0(n)
    ensures forall c :: 0 <= c < |row| ==> row[c] == Cell(w, h, c, r)
  {
    if n <= 0 then [] else Row(w, h, r, n - 1) + [Cell(w, h, n - 1, r)]
  }

  /** The first `rows` rows of `cols` cells each, row by row. */
  function Grid(w: Positive, h: Positive, cols: int, rows: int): (g: seq<Rect>)
    ensures |g| == Max0(rows) * Max0(cols)
  {
    if rows <= 0 then []
    else
      assert Max0(rows) * Max0(cols) == Max0(rows - 1) * Max0(cols) + Max0(cols);
      Grid(w, h, cols, rows - 1) + Row(w, h, rows - 1, cols)
  }

  /** The rectangles of the whole fleet in the order the aliens are created:
      row by row, and left to right within a row. A count that is zero or
      negative leaves the fleet empty, as `range` of it does. */
  function Layout(s: Settings, shipHeight: int): (fleet: seq<Rect>)
    ensures |fleet| == Max0(Columns(s.screenWidth, s.alienWidth)) * Max0(Rows(s.screenHeight, s.alienHeight, shipHeight))
  {
    Grid(s.alienWidth, s.alienHeight, Columns(s.screenWidth, s.alienWidth), Rows(s.screenHeight, s.alienHeight, shipHeight))
  }

  /** Position `r * c + n` of a row-major grid is column `n` of row `r`. */
  lemma CellIndex(r: nat, n: nat, c: nat)
    requires n < c
    ensures (r * c + n) / c == r && (r * c + n) % c == n
  {
    var q, m := (r * c + n) / c, (r * c + n) % c;
    assert r * c + n == q * c + m;
    if q < r {
      assert (r - q) * c == m - n;
      assert (r - q) * c >= c by { MulAtLeast(r - q, c); }
    } else if q > r {
      assert (q - r) * c == n - m;
      assert (q - r) * c >= c by { MulAtLeast(q - r, c); }
    }
  }

  lemma MulAtLeast(a: int, c: nat)
    requires a >= 1
    ensures a * c >= c
  {
    assert a * c == (a - 1) * c + c;
  }

  lemma MulMono(a: int, b: int, c: nat)
    requires a <= b
    ensures c * a <= c * b
  {
    assert c * b - c * a == c * (b - a);
  }

  /** Position `k` of the grid is column `k % cols` of row `k / cols`. */
  lemma {:induction false} GridAt(w: Positive, h: Positive, cols: int, rows: int, k: nat)
    requires k < |Grid(w, h, cols, rows)|
    ensures cols > 0 && 0 <= k / cols < rows
    ensures Grid(w, h, cols, rows)[k] == Cell(w, h, k % cols, k / cols)
  {
    assert rows > 0 && cols > 0;
    var front := Grid(w, h, cols, rows - 1);
    if k < |front| {
      GridAt(w, h, cols, rows - 1, k);
    } else {
      var c := k - |front|;
      assert |front| == (rows - 1) * cols;
      assert 0 <= c < cols;
      CellIndex(rows - 1, c, cols);
    }
  }

  /** Every cell of the grid lies at least one alien width from the left
      edge, at least two alien widths from the right edge, and its bottom
      stays seven alien heights plus the ship's height above the bottom. */
  lemma CellBounds(s: Settings, shipHeight: int, n: nat, r: nat)
    requires n < Columns(s.screenWidth, s.alienWidth)
    requires r < Rows(s.screenHeight, s.alienHeight, shipHeight)
    ensures var c := Cell(s.alienWidth, s.alienHeight, n, r);
      c.Left() >= s.alienWidth &&
      c.Right() <= s.screenWidth - 2 * s.alienWidth &&
      c.Top() >= 2 * s.alienHeight &&
      c.Bottom() <= s.screenHeight - shipHeight - 7 * s.alienHeight
  {
    var w, h := s.alienWidth, s.alienHeight;
    var cols := Columns(s.screenWidth, w);
    var rows := Rows(s.screenHeight, h, shipHeight);
    // the grid fills no more than the space it was computed from
    assert (2 * w) * cols <= s.screenWidth - 2 * w;
    assert (2 * h) * rows <= s.screenHeight - 8 * h - shipHeight;
    MulMono(n + 1, cols, 2 * w);
    MulMono(r + 1, rows, 2 * h);
    assert 2 * w * n >= 0 && 2 * h * r >= 0;
  }

  /** Aliens in different cells do not collide: columns are two widths
      apart and rows two heights apart, leaving a full alien of gap. */
  lemma CellsDisjoint(w: Positive, h: Positive, n1: int, r1: int, n2: int, r2: int)
    requires n1 != n2 || r1 != r2
    ensures !CollideRect(Cell(w, h, n1, r1), Cell(w, h, n2, r2))
  {
    if n1 < n2 {
      MulMono(n1 + 1, n2, 2 * w);
    } else if n2 < n1 {
      MulMono(n2 + 1, n1, 2 * w);
    } else if r1 < r2 {
      MulMono(r1 + 1, r2, 2 * h);
    } else {
      MulMono(r2 + 1, r1, 2 * h);
    }
  }

  /** Every cell of the fleet is a grid cell within range. */
  lemma LayoutCell(s: Settings, shipHeight: int, k: nat)
    requires k < |Layout(s, shipHeight)|
    ensures var cols := Columns(s.screenWidth, s.alienWidth);
      cols > 0 && 0 <= k % cols < cols &&
      0 <= k / cols < Rows(s.screenHeight, s.alienHeight, shipHeight) &&
      Layout(s, shipHeight)[k] == Cell(s.alienWidth, s.alienHeight, k % cols, k / cols)
  {
    GridAt(s.alienWidth, s.alienHeight, Columns(s.screenWidth, s.alienWidth),
      Rows(s.screenHeight, s.alienHeight, shipHeight), k);
  }

  /** The whole fleet stays inside the screen, clear of both side edges
      (so `check_edges` is false for every new alien), and above the band
      of the screen the ship occupies. */
  lemma FleetInsideScreen(s: Settings, shipHeight: int, k: nat)
    requires k < |Layout(s, shipHeight)|
    ensures var c := Layout(s, shipHeight)[k];
      c.Left() >= s.alienWidth &&
      c.Right() <= s.screenWidth - 2 * s.alienWidth &&
      c.Bottom() <= s.screenHeight - shipHeight - 7 * s.alienHeight &&
      !AtEdge(c, s.screenWidth)
  {
    var cols := Columns(s.screenWidth, s.alienWidth);
    LayoutCell(s, shipHeight, k);
    CellBounds(s, shipHeight, k % cols, k / cols);
  }

  /** Distinct grid positions lie in distinct cells. */
  lemma CellOfIndex(i: nat, j: nat, cols: int)
    requires i != j && cols > 0
    ensures i % cols != j % cols || i / cols != j / cols
  {
    assert i == cols * (i / cols) + i % cols;
    assert j == cols * (j / cols) + j % cols;
  }

  /** No two aliens of a new fleet collide. */
  lemma FleetDisjoint(s: Settings, shipHeight: int, i: nat, j: nat)
    requires i < j < |Layout(s, shipHeight)|
    ensures !CollideRect(Layout(s, shipHeight)[i], Layout(s, shipHeight)[j])
  {
    var cols := Columns(s.screenWidth, s.alienWidth);
    LayoutCell(s, shipHeight, i);
    LayoutCell(s, shipHeight, j);
    CellOfIndex(i, j, cols);
    CellsDisjoint(s.alienWidth, s.alienHeight, i % cols, i / cols, j % cols, j / cols);
  }

  /** The whole layout at once: no two of its cells collide. */
  lemma FleetApart(s: Settings, shipHeight: int)
    ensures var fleet := Layout(s, shipHeight);
      forall i, j :: 0 <= i < |fleet| && 0 <= j < |fleet| && i != j ==> !CollideRect(fleet[i], fleet[j])
  {
    var fleet := Layout(s, shipHeight);
    forall i, j | 0 <= i < |fleet| && 0 <= j < |fleet| && i != j
      ensures !CollideRect(fleet[i], fleet[j])
    {
      if i < j {
        FleetDisjoint(s, shipHeight, i, j);
      } else {
        FleetDisjoint(s, shipHeight, j, i);
      }
    }
  }

  /** The whole layout at once: no cell is at a side edge. */
  lemma FleetClear(s: Settings, shipHeight: int)
    ensures var fleet := Layout(s, shipHeight);
      forall k :: 0 <= k < |fleet| ==> !AtEdge(fleet[k], s.screenWidth)
  {
    var fleet := Layout(s, shipHeight);
    forall k | 0 <= k < |fleet|
      ensures !AtEdge(fleet[k], s.screenWidth)
    {
      FleetInsideScreen(s, shipHeight, k);
    }
  }

  /** On a 1200 x 800 screen, 64-pixel aliens give eight columns. */
  lemma ColumnsExample()
    ensures Columns(1200, 64) == 8
  {
  }
}
