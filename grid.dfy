/** Board geometry: row-major tile addressing, the four-neighbour wiring that
    `GameBoard.Initialize` lays out, and the mapping of a hit point on the
    ground plane to a tile (`GameBoard.GetTile`). */
module Grid {

  /** The neighbour links of one tile, as tile indices; -1 stands for a
      missing neighbour (`null` at the border of the board). */
  datatype Links = Links(north: int, south: int, east: int, west: int)

  /** The links of a freshly instantiated tile: no neighbours yet. */
  const NoLinks: Links := Links(-1, -1, -1, -1)

  /** Index of the tile in column `x` and row `y` of a board `width` tiles wide. */
  function Index(width: int, x: int, y: int): int
  {
    x + y * width
  }

  lemma MulAtLeast(a: int, b: int)
    requires 1 <= a && 0 < b
    ensures b <= a * b
  {
    assert 0 <= (a - 1) * b;
  }

  /** Row-major addressing is a bijection between the cells of the board and
      the indices `0 .. width * height - 1`: the index of (x, y) lies on the
      board, and its column and row can be read back with `%` and `/`. */
  lemma Coordinates(width: int, height: int, x: int, y: int)
    requires 0 <= x < width && 0 <= y < height
    ensures 0 <= Index(width, x, y) < width * height
    ensures Index(width, x, y) % width == x && Index(width, x, y) / width == y
  {
    var i := Index(width, x, y);
    MulAtLeast(height - y, width);
    assert (height - y) * width == height * width - y * width;
    var q, r := i / width, i % width;
    if q > y {
      MulAtLeast(q - y, width);
      assert false;
    } else if q < y {
      MulAtLeast(y - q, width);
      assert false;
    }
  }

  /** The index of a cell is on the board, and at least one row in for a
      cell above the first row. */
  lemma IndexOnBoard(width: int, height: int, x: int, y: int)
    requires 0 <= x < width && 0 <= y < height
    ensures 0 <= Index(width, x, y) < width * height
    ensures 0 < y ==> width <= Index(width, x, y)
  {
    Coordinates(width, height, x, y);
    if 0 < y {
      MulAtLeast(y, width);
    }
  }

  /** The converse: every index on the board is the index of the column and
      row that `%` and `/` read off it. */
  lemma Decompose(width: int, height: int, i: int)
    requires 0 < width && 0 <= i < width * height
    ensures 0 <= i % width < width && 0 <= i / width < height
    ensures i == Index(width, i % width, i / width)
  {
    if height <= i / width {
      MulAtLeast(i / width - height + 1, width);
      assert false;
    }
  }

  /** The links `Initialize` gives the tile at (x, y): each tile is joined to
      the tile one row up (north), one row down (south), one column right
      (east) and one column left (west) when that tile is on the board;
      nothing wraps around. */
  function GridLinks(width: int, height: int, x: int, y: int): Links
  {
    Links(north := if y + 1 < height then Index(width, x, y + 1) else -1,
          south := if 0 < y then Index(width, x, y - 1) else -1,
          east := if x + 1 < width then Index(width, x + 1, y) else -1,
          west := if 0 < x then Index(width, x - 1, y) else -1)
  }

  /** The same wiring, read on indices: tile i is joined to i - 1 and i + 1
      only inside one row, and to i - width and i + width only when those
      indices are on the board. */
  lemma GridLinksByIndex(width: int, height: int, i: int)
    requires 0 < width && 0 < height && 0 <= i < width * height
    ensures var l := GridLinks(width, height, i % width, i / width);
      && l.north == (if i + width < width * height then i + width else -1)
      && l.south == (if width <= i then i - width else -1)
      && l.east == (if i % width < width - 1 then i + 1 else -1)
      && l.west == (if 0 < i % width then i - 1 else -1)
  {
    var x, y := i % width, i / width;
    Decompose(width, height, i);
    RowStarts(width, height, y);
  }

  /** Linear facts about where row `y` starts, for a row on the board. */
  lemma RowStarts(width: int, height: int, y: int)
    requires 0 < width && 0 <= y < height
    ensures (y + 1) * width == y * width + width
    ensures y + 1 < height ==> y * width + width + width <= width * height
    ensures y + 1 == height ==> y * width + width == width * height
    ensures 0 < y ==> width <= y * width
    ensures y == 0 ==> y * width == 0
  {
    if y + 1 < height {
      MulAtLeast(height - (y + 1), width);
      assert (height - (y + 1)) * width == height * width - y * width - width;
    }
    if 0 < y {
      MulAtLeast(y, width);
    }
  }

  /** `GetTile` after the hit point has been turned into a column and a row:
      the index of the tile there, or -1 (`null`) off the board. */
  function GetTile(width: int, height: int, x: int, y: int): (r: int)
    ensures r == -1 <==> !(0 <= x < width && 0 <= y < height)
    ensures r != -1 ==> 0 <= r < width * height && r % width == x && r / width == y
  {
    if 0 <= x < width && 0 <= y < height then
      Coordinates(width, height, x, y);
      Index(width, x, y)
    else
      -1
  }

  /** C#'s `(int)` conversion of a floating-point value: it drops the
      fraction, rounding toward zero. */
  function TruncateTowardZero(v: real): (r: int)
    ensures 0.0 <= v ==> r as real <= v < r as real + 1.0
    ensures v < 0.0 ==> r as real - 1.0 < v <= r as real
  {
    if 0.0 <= v then v.Floor else -((-v).Floor)
  }

  /** A truncated coordinate is a column of a board `size` wide exactly when
      the shifted hit coordinate lies strictly between -1 and `size`: the
      band just below zero also lands on column 0. */
  lemma TruncatedOnBoard(v: real, size: int)
    requires 0 < size
    ensures 0 <= TruncateTowardZero(v) < size <==> -1.0 < v < size as real
  {
    var t := TruncateTowardZero(v);
    if v <= -1.0 {
      assert t as real - 1.0 < v;
      assert t < 0;
    }
  }

  /** `GetTile` as written: the hit point (px, pz) on the ground plane, whose
      centre is the board's centre, is shifted by half the board size and
      truncated. On the board it selects the tile whose cell holds the
      point; it also answers a tile of the first column (row) for points up
      to one unit beyond the west (south) edge of the board. */
  function GetTileAtPoint(width: int, height: int, px: real, pz: real): (r: int)
    requires 0 < width && 0 < height
    ensures r != -1 <==>
      (-(width as real) * 0.5 - 1.0 < px < width as real * 0.5 &&
       -(height as real) * 0.5 - 1.0 < pz < height as real * 0.5)
    ensures r != -1 ==> 0 <= r < width * height
    ensures (-(width as real) * 0.5 <= px < width as real * 0.5 &&
             -(height as real) * 0.5 <= pz < height as real * 0.5) ==>
      r == GetTileAtPointFloored(width, height, px, pz)
    ensures r != -1 && px < -(width as real) * 0.5 ==> r % width == 0
    ensures r != -1 && pz < -(height as real) * 0.5 ==> r / width == 0
  {
    var x := TruncateTowardZero(px + width as real * 0.5);
    var y := TruncateTowardZero(pz + height as real * 0.5);
    TruncatedOnBoard(px + width as real * 0.5, width);
    TruncatedOnBoard(pz + height as real * 0.5, height);
    GetTile(width, height, x, y)
  }

  /** A hit half a unit west of the board's west edge selects the tile in
      the south-west corner. */
  lemma HitWestOfBoardSelectsCorner(width: int, height: int)
    requires 0 < width && 0 < height
    ensures var px := -(width as real) * 0.5 - 0.5;
      && px < -(width as real) * 0.5
      && GetTileAtPoint(width, height, px, -(height as real) * 0.5 + 0.5) == 0
  {
    var px := -(width as real) * 0.5 - 0.5;
    var pz := -(height as real) * 0.5 + 0.5;
    assert TruncateTowardZero(px + width as real * 0.5) == 0;
    assert TruncateTowardZero(pz + height as real * 0.5) == 0;
    assert GetTile(width, height, 0, 0) == Index(width, 0, 0);
  }

  /** `GetTile` with the shifted coordinates floored: a tile is selected
      exactly when the hit point lies on the board, and the point lies inside
      the cell of the tile selected. */
  function GetTileAtPointFloored(width: int, height: int, px: real, pz: real): (r: int)
    requires 0 < width && 0 < height
    ensures r != -1 <==>
      (-(width as real) * 0.5 <= px < width as real * 0.5 &&
       -(height as real) * 0.5 <= pz < height as real * 0.5)
    ensures r != -1 ==>
      && 0 <= r < width * height
      && (r % width) as real - width as real * 0.5 <= px < (r % width + 1) as real - width as real * 0.5
      && (r / width) as real - height as real * 0.5 <= pz < (r / width + 1) as real - height as real * 0.5
  {
    GetTile(width, height, (px + width as real * 0.5).Floor, (pz + height as real * 0.5).Floor)
  }
}
