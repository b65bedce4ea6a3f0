/** Rectangles of equally sized cells laid out row by row in byte memory, and the
    row-major scan that the image and text loops share. */
module Raster {
  import opened Bytes

  /** `rows` lines of `cols` cells; a cell is `unit` bytes; the first cell is at `base`. */
  datatype Grid = Grid(base: int, unit: int, cols: int, rows: int) {

    predicate Valid() {
      0 <= base && 0 < unit && 0 <= cols && 0 <= rows
    }

    /** Address of the first byte of cell (row, col). */
    function At(row: int, col: int): int {
      base + (row * cols + col) * unit
    }

    predicate Contains(k: int)
    {
      base <= k && 0 < unit && 0 < cols && 0 <= (k - base) / unit / cols < rows
    }

    function Row(k: int): int
      requires Contains(k)
    {
      (k - base) / unit / cols
    }

    function Col(k: int): int
      requires Contains(k)
    {
      (k - base) / unit % cols
    }

    function Sub(k: int): int
      requires Contains(k)
    {
      (k - base) % unit
    }
  }

  lemma Scaled(a: int, b: int, d: int)
    requires a <= b && 0 <= d
    ensures a * d <= b * d
  {
    assert 0 <= (b - a) * d;
  }

  lemma QuotientUnique(q: int, r: int, q': int, r': int, d: int)
    requires 0 <= r < d && 0 <= r' < d
    requires q * d + r == q' * d + r'
    ensures q == q' && r == r'
  {
    if q < q' {
      Scaled(q + 1, q', d);
    } else if q' < q {
      Scaled(q' + 1, q, d);
    }
  }

  lemma DivMod(q: int, d: int, r: int)
    requires 0 <= r < d
    ensures (q * d + r) / d == q && (q * d + r) % d == r
  {
    var n := q * d + r;
    QuotientUnique(q, r, n / d, n % d, d);
  }

  /** Every byte of a cell decodes to that cell. */
  lemma Decode(g: Grid, row: int, col: int, sub: int)
    requires g.Valid() && 0 <= row < g.rows && 0 <= col < g.cols && 0 <= sub < g.unit
    ensures var k := g.At(row, col) + sub;
            g.Contains(k) && g.Row(k) == row && g.Col(k) == col && g.Sub(k) == sub
  {
    var i := row * g.cols + col;
    assert 0 <= row * g.cols;
    assert 0 <= i * g.unit;
    DivMod(i, g.unit, sub);
    DivMod(row, g.cols, col);
  }

  /** Every byte of the grid belongs to exactly the cell it decodes to. */
  lemma Encode(g: Grid, k: int)
    requires g.Valid() && g.Contains(k)
    ensures 0 <= g.Row(k) < g.rows && 0 <= g.Col(k) < g.cols && 0 <= g.Sub(k) < g.unit
    ensures g.At(g.Row(k), g.Col(k)) + g.Sub(k) == k
  {
    var i := (k - g.base) / g.unit;
    assert k - g.base == i * g.unit + g.Sub(k);
    assert i == g.Row(k) * g.cols + g.Col(k);
  }

  /** Cells further on in row-major order lie further on in memory. */
  lemma Ordered(g: Grid, row: int, col: int, row': int, col': int)
    requires g.Valid() && 0 <= row <= row' && 0 <= col && 0 <= col'
    requires row == row' ==> col <= col'
    requires row < row' ==> col <= g.cols
    ensures g.base <= g.At(row, col) <= g.At(row', col')
  {
    var i, i' := row * g.cols + col, row' * g.cols + col';
    assert 0 <= row * g.cols;
    assert i <= i' by {
      if row < row' {
        assert (row + 1) * g.cols <= row' * g.cols;
        assert (row + 1) * g.cols == row * g.cols + g.cols;
      }
    }
    assert 0 <= i * g.unit <= i' * g.unit;
  }

  /** How the line and cell pointers of the loops advance. */
  lemma Advance(g: Grid, row: int, col: int)
    ensures g.At(0, 0) == g.base
    ensures g.At(row, col + 1) == g.At(row, col) + g.unit
    ensures g.At(row + 1, 0) == g.At(row, 0) + g.cols * g.unit
  {
    assert (row * g.cols + col + 1) * g.unit == (row * g.cols + col) * g.unit + g.unit;
    assert (row + 1) * g.cols == row * g.cols + g.cols;
    assert (row * g.cols + g.cols) * g.unit == row * g.cols * g.unit + g.cols * g.unit;
  }

  /** Where a grid ends. */
  lemma GridEnd(g: Grid)
    ensures g.At(g.rows - 1, g.cols) == g.base + g.rows * g.cols * g.unit
  {
    assert (g.rows - 1) * g.cols + g.cols == g.rows * g.cols;
  }

  /** A cell before (lastRow, lastCol) lies in memory that reaches up to (lastRow, lastCol). */
  lemma CellInBounds(g: Grid, row: int, col: int, lastRow: int, lastCol: int)
    requires g.Valid() && 0 <= row <= lastRow && 0 <= col < lastCol <= g.cols
    ensures g.base <= g.At(row, col) && g.At(row, col) + g.unit <= g.At(lastRow, lastCol)
  {
    Advance(g, row, col);
    Ordered(g, row, col, row, col);
    Ordered(g, row, col + 1, lastRow, lastCol);
  }

  /** A window of w x h cells whose top left cell is (y, x), of which a row-major scan
      has passed `r` whole rows and `c` cells of the next. */
  datatype Scan = Scan(x: int, y: int, w: int, h: int, r: int, c: int) {

    predicate Within(g: Grid) {
      0 <= x && 0 <= w && x + w <= g.cols && 0 <= y && 0 <= h && y + h <= g.rows
    }

    predicate InWindow(row: int, col: int) {
      y <= row < y + h && x <= col < x + w
    }

    predicate Passed(row: int, col: int) {
      InWindow(row, col) && (row < y + r || (row == y + r && col < x + c))
    }

    /** The scan that has passed the whole window. */
    function Whole(): Scan {
      this.(r := h, c := 0)
    }
  }

  /** What the bytes of a cell become: row, column and byte within the cell. */
  type Shade = (int, int, int) -> byte

  ghost function PaintedByte(mem: seq<byte>, g: Grid, s: Scan, shade: Shade, k: int): byte
    requires 0 <= k < |mem|
  {
    if g.Contains(k) && s.Passed(g.Row(k), g.Col(k)) then shade(g.Row(k), g.Col(k), g.Sub(k)) else mem[k]
  }

  ghost function PaintedBytes(mem: seq<byte>, g: Grid, s: Scan, shade: Shade): int -> byte {
    k => if 0 <= k < |mem| then PaintedByte(mem, g, s, shade, k) else 0
  }

  /** `mem` with the cells the scan has passed shaded, and nothing else changed. */
  ghost function Painted(mem: seq<byte>, g: Grid, s: Scan, shade: Shade): seq<byte> {
    Tabulate(|mem|, PaintedBytes(mem, g, s, shade))
  }

  /** Painting byte by byte: the shade inside the passed cells, the old byte everywhere else. */
  lemma PaintedPointwise(mem: seq<byte>, g: Grid, s: Scan, shade: Shade)
    ensures |Painted(mem, g, s, shade)| == |mem|
    ensures forall k :: 0 <= k < |mem| ==> Painted(mem, g, s, shade)[k] == PaintedByte(mem, g, s, shade, k)
  {
    TabulatePointwise(|mem|, PaintedBytes(mem, g, s, shade));
  }

  lemma PaintedNone(mem: seq<byte>, g: Grid, s: Scan, shade: Shade)
    requires s.r == 0 && s.c == 0
    ensures Painted(mem, g, s, shade) == mem
  {
    PaintedPointwise(mem, g, s, shade);
  }

  lemma PaintedRow(mem: seq<byte>, g: Grid, s: Scan, shade: Shade)
    requires s.c == s.w
    ensures Painted(mem, g, s, shade) == Painted(mem, g, s.(r := s.r + 1, c := 0), shade)
  {
    PaintedPointwise(mem, g, s, shade);
    PaintedPointwise(mem, g, s.(r := s.r + 1, c := 0), shade);
  }

  /** `next` is `cur` with one cell shaded. */
  ghost predicate CellStored(cur: seq<byte>, next: seq<byte>, at: int, row: int, col: int, unit: int, shade: Shade) {
    && |next| == |cur|
    && (forall k :: 0 <= k < |cur| ==> next[k] == if at <= k < at + unit then shade(row, col, k - at) else cur[k])
  }

  /** One step of the scan: storing the shade of the next cell. */
  lemma PaintedCell(mem: seq<byte>, g: Grid, s: Scan, shade: Shade, cur: seq<byte>, next: seq<byte>)
    requires g.Valid() && s.Within(g) && 0 <= s.r < s.h && 0 <= s.c < s.w
    requires cur == Painted(mem, g, s, shade)
    requires CellStored(cur, next, g.At(s.y + s.r, s.x + s.c), s.y + s.r, s.x + s.c, g.unit, shade)
    ensures next == Painted(mem, g, s.(c := s.c + 1), shade)
  {
    var row, col := s.y + s.r, s.x + s.c;
    var at := g.At(row, col);
    var target := Painted(mem, g, s.(c := s.c + 1), shade);
    PaintedPointwise(mem, g, s, shade);
    PaintedPointwise(mem, g, s.(c := s.c + 1), shade);
    forall k | 0 <= k < |mem|
      ensures next[k] == target[k]
    {
      if at <= k < at + g.unit {
        Decode(g, row, col, k - at);
      } else if g.Contains(k) {
        Elsewhere(g, row, col, k);
      }
    }
  }

  lemma Elsewhere(g: Grid, row: int, col: int, k: int)
    requires g.Valid() && g.Contains(k)
    requires !(g.At(row, col) <= k < g.At(row, col) + g.unit)
    ensures g.Row(k) != row || g.Col(k) != col
  {
    Encode(g, k);
  }

  /** The bytes a shade gives one cell. */
  ghost function ShadeBytes(shade: Shade, row: int, col: int, unit: nat): (p: seq<byte>)
    ensures |p| == unit
  {
    seq(unit, b => shade(row, col, b))
  }

  /** A cell of painted memory: shaded if the scan has passed it, as before if not. */
  lemma CellBytes(mem: seq<byte>, g: Grid, s: Scan, shade: Shade, row: int, col: int)
    requires g.Valid() && 0 <= row < g.rows && 0 <= col < g.cols
    requires 0 <= g.At(row, col) && g.At(row, col) + g.unit <= |mem|
    ensures |Painted(mem, g, s, shade)| == |mem|
    ensures var at := g.At(row, col);
            Painted(mem, g, s, shade)[at..at + g.unit]
            == if s.Passed(row, col) then ShadeBytes(shade, row, col, g.unit) else mem[at..at + g.unit]
  {
    var out, at := Painted(mem, g, s, shade), g.At(row, col);
    PaintedPointwise(mem, g, s, shade);
    forall k | at <= k < at + g.unit
      ensures out[k] == if s.Passed(row, col) then shade(row, col, k - at) else mem[k]
    {
      Decode(g, row, col, k - at);
    }
  }

  /** One step of the scan, the cell's bytes stored as a block. */
  lemma PaintedBlock(mem: seq<byte>, g: Grid, s: Scan, shade: Shade, at: int, p: seq<byte>)
    requires g.Valid() && s.Within(g) && 0 <= s.r < s.h && 0 <= s.c < s.w
    requires at == g.At(s.y + s.r, s.x + s.c) && 0 <= at && at + g.unit <= |mem|
    requires p == ShadeBytes(shade, s.y + s.r, s.x + s.c, g.unit)
    ensures |Painted(mem, g, s, shade)| == |mem|
    ensures Splice(Painted(mem, g, s, shade), at, p) == Painted(mem, g, s.(c := s.c + 1), shade)
  {
    PaintedPointwise(mem, g, s, shade);
    var cur := Painted(mem, g, s, shade);
    SpliceStored(cur, at, p);
    PaintedCell(mem, g, s, shade, cur, Splice(cur, at, p));
  }
}
