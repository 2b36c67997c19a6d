/** The binary save layout of a grid: width and height as 32-bit integers,
    then one boolean byte per cell, row by row (y outer, x inner). The
    integer and boolean encodings are those of .NET's BinaryWriter and
    BinaryReader: four bytes little-endian two's complement, and one byte
    that is 1 or 0 when written and reads as true when nonzero. */
module Persistence {
  import opened LifeRules

  newtype byte = x: int | 0 <= x < 256

  const MinInt32: int := -0x8000_0000
  const MaxInt32: int := 0x7FFF_FFFF

  predicate IsInt32(n: int) {
    MinInt32 <= n <= MaxInt32
  }

  /** How BinaryWriter.Write(int) lays out n. */
  function Int32Bytes(n: int): (r: seq<byte>)
    requires IsInt32(n)
    ensures |r| == 4
  {
    var u := if n < 0 then n + 0x1_0000_0000 else n;
    [(u % 256) as byte, (u / 256 % 256) as byte, (u / 256 / 256 % 256) as byte, (u / 256 / 256 / 256) as byte]
  }

  /** How BinaryReader.ReadInt32 reads the first four bytes of bs. */
  function ReadInt32(bs: seq<byte>): (n: int)
    requires |bs| >= 4
    ensures IsInt32(n)
  {
    var u := bs[0] as int + 256 * (bs[1] as int + 256 * (bs[2] as int + 256 * bs[3] as int));
    if u > MaxInt32 then u - 0x1_0000_0000 else u
  }

  lemma Base256(lo: int, k: int)
    requires 0 <= lo < 256
    ensures (lo + 256 * k) % 256 == lo && (lo + 256 * k) / 256 == k
  {
  }

  /** Reading back a written integer gives the integer. */
  lemma ReadWrittenInt32(n: int)
    requires IsInt32(n)
    ensures ReadInt32(Int32Bytes(n)) == n
  {
    var u := if n < 0 then n + 0x1_0000_0000 else n;
    var q1 := u / 256;
    var q2 := q1 / 256;
    var q3 := q2 / 256;
    assert u == u % 256 + 256 * q1;
    assert q1 == q1 % 256 + 256 * q2;
    assert q2 == q2 % 256 + 256 * q3;
    assert 0 <= q3 < 256;
  }

  /** Every four bytes are the writing of the integer they read as. */
  lemma WriteReadInt32(bs: seq<byte>)
    requires |bs| == 4
    ensures Int32Bytes(ReadInt32(bs)) == bs
  {
    var c := bs[2] as int + 256 * bs[3] as int;
    var k := bs[1] as int + 256 * c;
    var u := bs[0] as int + 256 * k;
    Base256(bs[0] as int, k);
    Base256(bs[1] as int, c);
    Base256(bs[2] as int, bs[3] as int);
    var r := Int32Bytes(ReadInt32(bs));
    assert r[0] == bs[0] && r[1] == bs[1] && r[2] == bs[2] && r[3] == bs[3];
  }

  function BoolByte(v: bool): byte {
    if v then 1 else 0
  }

  function ReadBool(b: byte): bool {
    b != 0
  }

  function RowBytes(row: seq<bool>): (r: seq<byte>)
    ensures |r| == |row| && forall x | 0 <= x < |row| :: r[x] == BoolByte(row[x])
  {
    seq(|row|, x requires 0 <= x < |row| => BoolByte(row[x]))
  }

  /** The cell bytes of b, its rows one after the other. */
  function CellBytes(b: Board): seq<byte> {
    if |b| == 0 then [] else CellBytes(b[..|b| - 1]) + RowBytes(b[|b| - 1])
  }

  lemma {:induction false} CellBytesLength(b: Board, h: nat, w: nat)
    requires IsGrid(b, h, w)
    ensures |CellBytes(b)| == h * w
  {
    if h > 0 {
      CellBytesLength(b[..h - 1], h - 1, w);
      assert (h - 1) * w + w == h * w;
    }
  }

  /** The cell of row y, column x is written at offset y * w + x of the cell bytes. */
  lemma {:induction false} CellBytesAt(b: Board, h: nat, w: nat, y: int, x: int)
    requires IsGrid(b, h, w) && InBounds(y, x, h, w)
    ensures CellOffset(h, w, y, x) < |CellBytes(b)|
    ensures CellBytes(b)[CellOffset(h, w, y, x)] == BoolByte(b[y][x])
  {
    var front := b[..h - 1];
    CellBytesLength(front, h - 1, w);
    CellBytesLength(b, h, w);
    var m := (h - 1) * w;
    assert CellBytes(b) == CellBytes(front) + RowBytes(b[h - 1]);
    if y < h - 1 {
      CellBytesAt(front, h - 1, w, y, x);
      assert front[y] == b[y];
    } else {
      assert y * w + x == m + x;
    }
  }

  /** The cell bytes of an h-by-w board: h * w of them, cell (y, x) at offset y * w + x. */
  lemma CellBytesLayout(b: Board, h: nat, w: nat)
    requires IsGrid(b, h, w)
    ensures |CellBytes(b)| == h * w
    ensures forall y, x | InBounds(y, x, h, w) :: CellBytes(b)[CellOffset(h, w, y, x)] == BoolByte(b[y][x])
  {
    CellBytesLength(b, h, w);
    forall y, x | InBounds(y, x, h, w) ensures CellBytes(b)[CellOffset(h, w, y, x)] == BoolByte(b[y][x]) {
      CellBytesAt(b, h, w, y, x);
    }
  }

  /** Row-major offsets of the rows before row n all lie below n * w. */
  lemma RowMajorBefore(w: nat, y: int, x: int, n: int)
    requires 0 <= y < n && 0 <= x < w
    ensures 0 <= y * w + x < n * w
  {
    assert y * w <= (n - 1) * w by {
      MulMonotone(y, n - 1, w);
    }
  }

  lemma MulMonotone(a: int, b: int, w: nat)
    requires a <= b
    ensures a * w <= b * w
  {
    assert b * w - a * w == (b - a) * w;
  }

  /** The row-major offset of cell (y, x) of an h-by-w board. */
  function CellOffset(h: nat, w: nat, y: int, x: int): (i: nat)
    requires InBounds(y, x, h, w)
    ensures i < h * w && i == y * w + x
  {
    RowMajorBefore(w, y, x, h);
    y * w + x
  }

  /** What Save writes for an h-by-w grid holding b. */
  function Encode(w: int, h: int, b: Board): (r: seq<byte>)
    requires IsInt32(w) && IsInt32(h) && IsGrid(b, h, w)
  {
    Int32Bytes(w) + Int32Bytes(h) + CellBytes(b)
  }

  /** The save layout: width, height, then cell (y, x) at byte 8 + y * w + x. */
  lemma EncodeLayout(w: nat, h: nat, b: Board)
    requires IsInt32(w) && IsInt32(h) && IsGrid(b, h, w)
    ensures |Encode(w, h, b)| == 8 + h * w
    ensures Encode(w, h, b)[..4] == Int32Bytes(w) && Encode(w, h, b)[4..8] == Int32Bytes(h)
    ensures forall y, x | InBounds(y, x, h, w) :: Encode(w, h, b)[8 + CellOffset(h, w, y, x)] == BoolByte(b[y][x])
  {
    CellBytesLength(b, h, w);
    var header := Int32Bytes(w) + Int32Bytes(h);
    var cells := CellBytes(b);
    var e := Encode(w, h, b);
    assert e == header + cells;
    assert e[..4] == Int32Bytes(w);
    assert e[4..8] == Int32Bytes(h);
    forall y, x | InBounds(y, x, h, w)
      ensures e[8 + CellOffset(h, w, y, x)] == BoolByte(b[y][x])
    {
      CellBytesAt(b, h, w, y, x);
      var i := y * w + x;
      assert 0 <= i < |cells|;
      assert e[8 + i] == cells[i];
    }
  }

  /** How Load ends on data for a grid of width w and height h. */
  datatype LoadOutcome =
    | Loaded        // every cell read
    | SizeMismatch  // the header names other dimensions; thrown before any cell is read
    | EndOfStream   // the data ran out before the header or a cell was read

  predicate HeaderMatches(data: seq<byte>, w: int, h: int)
    requires |data| >= 8
  {
    ReadInt32(data[..4]) == w && ReadInt32(data[4..8]) == h
  }

  function LoadResult(data: seq<byte>, w: nat, h: nat): LoadOutcome {
    if |data| < 8 then EndOfStream
    else if !HeaderMatches(data, w, h) then SizeMismatch
    else if |data| < 8 + h * w then EndOfStream
    else Loaded
  }

  /** The board Load leaves behind when the grid held cur: cells whose byte is
      present are read, in row-major order; when the header is missing or
      names other dimensions, nothing is read. */
  function LoadedBoard(data: seq<byte>, w: nat, h: nat, cur: Board): (r: Board)
    requires IsGrid(cur, h, w)
    ensures IsGrid(r, h, w)
  {
    if |data| < 8 || !HeaderMatches(data, w, h) then cur
    else
      seq(h, y requires 0 <= y < h =>
        seq(w, x requires 0 <= x < w =>
          if 8 + CellOffset(h, w, y, x) < |data| then ReadBool(data[8 + CellOffset(h, w, y, x)]) else cur[y][x]))
  }

  /** Row-major order on the cells of a width-w board is lexicographic order on (row, column). */
  lemma RowMajorOrder(w: nat, yy: int, xx: int, y: int, x: int)
    requires 0 <= xx < w && 0 <= x < w
    ensures yy * w + xx < y * w + x <==> yy < y || (yy == y && xx < x)
  {
    if yy < y {
      MulMonotone(yy + 1, y, w);
    } else if yy > y {
      MulMonotone(y + 1, yy, w);
    }
  }

  /** When the data ends just before cell (y, x), a board whose cells before
      (y, x) in row-major order hold what was read, and whose other cells hold
      what cur held, is what a load leaves behind, and the load ran out of data. */
  lemma LoadStopped(data: seq<byte>, w: nat, h: nat, cur: Board, b: Board, y: int, x: int)
    requires IsGrid(cur, h, w) && IsGrid(b, h, w) && InBounds(y, x, h, w)
    requires |data| >= 8 && HeaderMatches(data, w, h) && |data| == 8 + y * w + x
    requires forall yy, xx | InBounds(yy, xx, h, w) ::
               b[yy][xx] == if yy < y || (yy == y && xx < x) then LoadedBoard(data, w, h, cur)[yy][xx] else cur[yy][xx]
    ensures LoadResult(data, w, h) == EndOfStream
    ensures b == LoadedBoard(data, w, h, cur)
  {
    RowMajorBefore(w, y, x, h);
    var r := LoadedBoard(data, w, h, cur);
    forall yy, xx | InBounds(yy, xx, h, w) ensures b[yy][xx] == r[yy][xx] {
      RowMajorOrder(w, yy, xx, y, x);
    }
    SameBoard(b, r, h, w);
  }

  /** A load that reads every cell leaves the same board whatever the grid held before. */
  lemma CompleteLoadOverwrites(data: seq<byte>, w: nat, h: nat, cur: Board, other: Board)
    requires IsGrid(cur, h, w) && IsGrid(other, h, w)
    requires LoadResult(data, w, h) == Loaded
    ensures LoadedBoard(data, w, h, cur) == LoadedBoard(data, w, h, other)
  {
    var r, q := LoadedBoard(data, w, h, cur), LoadedBoard(data, w, h, other);
    forall y, x | InBounds(y, x, h, w) ensures r[y][x] == q[y][x] {
      assert 8 + CellOffset(h, w, y, x) < |data|;
    }
    SameBoard(r, q, h, w);
  }

  /** Loading what Save wrote, into a grid of the same size, succeeds and
      restores every cell, the border ring included, whatever the grid held. */
  lemma SaveLoadRoundTrip(w: nat, h: nat, b: Board, cur: Board)
    requires IsInt32(w) && IsInt32(h) && IsGrid(b, h, w) && IsGrid(cur, h, w)
    ensures LoadResult(Encode(w, h, b), w, h) == Loaded
    ensures LoadedBoard(Encode(w, h, b), w, h, cur) == b
  {
    var e := Encode(w, h, b);
    EncodeLayout(w, h, b);
    ReadWrittenInt32(w);
    ReadWrittenInt32(h);
    var r := LoadedBoard(e, w, h, cur);
    forall y, x | InBounds(y, x, h, w) ensures r[y][x] == b[y][x] {
    }
    SameBoard(r, b, h, w);
  }

  /** A file whose header names other dimensions is refused and leaves every
      cell as it was; one that is cut short in the header changes nothing either. */
  lemma MismatchChangesNothing(data: seq<byte>, w: nat, h: nat, cur: Board)
    requires IsGrid(cur, h, w)
    requires |data| >= 8 ==> !HeaderMatches(data, w, h)
    ensures LoadResult(data, w, h) != Loaded
    ensures LoadedBoard(data, w, h, cur) == cur
  {
  }

  /** A save of other dimensions is always refused: loading into a w-by-h grid
      what an ow-by-oh grid wrote reports the mismatch and changes nothing. */
  lemma OtherSizeRefused(w: nat, h: nat, ow: nat, oh: nat, b: Board, cur: Board)
    requires IsInt32(ow) && IsInt32(oh) && IsGrid(b, oh, ow) && IsGrid(cur, h, w)
    requires ow != w || oh != h
    ensures LoadResult(Encode(ow, oh, b), w, h) == SizeMismatch
    ensures LoadedBoard(Encode(ow, oh, b), w, h, cur) == cur
  {
    var e := Encode(ow, oh, b);
    EncodeLayout(ow, oh, b);
    ReadWrittenInt32(ow);
    ReadWrittenInt32(oh);
  }
}
