/** The text form of the board: each 2-column x 4-row block of cells becomes one
    character of the Unicode Braille Patterns block (U+2800 to U+28FF), where bit k
    of the offset from U+2800 raises braille dot k+1. */
module Encoder {
  import opened Grid

  const BrailleBase := 0x2800
  const BlockCount := GridWidth / 2

  /** Braille dot numbering: dots 1-3 run down the left column, dots 4-6 down the
      right column, and dots 7 and 8 are the bottom row, left then right. */
  function DotColumn(k: int): int
    requires 0 <= k < 8
  {
    if 3 <= k <= 5 || k == 7 then 1 else 0
  }

  function DotRow(k: int): int
    requires 0 <= k < 8
  {
    if k < 6 then k % 3 else 3
  }

  /** The flat grid index shown by dot k+1 of block i. */
  function DotIndex(i: int, k: int): (j: int)
    requires 0 <= i < BlockCount && 0 <= k < 8
    ensures 0 <= j < GridSize
  {
    2 * i + DotColumn(k) + GridWidth * DotRow(k)
  }

  /** Both snake and food cells are truthy in snake.js, so both raise a dot. */
  predicate Occupied(c: Cell) {
    c != Empty
  }

  /** `bitAt`'s value as a byte: 1 for an occupied cell, 0 for an empty one. */
  function Bit(b: bool): bv8 {
    if b then 1 else 0
  }

  /** Eight dots, dot k+1 first at index k, packed into one byte. */
  function Pack(b: seq<bool>): (n: bv8)
    requires |b| == 8
    ensures Dot(n, 0) == b[0] && Dot(n, 1) == b[1] && Dot(n, 2) == b[2] && Dot(n, 3) == b[3]
    ensures Dot(n, 4) == b[4] && Dot(n, 5) == b[5] && Dot(n, 6) == b[6] && Dot(n, 7) == b[7]
  {
    Bit(b[0]) | (Bit(b[1]) << 1) | (Bit(b[2]) << 2) | (Bit(b[3]) << 3)
      | (Bit(b[4]) << 4) | (Bit(b[5]) << 5) | (Bit(b[6]) << 6) | (Bit(b[7]) << 7)
  }

  /** Whether byte n raises dot k+1. */
  predicate Dot(n: bv8, k: int)
    requires 0 <= k < 8
  {
    (n >> k) & 1 == 1
  }

  /** The eight dots that byte n raises. */
  function Unpack(n: bv8): (b: seq<bool>)
    ensures |b| == 8
  {
    seq(8, k requires 0 <= k < 8 => Dot(n, k))
  }

  /** The braille character for byte n; it stands for n. */
  function Glyph(n: bv8): (c: char)
    ensures IsBraille(c) && Code(c) == n
  {
    (BrailleBase + n as int) as char
  }

  predicate IsBraille(c: char) {
    BrailleBase <= c as int < BrailleBase + 256
  }

  /** The byte a braille character stands for. */
  function Code(c: char): bv8
    requires IsBraille(c)
  {
    (c as int - BrailleBase) as bv8
  }

  /** Whether `bitAt` is 1 for the cell that dot k+1 of block i shows. */
  predicate DotCellSet(g: seq<Cell>, i: int, k: int)
    requires |g| == GridSize && 0 <= i < BlockCount && 0 <= k < 8
  {
    BitAt(g, 2 * i + DotColumn(k), DotRow(k)) == 1
  }

  /** The dots of block i, in braille order: dot k+1 is raised exactly when `bitAt` is 1
      for the cell it shows. */
  function BlockBits(g: seq<Cell>, i: int): (b: seq<bool>)
    requires |g| == GridSize && 0 <= i < BlockCount
    ensures |b| == 8
    ensures forall k {:trigger DotCellSet(g, i, k)} :: 0 <= k < 8 ==> (b[k] <==> DotCellSet(g, i, k))
  {
    seq(8, k requires 0 <= k < 8 => Occupied(g[DotIndex(i, k)]))
  }

  function BlockGlyph(g: seq<Cell>, i: int): char
    requires |g| == GridSize && 0 <= i < BlockCount
  {
    Glyph(Pack(BlockBits(g, i)))
  }

  /** The string `gridString` builds: one braille character per block, left to right. */
  function Encode(g: seq<Cell>): (s: string)
    requires |g| == GridSize
    ensures |s| == BlockCount
    ensures forall j :: 0 <= j < |s| ==> IsBraille(s[j])
  {
    seq(BlockCount, i requires 0 <= i < BlockCount => BlockGlyph(g, i))
  }

  /** Which cells are occupied, in flat index order. */
  function Occupancy(g: seq<Cell>): (o: seq<bool>)
    requires |g| == GridSize
    ensures |o| == GridSize
  {
    seq(GridSize, j requires 0 <= j < GridSize => Occupied(g[j]))
  }

  /** The block that shows flat index j, and the dot (0-based) within it. */
  function BlockOfIndex(j: int): int {
    (j % GridWidth) / 2
  }

  function DotOfIndex(j: int): int {
    var col := j % 2;
    var row := j / GridWidth;
    if row == 3 then 6 + col else 3 * col + row
  }

  /** Reads the occupancy of all 160 cells back from a board string. */
  function Decode(s: string): (o: seq<bool>)
    requires |s| == BlockCount && forall j :: 0 <= j < |s| ==> IsBraille(s[j])
    ensures |o| == GridSize
  {
    seq(GridSize, j requires 0 <= j < GridSize => DotIndexInverse(j); Unpack(Code(s[BlockOfIndex(j)]))[DotOfIndex(j)])
  }

  /** Every cell is shown by exactly one dot of one block. */
  lemma DotIndexInverse(j: int)
    requires 0 <= j < GridSize
    ensures 0 <= BlockOfIndex(j) < BlockCount && 0 <= DotOfIndex(j) < 8
    ensures DotIndex(BlockOfIndex(j), DotOfIndex(j)) == j
  {
  }

  /** Packing then unpacking gives back the same eight dots. */
  lemma UnpackPack(b: seq<bool>)
    requires |b| == 8
    ensures Unpack(Pack(b)) == b
  {
    var n := Pack(b);
    forall k | 0 <= k < 8
      ensures Unpack(n)[k] == b[k]
    {
      assert Unpack(n)[k] == Dot(n, k);
    }
  }

  /** Unpacking then packing gives back the same byte, for all 256 patterns. */
  lemma PackUnpack(n: bv8)
    ensures Pack(Unpack(n)) == n
  {
    var b := Unpack(n);
    assert b[0] == (n & 1 == 1) && b[1] == ((n >> 1) & 1 == 1) && b[2] == ((n >> 2) & 1 == 1);
    assert b[3] == ((n >> 3) & 1 == 1) && b[4] == ((n >> 4) & 1 == 1) && b[5] == ((n >> 5) & 1 == 1);
    assert b[6] == ((n >> 6) & 1 == 1) && b[7] == ((n >> 7) & 1 == 1);
  }

  /** The encoder loses nothing: the occupancy of every cell can be read back. */
  lemma DecodeEncode(g: seq<Cell>)
    requires |g| == GridSize
    ensures Decode(Encode(g)) == Occupancy(g)
  {
    var s := Encode(g);
    forall j | 0 <= j < GridSize
      ensures Decode(s)[j] == Occupancy(g)[j]
    {
      DotIndexInverse(j);
      var i, k := BlockOfIndex(j), DotOfIndex(j);
      UnpackPack(BlockBits(g, i));
      assert Code(s[i]) == Pack(BlockBits(g, i));
      assert Unpack(Code(s[i]))[k] == BlockBits(g, i)[k];
    }
  }

  /** Two boards give the same string exactly when the same cells are occupied. */
  lemma EncodeExactlyOccupancy(g1: seq<Cell>, g2: seq<Cell>)
    requires |g1| == GridSize && |g2| == GridSize
    ensures Encode(g1) == Encode(g2) <==> Occupancy(g1) == Occupancy(g2)
  {
    if Encode(g1) == Encode(g2) {
      DecodeEncode(g1);
      DecodeEncode(g2);
    }
    if Occupancy(g1) == Occupancy(g2) {
      forall i | 0 <= i < BlockCount
        ensures Encode(g1)[i] == Encode(g2)[i]
      {
        assert forall k :: 0 <= k < 8 ==> Occupancy(g1)[DotIndex(i, k)] == Occupancy(g2)[DotIndex(i, k)];
        assert BlockBits(g1, i) == BlockBits(g2, i);
      }
    }
  }

  /** Whether braille character c raises dot k+1. */
  predicate DotRaised(c: char, k: int)
    requires IsBraille(c) && 0 <= k < 8
  {
    Dot(Code(c), k)
  }

  /** The layout of block i, cell by cell: bits 0-7 show (2i,0), (2i,1), (2i,2),
      (2i+1,0), (2i+1,1), (2i+1,2), (2i,3) and (2i+1,3). */
  lemma BlockLayout(g: seq<Cell>, i: int)
    requires |g| == GridSize && 0 <= i < BlockCount
    ensures var c := Encode(g)[i];
      && (DotRaised(c, 0) <==> BitAt(g, 2 * i, 0) == 1)
      && (DotRaised(c, 1) <==> BitAt(g, 2 * i, 1) == 1)
      && (DotRaised(c, 2) <==> BitAt(g, 2 * i, 2) == 1)
      && (DotRaised(c, 3) <==> BitAt(g, 2 * i + 1, 0) == 1)
      && (DotRaised(c, 4) <==> BitAt(g, 2 * i + 1, 1) == 1)
      && (DotRaised(c, 5) <==> BitAt(g, 2 * i + 1, 2) == 1)
      && (DotRaised(c, 6) <==> BitAt(g, 2 * i, 3) == 1)
      && (DotRaised(c, 7) <==> BitAt(g, 2 * i + 1, 3) == 1)
  {
    var c := Encode(g)[i];
    forall k | 0 <= k < 8
      ensures DotRaised(c, k) <==> BitAt(g, 2 * i + DotColumn(k), DotRow(k)) == 1
    {
      DotShowsCell(g, i, k);
    }
    assert DotColumn(0) == 0 && DotRow(0) == 0 && DotColumn(1) == 0 && DotRow(1) == 1;
    assert DotColumn(2) == 0 && DotRow(2) == 2 && DotColumn(3) == 1 && DotRow(3) == 0;
    assert DotColumn(4) == 1 && DotRow(4) == 1 && DotColumn(5) == 1 && DotRow(5) == 2;
    assert DotColumn(6) == 0 && DotRow(6) == 3 && DotColumn(7) == 1 && DotRow(7) == 3;
  }

  lemma DotShowsCell(g: seq<Cell>, i: int, k: int)
    requires |g| == GridSize && 0 <= i < BlockCount && 0 <= k < 8
    ensures DotRaised(Encode(g)[i], k) <==> BitAt(g, 2 * i + DotColumn(k), DotRow(k)) == 1
  {
    var b := BlockBits(g, i);
    UnpackPack(b);
    assert Code(Encode(g)[i]) == Pack(b);
    assert DotRaised(Encode(g)[i], k) == Unpack(Pack(b))[k];
    var x, y := 2 * i + DotColumn(k), DotRow(k);
    assert Index(x, y) == DotIndex(i, k);
  }
}
