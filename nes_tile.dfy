/** One 8x8 NES tile in the PPU's two-bitplane pattern format
    (src/NesExtractor.Core/Models/NesTile.cs). */
module NesTile {
  import opened Common

  const TileSize := 8
  const TileSizeInBytes := 16
  const BitPlaneSize := 8

  datatype TileError = DataTooShort(required: nat)

  /** Bit k (0 = least significant) of b. */
  function BitOf(b: byte, k: nat): (bit: byte)
    requires k < 8
    ensures bit <= 1
  {
    (b >> k) & 1
  }

  /** The value of pixel (y, x) of the tile whose bytes start `data`: its low
      bit is bit 7-x of byte y (first plane), its high bit is bit 7-x of byte
      y+8 (second plane); x = 0 is the leftmost, most significant bit. */
  function PixelValue(data: seq<byte>, y: int, x: int): (v: byte)
    requires |data| >= TileSizeInBytes && 0 <= y < TileSize && 0 <= x < TileSize
    ensures v <= 3
    ensures v & 1 == BitOf(data[y], 7 - x)
    ensures v >> 1 == BitOf(data[y + BitPlaneSize], 7 - x)
  {
    var lowBit := (data[y] >> (7 - x)) & 1;
    var highBit := (data[y + BitPlaneSize] >> (7 - x)) & 1;
    (highBit << 1) | lowBit
  }

  class NesTile {
    var index: int
    var pixels: array2<byte>
    var rawData: seq<byte>

    /** The pixel grid is 8x8. */
    ghost predicate Valid()
      reads this
    {
      pixels.Length0 == TileSize && pixels.Length1 == TileSize
    }

    /** This tile is the decoding of `data` with the given index. */
    ghost predicate DecodedFrom(data: seq<byte>, i: int)
      reads this, pixels
      requires |data| >= TileSizeInBytes
    {
      Valid() && index == i && rawData == data[..TileSizeInBytes] &&
      forall y, x :: 0 <= y < TileSize && 0 <= x < TileSize ==> pixels[y, x] == PixelValue(data, y, x)
    }

    /** `new NesTile()`: index 0, an all-zero 8x8 grid, no raw bytes. */
    constructor ()
      ensures Valid() && fresh(pixels)
      ensures index == 0 && rawData == []
      ensures forall y, x :: 0 <= y < TileSize && 0 <= x < TileSize ==> pixels[y, x] == 0
    {
      index := 0;
      pixels := new byte[TileSize, TileSize]((_, _) => 0);
      rawData := [];
    }

    /** Decodes the first 16 bytes of `data` (null is `None`); shorter input is
        an argument error. */
    static method Decode(data: Option<seq<byte>>, index: int) returns (r: Result<NesTile, TileError>)
      ensures r.Failure? <==> data.None? || |data.value| < TileSizeInBytes
      ensures r.Failure? ==> r.error == DataTooShort(TileSizeInBytes)
      ensures r.Success? ==> r.value.DecodedFrom(data.value, index)
      ensures r.Success? ==> fresh(r.value) && fresh(r.value.pixels)
    {
      if data.None? || |data.value| < TileSizeInBytes {
        return Failure(DataTooShort(TileSizeInBytes));
      }
      var bytes := data.value;
      var tile := new NesTile();
      tile.index := index;
      tile.rawData := bytes[..TileSizeInBytes];
      for y := 0 to TileSize
        invariant fresh(tile.pixels) && tile.Valid() && tile.index == index && tile.rawData == bytes[..TileSizeInBytes]
        invariant forall py, px :: 0 <= py < y && 0 <= px < TileSize ==> tile.pixels[py, px] == PixelValue(bytes, py, px)
      {
        var lowByte := bytes[y];
        var highByte := bytes[y + BitPlaneSize];
        for x := 0 to TileSize
          invariant fresh(tile.pixels) && tile.Valid() && tile.index == index && tile.rawData == bytes[..TileSizeInBytes]
          invariant forall py, px :: 0 <= py < y && 0 <= px < TileSize ==> tile.pixels[py, px] == PixelValue(bytes, py, px)
          invariant forall px :: 0 <= px < x ==> tile.pixels[y, px] == PixelValue(bytes, y, px)
        {
          var bitPosition := 7 - x;
          var lowBit := (lowByte >> bitPosition) & 1;
          var highBit := (highByte >> bitPosition) & 1;
          tile.pixels[y, x] := (highBit << 1) | lowBit;
        }
      }
      return Success(tile);
    }

    /** The set of distinct pixel values present in the grid. */
    method GetUsedColors() returns (colors: set<byte>)
      requires Valid()
      ensures forall c :: c in colors <==> exists y, x :: 0 <= y < TileSize && 0 <= x < TileSize && pixels[y, x] == c
      ensures colors != {}
      ensures (forall y, x :: 0 <= y < TileSize && 0 <= x < TileSize ==> pixels[y, x] <= 3) ==> |colors| <= 4
    {
      colors := {};
      for y := 0 to TileSize
        invariant forall c :: c in colors <==> exists py, px :: 0 <= py < y && 0 <= px < TileSize && pixels[py, px] == c
      {
        for x := 0 to TileSize
          invariant forall c :: c in colors <==>
            (exists py, px :: 0 <= py < y && 0 <= px < TileSize && pixels[py, px] == c) ||
            (exists px :: 0 <= px < x && pixels[y, px] == c)
        {
          colors := colors + {pixels[y, x]};
        }
      }
      ghost var first := pixels[0, 0];
      assert exists py, px :: 0 <= py < TileSize && 0 <= px < TileSize && pixels[py, px] == first;
      assert first in colors;
      if forall y, x :: 0 <= y < TileSize && 0 <= x < TileSize ==> pixels[y, x] <= 3 {
        UsedColorsAtMostFour(colors);
      }
    }

    /** True iff every one of the 64 pixels is 0. */
    method IsEmpty() returns (empty: bool)
      requires Valid()
      ensures empty <==> forall y, x :: 0 <= y < TileSize && 0 <= x < TileSize ==> pixels[y, x] == 0
    {
      for y := 0 to TileSize
        invariant forall py, px :: 0 <= py < y && 0 <= px < TileSize ==> pixels[py, px] == 0
      {
        for x := 0 to TileSize
          invariant forall py, px :: 0 <= py < y && 0 <= px < TileSize ==> pixels[py, px] == 0
          invariant forall px :: 0 <= px < x ==> pixels[y, px] == 0
        {
          if pixels[y, x] != 0 {
            return false;
          }
        }
      }
      return true;
    }
  }

  /** A byte is determined by its eight bits. */
  lemma ByteFromBits(a: byte, b: byte)
    requires forall k :: 0 <= k < 8 ==> BitOf(a, k) == BitOf(b, k)
    ensures a == b
  {
    assert BitOf(a, 0) == BitOf(b, 0) && BitOf(a, 1) == BitOf(b, 1);
    assert BitOf(a, 2) == BitOf(b, 2) && BitOf(a, 3) == BitOf(b, 3);
    assert BitOf(a, 4) == BitOf(b, 4) && BitOf(a, 5) == BitOf(b, 5);
    assert BitOf(a, 6) == BitOf(b, 6) && BitOf(a, 7) == BitOf(b, 7);
  }

  /** Each of the 128 bits of a tile's 16 bytes feeds exactly one pixel bit, so
      two blocks that decode to the same grid agree on their first 16 bytes. */
  lemma DecodeInjective(a: seq<byte>, b: seq<byte>)
    requires |a| >= TileSizeInBytes && |b| >= TileSizeInBytes
    requires forall y, x :: 0 <= y < TileSize && 0 <= x < TileSize ==> PixelValue(a, y, x) == PixelValue(b, y, x)
    ensures a[..TileSizeInBytes] == b[..TileSizeInBytes]
  {
    forall i | 0 <= i < TileSizeInBytes
      ensures a[i] == b[i]
    {
      var y := if i < BitPlaneSize then i else i - BitPlaneSize;
      forall k | 0 <= k < 8
        ensures BitOf(a[i], k) == BitOf(b[i], k)
      {
        var va, vb := PixelValue(a, y, 7 - k), PixelValue(b, y, 7 - k);
        assert va == vb;
      }
      ByteFromBits(a[i], b[i]);
    }
  }

  /** A block decodes to an all-zero grid iff its first 16 bytes are zero. */
  lemma DecodedBlankIff(data: seq<byte>)
    requires |data| >= TileSizeInBytes
    ensures (forall y, x :: 0 <= y < TileSize && 0 <= x < TileSize ==> PixelValue(data, y, x) == 0)
        <==> (forall i :: 0 <= i < TileSizeInBytes ==> data[i] == 0)
  {
    var zeros := seq(TileSizeInBytes, _ => 0 as byte);
    if forall y, x :: 0 <= y < TileSize && 0 <= x < TileSize ==> PixelValue(data, y, x) == 0 {
      forall y, x | 0 <= y < TileSize && 0 <= x < TileSize
        ensures PixelValue(data, y, x) == PixelValue(zeros, y, x)
      {
      }
      DecodeInjective(data, zeros);
      assert forall i :: 0 <= i < TileSizeInBytes ==> data[i] == data[..TileSizeInBytes][i];
    }
  }

  /** The decoding examples: sixteen 0x00 give all 0, sixteen 0xFF give all 3,
      and a row with low byte 0xAA and high byte 0x55 starts 1, 2. */
  lemma DecodeExamples(data: seq<byte>)
    requires |data| >= TileSizeInBytes
    ensures (forall i :: 0 <= i < TileSizeInBytes ==> data[i] == 0xFF) ==>
      forall y, x :: 0 <= y < TileSize && 0 <= x < TileSize ==> PixelValue(data, y, x) == 3
    ensures data[0] == 0xAA && data[8] == 0x55 ==> PixelValue(data, 0, 0) == 1 && PixelValue(data, 0, 1) == 2
  {
  }

  /** A grid of values 0..3 uses at most four colours. */
  lemma UsedColorsAtMostFour(colors: set<byte>)
    requires forall c :: c in colors ==> c <= 3
    ensures |colors| <= 4
  {
    var all: set<byte> := {0, 1, 2, 3};
    forall c | c in colors
      ensures c in all
    {
      assert c == 0 || c == 1 || c == 2 || c == 3;
    }
    assert all == colors + (all - colors);
    assert colors * (all - colors) == {};
    assert |all| == 4;
  }
}
