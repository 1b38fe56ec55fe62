/** The 16-byte iNES / NES 2.0 header and the properties derived from its
    stored bytes (src/NesExtractor.Core/Models/NesHeader.cs). */
module NesHeader {
  import opened Common

  const HeaderSize := 16
  const MagicSize := 4
  const PaddingSize := 5
  const MagicByte: byte := 0x1A
  const PrgRomBlockSize := 16384
  const ChrRomBlockSize := 8192
  const TrainerSize := 512

  /** The signature 'N', 'E', 'S', 0x1A (ASCII codes 0x4E, 0x45, 0x53). */
  const Magic: seq<byte> := [0x4E, 0x45, 0x53, MagicByte]

  datatype MirroringType = Horizontal | Vertical | FourScreen

  datatype NesFormat = INes | Nes20

  /** A mapper name: one of the fixed names, or "Unknown (#n)" carrying n. */
  datatype MapperName = Known(name: string) | Unknown(number: int)

  /** The stored header fields. `magic` and `padding` are byte arrays whose
      length is whatever the reader returned. */
  datatype Header = Header(
    magic: seq<byte>,
    prgRomSize: byte,
    chrRomSize: byte,
    flags6: byte,
    flags7: byte,
    flags8: byte,
    flags9: byte,
    flags10: byte,
    padding: seq<byte>)

  /** A freshly constructed header: four zero magic bytes, all fields zero,
      five zero padding bytes. */
  function NewHeader(): (h: Header)
    ensures |h.magic| == MagicSize && |h.padding| == PaddingSize
    ensures h.prgRomSize == 0 && h.chrRomSize == 0 && h.flags6 == 0 && h.flags7 == 0
    ensures !IsValid(h)
  {
    Header(seq(MagicSize, _ => 0), 0, 0, 0, 0, 0, 0, 0, seq(PaddingSize, _ => 0))
  }

  /** Bit k (0 = least significant) of b is set. */
  predicate Bit(b: byte, k: nat)
    requires k < 8
  {
    (b >> k) & 1 == 1
  }

  /** Flags 7 supplies the upper nibble of the mapper number, Flags 6 the lower. */
  function MapperBits(h: Header): (m: bv8)
    ensures m >> 4 == h.flags7 >> 4
    ensures m & 0x0F == h.flags6 >> 4
  {
    (h.flags7 & 0xF0) | (h.flags6 >> 4)
  }

  /** The mapper number as the source's `int`: always within 0..255. */
  function MapperNumber(h: Header): (n: int)
    ensures 0 <= n < 256
  {
    MapperBits(h) as int
  }

  function Mirroring(h: Header): (m: MirroringType)
    ensures m == FourScreen <==> Bit(h.flags6, 3)
    ensures m == Vertical <==> !Bit(h.flags6, 3) && Bit(h.flags6, 0)
  {
    if h.flags6 & 0x08 != 0 then FourScreen
    else if h.flags6 & 0x01 != 0 then Vertical
    else Horizontal
  }

  function HasBatteryBackedRam(h: Header): (b: bool)
    ensures b <==> Bit(h.flags6, 1)
  {
    h.flags6 & 0x02 != 0
  }

  function HasTrainer(h: Header): (b: bool)
    ensures b <==> Bit(h.flags6, 2)
  {
    h.flags6 & 0x04 != 0
  }

  /** NES 2.0 is identified by bits 3..2 of Flags 7 being binary 10. */
  function Format(h: Header): (f: NesFormat)
    ensures f == Nes20 <==> Bit(h.flags7, 3) && !Bit(h.flags7, 2)
  {
    var nes2Bits := (h.flags7 >> 2) & 3;
    if nes2Bits == 2 then Nes20 else INes
  }

  function PrgRomSizeInBytes(h: Header): (n: int)
    ensures n % PrgRomBlockSize == 0 && n / PrgRomBlockSize == h.prgRomSize as int
    ensures 0 <= n <= 255 * PrgRomBlockSize
  {
    h.prgRomSize as int * PrgRomBlockSize
  }

  function ChrRomSizeInBytes(h: Header): (n: int)
    ensures n % ChrRomBlockSize == 0 && n / ChrRomBlockSize == h.chrRomSize as int
    ensures 0 <= n <= 255 * ChrRomBlockSize
  {
    h.chrRomSize as int * ChrRomBlockSize
  }

  function TrainerSizeInBytes(h: Header): (n: int)
    ensures n == TrainerSize <==> HasTrainer(h)
    ensures n == 0 <==> !HasTrainer(h)
  {
    if HasTrainer(h) then TrainerSize else 0
  }

  /** The header is valid iff its magic is exactly the four signature bytes. */
  predicate IsValid(h: Header)
    ensures IsValid(h) <==> h.magic == Magic
  {
    |h.magic| == MagicSize &&
    h.magic[0] == 0x4E && h.magic[1] == 0x45 && h.magic[2] == 0x53 && h.magic[3] == MagicByte
  }

  const KnownMappers: set<int> := {0, 1, 2, 3, 4, 5, 7, 9, 10, 11}

  function GetMapperName(h: Header): (r: MapperName)
    ensures r.Unknown? <==> MapperNumber(h) !in KnownMappers
    ensures r.Unknown? ==> r.number == MapperNumber(h)
  {
    match MapperNumber(h)
    case 0 => Known("NROM")
    case 1 => Known("MMC1")
    case 2 => Known("UxROM")
    case 3 => Known("CNROM")
    case 4 => Known("MMC3")
    case 5 => Known("MMC5")
    case 7 => Known("AxROM")
    case 9 => Known("MMC2")
    case 10 => Known("MMC4")
    case 11 => Known("Color Dreams")
    case n => Unknown(n)
  }

  /** Writing a mapper number's nibbles into Flags 6 / Flags 7 (as the
      header's tests do) and reading it back gives the same number. */
  lemma MapperNumberRoundTrip(h: Header, m: bv8)
    requires h.flags6 == (m & 0x0F) << 4 && h.flags7 == m & 0xF0
    ensures MapperNumber(h) == m as int
  {
    BitsFromNibbles(MapperBits(h), m);
  }

  /** The name table, written in the way the header's tests write it: mapper
      m's nibbles go into Flags 6 / Flags 7 and the name comes back. */
  lemma MapperNames(h: Header, m: bv8)
    requires h.flags6 == (m & 0x0F) << 4 && h.flags7 == m & 0xF0
    ensures m == 0 ==> GetMapperName(h) == Known("NROM")
    ensures m == 1 ==> GetMapperName(h) == Known("MMC1")
    ensures m == 2 ==> GetMapperName(h) == Known("UxROM")
    ensures m == 3 ==> GetMapperName(h) == Known("CNROM")
    ensures m == 4 ==> GetMapperName(h) == Known("MMC3")
    ensures m == 5 ==> GetMapperName(h) == Known("MMC5")
    ensures m == 7 ==> GetMapperName(h) == Known("AxROM")
    ensures m == 9 ==> GetMapperName(h) == Known("MMC2")
    ensures m == 10 ==> GetMapperName(h) == Known("MMC4")
    ensures m == 11 ==> GetMapperName(h) == Known("Color Dreams")
    ensures m as int !in KnownMappers ==> GetMapperName(h) == Unknown(m as int)
  {
    MapperNumberRoundTrip(h, m);
  }

  lemma BitsFromNibbles(a: bv8, b: bv8)
    requires a >> 4 == b >> 4 && a & 0x0F == b & 0x0F
    ensures a == b
  {
  }

  /** Different mapper numbers never share a name. */
  lemma MapperNamesDistinct(h1: Header, h2: Header)
    requires MapperNumber(h1) != MapperNumber(h2)
    ensures GetMapperName(h1) != GetMapperName(h2)
  {
  }

  /** The header's tests: Flags6 = 0x20, Flags7 = 0x10 gives mapper 18; 0x08 in
      Flags 7 identifies NES 2.0; Flags6 = 0xF0 gives the unknown mapper 15. */
  lemma HeaderExamples(h: Header)
    ensures MapperNumber(h.(flags6 := 0x20, flags7 := 0x10)) == 18
    ensures Format(h.(flags7 := 0x08)) == Nes20 && Format(h.(flags7 := 0x00)) == INes
    ensures GetMapperName(h.(flags6 := 0xF0, flags7 := 0x00)) == Unknown(15)
    ensures Mirroring(h.(flags6 := 0x09)) == FourScreen
    ensures !IsValid(h.(magic := [0x4E, 0x45]))
  {
  }
}
