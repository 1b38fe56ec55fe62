/** The reference colour table, the curated 4-colour presets and the palette
    resolver (src/NesExtractor.Core/Models/NesPalette.cs). Palettes are a
    visualisation aid: no colour is read from the cartridge. */
module NesPalette {

  /** An opaque colour, or the "empty" colour (all ARGB components zero) that
      marks a transparent slot. */
  datatype Color = Rgb(r: bv8, g: bv8, b: bv8) | Empty

  const StandardPaletteSize := 64
  const TilePaletteSize := 4

  /** Entry i of the 64-entry 2C02 output table. */
  function StandardEntry(i: int): (c: Color)
    requires 0 <= i < StandardPaletteSize
    ensures c.Rgb?
  {
    match i
    // 0x00-0x0F
    case 0x00 => Rgb(84, 84, 84)
    case 0x01 => Rgb(0, 30, 116)
    case 0x02 => Rgb(8, 16, 144)
    case 0x03 => Rgb(48, 0, 136)
    case 0x04 => Rgb(68, 0, 100)
    case 0x05 => Rgb(92, 0, 48)
    case 0x06 => Rgb(84, 4, 0)
    case 0x07 => Rgb(60, 24, 0)
    case 0x08 => Rgb(32, 42, 0)
    case 0x09 => Rgb(8, 58, 0)
    case 0x0A => Rgb(0, 64, 0)
    case 0x0B => Rgb(0, 60, 0)
    case 0x0C => Rgb(0, 50, 60)
    case 0x0D => Rgb(0, 0, 0)
    case 0x0E => Rgb(0, 0, 0)
    case 0x0F => Rgb(0, 0, 0)
    // 0x10-0x1F
    case 0x10 => Rgb(152, 150, 152)
    case 0x11 => Rgb(8, 76, 196)
    case 0x12 => Rgb(48, 50, 236)
    case 0x13 => Rgb(92, 30, 228)
    case 0x14 => Rgb(136, 20, 176)
    case 0x15 => Rgb(160, 20, 100)
    case 0x16 => Rgb(152, 34, 32)
    case 0x17 => Rgb(120, 60, 0)
    case 0x18 => Rgb(84, 90, 0)
    case 0x19 => Rgb(40, 114, 0)
    case 0x1A => Rgb(8, 124, 0)
    case 0x1B => Rgb(0, 118, 40)
    case 0x1C => Rgb(0, 102, 120)
    case 0x1D => Rgb(0, 0, 0)
    case 0x1E => Rgb(0, 0, 0)
    case 0x1F => Rgb(0, 0, 0)
    // 0x20-0x2F
    case 0x20 => Rgb(236, 238, 236)
    case 0x21 => Rgb(76, 154, 236)
    case 0x22 => Rgb(120, 124, 236)
    case 0x23 => Rgb(176, 98, 236)
    case 0x24 => Rgb(228, 84, 236)
    case 0x25 => Rgb(236, 88, 180)
    case 0x26 => Rgb(236, 106, 100)
    case 0x27 => Rgb(212, 136, 32)
    case 0x28 => Rgb(160, 170, 0)
    case 0x29 => Rgb(116, 196, 0)
    case 0x2A => Rgb(76, 208, 32)
    case 0x2B => Rgb(56, 204, 108)
    case 0x2C => Rgb(56, 180, 204)
    case 0x2D => Rgb(60, 60, 60)
    case 0x2E => Rgb(0, 0, 0)
    case 0x2F => Rgb(0, 0, 0)
    // 0x30-0x3F
    case 0x30 => Rgb(236, 238, 236)
    case 0x31 => Rgb(168, 204, 236)
    case 0x32 => Rgb(188, 188, 236)
    case 0x33 => Rgb(212, 178, 236)
    case 0x34 => Rgb(236, 174, 236)
    case 0x35 => Rgb(236, 174, 212)
    case 0x36 => Rgb(236, 180, 176)
    case 0x37 => Rgb(228, 196, 144)
    case 0x38 => Rgb(204, 210, 120)
    case 0x39 => Rgb(180, 222, 120)
    case 0x3A => Rgb(168, 226, 144)
    case 0x3B => Rgb(152, 226, 180)
    case 0x3C => Rgb(160, 214, 228)
    case 0x3D => Rgb(160, 162, 160)
    case 0x3E => Rgb(0, 0, 0)
    case _ => Rgb(0, 0, 0)
  }

  /** The 64-entry table; every entry is opaque. */
  const Standard: seq<Color> := seq(StandardPaletteSize, i requires 0 <= i < StandardPaletteSize => StandardEntry(i))

  /** Opaque greyscale: black, dark grey, light grey, white. */
  const Greyscale: seq<Color> := [Rgb(0, 0, 0), Rgb(85, 85, 85), Rgb(170, 170, 170), Rgb(255, 255, 255)]

  /** Greyscale with slot 0 transparent. */
  const GreyscaleTransparent: seq<Color> := [Empty, Rgb(85, 85, 85), Rgb(170, 170, 170), Rgb(255, 255, 255)]

  const PresetCount := 9

  /** The nine presets (palette indices 1..9), each four indices into Standard:
      neutral, blue, red, green, yellow, purple, teal, orange, mixed. */
  function Preset(row: int): (indices: seq<nat>)
    requires 0 <= row < PresetCount
    ensures |indices| == TilePaletteSize
    ensures forall k :: 0 <= k < TilePaletteSize ==> indices[k] < StandardPaletteSize
  {
    match row
    case 0 => [0x0F, 0x00, 0x10, 0x30]
    case 1 => [0x0F, 0x02, 0x12, 0x22]
    case 2 => [0x0F, 0x06, 0x16, 0x26]
    case 3 => [0x0F, 0x0A, 0x1A, 0x2A]
    case 4 => [0x0F, 0x18, 0x28, 0x38]
    case 5 => [0x0F, 0x03, 0x13, 0x23]
    case 6 => [0x0F, 0x0C, 0x1C, 0x2C]
    case 7 => [0x0F, 0x07, 0x17, 0x27]
    case _ => [0x0F, 0x16, 0x27, 0x38]
  }

  /** The preset a non-zero palette index selects: indices outside 1..9 fall
      back to preset 1. */
  function PresetRow(paletteIndex: int): (row: nat)
    ensures row < PresetCount
    ensures 1 <= paletteIndex <= 9 ==> row == paletteIndex - 1
    ensures paletteIndex < 1 || paletteIndex > 9 ==> row == 0
  {
    var idx := paletteIndex - 1;
    if idx < 0 || idx >= PresetCount then 0 else idx
  }

  /** The palette the resolver returns, as a value: index 0 is a greyscale
      table; any other index maps its preset's four indices through Standard,
      with slot 0 replaced by Empty when `transparent`. */
  function Resolved(paletteIndex: int, transparent: bool): (p: seq<Color>)
    ensures |p| == TilePaletteSize
  {
    if paletteIndex == 0 then
      if transparent then GreyscaleTransparent else Greyscale
    else
      var indices := Preset(PresetRow(paletteIndex));
      [if transparent then Empty else Standard[indices[0]]] +
      seq(3, k requires 0 <= k < 3 => Standard[indices[k + 1]])
  }

  /** `GetPalette`: index 0 returns a greyscale table; otherwise a 4-slot
      array is allocated, slot 0 set, and slots 1..3 filled in a loop. */
  method GetPalette(paletteIndex: int, transparent: bool) returns (result: seq<Color>)
    ensures result == Resolved(paletteIndex, transparent)
    ensures |result| == TilePaletteSize
    ensures paletteIndex == 0 ==> result == if transparent then GreyscaleTransparent else Greyscale
  {
    if paletteIndex == 0 {
      return if transparent then GreyscaleTransparent else Greyscale;
    }
    var idx := paletteIndex - 1;
    if idx < 0 || idx >= PresetCount {
      idx := 0;
    }
    var indices := Preset(idx);
    var slots := new Color[TilePaletteSize];
    slots[0] := if transparent then Empty else Standard[indices[0]];
    for i := 1 to TilePaletteSize
      invariant slots[0] == Resolved(paletteIndex, transparent)[0]
      invariant forall k :: 1 <= k < i ==> slots[k] == Standard[indices[k]]
    {
      slots[i] := Standard[indices[i]];
    }
    result := slots[..];
  }

  /** Every table entry is opaque and every preset index addresses the table. */
  lemma TablesWellFormed()
    ensures |Standard| == StandardPaletteSize
    ensures forall i :: 0 <= i < |Standard| ==> Standard[i] != Empty
    ensures |Greyscale| == TilePaletteSize && |GreyscaleTransparent| == TilePaletteSize
    ensures GreyscaleTransparent[0] == Empty && Greyscale[0] != Empty
  {
  }

  /** Out-of-range indices resolve exactly as index 1. */
  lemma FallbackToFirstPreset(paletteIndex: int, transparent: bool)
    requires paletteIndex < 0 || paletteIndex > 9
    ensures Resolved(paletteIndex, transparent) == Resolved(1, transparent)
  {
  }

  /** Slot 0 is Empty exactly when transparency was asked for; slots 1..3 are
      never Empty; so without transparency no slot is Empty. */
  lemma EmptyOnlyInTransparentSlotZero(paletteIndex: int, transparent: bool)
    ensures Resolved(paletteIndex, transparent)[0] == Empty <==> transparent
    ensures forall k :: 1 <= k < TilePaletteSize ==> Resolved(paletteIndex, transparent)[k] != Empty
  {
    TablesWellFormed();
  }

  /** For a non-zero index every slot that is not Empty is a Standard entry,
      and slots 1..3 are the preset's entries. */
  lemma PresetColorsFromStandard(paletteIndex: int, transparent: bool)
    requires paletteIndex != 0
    ensures forall k :: 0 <= k < TilePaletteSize && Resolved(paletteIndex, transparent)[k] != Empty ==>
      Resolved(paletteIndex, transparent)[k] in Standard
    ensures forall k :: 1 <= k < TilePaletteSize ==>
      Resolved(paletteIndex, transparent)[k] == Standard[Preset(PresetRow(paletteIndex))[k]]
  {
    var p := Resolved(paletteIndex, transparent);
    var indices := Preset(PresetRow(paletteIndex));
    forall k | 0 <= k < TilePaletteSize && p[k] != Empty
      ensures p[k] in Standard
    {
      assert p[k] == Standard[indices[k]];
    }
  }

  /** Palettes 1 and 2 differ in at least one slot. */
  lemma FirstPresetsDiffer(transparent: bool)
    ensures Resolved(1, transparent) != Resolved(2, transparent)
  {
    PresetColorsFromStandard(1, transparent);
    PresetColorsFromStandard(2, transparent);
    assert Resolved(1, transparent)[1] == Standard[0x00];
    assert Resolved(2, transparent)[1] == Standard[0x02];
    assert Standard[0x00] != Standard[0x02];
  }
}
