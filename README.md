# NES extractor core, modelled in Dafny

This project models the core library of NES Extractor (`src/NesExtractor.Core`).
The library takes a raw NES cartridge image (an iNES / NES 2.0 file) and turns it into pictures of its graphics:

- **Header** (`nes_header.dfy`): decodes the 16-byte iNES header. This covers the mapper number from the nibbles of Flags 6 and Flags 7, mirroring, the battery and trainer bits, iNES versus NES 2.0, segment sizes in 16 KiB / 8 KiB units, the signature check and the mapper-name table.
- **Image record** (`nes_rom.dfy`): the parsed cartridge image. It has the header, an optional 512-byte trainer, the PRG and CHR segments and the file path. The record provides the total file size, validity, bank counts and the file name.
- **Parser** (`nes_rom_parser.dfy`): a forward-only `BinaryReader` over the stream's bytes reads the header, checks the signature, then reads the trainer, PRG and CHR segments. Each failure has its own error, in a fixed order. The file entry point and the cheap "is this a .nes file" probe work on a path plus the file's bytes.
- **Tiles** (`nes_tile.dfy`): the PPU's two-bitplane pattern format. Sixteen bytes become an 8x8 grid of values 0..3. The queries give the set of used values and whether the tile is blank.
- **Palettes** (`nes_palette.dfy`): the 64-entry reference colour table, the two greyscale tables and nine curated 4-colour presets, plus the resolver that picks one. A colour is `Rgb(r, g, b)` or `Empty`, the all-zero colour that marks a transparent slot.
- **Canvas** (`canvas.dfy`): the two drawing operations the extractor uses, clearing a bitmap and filling an axis-aligned rectangle with anti-aliasing off.
- **Extractor** (`chr_rom_extractor.dfy`): cuts a CHR segment into tiles and paints bitmaps. `TileToBitmap` paints one tile scaled up. `CreateTileSheet` paints a grid of tiles on a dark background, with an optional checkerboard under transparent pixels and outlines when tiles are spaced apart.

The parser and the tile, palette and bitmap code change things step by step, so they are imperative Dafny:

- The reader is a class with a position that its methods advance.
- A tile is a class whose 8x8 `array2` is written in nested loops.
- Bitmaps are `array2<Color>` values that methods fill.

Each method is proved against a specification function, and the properties are lemmas about those functions:

- `ParseResult` for the parser;
- `Resolved` for the palette resolver;
- `TilePixel` for one tile's bitmap;
- `SheetPixel`, `TileAt` and `Borders` for the sheet.

The header and the image record are pure getters, so they are datatypes and functions.

The header's own comment calls it "16 bytes total" (src/NesExtractor.Core/Models/NesHeader.cs:6, with `HeaderSize = 16`), but the parser's code does not require 16 bytes, and the model follows the code. An input of 11 to 15 bytes is not rejected. The single-byte reads of bytes 4 to 10 succeed, and the five-byte padding read comes back short, so such an input parses whenever the signature matches and no segment is declared. Only inputs shorter than 11 bytes fail, with the end-of-stream error.

## Model

| member | source | states |
|---|---|---|
| NesHeader.NewHeader | src/NesExtractor.Core/Models/NesHeader.cs:39-76 | a new header has a 4-byte magic and 5-byte padding, all zero, and is not valid |
| NesHeader.MapperBits | src/NesExtractor.Core/Models/NesHeader.cs:79 | the upper nibble of the mapper number is the upper nibble of Flags 7, the lower nibble is the upper nibble of Flags 6 |
| NesHeader.MapperNumber | src/NesExtractor.Core/Models/NesHeader.cs:79 | the mapper number always lies in 0..255 |
| NesHeader.Mirroring | src/NesExtractor.Core/Models/NesHeader.cs:82-90 | four-screen iff Flags 6 bit 3 is set, whatever bit 0 is; otherwise vertical iff bit 0 is set, else horizontal |
| NesHeader.HasBatteryBackedRam | src/NesExtractor.Core/Models/NesHeader.cs:93 | true iff Flags 6 bit 1 is set; no other bit matters |
| NesHeader.HasTrainer | src/NesExtractor.Core/Models/NesHeader.cs:96 | true iff Flags 6 bit 2 is set; no other bit matters |
| NesHeader.Format | src/NesExtractor.Core/Models/NesHeader.cs:99-106 | NES 2.0 iff bits 3..2 of Flags 7 are binary 10, else iNES |
| NesHeader.PrgRomSizeInBytes | src/NesExtractor.Core/Models/NesHeader.cs:109 | a whole number of 16 KiB units, exactly the PRG count, at most 255 units |
| NesHeader.ChrRomSizeInBytes | src/NesExtractor.Core/Models/NesHeader.cs:112 | a whole number of 8 KiB units, exactly the CHR count, at most 255 units |
| NesHeader.TrainerSizeInBytes | src/NesExtractor.Core/Models/NesHeader.cs:115 | 512 iff the trainer flag is set, 0 iff it is not |
| NesHeader.IsValid | src/NesExtractor.Core/Models/NesHeader.cs:118-125 | valid iff the magic is exactly the four bytes 'N', 'E', 'S', 0x1A (so a magic of another length is invalid) |
| NesHeader.GetMapperName | src/NesExtractor.Core/Models/NesHeader.cs:128-144 | the name is "Unknown" exactly for numbers outside {0,1,2,3,4,5,7,9,10,11}, and then it carries the number; MapperNames gives the name of each known number |
| NesHeader.MapperNumberRoundTrip | tests/NesExtractor.Tests/NesHeaderAdditionalTests.cs:129-161 | writing a number's low nibble into Flags 6 bits 4-7 and its high nibble into Flags 7 reads back the same mapper number |
| NesHeader.MapperNames | tests/NesExtractor.Tests/NesHeaderAdditionalTests.cs:129-161 | with a mapper number's nibbles written into Flags 6 and Flags 7, the name is NROM for 0, MMC1 for 1, UxROM for 2, CNROM for 3, MMC3 for 4, MMC5 for 5, AxROM for 7, MMC2 for 9, MMC4 for 10 and Color Dreams for 11; any other number is Unknown with that number |
| NesHeader.MapperNamesDistinct | src/NesExtractor.Core/Models/NesHeader.cs:128-144 | different mapper numbers never get the same name |
| NesHeader.HeaderExamples | tests/NesExtractor.Tests/NesRomParserTests.cs:110-233 | Flags 6 = 0x20 and Flags 7 = 0x10 give mapper 18; Flags 7 = 0x08 is NES 2.0 and 0x00 is iNES; Flags 6 = 0xF0 gives unknown mapper 15; Flags 6 = 0x09 is four-screen; a 2-byte magic is invalid |
| NesRom.NewRom | src/NesExtractor.Core/Models/NesRom.cs:13-33 | a new image has a default header, no trainer, empty PRG and CHR segments and the given path, and is not valid |
| NesRom.GetFileName | src/NesExtractor.Core/Models/NesRom.cs:38 | the name is a suffix of the path with no separator in it, and the path is a separator just before it (or the name is the whole path) |
| NesRom.FileName | src/NesExtractor.Core/Models/NesRom.cs:38 | "Unknown" without a path; otherwise the path's last component, GetFileName, which GetFileNameUnique shows is the only separator-free suffix that starts the path or follows a separator |
| NesRom.TotalFileSize | src/NesExtractor.Core/Models/NesRom.cs:43-53 | the total is the 16-byte header plus the two segments held, plus at most the 512 trainer bytes; TotalFileSizeIgnoresTrainerBytes says the trainer term follows the flag alone, and ParsedImageIsPrefix that a parsed image is the input's first TotalFileSize bytes |
| NesRom.RomIsValid | src/NesExtractor.Core/Models/NesRom.cs:58 | the image is valid iff its header's magic is the signature |
| NesRom.PrgRomBankCount | src/NesExtractor.Core/Models/NesRom.cs:63 | the count lies in 0..255, and that many 16 KiB units are the declared PRG size |
| NesRom.ChrRomBankCount | src/NesExtractor.Core/Models/NesRom.cs:68 | the count lies in 0..255, and that many 8 KiB units are the declared CHR size |
| NesRom.TotalFileSizeIgnoresTrainerBytes | src/NesExtractor.Core/Models/NesRom.cs:43-53 | the total size does not depend on the trainer bytes held; without the segments it is 528 with the trainer flag and 16 without |
| NesRom.TotalFileSizeExamples | tests/NesExtractor.Tests/NesRomParserTests.cs:236-257 | trainer with 2 PRG and 1 CHR bank gives 41488 bytes; 1 and 1 without trainer gives 24592 |
| NesRom.GetFileNameUnique | src/NesExtractor.Core/Models/NesRom.cs:38 | the last component is the only separator-free suffix that starts the path or follows a separator |
| NesRom.FileNameExamples | tests/NesExtractor.Tests/NesRomAdditionalTests.cs:11-40 | "/path/to/game.nes" names "game.nes", and no path names "Unknown" |
| NesRomParser.BinaryReader.constructor | src/NesExtractor.Core/Parsers/NesRomParser.cs:24 | a new reader stands at position 0 of the stream's bytes |
| NesRomParser.BinaryReader.ReadBytes | src/NesExtractor.Core/Parsers/NesRomParser.cs:94 | returns the next min(count, remaining) bytes and advances past them; a short result only at the end of the stream |
| NesRomParser.BinaryReader.ReadByte | src/NesExtractor.Core/Parsers/NesRomParser.cs:97 | returns the next byte and advances by one, or the end-of-stream error without moving |
| NesRomParser.Take | src/NesExtractor.Core/Parsers/NesRomParser.cs:118 | a bulk read at an offset has length min(count, remaining) and is the slice there |
| NesRomParser.DecodeHeader | src/NesExtractor.Core/Parsers/NesRomParser.cs:91-119 | the header read fails, with end of stream, iff fewer than 11 bytes are present |
| NesRomParser.HeaderEnd | src/NesExtractor.Core/Parsers/NesRomParser.cs:91-119 | the reader stands at byte 16 after the header when the input holds 16 bytes, and never beyond the input |
| NesRomParser.ReadSegment | src/NesExtractor.Core/Parsers/NesRomParser.cs:51-70 | a segment read succeeds iff the input holds it, and then gives exactly the slice |
| NesRomParser.ReadHeader | src/NesExtractor.Core/Parsers/NesRomParser.cs:91-119 | reading the fields in order (magic, PRG, CHR, Flags 6-10, padding) gives DecodeHeader of the stream, and on success leaves the reader after the header |
| NesRomParser.Parse | src/NesExtractor.Core/Parsers/NesRomParser.cs:16-73 | the step-by-step parse returns exactly ParseResult (its properties are the lemmas below) |
| NesRomParser.ReadSegments | src/NesExtractor.Core/Parsers/NesRomParser.cs:41-70 | the trainer, PRG and CHR reads give exactly SegmentsAt from the reader's position |
| NesRomParser.ReadSegmentBytes | src/NesExtractor.Core/Parsers/NesRomParser.cs:51-59 | a segment read is complete iff the stream holds it; the bytes are the slice and the reader advances past it; a short read returns exactly what was left |
| NesRomParser.ParseFile | src/NesExtractor.Core/Parsers/NesRomParser.cs:78-88 | a blank path is an argument error, a missing file is not-found, otherwise the file's bytes are parsed with the path kept |
| NesRomParser.IsNullOrWhiteSpace | src/NesExtractor.Core/Parsers/NesRomParser.cs:80 | the empty path is blank, and a path holding a lower-case letter or a '.' is not |
| NesRomParser.ToLower | src/NesExtractor.Core/Parsers/NesRomParser.cs:133 | A-Z map to a-z and every other character is kept |
| NesRomParser.ToLowerString | src/NesExtractor.Core/Parsers/NesRomParser.cs:133 | lower-casing keeps the length and lower-cases each character |
| NesRomParser.ExtensionFrom | src/NesExtractor.Core/Parsers/NesRomParser.cs:133 | the extension is empty or a suffix of the path that starts with '.' |
| NesRomParser.Extension | src/NesExtractor.Core/Parsers/NesRomParser.cs:133 | the extension is empty or a suffix of the path of at least two characters that starts with '.'; NesExtensionIff says when it is ".nes" |
| NesRomParser.ExtensionSkip | src/NesExtractor.Core/Parsers/NesRomParser.cs:133 | the extension scan passes over characters that are neither '.' nor a separator |
| NesRomParser.ExtensionAtDot | src/NesExtractor.Core/Parsers/NesRomParser.cs:133 | the scan stops at a '.' that is not the last character, and the extension starts there |
| NesRomParser.NesSuffixExtension | src/NesExtractor.Core/Parsers/NesRomParser.cs:133-135 | a path ending in ".nes" in any case has its last four characters as extension |
| NesRomParser.LowerNes | src/NesExtractor.Core/Parsers/NesRomParser.cs:133-135 | '.' followed by n, e, s in any case lower-cases to ".nes" |
| NesRomParser.ExtensionNesSuffix | src/NesExtractor.Core/Parsers/NesRomParser.cs:133-135 | an extension that lower-cases to ".nes" is '.', n, e, s (in any case) at the end of the path |
| NesRomParser.NesExtensionIff | src/NesExtractor.Core/Parsers/NesRomParser.cs:133-135 | the extension check passes iff the path ends in ".nes" in any letter case |
| NesRomParser.IsNesFileIff | src/NesExtractor.Core/Parsers/NesRomParser.cs:124-157 | the probe is true iff a path is given, the file exists, the name ends in ".nes" in any case, and the file has at least 16 bytes beginning with the signature |
| NesRomParser.IsNesFile | src/NesExtractor.Core/Parsers/NesRomParser.cs:124-157 | an accepted file has a path, exists, holds at least 16 bytes and starts with the signature; IsNesFileIff gives the exact condition and ProbeAcceptsHeader ties it to the parser |
| NesRomParser.ProbeAcceptsHeader | src/NesExtractor.Core/Parsers/NesRomParser.cs:124-157 | a file the probe accepts never fails the parser's header read or signature check; only a short segment can still fail |
| NesRomParser.DecodeHeaderRoundTrip | src/NesExtractor.Core/Parsers/NesRomParser.cs:91-119 | reading back a header's 16 stored bytes, with anything after them, gives that header |
| NesRomParser.DecodeHeaderInverse | src/NesExtractor.Core/Parsers/NesRomParser.cs:91-119 | any 16 bytes decode to a header whose stored form is those 16 bytes |
| NesRomParser.ParseSucceedsIff | src/NesExtractor.Core/Parsers/NesRomParser.cs:16-73 | parsing succeeds iff the stream is non-null and readable, has 11 bytes, starts with the signature, and holds all declared segments (or declares none) |
| NesRomParser.ParseResult | src/NesExtractor.Core/Parsers/NesRomParser.cs:16-73 | a null stream is an argument error, an unreadable one is rejected, and a parsed image has a valid signature and keeps the path; ParseSucceedsIff, ParseErrorsExplained, ParseRoundTrip and ParsedImageParts pin down the rest |
| NesRomParser.ParseErrorsExplained | src/NesExtractor.Core/Parsers/NesRomParser.cs:18-38 | errors come in the order null, unreadable, end of stream, magic mismatch, and each of these is raised exactly in its case; segment errors only after a good header |
| NesRomParser.SegmentsRoundTrip | src/NesExtractor.Core/Parsers/NesRomParser.cs:41-70 | segments laid out consecutively are read back unchanged |
| NesRomParser.SegmentsAtSuccessIff | src/NesExtractor.Core/Parsers/NesRomParser.cs:41-70 | the segment reads succeed iff the input holds all three; then they have the declared sizes and are consecutive slices |
| NesRomParser.SegmentsAtErrors | src/NesExtractor.Core/Parsers/NesRomParser.cs:44-67 | a failure names the first short segment, its expected size and the fewer bytes that were left |
| NesRomParser.ParseRoundTrip | src/NesExtractor.Core/Parsers/NesRomParser.cs:16-73 | storing a well-formed image, appending anything, and parsing gives the image back (trailing bytes are ignored) |
| NesRomParser.ParsedImageParts | src/NesExtractor.Core/Parsers/NesRomParser.cs:41-72 | a parsed image is well formed (trainer iff flagged, declared segment sizes), keeps the path, and its segments are the bytes after the header |
| NesRomParser.ParsedImageIsPrefix | src/NesExtractor.Core/Parsers/NesRomParser.cs:41-72 | a parsed image's stored form is the prefix of the input it came from, of length exactly its total file size |
| NesRomParser.ParseExample | tests/NesExtractor.Tests/NesRomParserTests.cs:15-58 | a header declaring one PRG and one CHR bank followed by 16384 + 8192 bytes parses into those segments, with no trainer |
| NesRomParser.ParseExampleShort | tests/NesExtractor.Tests/NesRomParserTests.cs:15-58 | the input of that test with its last byte removed fails with a short CHR segment, 8192 expected and 8191 got |
| NesTile.BitOf | src/NesExtractor.Core/Models/NesTile.cs:69-70 | a bit extracted from a byte is 0 or 1 |
| NesTile.PixelValue | src/NesExtractor.Core/Models/NesTile.cs:60-75 | a pixel value is in 0..3; its low bit is bit 7-x of byte y and its high bit is bit 7-x of byte y+8 |
| NesTile.NesTile.constructor | src/NesExtractor.Core/Models/NesTile.cs:29-39 | a new tile has index 0, no raw bytes and an all-zero 8x8 grid |
| NesTile.NesTile.Decode | src/NesExtractor.Core/Models/NesTile.cs:46-78 | fails iff the data is null or shorter than 16 bytes; otherwise a fresh tile with the given index, the first 16 bytes as raw data and every pixel its bitplane value |
| NesTile.NesTile.GetUsedColors | src/NesExtractor.Core/Models/NesTile.cs:83-94 | the result holds exactly the values present in the grid, and is never empty; a grid of values 0..3, as Decode produces, uses at most four colours |
| NesTile.NesTile.IsEmpty | src/NesExtractor.Core/Models/NesTile.cs:99-110 | true iff all 64 pixels are 0 |
| NesTile.DecodeInjective | src/NesExtractor.Core/Models/NesTile.cs:60-75 | two blocks that decode to the same grid agree on their first 16 bytes |
| NesTile.DecodedBlankIff | src/NesExtractor.Core/Models/NesTile.cs:60-75 | a block decodes to an all-zero grid iff its first 16 bytes are zero |
| NesTile.DecodeExamples | tests/NesExtractor.Tests/NesTileTests.cs:10-90 | sixteen 0xFF bytes decode to all 3; low byte 0xAA with high byte 0x55 gives pixels 1, 2 at the start of the row |
| NesTile.UsedColorsAtMostFour | src/NesExtractor.Core/Models/NesTile.cs:83-94 | a set of pixel values (all at most 3) has at most four members; GetUsedColors applies it |
| NesPalette.StandardEntry | src/NesExtractor.Core/Models/NesPalette.cs:16-89 | every entry of the 64-colour table is opaque |
| NesPalette.Preset | src/NesExtractor.Core/Models/NesPalette.cs:130-150 | each preset has four indices, all inside the 64-entry table |
| NesPalette.PresetRow | src/NesExtractor.Core/Models/NesPalette.cs:152-154 | indices 1..9 select their own preset; any other index selects the first |
| NesPalette.Resolved | src/NesExtractor.Core/Models/NesPalette.cs:120-167 | a resolved palette always has four slots |
| NesPalette.GetPalette | src/NesExtractor.Core/Models/NesPalette.cs:120-167 | the array the resolver fills equals Resolved; it has four slots, and index 0 gives the greyscale table (transparent variant when asked) |
| NesPalette.TablesWellFormed | src/NesExtractor.Core/Models/NesPalette.cs:16-112 | the table has 64 opaque entries, the greyscale tables have four, and only the transparent one starts with Empty |
| NesPalette.FallbackToFirstPreset | src/NesExtractor.Core/Models/NesPalette.cs:152-154 | an index below 0 or above 9 resolves exactly as index 1 |
| NesPalette.EmptyOnlyInTransparentSlotZero | src/NesExtractor.Core/Models/NesPalette.cs:160-165 | slot 0 is Empty iff transparency is asked for, and slots 1..3 are never Empty |
| NesPalette.PresetColorsFromStandard | src/NesExtractor.Core/Models/NesPalette.cs:156-165 | for a non-zero index every non-Empty slot is a table colour, and slots 1..3 are the preset's table entries |
| NesPalette.FirstPresetsDiffer | tests/NesExtractor.Tests/NesPaletteTests.cs:105-123 | palettes 1 and 2 differ |
| Canvas.Clear | src/NesExtractor.Core/Services/ChrRomExtractor.cs:87 | every pixel of the bitmap becomes the colour |
| Canvas.FillRect | src/NesExtractor.Core/Services/ChrRomExtractor.cs:100 | the pixels of the rectangle become the colour and every other pixel is unchanged |
| ChrRomExtractor.TileCount | src/NesExtractor.Core/Services/ChrRomExtractor.cs:51-55 | null holds no tile; otherwise the count is the largest n with 16n bytes in the buffer |
| ChrRomExtractor.TileBytes | src/NesExtractor.Core/Services/ChrRomExtractor.cs:59-61 | the bytes of one tile are 16 long |
| ChrRomExtractor.ExtractTiles | src/NesExtractor.Core/Services/ChrRomExtractor.cs:49-68 | there are floor(len/16) tiles (none for null or empty), in order; tile i has index i and is the decoding of bytes 16i..16i+15 |
| ChrRomExtractor.Painted | src/NesExtractor.Core/Services/ChrRomExtractor.cs:93-101 | a value that indexes the palette at a non-Empty colour is painted in that colour; any other value leaves what was under it |
| ChrRomExtractor.TilePixel | src/NesExtractor.Core/Services/ChrRomExtractor.cs:163-184 | offset (ly, lx) of a tile drawn at a scale shows the tile pixel at (ly / scale, lx / scale) |
| ChrRomExtractor.EffectivePalette | src/NesExtractor.Core/Services/ChrRomExtractor.cs:78 | a missing palette means greyscale; a given one is used as is |
| ChrRomExtractor.PaintTile | src/NesExtractor.Core/Services/ChrRomExtractor.cs:89-104 | inside the tile's square each pixel shows the palette colour of the value of the tile pixel whose block holds it, unless that value is out of range or Empty; outside the square nothing changes |
| ChrRomExtractor.PaintTileRow | src/NesExtractor.Core/Services/ChrRomExtractor.cs:91-103 | one pass of the outer loop paints exactly the pixels of block row ty, as PaintTile says |
| ChrRomExtractor.PaintBlock | src/NesExtractor.Core/Services/ChrRomExtractor.cs:167-185 | the scale x scale block is filled with the value's colour unless the value is out of range or its colour is Empty; with or without transparency the effect is the same |
| ChrRomExtractor.ClearColor | src/NesExtractor.Core/Services/ChrRomExtractor.cs:87 | the clear colour is palette entry 0; when that entry is Empty the clear colour is SKColors.Transparent (white, alpha 0), which the premultiplied bitmap stores as the all-zero pixel, that is Empty |
| ChrRomExtractor.TileToBitmap | src/NesExtractor.Core/Services/ChrRomExtractor.cs:76-107 | a fresh (8 scale) x (8 scale) bitmap; each pixel shows the palette colour of its tile pixel, or palette entry 0 when the value is out of range or its colour is Empty; no palette means greyscale |
| ChrRomExtractor.CheckSize | src/NesExtractor.Core/Services/ChrRomExtractor.cs:212 | the checker square is max(scale, 2) |
| ChrRomExtractor.DrawCheckerboard | src/NesExtractor.Core/Services/ChrRomExtractor.cs:207-223 | the size x size square becomes squares of side CheckSize, light where column + row is even and dark elsewhere; nothing outside changes |
| ChrRomExtractor.DrawCheckerRow | src/NesExtractor.Core/Services/ChrRomExtractor.cs:216-221 | one pass of the outer loop paints exactly checker row cy |
| ChrRomExtractor.RowCount | src/NesExtractor.Core/Services/ChrRomExtractor.cs:134 | the row count is the ceiling of count / tilesPerRow |
| ChrRomExtractor.SheetWidth | src/NesExtractor.Core/Services/ChrRomExtractor.cs:135 | the sheet is at least one scaled tile wide |
| ChrRomExtractor.SheetHeight | src/NesExtractor.Core/Services/ChrRomExtractor.cs:136 | the sheet is at least one scaled tile high |
| ChrRomExtractor.TileAt | src/NesExtractor.Core/Services/ChrRomExtractor.cs:146-152 | a pixel that shows a tile names an existing tile and an offset inside the scaled tile |
| ChrRomExtractor.OriginX | src/NesExtractor.Core/Services/ChrRomExtractor.cs:149-151 | tile i's left edge is the first pixel of the cell of its column i % tilesPerRow; FootprintInside keeps the footprint inside the sheet |
| ChrRomExtractor.OriginY | src/NesExtractor.Core/Services/ChrRomExtractor.cs:148-152 | tile i's top edge is the first pixel of the cell of its row i / tilesPerRow; FootprintInside keeps the footprint inside the sheet |
| ChrRomExtractor.Checkered | src/NesExtractor.Core/Services/ChrRomExtractor.cs:157 | the checkerboard is drawn iff transparency is on and palette entry 0 is Empty |
| ChrRomExtractor.Borders | src/NesExtractor.Core/Services/ChrRomExtractor.cs:191-198 | one outline per tile, in order, at the tile's origin and of the scaled tile size |
| ChrRomExtractor.CreateTileSheet | src/NesExtractor.Core/Services/ChrRomExtractor.cs:118-202 | fails iff the tile list is null or empty; otherwise a fresh width x height bitmap whose every pixel is SheetPixel, with an outline for each tile iff spacing > 0 |
| ChrRomExtractor.DrawTiles | src/NesExtractor.Core/Services/ChrRomExtractor.cs:146-199 | drawing the tiles in order on the cleared sheet gives SheetPixel everywhere, and the outlines of all tiles when spaced |
| ChrRomExtractor.DrawSheetTile | src/NesExtractor.Core/Services/ChrRomExtractor.cs:147-188 | tile i goes to its origin, and the sheet then shows the first i + 1 tiles |
| ChrRomExtractor.TileAtIff | src/NesExtractor.Core/Services/ChrRomExtractor.cs:146-152 | a pixel is in tile i's footprint iff TileAt names tile i for it, with the offset from i's origin |
| ChrRomExtractor.SheetPixel | src/NesExtractor.Core/Services/ChrRomExtractor.cs:131-188 | a pixel differs from the background only where TileAt names one of the tiles drawn so far; SheetShowsTile and SheetBackground give its colour |
| ChrRomExtractor.CellSpan | src/NesExtractor.Core/Services/ChrRomExtractor.cs:151-152 | a coordinate lies in the drawn part of cell k iff it counts k whole cells and its offset in the cell is below the tile size |
| ChrRomExtractor.GridIndex | src/NesExtractor.Core/Services/ChrRomExtractor.cs:148-149 | row r, column c of a grid n wide holds item i iff r = i / n and c = i % n |
| ChrRomExtractor.SheetShowsTile | src/NesExtractor.Core/Services/ChrRomExtractor.cs:163-188 | a footprint pixel of tile i shows i's palette colour, or what lies under it (checkerboard or background) when the value is out of range or Empty |
| ChrRomExtractor.SheetBackground | src/NesExtractor.Core/Services/ChrRomExtractor.cs:142 | a pixel outside every footprint keeps the background colour (32, 32, 32) |
| ChrRomExtractor.BlockOfIsDivision | src/NesExtractor.Core/Services/ChrRomExtractor.cs:148-149 | counting whole blocks is integer division and the offset is the remainder |
| ChrRomExtractor.SheetExamples | tests/NesExtractor.Tests/ChrRomExtractorTests.cs:239-259 | four tiles two per row at scale 2 give a 34 x 34 sheet with spacing 2 and 32 x 32 without; 56 bytes hold 3 tiles and an 8 KiB bank holds 512 |
| ChrRomExtractor.BlockSplit | src/NesExtractor.Core/Services/ChrRomExtractor.cs:148-149 | a coordinate is its whole blocks times the block size plus an offset below the block size |
| ChrRomExtractor.FootprintInside | src/NesExtractor.Core/Services/ChrRomExtractor.cs:131-152 | every tile's footprint lies inside the sheet |
| ChrRomExtractor.FootprintsDisjoint | src/NesExtractor.Core/Services/ChrRomExtractor.cs:146-152 | footprints of two different tiles share no pixel |
| ChrRomExtractor.WidthMonotoneInSpacing | src/NesExtractor.Core/Services/ChrRomExtractor.cs:135 | widening the spacing never narrows the sheet |
| ChrRomExtractor.CheckSizeDivides | src/NesExtractor.Core/Services/ChrRomExtractor.cs:212-216 | the checker square divides the scaled tile, so the squares tile the footprint exactly |
| ChrRomExtractor.BlockIff | src/NesExtractor.Core/Services/ChrRomExtractor.cs:100 | offset v lies in block k iff it is one of the scale offsets starting at k times scale |
| ChrRomExtractor.BlockInTile | src/NesExtractor.Core/Services/ChrRomExtractor.cs:89-91 | every offset inside a scaled tile lies in one of its 8 blocks |

## Left out

- Async and I/O: the `async` wrappers and `FileStream`. Streams and files are given as byte sequences, and `File.Exists` is given as a file that is present or missing.
- The probe's catch-all: the model cannot throw, so the `catch` that returns false has nothing to catch.
- ParseFile, IsNesFile: `string.IsNullOrWhiteSpace` is modelled with the six ASCII white-space characters only, and lower-casing with ASCII letters only.
- GetFileName, Extension: only '/' is a separator. The back-slash handling of `Path.GetFileName` on Windows is not modelled.
- PNG encoding, `ExportTileSheet` and `ExportTilesIndividually` (src/NesExtractor.Core/Services/ChrRomExtractor.cs:228-262) are left out. They are codec and file-system work.
- The image record's `ToString` and the palette display names `PaletteNames` are left out. They are display strings. The unknown mapper name carries its number rather than the formatted text "Unknown (#n)".
- GetUsedColors: returns a set. The order of the array produced from the hash set is not modelled.
- Bitmap pixel format: a pixel is a `Color` value. The RGBA8888 premultiplied storage is not modelled, except that the clear colour `SKColors.Transparent` (white, alpha 0) is stored premultiplied as the all-zero pixel, which is `Empty`; the model clears to `Empty`.
- CreateTileSheet: the tile outlines are not rasterised, because they are stroked with a half-pixel offset and a 1.0 float stroke width, with anti-aliasing off. Such an aliased 1-pixel stroke of the square at (x - 0.5, y - 0.5) with side 8 scale covers column x - 1 and row y - 1, and also the tile's own last column and last row. So when spacing > 0, SheetShowsTile does not describe the finished sheet's pixels in a tile's last column and last row. Each outline is returned as a `Border` value (left, top, size) instead, one per tile iff spacing > 0. The pixel contract holds for the sheet before the outlines are stroked.
- FillRect: the canvas clips rectangles to the bitmap, and the model instead requires every rectangle to lie inside. The model proves that every rectangle the extractor draws does lie inside.
- CreateTileSheet: tilesPerRow is required to be at least 1. The source divides by zero otherwise. The row count is integer ceiling division in place of `Math.Ceiling` over a double.
- CreateTileSheet, TileToBitmap: scale and spacing are natural numbers. Negative values, which the source would pass to the bitmap constructor, are not modelled.
- CreateTileSheet: the bitmap must not share storage with a tile's pixel grid. The model requires this (it holds for a fresh bitmap).
- TileToBitmap, CreateTileSheet: a given palette must be non-empty wherever entry 0 is read. The source throws an index exception there.
- GetPalette: the greyscale tables are returned as values. That the source returns the shared static arrays themselves, which a caller could mutate, is not modelled.
- The application's user interface (view models, views, localisation) is not part of this model.
