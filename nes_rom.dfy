/** A parsed cartridge image: header, optional trainer, PRG and CHR segments
    and the path it came from (src/NesExtractor.Core/Models/NesRom.cs). */
module NesRom {
  import opened Common
  import opened NesHeader

  datatype Rom = Rom(
    header: Header,
    trainer: Option<seq<byte>>,
    prgRom: seq<byte>,
    chrRom: seq<byte>,
    filePath: Option<string>)

  /** `new NesRom { FilePath = filePath }`: a default header, no trainer and
      empty PRG and CHR segments. */
  function NewRom(filePath: Option<string>): (r: Rom)
    ensures r.trainer == None && r.prgRom == [] && r.chrRom == []
    ensures r.header == NewHeader() && r.filePath == filePath
    ensures !RomIsValid(r)
  {
    Rom(NewHeader(), None, [], [], filePath)
  }

  const PathSeparator := '/'

  /** The last component of a path: what follows its last separator. */
  function GetFileName(path: string): (name: string)
    ensures |name| <= |path| && name == path[|path| - |name|..]
    ensures PathSeparator !in name
    ensures |name| < |path| ==> path[|path| - |name| - 1] == PathSeparator
    decreases |path|
  {
    if |path| == 0 || path[|path| - 1] == PathSeparator then ""
    else GetFileName(path[..|path| - 1]) + [path[|path| - 1]]
  }

  function FileName(r: Rom): (name: string)
    ensures r.filePath.None? ==> name == "Unknown"
    ensures r.filePath.Some? ==> |name| <= |r.filePath.value| && PathSeparator !in name
    ensures r.filePath.Some? ==> name == r.filePath.value[|r.filePath.value| - |name|..]
    ensures r.filePath.Some? ==> name == GetFileName(r.filePath.value)
  {
    if r.filePath.Some? then GetFileName(r.filePath.value) else "Unknown"
  }

  /** Header size, plus the trainer size the header's flag announces, plus the
      lengths of the two segments actually held. */
  function TotalFileSize(r: Rom): (n: int)
    ensures HeaderSize + |r.prgRom| + |r.chrRom| <= n <= HeaderSize + TrainerSize + |r.prgRom| + |r.chrRom|
  {
    HeaderSize + TrainerSizeInBytes(r.header) + |r.prgRom| + |r.chrRom|
  }

  predicate RomIsValid(r: Rom)
    ensures RomIsValid(r) <==> r.header.magic == Magic
  {
    IsValid(r.header)
  }

  /** The PRG bank count: the number of 16 KiB units the header declares. */
  function PrgRomBankCount(r: Rom): (n: int)
    ensures 0 <= n < 256 && n * PrgRomBlockSize == PrgRomSizeInBytes(r.header)
  {
    r.header.prgRomSize as int
  }

  /** The CHR bank count: the number of 8 KiB units the header declares. */
  function ChrRomBankCount(r: Rom): (n: int)
    ensures 0 <= n < 256 && n * ChrRomBlockSize == ChrRomSizeInBytes(r.header)
  {
    r.header.chrRomSize as int
  }

  /** The trainer term of the total size comes from the header flag, never
      from the trainer bytes held. */
  lemma TotalFileSizeIgnoresTrainerBytes(r: Rom, t: Option<seq<byte>>)
    ensures TotalFileSize(r.(trainer := t)) == TotalFileSize(r)
    ensures TotalFileSize(r) - |r.prgRom| - |r.chrRom| == if HasTrainer(r.header) then 528 else 16
  {
  }

  /** The size examples: a trainer with two PRG banks and one CHR bank make
      41488 bytes; no trainer with one bank of each makes 24592. */
  lemma TotalFileSizeExamples(h: Header, prg: seq<byte>, chr: seq<byte>, prg2: seq<byte>)
    requires |prg| == PrgRomBlockSize && |prg2| == 2 * PrgRomBlockSize && |chr| == ChrRomBlockSize
    ensures TotalFileSize(Rom(h.(flags6 := 0x04, prgRomSize := 2, chrRomSize := 1), None, prg2, chr, None)) == 41488
    ensures TotalFileSize(Rom(h.(flags6 := 0x00, prgRomSize := 1, chrRomSize := 1), None, prg, chr, None)) == 24592
  {
  }

  /** The last component is the only suffix that holds no separator and
      starts the path or follows a separator. */
  lemma GetFileNameUnique(path: string, s: string)
    requires |s| <= |path| && s == path[|path| - |s|..] && PathSeparator !in s
    requires |s| < |path| ==> path[|path| - |s| - 1] == PathSeparator
    ensures GetFileName(path) == s
  {
    var name := GetFileName(path);
    assert |name| == |s|;
  }

  /** The file-name examples: "/path/to/game.nes" names "game.nes". */
  lemma FileNameExamples()
    ensures FileName(NewRom(Some("/path/to/game.nes"))) == "game.nes"
    ensures FileName(NewRom(None)) == "Unknown"
  {
    GetFileNameUnique("/path/to/game.nes", "game.nes");
  }
}
