/** Reading a cartridge image from a byte stream, and the cheap "looks like a
    cartridge image" probe (src/NesExtractor.Core/Parsers/NesRomParser.cs).
    A stream is its bytes; the file system is a path plus the file's bytes,
    if the file exists. */
module NesRomParser {
  import opened Common
  import opened NesHeader
  import opened NesRom

  /** The stream handed to the parser: null, or a readable or unreadable
      sequence of bytes. */
  datatype Stream = NullStream | Stream(canRead: bool, data: seq<byte>)

  /** The exceptions the parser throws, one constructor per throw site. */
  datatype ParseError =
    | ArgumentNull
    | NotReadable
    | FileNotFound
    | EndOfStream
    | MagicMismatch
    | IncompleteTrainer(expected: nat)
    | IncompletePrg(expected: nat, got: nat)
    | IncompleteChr(expected: nat, got: nat)

  /** A forward-only reader over the stream's bytes. */
  class BinaryReader {
    const data: seq<byte>
    var position: nat

    ghost predicate Valid()
      reads this
    {
      position <= |data|
    }

    constructor (data: seq<byte>)
      ensures this.data == data && position == 0 && Valid()
    {
      this.data := data;
      position := 0;
    }

    /** Reads up to `count` bytes; fewer only when the stream ends first. */
    method ReadBytes(count: nat) returns (bytes: seq<byte>)
      requires Valid()
      modifies this
      ensures Valid()
      ensures |bytes| == Min(count, |data| - old(position))
      ensures position == old(position) + |bytes|
      ensures bytes == data[old(position)..position]
    {
      var n := Min(count, |data| - position);
      bytes := data[position..position + n];
      position := position + n;
    }

    /** Reads one byte; `None` is the end-of-stream exception. */
    method ReadByte() returns (b: Option<byte>)
      requires Valid()
      modifies this
      ensures Valid()
      ensures old(position) < |data| ==> b == Some(data[old(position)]) && position == old(position) + 1
      ensures old(position) == |data| ==> b == None && position == old(position)
    {
      if position == |data| {
        return None;
      }
      b := Some(data[position]);
      position := position + 1;
    }
  }

  /** What `ReadBytes(count)` returns at offset `pos`. */
  function Take(data: seq<byte>, pos: nat, count: nat): (bytes: seq<byte>)
    requires pos <= |data|
    ensures |bytes| == Min(count, |data| - pos)
    ensures bytes == data[pos..pos + |bytes|]
  {
    data[pos..Min(pos + count, |data|)]
  }

  /** The header the reader assembles from the start of `data`: four magic
      bytes, seven single bytes, then up to five padding bytes. Fewer than 11
      bytes run a single-byte read past the end. */
  function DecodeHeader(data: seq<byte>): (r: Result<Header, ParseError>)
    ensures r.Failure? <==> |data| < 11
    ensures r.Failure? ==> r.error == EndOfStream
  {
    if |data| < 11 then Failure(EndOfStream)
    else Success(Header(data[..MagicSize], data[4], data[5], data[6], data[7], data[8], data[9], data[10],
                        Take(data, 11, PaddingSize)))
  }

  /** The 16 bytes a header is stored as. */
  function HeaderBytes(h: Header): seq<byte>
  {
    h.magic + [h.prgRomSize, h.chrRomSize, h.flags6, h.flags7, h.flags8, h.flags9, h.flags10] + h.padding
  }

  /** Where the reader stands after the header. */
  function HeaderEnd(data: seq<byte>): (pos: nat)
    ensures pos <= |data| && pos <= HeaderSize
    ensures |data| >= HeaderSize ==> pos == HeaderSize
  {
    Min(HeaderSize, |data|)
  }

  /** Reading a segment of `size` bytes at `pos`: its bytes, or `None` when
      the stream ends first. A segment of size 0 is not read at all. */
  function ReadSegment(data: seq<byte>, pos: nat, size: nat): (seg: Option<seq<byte>>)
    requires pos <= |data|
    ensures seg.Some? <==> pos + size <= |data|
    ensures seg.Some? ==> seg.value == data[pos..pos + size]
  {
    if size == 0 then Some([])
    else
      var bytes := Take(data, pos, size);
      if |bytes| == size then Some(bytes) else None
  }

  /** The outcome of parsing a stream: the first failing step's error, or the
      image built from the header, the trainer (only when flagged), the PRG
      segment (only when its size is non-zero) and the CHR segment (likewise).
      Bytes after the CHR segment are ignored. */
  function ParseResult(s: Stream, filePath: Option<string>): (r: Result<Rom, ParseError>)
    ensures s.NullStream? ==> r == Failure(ArgumentNull)
    ensures s.Stream? && !s.canRead ==> r == Failure(NotReadable)
    ensures r.Success? ==> IsValid(r.value.header) && r.value.filePath == filePath
  {
    if s.NullStream? then Failure(ArgumentNull)
    else if !s.canRead then Failure(NotReadable)
    else ParseData(s.data, filePath)
  }

  /** The three segments that follow the header. */
  datatype Segments = Segments(trainer: seq<byte>, prg: seq<byte>, chr: seq<byte>)

  /** Parsing the bytes of a readable stream: the header, its magic check,
      then the segments the header declares. */
  function ParseData(data: seq<byte>, filePath: Option<string>): Result<Rom, ParseError>
  {
    match DecodeHeader(data)
    case Failure(e) => Failure(e)
    case Success(h) =>
      if !IsValid(h) then Failure(MagicMismatch)
      else
        match SegmentsAt(data, HeaderEnd(data), TrainerSizeInBytes(h), PrgRomSizeInBytes(h), ChrRomSizeInBytes(h))
        case Failure(e) => Failure(e)
        case Success(seg) =>
          Success(Rom(h, if HasTrainer(h) then Some(seg.trainer) else None, seg.prg, seg.chr, filePath))
  }

  /** Reading the trainer, the PRG segment and the CHR segment, in that order,
      from offset `p0`; a segment of size 0 is skipped. */
  function SegmentsAt(data: seq<byte>, p0: nat, trainerSize: nat, prgSize: nat, chrSize: nat): Result<Segments, ParseError>
    requires p0 <= |data|
  {
    match ReadSegment(data, p0, trainerSize)
    case None => Failure(IncompleteTrainer(trainerSize))
    case Some(trainer) =>
      var p1 := p0 + trainerSize;
      match ReadSegment(data, p1, prgSize)
      case None => Failure(IncompletePrg(prgSize, |data| - p1))
      case Some(prg) =>
        var p2 := p1 + prgSize;
        match ReadSegment(data, p2, chrSize)
        case None => Failure(IncompleteChr(chrSize, |data| - p2))
        case Some(chr) => Success(Segments(trainer, prg, chr))
  }

  /** `ReadHeader`: fills a header from the reader's next bytes. */
  method ReadHeader(reader: BinaryReader) returns (r: Result<Header, ParseError>)
    requires reader.Valid() && reader.position == 0
    modifies reader
    ensures reader.Valid()
    ensures r == DecodeHeader(reader.data)
    ensures r.Success? ==> reader.position == HeaderEnd(reader.data)
  {
    var magic := reader.ReadBytes(MagicSize);
    var prg := reader.ReadByte();
    if prg.None? { return Failure(EndOfStream); }
    var chr := reader.ReadByte();
    if chr.None? { return Failure(EndOfStream); }
    var f6 := reader.ReadByte();
    if f6.None? { return Failure(EndOfStream); }
    var f7 := reader.ReadByte();
    if f7.None? { return Failure(EndOfStream); }
    var f8 := reader.ReadByte();
    if f8.None? { return Failure(EndOfStream); }
    var f9 := reader.ReadByte();
    if f9.None? { return Failure(EndOfStream); }
    var f10 := reader.ReadByte();
    if f10.None? { return Failure(EndOfStream); }
    var padding := reader.ReadBytes(PaddingSize);
    assert magic == reader.data[..MagicSize];
    assert padding == Take(reader.data, 11, PaddingSize);
    r := Success(Header(magic, prg.value, chr.value, f6.value, f7.value, f8.value, f9.value, f10.value, padding));
  }

  /** `ParseAsync`: argument checks, header, magic check, then the trainer,
      PRG and CHR segments, each read only when present and each required to
      be complete. */
  method Parse(s: Stream, filePath: Option<string>) returns (r: Result<Rom, ParseError>)
    ensures r == ParseResult(s, filePath)
  {
    if s.NullStream? {
      return Failure(ArgumentNull);
    }
    if !s.canRead {
      return Failure(NotReadable);
    }
    var reader := new BinaryReader(s.data);
    var rom := NewRom(filePath);
    var header := ReadHeader(reader);
    if header.Failure? {
      return Failure(header.error);
    }
    var h := header.value;
    rom := rom.(header := h);
    if !IsValid(h) {
      return Failure(MagicMismatch);
    }
    var segments := ReadSegments(reader, TrainerSizeInBytes(h), PrgRomSizeInBytes(h), ChrRomSizeInBytes(h));
    if segments.Failure? {
      return Failure(segments.error);
    }
    if HasTrainer(h) {
      rom := rom.(trainer := Some(segments.value.trainer));
    }
    rom := rom.(prgRom := segments.value.prg, chrRom := segments.value.chr);
    return Success(rom);
  }

  /** The trainer, PRG and CHR reads of `ParseAsync`: each segment of non-zero
      size is read and must come back complete. */
  method ReadSegments(reader: BinaryReader, trainerSize: nat, prgSize: nat, chrSize: nat)
    returns (r: Result<Segments, ParseError>)
    requires reader.Valid()
    modifies reader
    ensures r == SegmentsAt(reader.data, old(reader.position), trainerSize, prgSize, chrSize)
  {
    var trainer := ReadSegmentBytes(reader, trainerSize);
    if |trainer| != trainerSize {
      return Failure(IncompleteTrainer(trainerSize));
    }
    var prg := ReadSegmentBytes(reader, prgSize);
    if |prg| != prgSize {
      return Failure(IncompletePrg(prgSize, |prg|));
    }
    var chr := ReadSegmentBytes(reader, chrSize);
    if |chr| != chrSize {
      return Failure(IncompleteChr(chrSize, |chr|));
    }
    return Success(Segments(trainer, prg, chr));
  }

  /** One segment read: nothing for size 0, otherwise `ReadBytes(size)`. The
      read is complete iff the stream holds the segment, and a short read
      returns what was left. */
  method ReadSegmentBytes(reader: BinaryReader, size: nat) returns (bytes: seq<byte>)
    requires reader.Valid()
    modifies reader
    ensures reader.Valid()
    ensures |bytes| == size <==> ReadSegment(reader.data, old(reader.position), size).Some?
    ensures |bytes| == size ==>
      bytes == ReadSegment(reader.data, old(reader.position), size).value && reader.position == old(reader.position) + size
    ensures |bytes| != size ==> |bytes| == |reader.data| - old(reader.position)
  {
    bytes := [];
    if size > 0 {
      bytes := reader.ReadBytes(size);
    }
  }

  /** The path is null, empty or only white space (ASCII white space). */
  predicate IsNullOrWhiteSpace(path: Option<string>)
    ensures path == Some("") ==> IsNullOrWhiteSpace(path)
    ensures path.Some? && (exists i :: 0 <= i < |path.value| && ('a' <= path.value[i] <= 'z' || path.value[i] == '.'))
      ==> !IsNullOrWhiteSpace(path)
  {
    path.None? || forall i :: 0 <= i < |path.value| ==> path.value[i] in {' ', '\t', '\n', '\r', '\U{000B}', '\U{000C}'}
  }

  /** `ParseFileAsync`: a blank path is an argument error, a missing file is
      not-found, otherwise the file's bytes are parsed as a readable stream. */
  method ParseFile(path: Option<string>, file: Option<seq<byte>>) returns (r: Result<Rom, ParseError>)
    ensures IsNullOrWhiteSpace(path) ==> r == Failure(ArgumentNull)
    ensures !IsNullOrWhiteSpace(path) && file.None? ==> r == Failure(FileNotFound)
    ensures !IsNullOrWhiteSpace(path) && file.Some? ==> r == ParseResult(Stream(true, file.value), path)
  {
    if IsNullOrWhiteSpace(path) {
      return Failure(ArgumentNull);
    }
    if file.None? {
      return Failure(FileNotFound);
    }
    r := Parse(Stream(true, file.value), path);
  }

  /** ASCII lower-casing. */
  function ToLower(c: char): (l: char)
    ensures 'A' <= c <= 'Z' ==> l as int == c as int + 32
    ensures !('A' <= c <= 'Z') ==> l == c
  {
    if 'A' <= c <= 'Z' then (c as int + 32) as char else c
  }

  function ToLowerString(s: string): (l: string)
    ensures |l| == |s| && forall i :: 0 <= i < |s| ==> l[i] == ToLower(s[i])
  {
    seq(|s|, i requires 0 <= i < |s| => ToLower(s[i]))
  }

  /** `Path.GetExtension`: scanning back from the end, the text from the
      last '.' that is not preceded (to its right) by a separator; empty
      when there is none or when the '.' is the last character. */
  function Extension(path: string): (ext: string)
    ensures |ext| <= |path|
    ensures ext == [] || (|ext| >= 2 && ext[0] == '.' && ext == path[|path| - |ext|..])
  {
    ExtensionFrom(path, |path|)
  }

  /** The extension scan over positions i-1 down to 0. */
  function ExtensionFrom(path: string, i: nat): (ext: string)
    requires i <= |path|
    ensures |ext| <= |path|
    ensures ext == [] || (|ext| >= 2 && ext[0] == '.' && ext == path[|path| - |ext|..])
    decreases i
  {
    if i == 0 then []
    else if path[i - 1] == '.' then (if i == |path| then [] else path[i - 1..])
    else if path[i - 1] == PathSeparator then []
    else ExtensionFrom(path, i - 1)
  }

  /** `IsNesFileAsync`: false for a blank path or a missing file; otherwise
      true iff the extension is ".nes" in any letter case, the file holds at
      least a header's worth of bytes and its first four are the signature. */
  function IsNesFile(path: Option<string>, file: Option<seq<byte>>): (b: bool)
    ensures b ==> path.Some? && file.Some? && |file.value| >= HeaderSize && file.value[..MagicSize] == Magic
  {
    if IsNullOrWhiteSpace(path) then false
    else if file.None? then false
    else if ToLowerString(Extension(path.value)) != ".nes" then false
    else if |file.value| < HeaderSize then false
    else
      var magic := Take(file.value, 0, MagicSize);
      // 'N', 'E', 'S', 0x1A
      |magic| == MagicSize && magic[0] == 0x4E && magic[1] == 0x45 &&
      magic[2] == 0x53 && magic[3] == MagicByte
  }

  /** The path's last four characters are '.' followed by n, e, s in either
      case. */
  predicate HasNesSuffix(p: string)
  {
    |p| >= 4 && p[|p| - 4] == '.' && (p[|p| - 3] == 'n' || p[|p| - 3] == 'N') &&
    (p[|p| - 2] == 'e' || p[|p| - 2] == 'E') && (p[|p| - 1] == 's' || p[|p| - 1] == 'S')
  }

  /** A path ending in ".nes" (any case) has its last four characters as
      extension. */
  lemma NesSuffixExtension(p: string)
    requires HasNesSuffix(p)
    ensures Extension(p) == p[|p| - 4..]
  {
    var n := |p|;
    ExtensionSkip(p, n);
    ExtensionSkip(p, n - 1);
    ExtensionSkip(p, n - 2);
    ExtensionAtDot(p, n - 3);
  }

  /** The scan passes over a character that is neither '.' nor a separator. */
  lemma ExtensionSkip(p: string, i: nat)
    requires 0 < i <= |p| && p[i - 1] != '.' && p[i - 1] != PathSeparator
    ensures ExtensionFrom(p, i) == ExtensionFrom(p, i - 1)
  {
  }

  /** The scan stops at a '.' that is not the last character. */
  lemma ExtensionAtDot(p: string, i: nat)
    requires 0 < i < |p| && p[i - 1] == '.'
    ensures ExtensionFrom(p, i) == p[i - 1..]
  {
  }

  /** '.' then n, e, s in either case lower-cases to ".nes". */
  lemma LowerNes(t: string)
    requires |t| == 4 && t[0] == '.' && (t[1] == 'n' || t[1] == 'N') && (t[2] == 'e' || t[2] == 'E') && (t[3] == 's' || t[3] == 'S')
    ensures ToLowerString(t) == ".nes"
  {
    var l := ToLowerString(t);
    assert l[0] == '.' && l[1] == 'n' && l[2] == 'e' && l[3] == 's';
  }

  /** An extension that lower-cases to ".nes" is the path's last four
      characters, '.' then n, e, s in either case. */
  lemma ExtensionNesSuffix(p: string)
    requires ToLowerString(Extension(p)) == ".nes"
    ensures HasNesSuffix(p)
  {
    var ext := Extension(p);
    assert |ext| == 4 && ext == p[|p| - 4..];
    assert ToLower(ext[1]) == 'n' && ToLower(ext[2]) == 'e' && ToLower(ext[3]) == 's';
  }

  /** The extension is exactly ".nes" after lower-casing iff the path ends in
      '.' and n, e, s in either case. */
  lemma NesExtensionIff(p: string)
    ensures ToLowerString(Extension(p)) == ".nes" <==> HasNesSuffix(p)
  {
    if HasNesSuffix(p) {
      NesSuffixExtension(p);
      LowerNes(p[|p| - 4..]);
    }
    if ToLowerString(Extension(p)) == ".nes" {
      ExtensionNesSuffix(p);
    }
  }

  /** The probe is true iff the path is given, the file exists, the name ends
      in ".nes" in any case, and the file holds at least 16 bytes starting
      with the signature. (A blank path cannot end in ".nes".) */
  lemma IsNesFileIff(path: Option<string>, file: Option<seq<byte>>)
    ensures IsNesFile(path, file) <==>
      path.Some? && file.Some? && HasNesSuffix(path.value) &&
      |file.value| >= HeaderSize && file.value[..MagicSize] == Magic
  {
    if path.Some? {
      NesExtensionIff(path.value);
      if HasNesSuffix(path.value) {
        var p := path.value;
        assert p[|p| - 1] !in {' ', '\t', '\n', '\r', '\U{000B}', '\U{000C}'};
      }
    }
    if file.Some? && |file.value| >= HeaderSize {
      var magic := Take(file.value, 0, MagicSize);
      assert magic == file.value[..MagicSize];
    }
  }

  /** Whatever the probe accepts, the parser gets past the header and its
      magic check. */
  lemma ProbeAcceptsHeader(path: Option<string>, file: Option<seq<byte>>)
    requires IsNesFile(path, file)
    ensures var r := ParseResult(Stream(true, file.value), path);
      r.Success? || r.error.IncompleteTrainer? || r.error.IncompletePrg? || r.error.IncompleteChr?
  {
    IsNesFileIff(path, file);
  }

  /** Reading the 16 stored bytes of a header gives back that header; extra
      bytes after it are not read. */
  lemma DecodeHeaderRoundTrip(h: Header, rest: seq<byte>)
    requires |h.magic| == MagicSize && |h.padding| == PaddingSize
    ensures DecodeHeader(HeaderBytes(h) + rest) == Success(h)
  {
    var data := HeaderBytes(h) + rest;
    assert data[..MagicSize] == h.magic;
    assert Take(data, 11, PaddingSize) == h.padding;
  }

  /** Every 16 bytes decode to a header stored as those same bytes. */
  lemma DecodeHeaderInverse(data: seq<byte>)
    requires |data| >= HeaderSize
    ensures DecodeHeader(data).Success?
    ensures HeaderBytes(DecodeHeader(data).value) == data[..HeaderSize]
  {
  }

  /** The size of the image the header declares: header, trainer (when
      flagged), PRG and CHR. */
  function DeclaredSize(h: Header): nat
  {
    HeaderSize + TrainerSizeInBytes(h) + PrgRomSizeInBytes(h) + ChrRomSizeInBytes(h)
  }

  /** Parsing succeeds iff the stream is non-null and readable, has the 11
      bytes up to Flags 10, starts with the signature and, unless the header
      declares nothing after itself, holds all the declared bytes. */
  lemma ParseSucceedsIff(s: Stream, filePath: Option<string>)
    ensures ParseResult(s, filePath).Success? <==>
      s.Stream? && s.canRead && |s.data| >= 11 && s.data[..MagicSize] == Magic &&
      var h := DecodeHeader(s.data).value;
      (DeclaredSize(h) == HeaderSize || |s.data| >= DeclaredSize(h))
  {
    if s.Stream? && s.canRead && |s.data| >= 11 {
      var h := DecodeHeader(s.data).value;
      assert h.magic == s.data[..MagicSize];
      if IsValid(h) {
        SegmentsAtSuccessIff(s.data, HeaderEnd(s.data), TrainerSizeInBytes(h), PrgRomSizeInBytes(h), ChrRomSizeInBytes(h));
      }
    }
  }

  /** The errors come in the order null, readable, header, magic, and only
      then the segment reads; each of the first four names its cause. */
  lemma ParseErrorsExplained(s: Stream, filePath: Option<string>)
    requires ParseResult(s, filePath).Failure?
    ensures var e := ParseResult(s, filePath).error;
      (e == ArgumentNull <==> s.NullStream?) &&
      (e == NotReadable <==> s.Stream? && !s.canRead) &&
      (e == EndOfStream <==> s.Stream? && s.canRead && |s.data| < 11) &&
      (e == MagicMismatch <==> s.Stream? && s.canRead && |s.data| >= 11 && s.data[..MagicSize] != Magic) &&
      !e.FileNotFound? &&
      (e.IncompleteTrainer? || e.IncompletePrg? || e.IncompleteChr? ==>
        s.Stream? && s.canRead && |s.data| >= 11 && s.data[..MagicSize] == Magic &&
        var h := DecodeHeader(s.data).value;
        SegmentsAt(s.data, HeaderEnd(s.data), TrainerSizeInBytes(h), PrgRomSizeInBytes(h), ChrRomSizeInBytes(h)) == Failure(e))
  {
    if s.Stream? && s.canRead && |s.data| >= 11 {
      var h := DecodeHeader(s.data).value;
      assert h.magic == s.data[..MagicSize];
    }
  }

  /** An image whose segments have exactly the sizes its header declares. */
  predicate WellFormedRom(r: Rom)
  {
    IsValid(r.header) && |r.header.padding| == PaddingSize &&
    (r.trainer.Some? <==> HasTrainer(r.header)) &&
    (r.trainer.Some? ==> |r.trainer.value| == TrainerSize) &&
    |r.prgRom| == PrgRomSizeInBytes(r.header) && |r.chrRom| == ChrRomSizeInBytes(r.header)
  }

  /** The bytes that follow the header: trainer (if held), PRG, CHR. */
  function SegmentBytes(r: Rom): seq<byte>
  {
    (if r.trainer.Some? then r.trainer.value else []) + r.prgRom + r.chrRom
  }

  /** The bytes of an image in file order. */
  function RomBytes(r: Rom): seq<byte>
  {
    HeaderBytes(r.header) + SegmentBytes(r)
  }

  /** The two halves of a slice that holds `a + b`. */
  lemma SliceOfConcat(data: seq<byte>, p: nat, a: seq<byte>, b: seq<byte>)
    requires p + |a| + |b| <= |data| && data[p..p + |a| + |b|] == a + b
    ensures data[p..p + |a|] == a && data[p + |a|..p + |a| + |b|] == b
  {
    assert data[p..p + |a|] == data[p..p + |a| + |b|][..|a|];
    assert data[p + |a|..p + |a| + |b|] == data[p..p + |a| + |b|][|a|..];
  }

  /** A slice made of two adjacent slices. */
  lemma ConcatOfSlices(data: seq<byte>, p: nat, q: nat, e: nat)
    requires p <= q <= e <= |data|
    ensures data[p..e] == data[p..q] + data[q..e]
  {
  }

  /** Segments laid out from `p0` on are read back as they were. */
  lemma {:induction false} SegmentsRoundTrip(data: seq<byte>, p0: nat, seg: Segments)
    requires p0 + |seg.trainer| + |seg.prg| + |seg.chr| <= |data|
    requires data[p0..p0 + |seg.trainer| + |seg.prg| + |seg.chr|] == seg.trainer + seg.prg + seg.chr
    ensures SegmentsAt(data, p0, |seg.trainer|, |seg.prg|, |seg.chr|) == Success(seg)
  {
    SliceOfConcat(data, p0, seg.trainer + seg.prg, seg.chr);
    SliceOfConcat(data, p0, seg.trainer, seg.prg);
  }

  /** Reading the segments succeeds iff the input holds all of them; then
      they have the sizes asked for and are consecutive slices from `p0`. */
  lemma {:induction false} SegmentsAtSuccessIff(data: seq<byte>, p0: nat, ts: nat, ps: nat, cs: nat)
    requires p0 <= |data|
    ensures SegmentsAt(data, p0, ts, ps, cs).Success? <==> p0 + ts + ps + cs <= |data|
    ensures SegmentsAt(data, p0, ts, ps, cs).Success? ==>
      var seg := SegmentsAt(data, p0, ts, ps, cs).value;
      |seg.trainer| == ts && |seg.prg| == ps && |seg.chr| == cs &&
      data[p0..p0 + ts + ps + cs] == seg.trainer + seg.prg + seg.chr
  {
    if p0 + ts + ps + cs <= |data| {
      ConcatOfSlices(data, p0, p0 + ts, p0 + ts + ps);
      ConcatOfSlices(data, p0, p0 + ts + ps, p0 + ts + ps + cs);
    }
  }

  /** A failed segment read names the first short segment, its size and the
      fewer bytes that were left for it. */
  lemma SegmentsAtErrors(data: seq<byte>, p0: nat, ts: nat, ps: nat, cs: nat)
    requires p0 <= |data|
    requires SegmentsAt(data, p0, ts, ps, cs).Failure?
    ensures var e := SegmentsAt(data, p0, ts, ps, cs).error;
      (e == IncompleteTrainer(ts) <==> p0 + ts > |data|) &&
      (e.IncompletePrg? <==> p0 + ts <= |data| < p0 + ts + ps) &&
      (e.IncompletePrg? ==> e.expected == ps && e.got == |data| - p0 - ts < ps) &&
      (e.IncompleteChr? <==> p0 + ts + ps <= |data| < p0 + ts + ps + cs) &&
      (e.IncompleteChr? ==> e.expected == cs && e.got == |data| - p0 - ts - ps < cs)
  {
  }

  /** Storing a well-formed image, appending anything, and parsing the result
      gives the image back. */
  lemma ParseRoundTrip(r: Rom, rest: seq<byte>)
    requires WellFormedRom(r)
    ensures ParseResult(Stream(true, RomBytes(r) + rest), r.filePath) == Success(r)
  {
    var data := RomBytes(r) + rest;
    var seg := Segments(if r.trainer.Some? then r.trainer.value else [], r.prgRom, r.chrRom);
    var tail := SegmentBytes(r);
    assert data == HeaderBytes(r.header) + (tail + rest);
    DecodeHeaderRoundTrip(r.header, tail + rest);
    assert data[HeaderSize..HeaderSize + |tail|] == tail;
    SegmentsRoundTrip(data, HeaderSize, seg);
  }

  /** A parsed image is well formed, keeps the path, carries the header read
      from the input, and its segments are the input's bytes after the header. */
  lemma ParsedImageParts(data: seq<byte>, filePath: Option<string>)
    requires |data| >= HeaderSize
    requires ParseResult(Stream(true, data), filePath).Success?
    ensures var r := ParseResult(Stream(true, data), filePath).value;
      WellFormedRom(r) && r.filePath == filePath && r.header == DecodeHeader(data).value &&
      HeaderSize + |SegmentBytes(r)| <= |data| &&
      data[HeaderSize..HeaderSize + |SegmentBytes(r)|] == SegmentBytes(r)
  {
    var h := DecodeHeader(data).value;
    var ts, ps, cs := TrainerSizeInBytes(h), PrgRomSizeInBytes(h), ChrRomSizeInBytes(h);
    assert HeaderEnd(data) == HeaderSize;
    SegmentsAtSuccessIff(data, HeaderSize, ts, ps, cs);
    var seg := SegmentsAt(data, HeaderSize, ts, ps, cs).value;
    var r := Rom(h, if HasTrainer(h) then Some(seg.trainer) else None, seg.prg, seg.chr, filePath);
    assert ParseResult(Stream(true, data), filePath) == Success(r);
    assert SegmentBytes(r) == seg.trainer + seg.prg + seg.chr;
  }

  /** A parsed image with a complete header is well formed, its stored form is
      the prefix of the input it was read from, and that prefix is as long as
      its total file size. */
  lemma ParsedImageIsPrefix(data: seq<byte>, filePath: Option<string>)
    requires |data| >= HeaderSize
    requires ParseResult(Stream(true, data), filePath).Success?
    ensures var r := ParseResult(Stream(true, data), filePath).value;
      WellFormedRom(r) && r.filePath == filePath &&
      TotalFileSize(r) <= |data| && RomBytes(r) == data[..TotalFileSize(r)]
  {
    ParsedImageParts(data, filePath);
    DecodeHeaderInverse(data);
    var r := ParseResult(Stream(true, data), filePath).value;
    var n := HeaderSize + |SegmentBytes(r)|;
    assert TotalFileSize(r) == n;
    ConcatOfSlices(data, 0, HeaderSize, n);
    assert data[..n] == data[0..n];
  }

  /** The NROM-style header of the examples: one 16 KiB PRG bank, one 8 KiB
      CHR bank, no flags. */
  const NromHeader: seq<byte> := Magic + [1, 1, 0, 0, 0, 0, 0, 0, 0, 0, 0, 0]

  /** A 16-byte NROM-style header declaring one 16 KiB PRG bank and one 8 KiB
      CHR bank parses, from exactly 16 + 16384 + 8192 bytes, into segments of
      those sizes. */
  lemma ParseExample(prg: seq<byte>, chr: seq<byte>)
    requires |prg| == PrgRomBlockSize && |chr| == ChrRomBlockSize
    ensures var r := ParseResult(Stream(true, NromHeader + prg + chr), None);
      r.Success? && r.value.trainer.None? && r.value.prgRom == prg && r.value.chrRom == chr
  {
    var h := Header(Magic, 1, 1, 0, 0, 0, 0, 0, [0, 0, 0, 0, 0]);
    var r := Rom(h, None, prg, chr, None);
    assert RomBytes(r) + [] == NromHeader + prg + chr;
    ParseRoundTrip(r, []);
  }

  /** The same image one byte short is a short CHR segment: 8192 bytes
      expected, 8191 left. */
  lemma ParseExampleShort(prg: seq<byte>, chr: seq<byte>)
    requires |prg| == PrgRomBlockSize && |chr| == ChrRomBlockSize
    ensures var data := NromHeader + prg + chr;
      ParseResult(Stream(true, data[..|data| - 1]), None) == Failure(IncompleteChr(ChrRomBlockSize, ChrRomBlockSize - 1))
  {
    var data := NromHeader + prg + chr;
    var short := data[..|data| - 1];
    assert short[..HeaderSize] == NromHeader;
    var h := DecodeHeader(short).value;
    assert h.magic == Magic && h.prgRomSize == 1 && h.chrRomSize == 1 && h.flags6 == 0;
    SegmentsAtErrors(short, HeaderSize, 0, PrgRomBlockSize, ChrRomBlockSize);
  }
}
