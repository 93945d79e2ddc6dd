/** What a manifest says of a board, told from the header's bytes, and what the imported files hold. */
module CartridgeBoard {
  import opened Bits
  import opened Cartridge
  import opened CartridgeImport
  import opened Maybe

  // ---------------------------------------------------------------- where the header is

  /** What speaks for a header in full: an opcode that resets begin with, and every field as it should be. */
  predicate Ideal(d: seq<byte>, addr: nat)
    requires addr % 0x8000 == 0x7fc0 && addr + 64 <= |d|
  {
    var reset, op := Word16(d, addr + 0x3c), d[addr - 0x7fc0 + Word16(d, addr + 0x3c) % 0x8000];
    && reset >= 0x8000
    && op in {0x78, 0x18, 0x38, 0x9c, 0x4c, 0x5c}
    && Word16(d, addr + 0x1e) + Word16(d, addr + 0x1c) == 0xffff
    && Word16(d, addr + 0x1e) != 0 && Word16(d, addr + 0x1c) != 0
    && (if addr == LO then d[addr + 0x15] in {0x20, 0x22, 0x30, 0x32}
        else if addr == HI then d[addr + 0x15] in {0x21, 0x31}
        else addr == EX && d[addr + 0x15] in {0x25, 0x35})
    && d[addr + 0x16] < 8 && d[addr + 0x17] < 16 && d[addr + 0x18] < 8 && d[addr + 0x19] < 14 && d[addr + 0x1a] == 0x33
  }

  /** No header scores more than twenty, and those that do are ideal. */
  lemma ScoreHighest(d: seq<byte>, addr: nat)
    requires addr % 0x8000 == 0x7fc0
    ensures Score(d, addr) <= 20
    ensures Score(d, addr) == 20 <==> addr + 64 <= |d| && Ideal(d, addr)
  {
    if addr + 64 <= |d| && Word16(d, addr + 0x3c) >= 0x8000 {
      OpcodeHighest(d[addr - 0x7fc0 + Word16(d, addr + 0x3c) % 0x8000]);
      MapperHighest(d[addr + 0x15], addr);
      hide OpcodeWeight, MapperWeight, Word16;
    }
  }

  lemma OpcodeHighest(op: byte)
    ensures OpcodeWeight(op) <= 8
    ensures OpcodeWeight(op) == 8 <==> op in {0x78, 0x18, 0x38, 0x9c, 0x4c, 0x5c}
  {
  }

  lemma MapperHighest(mapper: byte, addr: nat)
    ensures MapperWeight(mapper, addr) <= 2
    ensures MapperWeight(mapper, addr) == 2
       <==> if addr == LO then mapper in {0x20, 0x22, 0x30, 0x32}
            else if addr == HI then mapper in {0x21, 0x31}
            else addr == EX && mapper in {0x25, 0x35}
  {
  }

  /** The place that is taken: ExHiROM with four points more than it scores, and of equals the lower one. */
  lemma HeaderChosen(d: seq<byte>)
    requires |d| >= SMALLEST
    ensures var lo, hi, ex, i := Score(d, 0x7fc0), Score(d, 0xffc0), Score(d, 0x40ffc0), FindHeader(d);
      && (i == 0x40ffc0 <==> ex > 0 && ex + 4 > lo && ex + 4 > hi)
      && (i == 0xffc0 <==> hi > lo && (ex == 0 || hi >= ex + 4))
      && (i == 0x7fc0 <==> lo >= hi && (ex == 0 || lo >= ex + 4))
  {
    hide Score;
  }

  // ---------------------------------------------------------------- what a header announces

  /** The flags of a header, by its mapper and then by its ROM type. */
  function Announced(f: Fields): set<Feature> {
    var t := f.romType;
    if f.mapper == 0x20 then
      if t == 0x03 then {Dsp1}
      else if t == 0x05 then {Dsp2}
      else if t == 0x13 || t == 0x14 || t == 0x15 || t == 0x1a then {HasSuperFx}
      else if t == 0xf3 then {Cx4}
      else {}
    else if f.mapper == 0x21 then
      if t == 0x03 then {Dsp1} else {}
    else if f.mapper == 0x23 then
      if t == 0x32 || t == 0x34 || t == 0x35 then {HasSa1} else {}
    else if f.mapper == 0x30 then
      if t == 0x03 then {Dsp4}
      else if t == 0x05 then if f.company == 0xb2 then {Dsp3} else {Dsp1}
      else if t == 0x25 then {Obc1}
      else if t == 0xf5 then {St018}
      else if t == 0xf6 then if f.romCode < 10 then {St011} else {St010}
      else {}
    else if f.mapper == 0x31 then
      if t == 0x03 || t == 0x05 then {Dsp1} else {}
    else if f.mapper == 0x32 then
      if t == 0x43 || t == 0x45 then {Sdd1} else {}
    else if f.mapper == 0x35 then
      if t == 0x55 then {SharpRtc} else {}
    else if f.mapper == 0x3a then
      if t == 0xf5 then {Spc7110} else if t == 0xf9 then {Spc7110, EpsonRtc} else {}
    else {}
  }

  lemma CarriesAnnounced(f: Fields, x: Feature)
    ensures Carries(f, x) <==> x in Announced(f)
  {
  }

  /** The tests, each for one flag, find what the header's two numbers announce. */
  lemma FeaturesAnnounced(f: Fields)
    ensures Features(f) == Announced(f)
  {
    hide Carries, Announced;
    forall x: Feature ensures Carries(f, x) <==> x in Announced(f) { CarriesAnnounced(f, x); }
  }

  /** The sizes of save memory. */
  const RAM_SIZES: seq<nat> := [0, 0x800, 0x1000, 0x2000, 0x4000, 0x8000, 0x1_0000, 0x2_0000]

  lemma RamSizeIs(code: byte)
    ensures RamSize(code) == RAM_SIZES[code % 8]
  {
    assert Pow2(7) == 2 * Pow2(6) == 4 * Pow2(5) == 8 * Pow2(4);
    assert Pow2(4) == 2 * Pow2(3) == 4 * Pow2(2) == 8 * Pow2(1);
  }

  /** None of the marks by which an image is told before its layout is looked at. */
  predicate Unmarked(d: seq<byte>, i: nat)
    requires |d| >= SMALLEST && i + 64 <= |d|
  {
    && !Has(d, 0, Ascii("BANDAI SFC-ADX")) && !Has(d, i, Ascii("Super GAMEBOY"))
    && Competition(d, i).Unknown?
  }

  lemma Titles(d: seq<byte>, i: nat)
    requires i + 64 <= |d|
    ensures Has(d, i, Ascii("Super GAMEBOY2")) ==> Has(d, i, Ascii("Super GAMEBOY"))
  {
    var long, short := Ascii("Super GAMEBOY2"), Ascii("Super GAMEBOY");
    assert long[..13] == short;
    if Has(d, i, long) { assert d[i..i + 13] == d[i..i + 14][..13]; }
  }

  /** What the layout of a board says of the header: its place, its mapper and its marks. */
  ghost predicate Fitting(d: seq<byte>, i: nat, b: Board)
    requires |d| >= SMALLEST && i + 64 <= |d|
  {
    var mapper := d[i + 0x15];
    var slot := BsxSlot in b.features;
    var ordinary := Unmarked(d, i) && HasSuperFx !in b.features && HasSa1 !in b.features;
    match b.kind
    case SufamiTurboBios => Has(d, 0, Ascii("BANDAI SFC-ADX")) && Has(d, 16, Ascii("SFC-ADX BACKUP"))
    case SuperGameBoy1Bios => Has(d, i, Ascii("Super GAMEBOY")) && !Has(d, i, Ascii("Super GAMEBOY2"))
    case SuperGameBoy2Bios => Has(d, i, Ascii("Super GAMEBOY2"))
    case CampusChallenge92 => Competition(d, i).CampusChallenge92?
    case Powerfest94 => Competition(d, i).Powerfest94?
    case SatellaviewBios => ordinary && slot && Has(d, i, Ascii("Satellaview BS-X     "))
    case SuperFx => Unmarked(d, i) && HasSuperFx in b.features
    case Sa1 => Unmarked(d, i) && HasSa1 in b.features
    case LoRomSatellaview => ordinary && slot && i == 0x7fc0
    case HiRomSatellaview => ordinary && slot && (i == 0xffc0 || i == 0x40ffc0)
    case LoRom => ordinary && !slot && i == 0x7fc0 && mapper != 0x32 && |d| < 0x401000
    case ExLoRom => ordinary && !slot && i == 0x7fc0 && (mapper == 0x32 || |d| >= 0x401000)
    case HiRom => ordinary && !slot && i == 0xffc0
    case ExHiRom => ordinary && !slot && i == 0x40ffc0
    case _ => false
  }

  lemma OneLayout(f: Fields)
    ensures !(Carries(f, HasSa1) && Carries(f, HasSuperFx))
  {
  }

  lemma OrdinaryFits(d: seq<byte>, i: nat, region: Region, ram: nat)
    requires |d| >= SMALLEST && i + 64 <= |d| && (i == LO || i == HI || i == EX) && Unmarked(d, i)
    ensures Fitting(d, i, Ordinary(d, i, region, ram))
  {
    hide Has, Ascii, HasConnector, Dsp1Place, RamSize, Carries, Unmarked, Competition;
    var f := FieldsAt(d, i);
    OneLayout(f);
    SlotHasNone(f);
  }

  /** The manifest's layout is the one that the header's place, mapper and marks ask for. */
  lemma LayoutFits(d: seq<byte>, msu1: bool)
    requires Playable(d)
    ensures ManifestOf(d, msu1).Manifest? && Fitting(d, FindHeader(d), ManifestOf(d, msu1).board)
  {
    hide Has, Ascii, FindHeader, Ordinary, RamSize, Pieces, IsFlash, GAME_BOY_LOGO, Competition, Dsp1Place;
    var i := FindHeader(d);
    ManifestExists(d, msu1);
    Titles(d, i);
    CompetitionKind(d, i);
    if Special(d, i).Unknown? {
      OrdinaryFits(d, i, RegionOf(d[i + 0x19]), if d[i + 0x17] == 0 then 0 else RamSize(d[i + 0x18]));
    }
  }

  lemma CompetitionKind(d: seq<byte>, i: nat)
    requires i + 64 <= |d|
    ensures Competition(d, i).Unknown? || Competition(d, i).CampusChallenge92? || Competition(d, i).Powerfest94?
  {
    hide Has, Ascii;
  }

  lemma OrdinaryFields(d: seq<byte>, i: nat, region: Region, ram: nat)
    requires 14 <= i && i + 64 <= |d|
    ensures var b := Ordinary(d, i, region, ram);
      && (b.region.Pal? <==> region.Pal? && BsxSlot !in b.features)
      && b.romSize == |d| && !b.kind.SufamiTurboBios?
      && b.ramSize == (if HasSuperFx in b.features then RamSize(d[i - 3]) else ram)
      && (b.kind.SatellaviewBios? || b.features - {BsxSlot} == Features(FieldsAt(d, i)))
      && (if Dsp1 in b.features then b.dsp1 == Dsp1Place(d[i + 0x15], |d|) else b.dsp1.NoDsp1?)
  {
    hide Has, Ascii, HasConnector, Dsp1Place, RamSize, Carries;
    SlotHasNone(FieldsAt(d, i));
  }

  /** The region, over all destination codes: PAL from Europe to Indonesia, unless only sold in Japan. */
  lemma RegionFits(d: seq<byte>, msu1: bool)
    requires Playable(d)
    ensures ManifestOf(d, msu1).Manifest?
    ensures var b, code := ManifestOf(d, msu1).board, d[FindHeader(d) + 0x19];
      b.region == Pal
      <==> (2 <= code <= 12 || 130 <= code <= 140) && BsxSlot !in b.features && !b.kind.SufamiTurboBios?
  {
    hide Has, Ascii, FindHeader, Ordinary, RamSize, Pieces, IsFlash, GAME_BOY_LOGO, Competition, Dsp1Place;
    var i := FindHeader(d);
    ManifestExists(d, msu1);
    CompetitionKind(d, i);
    OrdinaryFields(d, i, RegionOf(d[i + 0x19]), if d[i + 0x17] == 0 then 0 else RamSize(d[i + 0x18]));
  }

  /** The sizes: the image's, and the save memory's by the header's code, or by the extended header's for a SuperFX. */
  lemma SizesFit(d: seq<byte>, msu1: bool)
    requires Playable(d)
    ensures ManifestOf(d, msu1).Manifest?
    ensures var b, i := ManifestOf(d, msu1).board, FindHeader(d);
      && b.romSize == |d|
      && b.ramSize == if HasSuperFx in b.features then RAM_SIZES[d[i - 3] % 8]
                      else if d[i + 0x17] == 0 then 0
                      else RAM_SIZES[d[i + 0x18] % 8]
  {
    hide Has, Ascii, FindHeader, Ordinary, RamSize, Pieces, IsFlash, GAME_BOY_LOGO, Competition, RAM_SIZES, RegionOf;
    var i := FindHeader(d);
    ManifestExists(d, msu1);
    CompetitionKind(d, i);
    RamSizeIs(d[i - 3]);
    RamSizeIs(d[i + 0x18]);
    OrdinaryFields(d, i, RegionOf(d[i + 0x19]), if d[i + 0x17] == 0 then 0 else RamSize(d[i + 0x18]));
  }

  /** The chips of an unmarked image are those its header announces; a DSP-1 is placed by mapper and size. */
  lemma ChipsFit(d: seq<byte>, msu1: bool)
    requires Playable(d)
    ensures ManifestOf(d, msu1).Manifest?
    ensures var b, i := ManifestOf(d, msu1).board, FindHeader(d);
      && (Unmarked(d, i) && !b.kind.SatellaviewBios? ==> b.features - {BsxSlot} == Announced(FieldsAt(d, i)))
      && (Dsp1 in b.features ==>
            b.dsp1 == if d[i + 0x15] == 0x21 || d[i + 0x15] == 0x31 then HiRomDsp1
                      else if |d| <= 0x10_0000 then LoRom1Mb
                      else LoRom2Mb)
      && (Dsp1 !in b.features ==> b.dsp1 == NoDsp1)
  {
    hide Has, Ascii, FindHeader, Ordinary, RamSize, Pieces, IsFlash, GAME_BOY_LOGO, Competition, RegionOf, Dsp1Place;
    hide Announced, Features;
    var i := FindHeader(d);
    ManifestExists(d, msu1);
    CompetitionKind(d, i);
    Titles(d, i);
    FeaturesAnnounced(FieldsAt(d, i));
    var ram := if d[i + 0x17] == 0 then 0 else RamSize(d[i + 0x18]);
    OrdinaryFields(d, i, RegionOf(d[i + 0x19]), ram);
    Dsp1Mapper(d, i, RegionOf(d[i + 0x19]), ram);
  }

  lemma Dsp1Mapper(d: seq<byte>, i: nat, region: Region, ram: nat)
    requires 14 <= i && i + 64 <= |d|
    ensures Dsp1 in Ordinary(d, i, region, ram).features ==>
      Dsp1Place(d[i + 0x15], |d|)
      == if d[i + 0x15] == 0x21 || d[i + 0x15] == 0x31 then HiRomDsp1
         else if |d| <= 0x10_0000 then LoRom1Mb
         else LoRom2Mb
  {
    hide Has, Ascii, HasConnector, RamSize;
  }

  // ---------------------------------------------------------------- what the imported files hold

  /** The processors whose memories are stored in the image. */
  datatype Processor = Upd7725 | Upd96050 | ArmV3 | Hg51b169

  function ProcessorOf(chip: Feature): Processor
    requires HasFirmware(chip)
  {
    if chip == Dsp1 || chip == Dsp2 || chip == Dsp3 || chip == Dsp4 then Upd7725
    else if chip == St010 || chip == St011 then Upd96050
    else if chip == St018 then ArmV3
    else Hg51b169
  }

  /** NEC's processors have instructions of three bytes; the HG51B169 runs the game's own program. */
  function ProgramMemory(p: Processor): nat {
    match p
    case Upd7725 => 3 * 2048
    case Upd96050 => 3 * 16384
    case ArmV3 => 128 * 1024
    case Hg51b169 => 0
  }

  /** NEC's processors have constants of two bytes, the HG51B169 of three. */
  function DataMemory(p: Processor): nat {
    match p
    case Upd7725 => 2 * 1024
    case Upd96050 => 2 * 2048
    case ArmV3 => 32 * 1024
    case Hg51b169 => 3 * 1024
  }

  function ChipNamed(chip: Feature): Chip
    requires HasFirmware(chip)
  {
    match chip
    case Cx4 => ChipCx4
    case Dsp1 => ChipDsp1b
    case Dsp2 => ChipDsp2
    case Dsp3 => ChipDsp3
    case Dsp4 => ChipDsp4
    case St010 => ChipSt010
    case St011 => ChipSt011
    case St018 => ChipSt018
    case _ => assert false; ChipCx4
  }

  type Files = map<File, seq<byte>>

  /** The empty file that stands for a sound track. */
  function Track(msu1: bool): Files {
    if msu1 then map[Msu1 := []] else map[]
  }

  lemma SplitStep(p: Piece, rest: seq<Piece>, image: seq<byte>, offset: nat, files: Files, bytes: seq<byte>)
    requires offset + p.size <= |image| && bytes == image[offset..offset + p.size]
    ensures Split([p] + rest, image, offset, files) == Split(rest, image, offset + p.size, files[p.file := bytes])
  {
    assert ([p] + rest)[1..] == rest;
  }

  lemma SplitNothing(image: seq<byte>, offset: nat, files: Files)
    requires offset <= |image|
    ensures Split([], image, offset, files) == (true, files)
  {
  }

  /** The end of every list: the sound track's file, if there is one. */
  lemma SplitTrack(image: seq<byte>, files: Files, msu1: bool)
    requires Msu1 !in files
    ensures Split(if msu1 then [Piece(Msu1, 0)] else [], image, |image|, files) == (true, files + Track(msu1))
  {
    hide Split;
    if msu1 {
      SplitStep(Piece(Msu1, 0), [], image, |image|, files, []);
      SplitNothing(image, |image|, files[Msu1 := []]);
      assert [Piece(Msu1, 0)] + [] == [Piece(Msu1, 0)];
      assert files[Msu1 := []] == files + map[Msu1 := []];
    } else {
      SplitNothing(image, |image|, files);
      assert files + map[] == files;
    }
  }

  /** One stretch, two or three that make up the image. */
  lemma SplitOne(a: Piece, image: seq<byte>, msu1: bool)
    requires a.size == |image| && !a.file.Msu1?
    ensures Split([a] + if msu1 then [Piece(Msu1, 0)] else [], image, 0, map[])
         == (true, map[a.file := image] + Track(msu1))
  {
    hide Split, Track;
    SplitStep(a, if msu1 then [Piece(Msu1, 0)] else [], image, 0, map[], image);
    SplitTrack(image, map[a.file := image], msu1);
  }

  lemma SplitTwo(a: Piece, b: Piece, image: seq<byte>, msu1: bool)
    requires a.size + b.size == |image| && !a.file.Msu1? && !b.file.Msu1?
    ensures Split([a, b] + if msu1 then [Piece(Msu1, 0)] else [], image, 0, map[])
         == (true, map[a.file := image[..a.size], b.file := image[a.size..]] + Track(msu1))
  {
    hide Split, Track;
    var rest, x, y := if msu1 then [Piece(Msu1, 0)] else [], image[..a.size], image[a.size..];
    assert [a, b] + rest == [a] + ([b] + rest);
    SplitStep(a, [b] + rest, image, 0, map[], x);
    SplitStep(b, rest, image, a.size, map[a.file := x], y);
    SplitTrack(image, map[a.file := x, b.file := y], msu1);
  }

  lemma SplitThree(a: Piece, b: Piece, c: Piece, image: seq<byte>, msu1: bool)
    requires a.size + b.size + c.size == |image| && !a.file.Msu1? && !b.file.Msu1? && !c.file.Msu1?
    ensures var end := a.size + b.size;
      Split([a, b, c] + if msu1 then [Piece(Msu1, 0)] else [], image, 0, map[])
      == (true, map[a.file := image[..a.size], b.file := image[a.size..end], c.file := image[end..]] + Track(msu1))
  {
    hide Split, Track;
    var end := a.size + b.size;
    var rest, x, y, z := if msu1 then [Piece(Msu1, 0)] else [], image[..a.size], image[a.size..end], image[end..];
    assert [a, b, c] + rest == [a] + ([b] + ([c] + rest));
    SplitStep(a, [b] + ([c] + rest), image, 0, map[], x);
    SplitStep(b, [c] + rest, image, a.size, map[a.file := x], y);
    SplitStep(c, rest, image, end, map[a.file := x, b.file := y], z);
    SplitTrack(image, map[a.file := x, b.file := y, c.file := z], msu1);
  }

  /** The board of a successful import, and its pieces. */
  lemma ImportedBoard(buffer: seq<byte>, msu1: bool) returns (d: seq<byte>, b: Board)
    requires |buffer| < WORD32 && Imported(buffer, msu1).Some?
    ensures d == Strip(buffer) && Playable(d) && b == Classified(d) && Complete(b, |d|) && Consistent(b)
    ensures ManifestOf(d, msu1) == Manifest(b, Pieces(b, |d|, msu1))
    ensures Imported(buffer, msu1).value == Split(Pieces(b, |d|, msu1), d, 0, map[]).1
  {
    hide Classified, Pieces, Split, Consistent, Playable, Complete;
    d := Strip(buffer);
    ImportSucceeds(buffer, msu1);
    ManifestExists(d, msu1);
    b := Classified(d);
    ClassifiedConsistent(d);
  }

  lemma ChipPiecesAre(chip: Feature, size: nat)
    requires HasFirmware(chip) && FirmwareThere(chip, size)
    ensures var p, q := ProgramMemory(ProcessorOf(chip)), DataMemory(ProcessorOf(chip));
      && FirmwareSize(chip, size) == p + q <= size
      && ChipPieces(chip) == (if p > 0 then [Piece(ChipProgram(ChipNamed(chip)), p)] else [])
                             + [Piece(ChipData(ChipNamed(chip)), q)]
  {
  }

  lemma ChipBoard(b: Board, chip: Feature, size: nat, msu1: bool)
    requires Consistent(b) && chip in b.features && HasFirmware(chip) && Complete(b, size)
    ensures FirmwareThere(chip, size)
    ensures FirmwareSize(chip, size) <= size
    ensures Pieces(b, size, msu1)
         == [Piece(Program, size - FirmwareSize(chip, size))] + ChipPieces(chip)
            + if msu1 then [Piece(Msu1, 0)] else []
  {
    hide FirmwareThere, FirmwareSize, ChipPieces;
    ChipAlone(b, chip);
    ChipPiecesFit(chip, size);
  }

  lemma ChipPiecesFit(chip: Feature, size: nat)
    requires HasFirmware(chip) && FirmwareThere(chip, size)
    ensures FirmwareSize(chip, size) <= size
  {
  }

  /**
    * A chip's program and data are the last bytes of the image, as many as its memories hold, in files named after it;
    * everything before them is the game's program.
    */
  lemma ChipFiles(buffer: seq<byte>, msu1: bool, chip: Feature)
    requires |buffer| < WORD32 && Imported(buffer, msu1).Some?
    requires chip in ManifestOf(Strip(buffer), msu1).board.features && HasFirmware(chip)
    ensures var d, p, q := Strip(buffer), ProgramMemory(ProcessorOf(chip)), DataMemory(ProcessorOf(chip));
      var n, name := |d|, ChipNamed(chip);
      n >= p + q
      && Imported(buffer, msu1).value
         == (if p > 0 then
               map[Program := d[..n - p - q], ChipProgram(name) := d[n - p - q..n - q], ChipData(name) := d[n - q..]]
             else
               map[Program := d[..n - q], ChipData(name) := d[n - q..]])
            + Track(msu1)
  {
    hide Classified, Pieces, Split, Consistent, Playable, Complete, Imported, ManifestOf, HasFirmware, ProcessorOf;
    hide ChipNamed, ProgramMemory, DataMemory, FirmwareThere, FirmwareSize, ChipPieces, Strip, Track;
    var d, b := ImportedBoard(buffer, msu1);
    ChipBoard(b, chip, |d|, msu1);
    ChipPiecesAre(chip, |d|);
    var p, q := ProgramMemory(ProcessorOf(chip)), DataMemory(ProcessorOf(chip));
    var first := Piece(Program, |d| - p - q);
    var last := Piece(ChipData(ChipNamed(chip)), q);
    if p > 0 {
      var middle := Piece(ChipProgram(ChipNamed(chip)), p);
      SplitThree(first, middle, last, d, msu1);
      assert [first] + ([middle] + [last]) == [first, middle, last];
    } else {
      SplitTwo(first, last, d, msu1);
      assert [first] + ([] + [last]) == [first, last];
    }
  }

  /** The Super Game Boy's boot program is the last 256 bytes, in the file of its model. */
  lemma BootFiles(buffer: seq<byte>, msu1: bool)
    requires |buffer| < WORD32 && Imported(buffer, msu1).Some?
    requires Unbranded(Strip(buffer)) && Has(Strip(buffer), FindHeader(Strip(buffer)), Ascii("Super GAMEBOY"))
    ensures var d := Strip(buffer); var n := |d|;
      n >= 0x100
      && Imported(buffer, msu1).value
         == map[Program := d[..n - 0x100],
                (if Has(d, FindHeader(d), Ascii("Super GAMEBOY2")) then Boot2 else Boot1) := d[n - 0x100..]]
            + Track(msu1)
  {
    hide Pieces, Split, Playable, Imported, Strip, Track, FindHeader, Has, Ascii, IsFlash, Ordinary, GAME_BOY_LOGO;
    hide RamSize, Competition;
    var d, b := ImportedBoard(buffer, msu1);
    PlayableMarks(d);
    BootBoard(b, |d|, msu1);
    SplitTwo(Piece(Program, |d| - 0x100), Piece(if b.kind.SuperGameBoy1Bios? then Boot1 else Boot2, 0x100), d, msu1);
  }

  /** No Sufami Turbo mark at the beginning of the image. */
  predicate Unbranded(d: seq<byte>) {
    |d| >= SMALLEST && !Has(d, 0, Ascii("BANDAI SFC-ADX"))
  }

  lemma PlayableMarks(d: seq<byte>)
    requires Playable(d)
    ensures |d| >= SMALLEST && !Has(d, 0x104, GAME_BOY_LOGO) && !IsFlash(d, FindHeader(d))
  {
  }

  lemma BootBoard(b: Board, size: nat, msu1: bool)
    requires Consistent(b) && (b.kind.SuperGameBoy1Bios? || b.kind.SuperGameBoy2Bios?) && Complete(b, size)
    ensures size >= 0x100
    ensures Pieces(b, size, msu1)
         == [Piece(Program, size - 0x100), Piece(if b.kind.SuperGameBoy1Bios? then Boot1 else Boot2, 0x100)]
            + if msu1 then [Piece(Msu1, 0)] else []
  {
    NoChipThere(b);
  }

  /** An SPC7110 board has one megabyte of program, and data behind it. */
  lemma Spc7110Files(buffer: seq<byte>, msu1: bool)
    requires |buffer| < WORD32 && Imported(buffer, msu1).Some?
    requires Spc7110 in ManifestOf(Strip(buffer), msu1).board.features
    ensures var d := Strip(buffer);
      |d| >= 0x10_0000
      && Imported(buffer, msu1).value == map[Program := d[..0x10_0000], Data := d[0x10_0000..]] + Track(msu1)
  {
    hide Classified, Pieces, Split, Playable, Imported, ManifestOf, Strip, Track, Consistent, Complete;
    var d, b := ImportedBoard(buffer, msu1);
    StripSmaller(buffer);
    Spc7110Board(b, |d|, msu1);
    SplitTwo(Piece(Program, 0x10_0000), Piece(Data, |d| - 0x10_0000), d, msu1);
  }

  lemma StripSmaller(buffer: seq<byte>)
    ensures |Strip(buffer)| <= |buffer|
  {
  }

  lemma Spc7110Board(b: Board, size: nat, msu1: bool)
    requires Consistent(b) && Spc7110 in b.features && Complete(b, size) && size < WORD32
    ensures size >= 0x10_0000
    ensures Pieces(b, size, msu1)
         == [Piece(Program, 0x10_0000), Piece(Data, size - 0x10_0000)] + if msu1 then [Piece(Msu1, 0)] else []
  {
    Spc7110Alone(b, size);
    NoChipBeside(b);
  }

  lemma NoChipBeside(b: Board)
    requires Consistent(b) && Spc7110 in b.features
    ensures ChipIn(b.features) == None
  {
  }

  /** A competition cartridge's program, its three games, and the DSP-1's program and data. */
  lemma ContestFiles(buffer: seq<byte>, msu1: bool)
    requires |buffer| < WORD32 && Imported(buffer, msu1).Some?
    requires IsContest(ManifestOf(Strip(buffer), msu1).board.kind)
    ensures var d := Strip(buffer); var n := |d|;
      n >= 0x142000
      && Imported(buffer, msu1).value
         == map[Program := d[..0x40000], Slot1 := d[0x40000..0xc0000], Slot2 := d[0xc0000..0x140000],
                Slot3 := d[0x140000..n - 0x2000],
                ChipProgram(ChipDsp1) := d[n - 0x2000..n - 0x800], ChipData(ChipDsp1) := d[n - 0x800..]]
  {
    hide Classified, Split, Playable, Imported, ManifestOf, Strip, Consistent, ContestPieces;
    var d, b := ImportedBoard(buffer, msu1);
    ContestSplit(d, if b.kind.CampusChallenge92? then 0x80000 else 0x100000);
  }

  lemma ContestSplit(d: seq<byte>, last: nat)
    requires |d| == 0x142000 + last
    ensures var n := |d|;
      Split(ContestPieces(last), d, 0, map[]).1
      == map[Program := d[..0x40000], Slot1 := d[0x40000..0xc0000], Slot2 := d[0xc0000..0x140000],
             Slot3 := d[0x140000..n - 0x2000],
             ChipProgram(ChipDsp1) := d[n - 0x2000..n - 0x800], ChipData(ChipDsp1) := d[n - 0x800..]]
  {
    hide Split;
    var a, b, c := Piece(Program, 0x40000), Piece(Slot1, 0x80000), Piece(Slot2, 0x80000);
    var e, p, q := Piece(Slot3, last), Piece(ChipProgram(ChipDsp1), 0x1800), Piece(ChipData(ChipDsp1), 0x800);
    assert ContestPieces(last) == [a] + ([b] + ([c] + ([e] + ([p] + ([q] + [])))));
    var n := |d|;
    var x, y, z := d[..0x40000], d[0x40000..0xc0000], d[0xc0000..0x140000];
    var u, v, w := d[0x140000..n - 0x2000], d[n - 0x2000..n - 0x800], d[n - 0x800..];
    var f1: Files := map[Program := x];
    var f2 := f1[Slot1 := y];
    var f3 := f2[Slot2 := z];
    var f4 := f3[Slot3 := u];
    var f5 := f4[ChipProgram(ChipDsp1) := v];
    SplitStep(a, [b] + ([c] + ([e] + ([p] + ([q] + [])))), d, 0, map[], x);
    SplitStep(b, [c] + ([e] + ([p] + ([q] + []))), d, 0x40000, f1, y);
    SplitStep(c, [e] + ([p] + ([q] + [])), d, 0xc0000, f2, z);
    SplitStep(e, [p] + ([q] + []), d, 0x140000, f3, u);
    SplitStep(p, [q] + [], d, n - 0x2000, f4, v);
    SplitStep(q, [], d, n - 0x800, f5, w);
    SplitNothing(d, n, f5[ChipData(ChipDsp1) := w]);
  }

  /** Any other image is its program. */
  lemma PlainFiles(buffer: seq<byte>, msu1: bool)
    requires |buffer| < WORD32 && Imported(buffer, msu1).Some?
    requires var b := ManifestOf(Strip(buffer), msu1).board;
      && (forall chip :: chip in b.features ==> !HasFirmware(chip)) && Spc7110 !in b.features
      && !b.kind.SuperGameBoy1Bios? && !b.kind.SuperGameBoy2Bios? && !IsContest(b.kind)
    ensures Imported(buffer, msu1).value == map[Program := Strip(buffer)] + Track(msu1)
  {
    hide Classified, Pieces, Split, Playable, Imported, ManifestOf, Strip, Track, Consistent, Complete, HasFirmware;
    var d, b := ImportedBoard(buffer, msu1);
    PlainBoard(b, |d|, msu1);
    SplitOne(Piece(Program, |d|), d, msu1);
  }

  lemma PlainBoard(b: Board, size: nat, msu1: bool)
    requires (forall chip :: chip in b.features ==> !HasFirmware(chip)) && Spc7110 !in b.features
    requires !b.kind.SuperGameBoy1Bios? && !b.kind.SuperGameBoy2Bios? && !IsContest(b.kind)
    ensures Pieces(b, size, msu1) == [Piece(Program, size)] + if msu1 then [Piece(Msu1, 0)] else []
  {
    hide HasFirmware;
    ChipInFeatures(b.features);
  }

  /** A copier's header before an image of whole banks changes nothing. */
  lemma CopierHeader(header: seq<byte>, image: seq<byte>, msu1: bool)
    requires |header| == 512 && |image| % 0x8000 == 0
    ensures Imported(header + image, msu1) == Imported(image, msu1)
    ensures ManifestOf(Strip(header + image), msu1) == ManifestOf(Strip(image), msu1)
  {
    hide ManifestOf, Split;
    DivModUnique(|header + image|, |image| / 0x8000, 512, 0x8000);
    assert (header + image)[512..] == image;
  }
}
