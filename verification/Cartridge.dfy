/** Recognising a Super Famicom image: the header by score, the board by its fields, the files by the board. */
module Cartridge {
  import opened Bits

  datatype Kind =
    | SatellaviewBios | SufamiTurboBios | SuperGameBoy1Bios | SuperGameBoy2Bios
    | LoRom | HiRom | ExLoRom | ExHiRom | SuperFx | Sa1 | LoRomSatellaview | HiRomSatellaview
    | CampusChallenge92 | Powerfest94
    | Unknown | GameBoy | Satellaview | SufamiTurbo

  datatype Region = Ntsc | Pal

  datatype Dsp1Type = NoDsp1 | LoRom1Mb | LoRom2Mb | HiRomDsp1

  datatype Feature =
    | BsxSlot | HasSuperFx | HasSa1 | SharpRtc | EpsonRtc | Sdd1 | Spc7110 | Obc1
    | Cx4 | Dsp1 | Dsp2 | Dsp3 | Dsp4 | St010 | St011 | St018

  /** Everything the manifest's text is made from. */
  datatype Board = Board(kind: Kind, region: Region, dsp1: Dsp1Type, romSize: nat, ramSize: nat, features: set<Feature>)

  const LO: nat := 0x7fc0
  const HI: nat := 0xffc0
  const EX: nat := 0x40ffc0

  const SMALLEST: nat := 0x8000

  // ---------------------------------------------------------------- finding the header

  function Word16(d: seq<byte>, i: nat): nat
    requires i + 2 <= |d|
  {
    var low: nat, high: nat := d[i], d[i + 1];
    low + 256 * high
  }

  /** The first opcode executed on reset, weighed. */
  function OpcodeWeight(op: byte): int {
    if op == 0x78 || op == 0x18 || op == 0x38 || op == 0x9c || op == 0x4c || op == 0x5c then 8
    else if op == 0xc2 || op == 0xe2 || op == 0xad || op == 0xae || op == 0xac || op == 0xaf
         || op == 0xa9 || op == 0xa2 || op == 0xa0 || op == 0x20 || op == 0x22 then 4
    else if op == 0x40 || op == 0x60 || op == 0x6b || op == 0xcd || op == 0xec || op == 0xcc then -4
    else if op == 0x00 || op == 0x02 || op == 0xdb || op == 0x42 || op == 0xff then -8
    else 0
  }

  /** The mapper that speaks for a header's position, the FastROM bit masked off. */
  function MapperWeight(mapper: byte, addr: nat): int {
    var m := if mapper / 16 % 2 == 1 then mapper - 16 else mapper;
    if (addr == LO && (m == 0x20 || m == 0x22)) || (addr == HI && m == 0x21) || (addr == EX && m == 0x25) then 2 else 0
  }

  function ChecksumWeight(checksum: nat, complement: nat): int {
    if checksum + complement == 0xffff && checksum != 0 && complement != 0 then 4 else 0
  }

  function FieldWeight(d: seq<byte>, addr: nat): int
    requires addr + 64 <= |d|
  {
    (if d[addr + 0x1a] == 0x33 then 2 else 0)
    + (if d[addr + 0x16] < 0x08 then 1 else 0)
    + (if d[addr + 0x17] < 0x10 then 1 else 0)
    + (if d[addr + 0x18] < 0x08 then 1 else 0)
    + (if d[addr + 0x19] < 14 then 1 else 0)
  }

  /** How likely a header stands at `addr`: nothing when the image ends before it or the reset vector is not in ROM. */
  function Score(d: seq<byte>, addr: nat): (score: nat)
    requires addr % 0x8000 == 0x7fc0
    ensures score > 0 ==> addr + 64 <= |d|
  {
    if |d| < addr + 64 then 0
    else
      var reset := Word16(d, addr + 0x3c);
      if reset < 0x8000 then 0
      else
        var total := OpcodeWeight(d[addr - 0x7fc0 + reset % 0x8000])
                     + ChecksumWeight(Word16(d, addr + 0x1e), Word16(d, addr + 0x1c))
                     + MapperWeight(d[addr + 0x15], addr) + FieldWeight(d, addr);
        if total < 0 then 0 else total
  }

  /** The four opcode lists, one after the other. */
  method ScoreOpcode(op: byte) returns (score: int)
    ensures score == OpcodeWeight(op)
  {
    score := 0;
    if op == 0x78 || op == 0x18 || op == 0x38 || op == 0x9c || op == 0x4c || op == 0x5c { score := score + 8; }
    if op == 0xc2 || op == 0xe2 || op == 0xad || op == 0xae || op == 0xac || op == 0xaf
    || op == 0xa9 || op == 0xa2 || op == 0xa0 || op == 0x20 || op == 0x22 { score := score + 4; }
    if op == 0x40 || op == 0x60 || op == 0x6b || op == 0xcd || op == 0xec || op == 0xcc { score := score - 4; }
    if op == 0x00 || op == 0x02 || op == 0xdb || op == 0x42 || op == 0xff { score := score - 8; }
  }

  method ScoreFields(d: seq<byte>, addr: nat) returns (score: int)
    requires addr + 64 <= |d|
    ensures score == FieldWeight(d, addr)
  {
    score := 0;
    if d[addr + 0x1a] == 0x33 { score := score + 2; }
    if d[addr + 0x16] < 0x08 { score := score + 1; }
    if d[addr + 0x17] < 0x10 { score := score + 1; }
    if d[addr + 0x18] < 0x08 { score := score + 1; }
    if d[addr + 0x19] < 14 { score := score + 1; }
  }

  /** `scoreHeader`. */
  method ScoreHeader(d: seq<byte>, addr: nat) returns (result: nat)
    requires addr % 0x8000 == 0x7fc0
    ensures result == Score(d, addr)
  {
    hide OpcodeWeight, FieldWeight, Word16;
    if |d| < addr + 64 { return 0; }
    var reset := Word16(d, addr + 0x3c);
    var checksum := Word16(d, addr + 0x1e);
    var complement := Word16(d, addr + 0x1c);
    var op := d[addr - addr % 0x8000 + reset % 0x8000];
    var mapper: nat := if d[addr + 0x15] / 16 % 2 == 1 then d[addr + 0x15] - 16 else d[addr + 0x15];
    if reset < 0x8000 { return 0; }
    var score := ScoreOpcode(op);
    ghost var before := score;
    if checksum + complement == 0xffff && checksum != 0 && complement != 0 { score := score + 4; }
    assert score == before + ChecksumWeight(checksum, complement);
    before := score;
    if addr == LO && mapper == 0x20 { score := score + 2; }
    if addr == HI && mapper == 0x21 { score := score + 2; }
    if addr == LO && mapper == 0x22 { score := score + 2; }
    if addr == EX && mapper == 0x25 { score := score + 2; }
    assert score == before + MapperWeight(d[addr + 0x15], addr);
    var fields := ScoreFields(d, addr);
    score := score + fields;
    if score < 0 { score := 0; }
    return score;
  }

  /** ExHiROM is favoured on large images. */
  function Favoured(d: seq<byte>, addr: nat): (score: nat)
    requires addr % 0x8000 == 0x7fc0
    ensures score > 0 ==> addr + 64 <= |d|
  {
    if addr == EX && Score(d, addr) > 0 then Score(d, addr) + 4 else Score(d, addr)
  }

  /** `findHeader`: the most likely of three places, and always one the image reaches. */
  function FindHeader(d: seq<byte>): (index: nat)
    requires |d| >= SMALLEST
    ensures index + 64 <= |d| && (index == LO || index == HI || index == EX)
    ensures Favoured(d, LO) <= Favoured(d, index)
    ensures Favoured(d, HI) <= Favoured(d, index)
    ensures Favoured(d, EX) <= Favoured(d, index)
    ensures index != LO ==> Favoured(d, LO) < Favoured(d, index)
    ensures index == EX ==> Favoured(d, HI) < Favoured(d, index)
  {
    var lo, hi, ex := Favoured(d, LO), Favoured(d, HI), Favoured(d, EX);
    if lo >= hi && lo >= ex then LO else if hi >= ex then HI else EX
  }

  method LocateHeader(d: seq<byte>) returns (index: nat)
    requires |d| >= SMALLEST
    ensures index == FindHeader(d)
  {
    hide Score;
    var lo := ScoreHeader(d, LO);
    var hi := ScoreHeader(d, HI);
    var ex := ScoreHeader(d, EX);
    if ex > 0 { ex := ex + 4; }
    if lo >= hi && lo >= ex { return LO; }
    if hi >= ex { return HI; }
    return EX;
  }

  // ---------------------------------------------------------------- reading the header

  function Ascii(s: string): (r: seq<byte>)
    ensures |r| == |s|
  {
    seq<byte>(|s|, i requires 0 <= i < |s| => s[i] as int % 256)
  }

  /** `!memcmp(data + i, text, ...)`. */
  predicate Has(d: seq<byte>, i: nat, text: seq<byte>)
    requires i + |text| <= |d|
  {
    d[i..i + |text|] == text
  }

  /** The bytes of a header that decide about coprocessors. */
  datatype Fields = Fields(mapper: byte, romType: byte, romCode: byte, company: byte)

  function FieldsAt(d: seq<byte>, i: nat): Fields
    requires i + 64 <= |d|
  {
    Fields(d[i + 0x15], d[i + 0x16], d[i + 0x17], d[i + 0x1a])
  }

  predicate Carries(f: Fields, feature: Feature) {
    match feature
    case BsxSlot => false
    case HasSuperFx => f.mapper == 0x20
      && (f.romType == 0x13 || f.romType == 0x14 || f.romType == 0x15 || f.romType == 0x1a)
    case HasSa1 => f.mapper == 0x23 && (f.romType == 0x32 || f.romType == 0x34 || f.romType == 0x35)
    case SharpRtc => f.mapper == 0x35 && f.romType == 0x55
    case EpsonRtc => f.mapper == 0x3a && f.romType == 0xf9
    case Sdd1 => f.mapper == 0x32 && (f.romType == 0x43 || f.romType == 0x45)
    case Spc7110 => f.mapper == 0x3a && (f.romType == 0xf5 || f.romType == 0xf9)
    case Obc1 => f.mapper == 0x30 && f.romType == 0x25
    case Cx4 => f.mapper == 0x20 && f.romType == 0xf3
    case Dsp1 =>
      || ((f.mapper == 0x20 || f.mapper == 0x21) && f.romType == 0x03)
      || (f.mapper == 0x30 && f.romType == 0x05 && f.company != 0xb2)
      || (f.mapper == 0x31 && (f.romType == 0x03 || f.romType == 0x05))
    case Dsp2 => f.mapper == 0x20 && f.romType == 0x05
    case Dsp3 => f.mapper == 0x30 && f.romType == 0x05 && f.company == 0xb2
    case Dsp4 => f.mapper == 0x30 && f.romType == 0x03
    case St010 => f.mapper == 0x30 && f.romType == 0xf6 && f.romCode >= 10
    case St011 => f.mapper == 0x30 && f.romType == 0xf6 && f.romCode < 10
    case St018 => f.mapper == 0x30 && f.romType == 0xf5
  }

  function Features(f: Fields): set<Feature> {
    set feature: Feature | Carries(f, feature)
  }

  /** The coprocessors whose program is stored behind the game's. */
  predicate HasFirmware(feature: Feature) {
    feature in {Cx4, Dsp1, Dsp2, Dsp3, Dsp4, St010, St011, St018}
  }

  /** No header announces two of them, nor one of them beside an SPC7110. */
  lemma OneChip(f: Fields, a: Feature, b: Feature)
    requires Carries(f, a) && Carries(f, b) && HasFirmware(a) && (HasFirmware(b) || b.Spc7110?)
    ensures a == b
  {
  }

  /** The flags that are looked for last. */
  predicate Late(feature: Feature) {
    HasFirmware(feature) || feature.Obc1?
  }

  method DetectEarly(f: Fields) returns (features: set<Feature>)
    ensures forall x :: x in features <==> Carries(f, x) && !Late(x)
  {
    var mapper, romType := f.mapper, f.romType;
    features := {};
    if mapper == 0x20 && (romType == 0x13 || romType == 0x14 || romType == 0x15 || romType == 0x1a) {
      features := features + {HasSuperFx};
    }
    if mapper == 0x23 && (romType == 0x32 || romType == 0x34 || romType == 0x35) { features := features + {HasSa1}; }
    if mapper == 0x35 && romType == 0x55 { features := features + {SharpRtc}; }
    if mapper == 0x32 && (romType == 0x43 || romType == 0x45) { features := features + {Sdd1}; }
    if mapper == 0x3a && (romType == 0xf5 || romType == 0xf9) {
      features := features + {Spc7110};
      if romType == 0xf9 { features := features + {EpsonRtc}; }
    }
  }

  method DetectLate(f: Fields) returns (features: set<Feature>)
    ensures forall x :: x in features <==> Carries(f, x) && Late(x)
  {
    var mapper, romType := f.mapper, f.romType;
    features := {};
    if mapper == 0x20 && romType == 0xf3 { features := features + {Cx4}; }
    if (mapper == 0x20 || mapper == 0x21) && romType == 0x03 { features := features + {Dsp1}; }
    if mapper == 0x30 && romType == 0x05 && f.company != 0xb2 { features := features + {Dsp1}; }
    if mapper == 0x31 && (romType == 0x03 || romType == 0x05) { features := features + {Dsp1}; }
    if mapper == 0x20 && romType == 0x05 { features := features + {Dsp2}; }
    if mapper == 0x30 && romType == 0x05 && f.company == 0xb2 { features := features + {Dsp3}; }
    if mapper == 0x30 && romType == 0x03 { features := features + {Dsp4}; }
    if mapper == 0x30 && romType == 0x25 { features := features + {Obc1}; }
    if mapper == 0x30 && romType == 0xf6 && f.romCode >= 10 { features := features + {St010}; }
    if mapper == 0x30 && romType == 0xf6 && f.romCode < 10 { features := features + {St011}; }
    if mapper == 0x30 && romType == 0xf5 { features := features + {St018}; }
  }

  /** The flags, in the order they are looked for. */
  method DetectFeatures(f: Fields) returns (features: set<Feature>)
    ensures features == Features(f)
  {
    hide Carries, Late;
    var early := DetectEarly(f);
    var late := DetectLate(f);
    features := early + late;
  }

  const GAME_BOY_LOGO: seq<byte> := [0xce, 0xed, 0x66, 0x66, 0xcc, 0x0d, 0x00, 0x0b]

  const CAMPUS_CHALLENGE: seq<byte> := [
    0x00, 0x08, 0x22, 0x02, 0x1c, 0x00, 0x10, 0x00, 0x08, 0x65, 0x80,
    0x84, 0x20, 0x00, 0x22, 0x25, 0x00, 0x83, 0x0c, 0x80, 0x10]

  const POWERFEST: seq<byte> := [
    0xc9, 0x80, 0x80, 0x44, 0x15, 0x00, 0x62, 0x09, 0x29, 0xa0, 0x52,
    0x70, 0x50, 0x12, 0x05, 0x35, 0x31, 0x63, 0xc0, 0x22, 0x01]

  /** `1024 << (code & 7)`, where the smallest size means none. */
  function RamSize(code: byte): nat {
    if code % 8 == 0 then 0 else 1024 * Pow2(code % 8)
  }

  function RegionOf(code: byte): Region {
    if code % 128 <= 1 || code % 128 >= 13 then Ntsc else Pal
  }

  /** A BS-X flash cartridge. */
  predicate IsFlash(d: seq<byte>, i: nat)
    requires i + 64 <= |d|
  {
    && (d[i + 0x13] == 0x00 || d[i + 0x13] == 0xff) && d[i + 0x14] == 0x00
    && (d[i + 0x15] == 0x00 || d[i + 0x15] == 0x80 || d[i + 0x15] == 0x84
        || d[i + 0x15] == 0x9c || d[i + 0x15] == 0xbc || d[i + 0x15] == 0xfc)
    && (d[i + 0x1a] == 0x33 || d[i + 0x1a] == 0xff)
  }

  /** A connector for BS-X flash cartridges, read off the extended header. */
  predicate HasConnector(d: seq<byte>, i: nat)
    requires 14 <= i && i + 64 <= |d|
  {
    && d[i - 14] == 'Z' as int && d[i - 11] == 'J' as int
    && (('A' as int <= d[i - 13] <= 'Z' as int) || ('0' as int <= d[i - 13] <= '9' as int))
    && (d[i + 0x1a] == 0x33 || (d[i - 10] == 0x00 && d[i - 4] == 0x00))
  }

  /** The competition cartridges, told by name, checksums and size. */
  function Competition(d: seq<byte>, i: nat): Kind
    requires i + 64 <= |d|
  {
    var complement, checksum := Word16(d, i + 0x1c), Word16(d, i + 0x1e);
    if Has(d, i, CAMPUS_CHALLENGE) && complement == 0x0100 && checksum == 0x2d02
       && (|d| == 0x1c0000 || |d| == 0x1c2000) then CampusChallenge92
    else if Has(d, i, POWERFEST) && complement == 0x2011 && checksum == 0xf8c0
            && (|d| == 0x240000 || |d| == 0x242000) then Powerfest94
    else if Has(d, i, Ascii("PREHISTORIK MAN      ")) && complement == 0xffff && checksum == 0x0000
            && (|d| == 0x240000 || |d| == 0x242000) then Powerfest94
    else Unknown
  }

  /** Images told apart before any coprocessor is looked for. */
  function Special(d: seq<byte>, i: nat): Kind
    requires |d| >= SMALLEST && i + 64 <= |d|
  {
    if IsFlash(d, i) then Satellaview
    else if Has(d, 0, Ascii("BANDAI SFC-ADX")) then
      if Has(d, 16, Ascii("SFC-ADX BACKUP")) then SufamiTurboBios else SufamiTurbo
    else if Has(d, i, Ascii("Super GAMEBOY2")) then SuperGameBoy2Bios
    else if Has(d, i, Ascii("Super GAMEBOY")) then SuperGameBoy1Bios
    else Competition(d, i)
  }

  /** The layout of an ordinary cartridge, by where its header stands. */
  function Layout(d: seq<byte>, i: nat, connector: bool): Kind
    requires i + 64 <= |d|
  {
    if connector then if i == LO then LoRomSatellaview else HiRomSatellaview
    else if i == LO then if |d| >= 0x401000 || d[i + 0x15] == 0x32 then ExLoRom else LoRom
    else if i == HI then HiRom
    else if i == EX then ExHiRom
    else Unknown
  }

  function Dsp1Place(mapper: byte, size: nat): Dsp1Type {
    var m := mapper % 16 + (if mapper / 32 % 2 == 1 then 32 else 0);
    if m == 0x20 then if size <= 0x100000 then LoRom1Mb else LoRom2Mb
    else if m == 0x21 then HiRomDsp1
    else NoDsp1
  }

  /** The board of an image that is none of the special ones. */
  function Ordinary(d: seq<byte>, i: nat, region: Region, ram: nat): Board
    requires 14 <= i && i + 64 <= |d|
  {
    var connector := HasConnector(d, i);
    if connector && Has(d, i, Ascii("Satellaview BS-X     ")) then
      Board(SatellaviewBios, Ntsc, NoDsp1, |d|, ram, {BsxSlot})
    else
      var f := FieldsAt(d, i);
      Board(
        if Carries(f, HasSa1) then Sa1 else if Carries(f, HasSuperFx) then SuperFx else Layout(d, i, connector),
        if connector then Ntsc else region,
        if Carries(f, Dsp1) then Dsp1Place(f.mapper, |d|) else NoDsp1,
        |d|,
        if Carries(f, HasSuperFx) then RamSize(d[i - 3]) else ram,
        Features(f) + if connector then {BsxSlot} else {})
  }

  /** The board an image of valid size belongs to. */
  function Classified(d: seq<byte>): Board
    requires |d| >= SMALLEST
  {
    if Has(d, 0x104, GAME_BOY_LOGO) then Board(GameBoy, Ntsc, NoDsp1, 0, 0, {})
    else
      var i := FindHeader(d);
      var region := RegionOf(d[i + 0x19]);
      var ram := if d[i + 0x17] == 0 then 0 else RamSize(d[i + 0x18]);
      var special := Special(d, i);
      var japanese := special.Satellaview? || special.SufamiTurboBios? || special.SufamiTurbo?;
      if !special.Unknown? then Board(special, if japanese then Ntsc else region, NoDsp1, |d|, ram, {})
      else
        Ordinary(d, i, region, ram)
  }

  class SuperFamicomCartridge {
    var kind: Kind
    var region: Region
    var dsp1: Dsp1Type
    var romSize: nat
    var ramSize: nat
    var features: set<Feature>

    constructor ()
      ensures View() == Board(Unknown, Ntsc, NoDsp1, 0, 0, {})
    {
      kind, region, dsp1 := Unknown, Ntsc, NoDsp1;
      romSize, ramSize, features := 0, 0, {};
    }

    function View(): Board
      reads this
    {
      Board(kind, region, dsp1, romSize, ramSize, features)
    }

    /** What comes before the ordinary layouts: true when the kind is settled. */
    method ReadSpecial(d: seq<byte>, i: nat) returns (done: bool)
      requires |d| >= SMALLEST && i + 64 <= |d| && kind.Unknown?
      modifies this`kind, this`region
      ensures kind == Special(d, i) && (done <==> !kind.Unknown?)
      ensures region == if kind.Satellaview? || kind.SufamiTurboBios? || kind.SufamiTurbo? then Ntsc else old(region)
    {
      hide Has, Ascii;
      if IsFlash(d, i) {
        kind, region := Satellaview, Ntsc;
        return true;
      }
      if Has(d, 0, Ascii("BANDAI SFC-ADX")) {
        if Has(d, 16, Ascii("SFC-ADX BACKUP")) { kind := SufamiTurboBios; } else { kind := SufamiTurbo; }
        region := Ntsc;
        return true;
      }
      if Has(d, i, Ascii("Super GAMEBOY2")) {
        kind := SuperGameBoy2Bios;
        return true;
      }
      if Has(d, i, Ascii("Super GAMEBOY")) {
        kind := SuperGameBoy1Bios;
        return true;
      }
      kind := Competition(d, i);
      return !kind.Unknown?;
    }

    /** The coprocessors, and what they change about the layout. */
    method ReadFeatures(d: seq<byte>, i: nat)
      requires 14 <= i && i + 64 <= |d|
      modifies this`kind, this`ramSize, this`features, this`dsp1
      ensures var f := FieldsAt(d, i);
        && kind == (if Carries(f, HasSa1) then Sa1 else if Carries(f, HasSuperFx) then SuperFx else old(kind))
        && ramSize == (if Carries(f, HasSuperFx) then RamSize(d[i - 3]) else old(ramSize))
        && dsp1 == (if Carries(f, Dsp1) then Dsp1Place(f.mapper, |d|) else old(dsp1))
        && features == old(features) + Features(f)
    {
      hide RamSize, Dsp1Place;
      var f := FieldsAt(d, i);
      var detected := DetectFeatures(f);
      features := features + detected;
      if HasSuperFx in detected {
        kind := SuperFx;
        ramSize := RamSize(d[i - 3]);
      }
      if HasSa1 in detected { kind := Sa1; }
      if Dsp1 in detected { dsp1 := Dsp1Place(f.mapper, |d|); }
    }

    /** The layout of a cartridge that is not special, then its coprocessors. */
    method ReadOrdinary(d: seq<byte>, i: nat)
      requires |d| >= SMALLEST && i + 64 <= |d| && (i == LO || i == HI || i == EX)
      requires kind.Unknown? && dsp1.NoDsp1? && features == {} && romSize == |d|
      modifies this
      ensures View() == Ordinary(d, i, old(region), old(ramSize))
    {
      hide Has, Ascii, RamSize, Dsp1Place, Features, Carries, HasConnector, FieldsAt;
      if HasConnector(d, i) { features := {BsxSlot}; }
      if BsxSlot in features {
        if Has(d, i, Ascii("Satellaview BS-X     ")) {
          kind, region := SatellaviewBios, Ntsc;
          return;
        }
        kind := if i == LO then LoRomSatellaview else HiRomSatellaview;
        region := Ntsc;
      } else if i == LO && |d| >= 0x401000 {
        kind := ExLoRom;
      } else if i == LO && d[i + 0x15] == 0x32 {
        kind := ExLoRom;
      } else if i == LO {
        kind := LoRom;
      } else if i == HI {
        kind := HiRom;
      } else {
        kind := ExHiRom;
      }
      ReadFeatures(d, i);
    }

    /** `readHeader`, on a cartridge whose fields have their initial values. */
    method ReadHeader(d: seq<byte>)
      requires |d| >= SMALLEST && View() == Board(Unknown, Ntsc, NoDsp1, 0, 0, {})
      modifies this
      ensures View() == Classified(d)
    {
      hide Has, Ascii, Special, RamSize, Ordinary;
      if Has(d, 0x104, GAME_BOY_LOGO) {
        kind := GameBoy;
        return;
      }
      var i := LocateHeader(d);
      romSize := |d|;
      ramSize := RamSize(d[i + 0x18]);
      if d[i + 0x17] == 0 && ramSize != 0 { ramSize := 0; }
      region := RegionOf(d[i + 0x19]);
      var done := ReadSpecial(d, i);
      if done { return; }
      ReadOrdinary(d, i);
    }
  }
}
