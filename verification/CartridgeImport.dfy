/** Splitting an image into files by its board, and putting the files together again. */
module CartridgeImport {
  import opened Bits
  import opened Cartridge
  import opened Maybe

  /** The chips whose programs are stored in files of their own, by name. */
  datatype Chip = ChipCx4 | ChipDsp1 | ChipDsp1b | ChipDsp2 | ChipDsp3 | ChipDsp4 | ChipSt010 | ChipSt011 | ChipSt018

  datatype File =
    | Program | Data | Slot1 | Slot2 | Slot3 | Boot1 | Boot2
    | ChipProgram(chip: Chip) | ChipData(chip: Chip)
    | Msu1

  /** One file of a manifest: its name and its size in the image. */
  datatype Piece = Piece(file: File, size: nat)

  datatype Manifest = NoManifest | Manifest(board: Board, pieces: seq<Piece>)

  // ---------------------------------------------------------------- the pieces of a board

  /** The image without a copier's header. */
  function Strip(buffer: seq<byte>): seq<byte> {
    if |buffer| % 0x8000 == 512 then buffer[512..] else buffer
  }

  /** The coprocessor whose program is stored behind the game's. */
  function ChipIn(features: set<Feature>): Option<Feature> {
    if Cx4 in features then Some(Cx4)
    else if Dsp1 in features then Some(Dsp1)
    else if Dsp2 in features then Some(Dsp2)
    else if Dsp3 in features then Some(Dsp3)
    else if Dsp4 in features then Some(Dsp4)
    else if St010 in features then Some(St010)
    else if St011 in features then Some(St011)
    else if St018 in features then Some(St018)
    else None
  }

  /** At most one such coprocessor, and none beside an SPC7110: what a header can announce. */
  ghost predicate Consistent(b: Board) {
    && (forall x, y ::
          x in b.features && y in b.features && HasFirmware(x) && (HasFirmware(y) || y.Spc7110?) ==> x == y)
    && (b.kind.SuperGameBoy1Bios? || b.kind.SuperGameBoy2Bios? || b.kind.CampusChallenge92? || b.kind.Powerfest94? ==>
        b.features == {})
    && (b.kind.SatellaviewBios? || b.kind.SufamiTurboBios? ==> b.features <= {BsxSlot})
  }

  lemma ClassifiedConsistent(d: seq<byte>)
    requires |d| >= SMALLEST
    ensures Consistent(Classified(d))
    ensures Classified(d).kind.CampusChallenge92? ==> |d| <= 0x1c2000
    ensures Classified(d).kind.Powerfest94? ==> |d| <= 0x242000
  {
    hide Has, Ascii, Special, RamSize, Ordinary, FindHeader;
    SpecialSizes(d, FindHeader(d));
    OrdinaryConsistent(d, FindHeader(d), RegionOf(d[FindHeader(d) + 0x19]),
                       if d[FindHeader(d) + 0x17] == 0 then 0 else RamSize(d[FindHeader(d) + 0x18]));
  }

  lemma SpecialSizes(d: seq<byte>, i: nat)
    requires |d| >= SMALLEST && i + 64 <= |d|
    ensures Special(d, i).CampusChallenge92? ==> |d| <= 0x1c2000
    ensures Special(d, i).Powerfest94? ==> |d| <= 0x242000
  {
    hide Has, Ascii;
  }

  lemma OrdinaryConsistent(d: seq<byte>, i: nat, region: Region, ram: nat)
    requires 14 <= i && i + 64 <= |d|
    ensures Consistent(Ordinary(d, i, region, ram))
    ensures var k := Ordinary(d, i, region, ram).kind; !k.CampusChallenge92? && !k.Powerfest94?
  {
    hide Has, Ascii, HasConnector, Dsp1Place, RamSize, Carries, HasFirmware;
    var f := FieldsAt(d, i);
    forall x, y | Carries(f, x) && Carries(f, y) && HasFirmware(x) && (HasFirmware(y) || y.Spc7110?) ensures x == y {
      OneChip(f, x, y);
    }
    SlotHasNone(f);
  }

  lemma SlotHasNone(f: Fields)
    ensures !HasFirmware(BsxSlot) && !Carries(f, BsxSlot)
  {
  }

  /** Where the size of an image tells that a coprocessor's program is in it. */
  function FirmwareSize(chip: Feature, size: nat): nat
    requires HasFirmware(chip)
  {
    match chip
    case Cx4 => if size % 0x8000 == 0xc00 then 0xc00 else 0
    case St010 => if size % 0x1_0000 == 0xd000 then 0xd000 else 0
    case St011 => if size % 0x1_0000 == 0xd000 then 0xd000 else 0
    case St018 => if size % 0x4_0000 == 0x28000 then 0x28000 else 0
    case _ => if size % 0x8000 == 0x2000 then 0x2000 else 0
  }

  function Firmware(b: Board, size: nat): (r: nat)
    ensures r <= size
  {
    if ChipIn(b.features).Some? then FirmwareSize(ChipIn(b.features).value, size)
    else if (b.kind.SuperGameBoy1Bios? || b.kind.SuperGameBoy2Bios?) && size % 0x8000 == 0x100 then 0x100
    else 0
  }

  function ChipPieces(chip: Feature): seq<Piece> {
    match chip
    case Dsp1 => [Piece(ChipProgram(ChipDsp1b), 0x1800), Piece(ChipData(ChipDsp1b), 0x800)]
    case Dsp2 => [Piece(ChipProgram(ChipDsp2), 0x1800), Piece(ChipData(ChipDsp2), 0x800)]
    case Dsp3 => [Piece(ChipProgram(ChipDsp3), 0x1800), Piece(ChipData(ChipDsp3), 0x800)]
    case Dsp4 => [Piece(ChipProgram(ChipDsp4), 0x1800), Piece(ChipData(ChipDsp4), 0x800)]
    case St010 => [Piece(ChipProgram(ChipSt010), 0xc000), Piece(ChipData(ChipSt010), 0x1000)]
    case St011 => [Piece(ChipProgram(ChipSt011), 0xc000), Piece(ChipData(ChipSt011), 0x1000)]
    case St018 => [Piece(ChipProgram(ChipSt018), 0x20000), Piece(ChipData(ChipSt018), 0x8000)]
    case Cx4 => [Piece(ChipData(ChipCx4), 0xc00)]
    case _ => []
  }

  /** The game's own files. */
  function BasePieces(b: Board, size: nat): seq<Piece> {
    var rom := size - Firmware(b, size);
    if b.kind.SuperGameBoy1Bios? then [Piece(Program, rom), Piece(Boot1, 0x100)]
    else if b.kind.SuperGameBoy2Bios? then [Piece(Program, rom), Piece(Boot2, 0x100)]
    else if Spc7110 in b.features then [Piece(Program, 0x10_0000), Piece(Data, (rom - 0x10_0000) % WORD32)]
    else [Piece(Program, rom)]
  }

  /** A competition cartridge's games, and its coprocessor's program. */
  function ContestPieces(last: nat): seq<Piece> {
    [Piece(Program, 0x40000), Piece(Slot1, 0x80000), Piece(Slot2, 0x80000), Piece(Slot3, last),
     Piece(ChipProgram(ChipDsp1), 0x1800), Piece(ChipData(ChipDsp1), 0x800)]
  }

  function Pieces(b: Board, size: nat, msu1: bool): seq<Piece> {
    if b.kind.CampusChallenge92? then ContestPieces(0x80000)
    else if b.kind.Powerfest94? then ContestPieces(0x100000)
    else
      BasePieces(b, size)
      + (if ChipIn(b.features).Some? then ChipPieces(ChipIn(b.features).value) else [])
      + (if msu1 then [Piece(Msu1, 0)] else [])
  }

  /** The manifest of a stripped image. */
  function ManifestOf(d: seq<byte>, msu1: bool): Manifest {
    if |d| < SMALLEST then NoManifest
    else
      var b := Classified(d);
      if b.kind.Unknown? || b.kind.GameBoy? || b.kind.Satellaview? || b.kind.SufamiTurbo? then NoManifest
      else Manifest(b, Pieces(b, |d|, msu1))
  }

  // ---------------------------------------------------------------- recognising

  /** The coprocessor that `ChipIn` names is the only one there is. */
  lemma ChipAlone(b: Board, x: Feature)
    requires Consistent(b) && HasFirmware(x)
    ensures x in b.features <==> ChipIn(b.features) == Some(x)
  {
  }

  lemma AllAlone(b: Board)
    requires Consistent(b)
    ensures forall x :: HasFirmware(x) ==> (x in b.features <==> ChipIn(b.features) == Some(x))
    ensures ChipIn(b.features).Some? ==> HasFirmware(ChipIn(b.features).value)
  {
    hide Consistent, ChipIn, HasFirmware;
    forall x | HasFirmware(x) ensures x in b.features <==> ChipIn(b.features) == Some(x) { ChipAlone(b, x); }
    ChipInFeatures(b.features);
  }

  lemma NoChipThere(b: Board)
    requires Consistent(b) && (b.kind.SuperGameBoy1Bios? || b.kind.SuperGameBoy2Bios?)
    ensures ChipIn(b.features) == None
  {
  }

  /** The firmware tests in the constructor's order; at most one of them can be met. */
  method DetectFirmware(b: Board, size: nat) returns (firmware: nat)
    requires Consistent(b)
    ensures firmware == Firmware(b, size)
  {
    AllAlone(b);
    if b.kind.SuperGameBoy1Bios? || b.kind.SuperGameBoy2Bios? { NoChipThere(b); }
    hide Consistent, ChipIn;
    firmware := 0;
    if Dsp1 in b.features && size % 0x8000 == 0x2000 { firmware := 0x2000; }
    if Dsp2 in b.features && size % 0x8000 == 0x2000 { firmware := 0x2000; }
    if Dsp3 in b.features && size % 0x8000 == 0x2000 { firmware := 0x2000; }
    if Dsp4 in b.features && size % 0x8000 == 0x2000 { firmware := 0x2000; }
    if St010 in b.features && size % 0x1_0000 == 0xd000 { firmware := 0xd000; }
    if St011 in b.features && size % 0x1_0000 == 0xd000 { firmware := 0xd000; }
    if St018 in b.features && size % 0x4_0000 == 0x28000 { firmware := 0x28000; }
    if Cx4 in b.features && size % 0x8000 == 0xc00 { firmware := 0xc00; }
    if b.kind.SuperGameBoy1Bios? && size % 0x8000 == 0x100 { firmware := 0x100; }
    if b.kind.SuperGameBoy2Bios? && size % 0x8000 == 0x100 { firmware := 0x100; }
  }

  /** The game's files, in the order of the constructor's alternatives. */
  method ListBase(b: Board, size: nat) returns (pieces: seq<Piece>)
    requires Consistent(b)
    ensures pieces == BasePieces(b, size) + if Cx4 in b.features then ChipPieces(Cx4) else []
  {
    hide Firmware, ChipIn;
    var firmware := DetectFirmware(b, size);
    var rom := size - firmware;
    if b.kind.SatellaviewBios? {
      pieces := [Piece(Program, rom)];
    } else if b.kind.SufamiTurboBios? {
      pieces := [Piece(Program, rom)];
    } else if b.kind.SuperGameBoy1Bios? {
      pieces := [Piece(Program, rom), Piece(Boot1, 0x100)];
    } else if b.kind.SuperGameBoy2Bios? {
      pieces := [Piece(Program, rom), Piece(Boot2, 0x100)];
    } else if Cx4 in b.features {
      pieces := [Piece(Program, rom), Piece(ChipData(ChipCx4), 0xc00)];
    } else if Spc7110 in b.features {
      pieces := [Piece(Program, 0x10_0000), Piece(Data, (rom - 0x10_0000) % WORD32)];
    } else {
      pieces := [Piece(Program, rom)];
    }
  }

  /** The coprocessors' files, each flag by itself. */
  method ListChips(b: Board) returns (pieces: seq<Piece>)
    requires Consistent(b)
    ensures (if Cx4 in b.features then ChipPieces(Cx4) else []) + pieces
         == if ChipIn(b.features).Some? then ChipPieces(ChipIn(b.features).value) else []
  {
    hide Consistent, ChipIn;
    AllAlone(b);
    pieces := [];
    if Dsp1 in b.features {
      pieces := pieces + [Piece(ChipProgram(ChipDsp1b), 0x1800), Piece(ChipData(ChipDsp1b), 0x800)];
    }
    if Dsp2 in b.features {
      pieces := pieces + [Piece(ChipProgram(ChipDsp2), 0x1800), Piece(ChipData(ChipDsp2), 0x800)];
    }
    if Dsp3 in b.features {
      pieces := pieces + [Piece(ChipProgram(ChipDsp3), 0x1800), Piece(ChipData(ChipDsp3), 0x800)];
    }
    if Dsp4 in b.features {
      pieces := pieces + [Piece(ChipProgram(ChipDsp4), 0x1800), Piece(ChipData(ChipDsp4), 0x800)];
    }
    if St010 in b.features {
      pieces := pieces + [Piece(ChipProgram(ChipSt010), 0xc000), Piece(ChipData(ChipSt010), 0x1000)];
    }
    if St011 in b.features {
      pieces := pieces + [Piece(ChipProgram(ChipSt011), 0xc000), Piece(ChipData(ChipSt011), 0x1000)];
    }
    if St018 in b.features {
      pieces := pieces + [Piece(ChipProgram(ChipSt018), 0x20000), Piece(ChipData(ChipSt018), 0x8000)];
    }
  }

  lemma Regroup(base: seq<Piece>, cx4: seq<Piece>, chips: seq<Piece>)
    ensures (base + cx4) + chips == base + (cx4 + chips)
  {
  }

  method ListPieces(b: Board, size: nat, msu1: bool) returns (pieces: seq<Piece>)
    requires Consistent(b) && !b.kind.CampusChallenge92? && !b.kind.Powerfest94?
    ensures pieces == Pieces(b, size, msu1)
  {
    hide BasePieces, ChipPieces, ChipIn, Consistent;
    var base := ListBase(b, size);
    var chips := ListChips(b);
    pieces := base + chips;
    Regroup(BasePieces(b, size), if Cx4 in b.features then ChipPieces(Cx4) else [], chips);
    if msu1 {
      pieces := pieces + [Piece(Msu1, 0)];
    } else {
      assert pieces + [] == pieces;
    }
  }

  /** The constructor: the copier's header off, the header read, the manifest written. */
  method Recognise(buffer: seq<byte>, msu1: bool) returns (m: Manifest)
    ensures m == ManifestOf(Strip(buffer), msu1)
  {
    hide Classified, BasePieces, ChipPieces, ChipIn, Consistent, ContestPieces;
    var d := buffer;
    if |d| % 0x8000 == 512 { d := d[512..]; }
    if |d| < SMALLEST { return NoManifest; }
    var cartridge := new SuperFamicomCartridge();
    cartridge.ReadHeader(d);
    var b := cartridge.View();
    if b.kind.Unknown? || b.kind.GameBoy? || b.kind.Satellaview? || b.kind.SufamiTurbo? { return NoManifest; }
    if b.kind.CampusChallenge92? { return Manifest(b, ContestPieces(0x80000)); }
    if b.kind.Powerfest94? { return Manifest(b, ContestPieces(0x100000)); }
    ClassifiedConsistent(d);
    var pieces := ListPieces(b, |d|, msu1);
    m := Manifest(b, pieces);
  }

  // ---------------------------------------------------------------- splitting

  /** The files of an import and whether none was missing: a piece larger than what is left is skipped. */
  function Split(pieces: seq<Piece>, image: seq<byte>, offset: nat, files: map<File, seq<byte>>)
    : (bool, map<File, seq<byte>>)
    requires offset <= |image|
  {
    if pieces == [] then (true, files)
    else
      var p := pieces[0];
      if p.size > |image| - offset then (false, Split(pieces[1..], image, offset, files).1)
      else Split(pieces[1..], image, offset + p.size, files[p.file := image[offset..offset + p.size]])
  }

  function Imported(buffer: seq<byte>, msu1: bool): Option<map<File, seq<byte>>> {
    match ManifestOf(Strip(buffer), msu1)
    case NoManifest => None
    case Manifest(_, pieces) =>
      var (whole, files) := Split(pieces, Strip(buffer), 0, map[]);
      if whole then Some(files) else None
  }

  /** `superFamicomImport`, into an empty library folder. */
  method Import(buffer: seq<byte>, msu1: bool) returns (ok: bool, files: map<File, seq<byte>>)
    ensures ok <==> Imported(buffer, msu1).Some?
    ensures ok ==> files == Imported(buffer, msu1).value
  {
    hide ManifestOf;
    files := map[];
    var m := Recognise(buffer, msu1);
    if m.NoManifest? { return false, files; }
    var offset := if |buffer| % 0x8000 == 512 then 512 else 0;
    ghost var start, image := offset, Strip(buffer);
    var missing := false;
    var n := 0;
    assert m.pieces[0..] == m.pieces;
    while n < |m.pieces|
      invariant 0 <= n <= |m.pieces| && start <= offset <= |buffer| && image == buffer[start..]
      invariant Split(m.pieces, image, 0, map[]).1 == Split(m.pieces[n..], image, offset - start, files).1
      invariant Split(m.pieces, image, 0, map[]).0 == (!missing && Split(m.pieces[n..], image, offset - start, files).0)
    {
      var p := m.pieces[n];
      assert m.pieces[n..][0] == p && m.pieces[n..][1..] == m.pieces[n + 1..];
      n := n + 1;
      if p.size > |buffer| - offset {
        missing := true;
        continue;
      }
      assert buffer[offset..offset + p.size] == image[offset - start..offset - start + p.size];
      files := files[p.file := buffer[offset..offset + p.size]];
      offset := offset + p.size;
    }
    ok := !missing;
  }

  // ---------------------------------------------------------------- collecting

  const RANKS: nat := 25

  function ChipNumber(c: Chip): (n: nat)
    ensures n < 9
  {
    match c
    case ChipCx4 => 0 case ChipDsp1 => 1 case ChipDsp1b => 2 case ChipDsp2 => 3 case ChipDsp3 => 4
    case ChipDsp4 => 5 case ChipSt010 => 6 case ChipSt011 => 7 case ChipSt018 => 8
  }

  function ChipAt(n: nat): Chip
    requires n < 9
  {
    if n == 0 then ChipCx4 else if n == 1 then ChipDsp1 else if n == 2 then ChipDsp1b else if n == 3 then ChipDsp2
    else if n == 4 then ChipDsp3 else if n == 5 then ChipDsp4 else if n == 6 then ChipSt010
    else if n == 7 then ChipSt011 else ChipSt018
  }

  /** The place of a file in the collecting order: by kind, and by name within a kind. */
  function Rank(f: File): nat {
    match f
    case Program => 0 case Data => 1 case Slot1 => 2 case Slot2 => 3 case Slot3 => 4 case Boot1 => 5 case Boot2 => 6
    case ChipProgram(c) => 7 + ChipNumber(c)
    case ChipData(c) => 16 + ChipNumber(c)
    case Msu1 => RANKS
  }

  function FileAt(r: nat): File
    requires r < RANKS
  {
    if r == 0 then Program else if r == 1 then Data else if r == 2 then Slot1 else if r == 3 then Slot2
    else if r == 4 then Slot3 else if r == 5 then Boot1 else if r == 6 then Boot2
    else if r < 16 then ChipProgram(ChipAt(r - 7))
    else ChipData(ChipAt(r - 16))
  }

  lemma RankInverse(f: File)
    ensures Rank(f) <= RANKS && (Rank(f) == RANKS <==> f == Msu1) && (Rank(f) < RANKS ==> FileAt(Rank(f)) == f)
  {
  }

  lemma FileInverse(r: nat)
    requires r < RANKS
    ensures Rank(FileAt(r)) == r
  {
  }

  /** The files from a rank on, one behind the other. */
  function Joined(files: map<File, seq<byte>>, r: nat): seq<byte>
    requires r <= RANKS
    decreases RANKS - r
  {
    if r == RANKS then []
    else (if FileAt(r) in files then files[FileAt(r)] else []) + Joined(files, r + 1)
  }

  /** `superFamicomManifest(location)`: every file that is there is appended, in the collecting order. */
  method Collect(files: map<File, seq<byte>>) returns (buffer: seq<byte>)
    ensures buffer == Joined(files, 0)
  {
    hide FileAt, Joined;
    buffer := [];
    var r := 0;
    while r < RANKS
      invariant 0 <= r <= RANKS && buffer + Joined(files, r) == Joined(files, 0)
    {
      JoinedStep(files, r);
      if FileAt(r) in files { buffer := buffer + files[FileAt(r)]; }
      r := r + 1;
    }
    JoinedEnd(files);
  }

  lemma JoinedStep(files: map<File, seq<byte>>, r: nat)
    requires r < RANKS
    ensures Joined(files, r) == (if FileAt(r) in files then files[FileAt(r)] else []) + Joined(files, r + 1)
  {
    hide FileAt;
  }

  lemma JoinedEnd(files: map<File, seq<byte>>)
    ensures Joined(files, RANKS) == []
  {
  }

  // ---------------------------------------------------------------- splitting and collecting

  function Total(pieces: seq<Piece>): nat {
    if pieces == [] then 0 else pieces[0].size + Total(pieces[1..])
  }

  /** Files in the collecting order, from a rank on; the MSU1 file is empty. */
  ghost predicate InOrder(pieces: seq<Piece>, r: nat) {
    pieces == []
    || (Rank(pieces[0].file) >= r && (pieces[0].file.Msu1? ==> pieces[0].size == 0)
        && InOrder(pieces[1..], Rank(pieces[0].file) + 1))
  }

  /** The files hold the image's stretches, piece by piece. */
  ghost predicate Holds(files: map<File, seq<byte>>, pieces: seq<Piece>, image: seq<byte>, offset: nat) {
    pieces == []
    || (&& offset + pieces[0].size <= |image| && pieces[0].file in files
        && files[pieces[0].file] == image[offset..offset + pieces[0].size]
        && Holds(files, pieces[1..], image, offset + pieces[0].size))
  }

  ghost predicate Listed(f: File, pieces: seq<Piece>) {
    exists i :: 0 <= i < |pieces| && pieces[i].file == f
  }

  lemma ListedTail(f: File, pieces: seq<Piece>)
    requires pieces != []
    ensures Listed(f, pieces) <==> f == pieces[0].file || Listed(f, pieces[1..])
  {
    if i :| 0 <= i < |pieces| && pieces[i].file == f {
      if i > 0 { assert pieces[1..][i - 1].file == f; }
    }
    if i :| 0 <= i < |pieces[1..]| && pieces[1..][i].file == f {
      assert pieces[i + 1].file == f;
    }
  }

  /** A file of a rank below those of a list is not in it. */
  lemma {:induction false} NotListed(pieces: seq<Piece>, r: nat, f: File)
    requires InOrder(pieces, r) && Rank(f) < r
    ensures !Listed(f, pieces)
    decreases |pieces|
  {
    if pieces != [] {
      ListedTail(f, pieces);
      NotListed(pieces[1..], Rank(pieces[0].file) + 1, f);
    }
  }

  /** A split that misses nothing holds every piece, keeps what was there, and makes no other file. */
  lemma {:induction false} SplitHolds(pieces: seq<Piece>, image: seq<byte>, offset: nat, files: map<File, seq<byte>>,
                                      r: nat)
    requires offset <= |image| && InOrder(pieces, r) && Split(pieces, image, offset, files).0
    ensures var made := Split(pieces, image, offset, files).1;
      && Holds(made, pieces, image, offset)
      && (forall f :: f in made <==> f in files || Listed(f, pieces))
      && (forall f :: f in files && Rank(f) < r ==> made[f] == files[f])
    decreases |pieces|
  {
    hide Rank, Listed;
    if pieces == [] {
      ListedNothing();
    } else {
      var p := pieces[0];
      var next := files[p.file := image[offset..offset + p.size]];
      SplitHolds(pieces[1..], image, offset + p.size, next, Rank(p.file) + 1);
      forall f ensures Listed(f, pieces) <==> f == p.file || Listed(f, pieces[1..]) { ListedTail(f, pieces); }
    }
  }

  lemma ListedNothing()
    ensures forall f :: !Listed(f, [])
  {
  }

  /** Collecting files that hold pieces in order gives the stretch of the image they came from. */
  lemma {:induction false} JoinedHolds(files: map<File, seq<byte>>, pieces: seq<Piece>, image: seq<byte>, offset: nat,
                                       r: nat)
    requires offset <= |image| && r <= RANKS && InOrder(pieces, r) && Holds(files, pieces, image, offset)
    requires forall f :: f in files && Rank(f) >= r ==> Listed(f, pieces)
    ensures offset + Total(pieces) <= |image| && Joined(files, r) == image[offset..offset + Total(pieces)]
    decreases RANKS - r, |pieces|
  {
    hide Listed, FileAt, Rank, InOrder, Holds, Joined, Total;
    if r == RANKS {
      JoinedLast(files, pieces, image, offset);
    } else {
      FileInverse(r);
      JoinedStep(files, r);
      var f := FileAt(r);
      if pieces != [] && Rank(pieces[0].file) == r {
        var p := pieces[0];
        HeadHolds(files, pieces, image, offset, r);
        RankInverse(p.file);
        forall g | g in files && Rank(g) >= r + 1 ensures Listed(g, pieces[1..]) { ListedTail(g, pieces); }
        JoinedHolds(files, pieces[1..], image, offset + p.size, r + 1);
        assert image[offset..offset + p.size] + image[offset + p.size..offset + Total(pieces)]
            == image[offset..offset + Total(pieces)];
      } else {
        InOrderLater(pieces, r);
        NotListed(pieces, r + 1, f);
        JoinedHolds(files, pieces, image, offset, r + 1);
      }
    }
  }

  lemma HeadHolds(files: map<File, seq<byte>>, pieces: seq<Piece>, image: seq<byte>, offset: nat, r: nat)
    requires pieces != [] && InOrder(pieces, r) && Holds(files, pieces, image, offset)
    ensures var p := pieces[0];
      && offset + p.size <= |image| && p.file in files && files[p.file] == image[offset..offset + p.size]
      && Holds(files, pieces[1..], image, offset + p.size) && InOrder(pieces[1..], Rank(p.file) + 1)
      && Total(pieces) == p.size + Total(pieces[1..])
  {
    hide Rank;
  }

  lemma InOrderLater(pieces: seq<Piece>, r: nat)
    requires InOrder(pieces, r) && (pieces != [] ==> Rank(pieces[0].file) != r)
    ensures InOrder(pieces, r + 1)
  {
  }

  lemma JoinedLast(files: map<File, seq<byte>>, pieces: seq<Piece>, image: seq<byte>, offset: nat)
    requires offset <= |image| && InOrder(pieces, RANKS) && Holds(files, pieces, image, offset)
    ensures offset + Total(pieces) <= |image| && Total(pieces) == 0 && Joined(files, RANKS) == []
  {
    if pieces != [] {
      RankInverse(pieces[0].file);
      if pieces[1..] != [] { RankInverse(pieces[1..][0].file); }
    }
  }

  // ---------------------------------------------------------------- the pieces add up

  lemma Cons(p: Piece, rest: seq<Piece>, r: nat)
    ensures Total([p] + rest) == p.size + Total(rest)
    ensures InOrder([p] + rest, r)
        <==> Rank(p.file) >= r && (p.file.Msu1? ==> p.size == 0) && InOrder(rest, Rank(p.file) + 1)
  {
    hide Rank;
    assert ([p] + rest)[1..] == rest;
  }

  lemma One(p: Piece, r: nat)
    ensures Total([p]) == p.size
    ensures InOrder([p], r) <==> Rank(p.file) >= r && (p.file.Msu1? ==> p.size == 0)
  {
    hide Rank;
    assert [p] == [p] + [];
  }

  lemma Two(p: Piece, q: Piece, r: nat)
    ensures Total([p, q]) == p.size + q.size
    ensures Rank(p.file) >= r && Rank(q.file) > Rank(p.file) && !p.file.Msu1? && !q.file.Msu1? ==> InOrder([p, q], r)
  {
    hide Rank;
    assert [p, q] == [p] + [q];
    Cons(p, [q], r);
    One(q, Rank(p.file) + 1);
  }

  lemma {:induction false} Append(a: seq<Piece>, b: seq<Piece>, r: nat, last: nat)
    requires InOrder(a, r) && r <= last && InOrder(b, last)
    requires forall i :: 0 <= i < |a| ==> Rank(a[i].file) < last
    ensures InOrder(a + b, r) && Total(a + b) == Total(a) + Total(b)
    decreases |a|
  {
    hide Rank;
    if a == [] {
      assert a + b == b;
      Lower(b, last, r);
    } else {
      assert a + b == [a[0]] + (a[1..] + b);
      Cons(a[0], a[1..] + b, r);
      Append(a[1..], b, Rank(a[0].file) + 1, last);
    }
  }

  lemma Lower(b: seq<Piece>, last: nat, r: nat)
    requires InOrder(b, last) && r <= last
    ensures InOrder(b, r)
  {
  }

  /** The games of a competition cartridge and its coprocessor's program fill the whole image. */
  lemma ContestAddsUp(last: nat)
    ensures InOrder(ContestPieces(last), 0) && Total(ContestPieces(last)) == 0x142000 + last
  {
    var p, s1, s2, s3 := Piece(Program, 0x40000), Piece(Slot1, 0x80000), Piece(Slot2, 0x80000), Piece(Slot3, last);
    var chip := [Piece(ChipProgram(ChipDsp1), 0x1800), Piece(ChipData(ChipDsp1), 0x800)];
    Two(chip[0], chip[1], 5);
    Cons(s3, chip, 4);
    Cons(s2, [s3] + chip, 3);
    Cons(s1, [s2] + ([s3] + chip), 1);
    Cons(p, [s1] + ([s2] + ([s3] + chip)), 0);
    assert ContestPieces(last) == [p] + ([s1] + ([s2] + ([s3] + chip)));
  }

  lemma ChipAddsUp(chip: Feature, size: nat)
    requires HasFirmware(chip)
    ensures InOrder(ChipPieces(chip), 7)
    ensures Total(ChipPieces(chip)) > 0 && FirmwareSize(chip, size) <= Total(ChipPieces(chip))
    ensures forall i :: 0 <= i < |ChipPieces(chip)| ==> Rank(ChipPieces(chip)[i].file) < RANKS
  {
    var s := ChipPieces(chip);
    if chip.Cx4? { One(s[0], 7); } else { Two(s[0], s[1], 7); }
  }

  lemma BaseAddsUp(b: Board, size: nat)
    requires Consistent(b) && size < WORD32
    ensures InOrder(BasePieces(b, size), 0)
    ensures forall i :: 0 <= i < |BasePieces(b, size)| ==> Rank(BasePieces(b, size)[i].file) < 7
    ensures Total(BasePieces(b, size)) + Firmware(b, size)
         >= size + if b.kind.SuperGameBoy1Bios? || b.kind.SuperGameBoy2Bios? then 0x100 else 0
  {
    hide FirmwareSize, ChipIn;
    var s := BasePieces(b, size);
    if |s| == 1 { One(s[0], 0); } else { Two(s[0], s[1], 0); }
    if Spc7110 in b.features { Spc7110Alone(b, size); }
  }

  lemma Spc7110Alone(b: Board, size: nat)
    requires Consistent(b) && Spc7110 in b.features
    ensures Firmware(b, size) == 0 && !b.kind.SuperGameBoy1Bios? && !b.kind.SuperGameBoy2Bios?
  {
  }

  lemma ChipInFeatures(features: set<Feature>)
    ensures ChipIn(features).Some? ==> ChipIn(features).value in features && HasFirmware(ChipIn(features).value)
  {
  }

  /** The pieces of a board stand in the collecting order and leave no byte of the image over. */
  lemma PiecesAddUp(b: Board, size: nat, msu1: bool)
    requires Consistent(b) && size < WORD32
    requires b.kind.CampusChallenge92? ==> size <= 0x1c2000
    requires b.kind.Powerfest94? ==> size <= 0x242000
    ensures InOrder(Pieces(b, size, msu1), 0) && Total(Pieces(b, size, msu1)) >= size
  {
    hide BasePieces, ChipPieces, FirmwareSize, ContestPieces, HasFirmware, InOrder, Total, ChipIn;
    if b.kind.CampusChallenge92? {
      ContestAddsUp(0x80000);
    } else if b.kind.Powerfest94? {
      ContestAddsUp(0x100000);
    } else {
      var base := BasePieces(b, size);
      var msu: seq<Piece> := if msu1 then [Piece(Msu1, 0)] else [];
      BaseAddsUp(b, size);
      MsuAddsUp(msu1);
      if ChipIn(b.features).Some? {
        var chip := ChipIn(b.features).value;
        ChipInFeatures(b.features);
        ChipAddsUp(chip, size);
        Append(base, ChipPieces(chip), 0, 7);
        WithinRanks(base, ChipPieces(chip));
        Append(base + ChipPieces(chip), msu, 0, RANKS);
      } else {
        assert base + [] == base;
        Append(base, msu, 0, RANKS);
      }
    }
  }

  lemma WithinRanks(a: seq<Piece>, b: seq<Piece>)
    requires forall i :: 0 <= i < |a| ==> Rank(a[i].file) < 7
    requires forall i :: 0 <= i < |b| ==> Rank(b[i].file) < RANKS
    ensures forall i :: 0 <= i < |a + b| ==> Rank((a + b)[i].file) < RANKS
  {
    hide Rank;
  }

  lemma MsuAddsUp(msu1: bool)
    ensures var msu: seq<Piece> := if msu1 then [Piece(Msu1, 0)] else []; InOrder(msu, RANKS) && Total(msu) == 0
  {
    if msu1 { One(Piece(Msu1, 0), RANKS); }
  }

  lemma StripSize(buffer: seq<byte>)
    ensures Strip(Strip(buffer)) == Strip(buffer)
  {
  }

  /** A split misses no file exactly when the pieces are no more than the image. */
  lemma {:induction false} SplitFits(pieces: seq<Piece>, image: seq<byte>, offset: nat, files: map<File, seq<byte>>)
    requires offset <= |image|
    ensures Split(pieces, image, offset, files).0 <==> offset + Total(pieces) <= |image|
    decreases |pieces|
  {
    if pieces != [] {
      var p, rest := pieces[0], pieces[1..];
      if p.size <= |image| - offset {
        SplitFits(rest, image, offset + p.size, files[p.file := image[offset..offset + p.size]]);
      }
    }
  }

  predicate IsContest(k: Kind) {
    k.CampusChallenge92? || k.Powerfest94?
  }

  /** The MSU1 file is listed exactly when it was there, save for competition cartridges, which never list it. */
  lemma MsuListed(b: Board, size: nat, msu1: bool)
    requires Consistent(b) && size < WORD32 && !IsContest(b.kind)
    ensures Listed(Msu1, Pieces(b, size, msu1)) <==> msu1
  {
    hide BasePieces, ChipPieces, ChipIn, HasFirmware;
    var base := BasePieces(b, size);
    var chips: seq<Piece> := if ChipIn(b.features).Some? then ChipPieces(ChipIn(b.features).value) else [];
    BaseAddsUp(b, size);
    if ChipIn(b.features).Some? {
      ChipInFeatures(b.features);
      ChipAddsUp(ChipIn(b.features).value, size);
    }
    WithinRanks(base, chips);
    var pieces := Pieces(b, size, msu1);
    assert pieces == (base + chips) + if msu1 then [Piece(Msu1, 0)] else [];
    if msu1 {
      assert pieces[|base + chips|].file == Msu1;
    } else {
      assert pieces == base + chips;
    }
  }

  /** The manifest does not change when the MSU1 file is looked for among the imported ones. */
  lemma MsuAgain(d: seq<byte>, msu1: bool, files: map<File, seq<byte>>)
    requires |d| < WORD32 && ManifestOf(d, msu1).Manifest?
    requires forall f :: f in files <==> Listed(f, ManifestOf(d, msu1).pieces)
    ensures ManifestOf(d, Msu1 in files) == ManifestOf(d, msu1)
  {
    hide Classified, Consistent, BasePieces, ChipPieces, ChipIn, ContestPieces, Listed;
    ClassifiedConsistent(d);
    if !IsContest(Classified(d).kind) { MsuListed(Classified(d), |d|, msu1); }
  }

  /**
    * The files of a successful import, collected, are the image without its copier's header, and make the same
    * manifest.
    */
  lemma ImportCollects(buffer: seq<byte>, msu1: bool)
    requires |buffer| < WORD32 && Imported(buffer, msu1).Some?
    ensures var files := Imported(buffer, msu1).value;
      && Joined(files, 0) == Strip(buffer)
      && ManifestOf(Strip(Joined(files, 0)), Msu1 in files) == ManifestOf(Strip(buffer), msu1)
  {
    hide Classified, Pieces, Split, InOrder, Total, Holds, Listed, Joined, Consistent, Rank;
    var image := Strip(buffer);
    var m := ManifestOf(image, msu1);
    var files := Imported(buffer, msu1).value;
    ClassifiedConsistent(image);
    PiecesAddUp(m.board, |image|, msu1);
    SplitHolds(m.pieces, image, 0, map[], 0);
    SplitFits(m.pieces, image, 0, map[]);
    JoinedHolds(files, m.pieces, image, 0, 0);
    assert image[0..|image|] == image;
    StripSize(buffer);
    MsuAgain(image, msu1, files);
  }

  // ---------------------------------------------------------------- when an import succeeds

  /** An image that is a Super Famicom cartridge: no Game Boy logo, no flash cartridge, no Sufami Turbo one. */
  predicate Playable(d: seq<byte>) {
    && |d| >= SMALLEST
    && !Has(d, 0x104, GAME_BOY_LOGO)
    && !IsFlash(d, FindHeader(d))
    && (Has(d, 0, Ascii("BANDAI SFC-ADX")) ==> Has(d, 16, Ascii("SFC-ADX BACKUP")))
  }

  /** The residue of the image's size by which a coprocessor's program shows. */
  predicate FirmwareThere(chip: Feature, size: nat)
    requires HasFirmware(chip)
  {
    match chip
    case Cx4 => size % 0x8000 == 0xc00
    case St010 => size % 0x1_0000 == 0xd000
    case St011 => size % 0x1_0000 == 0xd000
    case St018 => size % 0x4_0000 == 0x28000
    case _ => size % 0x8000 == 0x2000
  }

  /** The image has everything its board needs: coprocessor program, boot ROM, both chips, or every game. */
  predicate Complete(b: Board, size: nat) {
    match b.kind
    case CampusChallenge92 => size == 0x1c2000
    case Powerfest94 => size == 0x242000
    case SuperGameBoy1Bios => size % 0x8000 == 0x100
    case SuperGameBoy2Bios => size % 0x8000 == 0x100
    case _ =>
      && (forall chip :: chip in b.features && HasFirmware(chip) ==> FirmwareThere(chip, size))
      && (Spc7110 in b.features ==> size >= 0x10_0000)
  }

  lemma OrdinaryKind(d: seq<byte>, i: nat, region: Region, ram: nat)
    requires i + 64 <= |d| && (i == LO || i == HI || i == EX)
    ensures var k := Ordinary(d, i, region, ram).kind; !k.Unknown? && !k.GameBoy? && !k.Satellaview? && !k.SufamiTurbo?
  {
    hide Has, Ascii, HasConnector, Dsp1Place, RamSize, Carries, Features;
  }

  /** There is a manifest exactly for such images. */
  lemma ManifestExists(d: seq<byte>, msu1: bool)
    ensures ManifestOf(d, msu1).Manifest? <==> Playable(d)
  {
    hide Has, Ascii, FindHeader, Ordinary, RamSize, Pieces, IsFlash, GAME_BOY_LOGO;
    if |d| >= SMALLEST {
      var i := FindHeader(d);
      OrdinaryKind(d, i, RegionOf(d[i + 0x19]), if d[i + 0x17] == 0 then 0 else RamSize(d[i + 0x18]));
    }
  }

  lemma ChipExact(chip: Feature, size: nat)
    requires HasFirmware(chip)
    ensures FirmwareSize(chip, size) == if FirmwareThere(chip, size) then Total(ChipPieces(chip)) else 0
    ensures Total(ChipPieces(chip)) > 0
  {
    hide Total;
    var s := ChipPieces(chip);
    if chip.Cx4? { One(s[0], 7); } else { Two(s[0], s[1], 7); }
  }

  lemma BaseExact(b: Board, size: nat)
    requires Consistent(b) && size < WORD32
    ensures Spc7110 in b.features && size < 0x10_0000 ==> Total(BasePieces(b, size)) > size
    ensures !(Spc7110 in b.features && size < 0x10_0000) ==>
      Total(BasePieces(b, size)) + Firmware(b, size)
      == size + if b.kind.SuperGameBoy1Bios? || b.kind.SuperGameBoy2Bios? then 0x100 else 0
  {
    hide FirmwareSize, ChipIn, Total;
    var s := BasePieces(b, size);
    if |s| == 1 { One(s[0], 0); } else { Two(s[0], s[1], 0); }
    if Spc7110 in b.features { Spc7110Alone(b, size); }
  }

  /** The one coprocessor of a board that has any. */
  lemma OnlyChip(b: Board, size: nat)
    requires Consistent(b)
    ensures (forall chip :: chip in b.features && HasFirmware(chip) ==> FirmwareThere(chip, size))
        <==> (ChipIn(b.features).Some? ==> FirmwareThere(ChipIn(b.features).value, size))
    ensures ChipIn(b.features).Some? ==> Spc7110 !in b.features
  {
    hide FirmwareThere;
  }

  /** The pieces of a board add up to the image's size exactly when it is complete. */
  lemma TotalExact(b: Board, size: nat, msu1: bool)
    requires Consistent(b) && size < WORD32
    ensures Total(Pieces(b, size, msu1)) == size <==> Complete(b, size)
  {
    hide BasePieces, ChipPieces, FirmwareSize, ContestPieces, HasFirmware, InOrder, Total, ChipIn, FirmwareThere;
    ContestAddsUp(0x80000);
    ContestAddsUp(0x100000);
    if !IsContest(b.kind) {
      var base := BasePieces(b, size);
      var msu: seq<Piece> := if msu1 then [Piece(Msu1, 0)] else [];
      BaseAddsUp(b, size);
      BaseExact(b, size);
      MsuAddsUp(msu1);
      OnlyChip(b, size);
      ChipInFeatures(b.features);
      if ChipIn(b.features).Some? {
        var chip := ChipIn(b.features).value;
        ChipAddsUp(chip, size);
        ChipExact(chip, size);
        Append(base, ChipPieces(chip), 0, 7);
        WithinRanks(base, ChipPieces(chip));
        Append(base + ChipPieces(chip), msu, 0, RANKS);
      } else {
        assert base + [] == base;
        Append(base, msu, 0, RANKS);
      }
    }
  }

  /** An import succeeds if and only if the image is a Super Famicom cartridge and complete. */
  lemma ImportSucceeds(buffer: seq<byte>, msu1: bool)
    requires |buffer| < WORD32
    ensures var d := Strip(buffer);
      Imported(buffer, msu1).Some? <==> Playable(d) && Complete(Classified(d), |d|)
  {
    hide Classified, Pieces, Split, InOrder, Total, Consistent, Playable, Complete;
    var d := Strip(buffer);
    ManifestExists(d, msu1);
    if ManifestOf(d, msu1).Manifest? {
      var m := ManifestOf(d, msu1);
      ClassifiedConsistent(d);
      PiecesAddUp(m.board, |d|, msu1);
      TotalExact(m.board, |d|, msu1);
      SplitFits(m.pieces, d, 0, map[]);
    }
  }

  /** Importing an image and recognising the collected files. */
  method RoundTrip(buffer: seq<byte>, msu1: bool)
    returns (ok: bool, collected: seq<byte>, first: Manifest, second: Manifest)
    requires |buffer| < WORD32
    ensures ok <==> Playable(Strip(buffer)) && Complete(Classified(Strip(buffer)), |Strip(buffer)|)
    ensures ok ==> collected == Strip(buffer) && first == second
  {
    hide ManifestOf, Joined, Strip, Imported, Playable, Complete, Classified;
    first := Recognise(buffer, msu1);
    var files;
    ok, files := Import(buffer, msu1);
    collected := Collect(files);
    second := Recognise(collected, Msu1 in files);
    ImportSucceeds(buffer, msu1);
    if ok { ImportCollects(buffer, msu1); }
  }
}
