/** Unpacking and searching an archive, and what they make of an archive that was created from a directory. */
module ArchiveUnpack {
  import opened Bits
  import opened VarInt
  import opened Crc32
  import opened Archive
  import opened Stream
  import opened Maybe
  import PagedFile

  // ---------------------------------------------------------------- the disk

  predicate Contains(s: seq<byte>, pattern: seq<byte>) {
    |s| >= |pattern| && (s[..|pattern|] == pattern || (|s| > 0 && Contains(s[1..], pattern)))
  }

  /** Names that could lead out of the directory unpacked to. */
  predicate Blocked(name: Name) {
    Contains(name, [0x5c]) || Contains(name, [0x2e, 0x2e, 0x2f])
  }

  /** The folder a path lies in, unless that is the root. */
  function Parent(path: Name): (r: Option<Name>)
    ensures r.Some? ==> |r.value| < |path|
  {
    if path == [] then None
    else if path[|path| - 1] == SLASH then Some(path[..|path| - 1])
    else Parent(path[..|path| - 1])
  }

  predicate IsFolder(d: Disk, path: Name) {
    path in d && d[path].Folder?
  }

  predicate EndsInSlash(path: Name) {
    path != [] && path[|path| - 1] == SLASH
  }

  /** `directory::create`: the missing folders of a path without its last slashes, from the top. */
  function MakeFolder(d: Disk, path: Name): (bool, Disk)
    decreases |path|
  {
    if path == [] then (true, d)
    else if EndsInSlash(path) then MakeFolder(d, path[..|path| - 1])
    else if IsFolder(d, path) then (true, d)
    else
      var (ok, up) := match Parent(path) case None => (true, d) case Some(above) => MakeFolder(d, above);
      if ok && path !in up then (true, up[path := Folder]) else (false, up)
  }

  /** A file can be written where its folder exists and no folder has its name, unless the name is a folder's. */
  predicate CanWrite(d: Disk, path: Name) {
    && path != []
    && !EndsInSlash(path)
    && !IsFolder(d, path)
    && (Parent(path).Some? ==> IsFolder(d, Parent(path).value))
  }

  // ---------------------------------------------------------------- unpacking

  function WordIn(a: seq<byte>, i: nat): nat {
    WordAt(Slice(a, i, 4), 0)
  }

  /** The length of an entry's name: `reads` takes a 32-bit count. */
  function NameLength(info: nat): nat {
    (Held(info) / 8 + 1) % WORD32
  }

  predicate AtFooter(a: seq<byte>, i: nat) {
    Inside(i, |a|) + 4 >= |a|
  }

  /** Restoring one entry: the index after it, or nothing when it is refused; and the disk in either case. */
  datatype Progress = Stopped(disk: Disk) | Went(next: nat, disk: Disk)

  function OneFile(a: seq<byte>, i: nat, name: Name, d: Disk): (r: Progress)
    ensures r.Went? ==> r.next > i
  {
    var size := NumberAt(a, i);
    var data := Slice(a, size.next, Held(size.value));
    var end := size.next + |data|;
    var written := d[name := Document(PagedFile.Kept(data))];
    if WordIn(a, end) != Digest(data) then Stopped(written) else Went(end + 4, written)
  }

  function OneEntry(a: seq<byte>, i: nat, d: Disk): (r: Progress)
    ensures r.Went? ==> r.next > i
  {
    var info := NumberAt(a, i);
    var name := Slice(a, info.next, NameLength(info.value));
    var after := info.next + |name|;
    if Blocked(name) then Stopped(d)
    else if info.value % 2 == 1 then
      var (ok, made) := MakeFolder(d, name);
      if ok then Went(after, made) else Stopped(made)
    else if !CanWrite(d, name) then Stopped(d)
    else OneFile(a, after, name, d)
  }

  /** The entries from `i` on, restored one by one, and the archive's own checksum. */
  function Unpacked(a: seq<byte>, i: nat, d: Disk): (bool, Disk)
    decreases |a| - i
  {
    if AtFooter(a, i) then (WordIn(a, i) == Digest(Slice(a, 0, i)), d)
    else match OneEntry(a, i, d)
      case Stopped(stopped) => (false, stopped)
      case Went(next, written) => Unpacked(a, next, written)
  }

  function UnpackedAll(a: seq<byte>): (bool, Disk) {
    if Slice(a, 0, 4) != SIGNATURE then (false, map[])
    else
      var size := NumberAt(a, 4);
      Unpacked(a, size.next + Held(size.value), map[])
  }

  lemma EvenFlag(v: nat)
    ensures Held(v) % 2 == v % 2
  {
    ModDouble(v, UINTMAX / 2);
    var half := v / 2 % (UINTMAX / 2);
    assert Held(v) == 2 * half + v % 2;
  }

  /** A stream that has fed its checksum everything before its cursor. */
  ghost predicate Following(r: Reader, a: seq<byte>)
    reads r, r.file, r.file.buffer
  {
    r.Valid() && r.data == a && r.fed == Slice(a, 0, r.cursor)
  }

  /** The file is written byte by byte as it is read; what its checksum has seen is not what the disk keeps. */
  method UnpackFile(r: Reader, ghost a: seq<byte>, name: Name, d: Disk) returns (ok: bool, disk: Disk)
    requires Following(r, a)
    modifies r, r.file, r.file.buffer
    ensures Following(r, a)
    ensures OneFile(a, old(r.cursor), name, d) == if ok then Went(r.cursor, disk) else Stopped(disk)
  {
    hide Register, Slice, NumberAt, Writer.Valid, Reader.Valid, ByteAt, PagedFile.Kept, Digest;
    var output := new Writer();
    ghost var before := r.cursor;
    var size := r.ReadNumber(UINTMAX);
    SliceJoin(a, 0, before, r.cursor - before);
    ghost var start := r.cursor;
    var n := 0;
    SliceNothing(a, start);
    while n < size
      invariant 0 <= n <= size && Following(r, a) && output.Valid() && r.cursor == start + n
      invariant fresh(output) && fresh(output.file) && fresh(output.file.buffer)
      invariant output.bytes == Slice(a, start, n)
    {
      SliceMore(a, start, n);
      SliceMore(a, 0, r.cursor);
      var b := r.Read();
      output.Write(b);
      n := n + 1;
    }
    SliceJoin(a, 0, r.cursor, 4);
    var word := r.ReadWord();
    var sum := output.Sum();
    ok := word == sum;
    var kept := output.Close();
    disk := d[name := Document(kept)];
  }

  method UnpackEntry(r: Reader, ghost a: seq<byte>, d: Disk) returns (ok: bool, disk: Disk)
    requires Following(r, a)
    modifies r, r.file, r.file.buffer
    ensures ok ==> Following(r, a)
    ensures OneEntry(a, old(r.cursor), d) == if ok then Went(r.cursor, disk) else Stopped(disk)
  {
    hide Register, Slice, NumberAt, Blocked, MakeFolder, CanWrite, OneFile;
    ghost var start := r.cursor;
    var info := r.ReadNumber(UINTMAX);
    SliceJoin(a, 0, start, r.cursor - start);
    EvenFlag(NumberAt(a, start).value);
    SliceJoin(a, 0, r.cursor, (info / 8 + 1) % WORD32);
    var name := r.ReadBytes((info / 8 + 1) % WORD32);
    if Blocked(name) { return false, d; }
    if info % 2 == 1 {
      ok, disk := MakeFolder(d, name).0, MakeFolder(d, name).1;
    } else {
      if !CanWrite(d, name) { return false, d; }
      ok, disk := UnpackFile(r, a, name, d);
    }
  }

  /** `unpack`, into an empty directory, of an archive of at most 2^31 bytes. */
  method Unpack(beatName: string, pathName: string, a: seq<byte>) returns (ok: bool, disk: Disk)
    requires |a| <= PagedFile.LIMIT
    ensures !EndsWith(beatName, ".bpa") || !EndsWith(pathName, "/") ==> !ok && disk == map[]
    ensures EndsWith(beatName, ".bpa") && EndsWith(pathName, "/") ==> (ok, disk) == UnpackedAll(a)
  {
    hide Slice, NumberAt, EndsWith, OneEntry, Reader.Valid, Digest;
    disk := map[];
    if !EndsWith(beatName, ".bpa") || !EndsWith(pathName, "/") { return false, disk; }
    var r := new Reader(a);
    var signature := r.ReadBytes(4);
    if signature != SIGNATURE { return false, disk; }
    var size := r.ReadNumber(UINTMAX);
    SliceJoin(a, 0, 4, r.cursor - 4);
    SliceJoin(a, 0, r.cursor, size);
    var skipped := r.ReadBytes(size);
    ghost var whole := Unpacked(a, r.cursor, disk);
    AtCursor(r);
    while r.file.offset < r.file.size - 4
      invariant fresh(r) && fresh(r.file) && fresh(r.file.buffer) && Following(r, a)
      invariant r.file.offset == Inside(r.cursor, |a|) && r.file.size == |a|
      invariant Unpacked(a, r.cursor, disk) == whole
      decreases |a| - r.cursor
    {
      var went, d := UnpackEntry(r, a, disk);
      disk := d;
      if !went { return false, disk; }
      AtCursor(r);
    }
    var checksum := r.Sum();
    var word := r.ReadWord();
    ok := word == checksum;
  }

  // ---------------------------------------------------------------- extracting one file

  /** The result of a search; `SentBack` when a seek does not move on, so that the search need not end. */
  datatype Search = Bytes(data: seq<byte>) | SentBack

  /** `seek(offset() + distance)` from a position that may be past the end. */
  function SeekFrom(a: seq<byte>, i: nat, distance: nat): nat {
    Clamped(Signed32(Inside(i, |a|) + distance), |a|)
  }

  /** One entry of a search: the file asked for, or where to look next. */
  datatype Look = Found(data: seq<byte>) | Onward(next: nat)

  function LookFile(a: seq<byte>, i: nat, wanted: bool): Look {
    var size := NumberAt(a, i);
    if wanted then
      var data := Slice(a, size.next, Held(size.value));
      Found(if WordIn(a, size.next + |data|) == Digest(data) then data else [])
    else Onward(SeekFrom(a, size.next, Held(size.value) + 4))
  }

  function LookEntry(a: seq<byte>, i: nat, name: Name): Look {
    var info := NumberAt(a, i);
    var found := Slice(a, info.next, NameLength(info.value));
    var after := info.next + |found|;
    if info.value % 2 == 1 then Onward(after) else LookFile(a, after, found == name)
  }

  function Extracted(a: seq<byte>, i: nat, name: Name): Search
    decreases |a| - i
  {
    if AtFooter(a, i) then Bytes([])
    else match LookEntry(a, i, name)
      case Found(data) => Bytes(data)
      case Onward(next) => if next <= i then SentBack else Extracted(a, next, name)
  }

  function ExtractedAll(a: seq<byte>, name: Name): Search {
    if Slice(a, 0, 4) != SIGNATURE then Bytes([])
    else
      var size := NumberAt(a, 4);
      Extracted(a, SeekFrom(a, size.next, Held(size.value)), name)
  }

  /** The file at the cursor, checked against its own checksum only. */
  method ExtractFile(r: Reader, size: nat) returns (data: seq<byte>)
    requires r.Valid()
    modifies r, r.file, r.file.buffer
    ensures r.Valid()
    ensures var read := Slice(r.data, old(r.cursor), size);
      data == if WordIn(r.data, old(r.cursor) + size) == Digest(read) then read else []
  {
    hide Register, Slice;
    r.Reset();
    var read := r.ReadBytes(size);
    assert [] + read == read;
    var checksum := r.Sum();
    var word := r.ReadWord();
    data := if word == checksum then read else [];
  }

  method LookAt(r: Reader, ghost a: seq<byte>, name: Name) returns (hit: bool, data: seq<byte>)
    requires r.Valid() && r.data == a
    modifies r, r.file, r.file.buffer
    ensures r.Valid() && LookEntry(a, old(r.cursor), name) == if hit then Found(data) else Onward(r.cursor)
  {
    hide Slice, NumberAt, SeekFrom, NameLength, WordIn, Digest, Reader.Valid;
    hit, data := false, [];
    ghost var start := r.cursor;
    var info := r.ReadNumber(UINTMAX);
    EvenFlag(NumberAt(a, start).value);
    LengthFrom(NumberAt(a, start).value);
    var found := r.ReadBytes((info / 8 + 1) % WORD32);
    if info % 2 == 0 {
      var size := r.ReadNumber(UINTMAX);
      if found == name {
        hit := true;
        data := ExtractFile(r, size);
      } else {
        AtCursor(r);
        SeekOffset(a, r.cursor, size + 4);
        r.Seek(r.file.offset + size + 4);
      }
    }
  }

  /** `extract`, from an archive of at most 2^31 bytes. */
  method Extract(a: seq<byte>, name: Name) returns (s: Search)
    requires |a| <= PagedFile.LIMIT
    ensures s == ExtractedAll(a, name)
  {
    hide Slice, NumberAt, SeekFrom, LookEntry, Reader.Valid;
    var r := new Reader(a);
    var signature := r.ReadBytes(4);
    if signature != SIGNATURE { return Bytes([]); }
    var size := r.ReadNumber(UINTMAX);
    AtCursor(r);
    SeekOffset(a, r.cursor, size);
    r.Seek(r.file.offset + size);
    ghost var whole := Extracted(a, r.cursor, name);
    AtCursor(r);
    while r.file.offset < r.file.size - 4
      invariant fresh(r) && fresh(r.file) && fresh(r.file.buffer) && r.Valid() && r.data == a
      invariant r.file.offset == Inside(r.cursor, |a|) && r.file.size == |a|
      invariant Extracted(a, r.cursor, name) == whole
      decreases |a| - r.cursor
    {
      var start := r.file.offset;
      var hit, data := LookAt(r, a, name);
      if hit { return Bytes(data); }
      AtCursor(r);
      if r.file.offset <= start && r.file.offset < r.file.size { return SentBack; }
    }
    return Bytes([]);
  }

  lemma SeekOffset(a: seq<byte>, i: nat, distance: nat)
    ensures SeekFrom(a, i, distance) == Clamped(Signed32(Inside(i, |a|) + distance), |a|)
  {
  }

  lemma LengthFrom(value: nat)
    ensures NameLength(value) == (Held(value) / 8 + 1) % WORD32
  {
  }
}
