/** Archives of directory trees: written, unpacked and searched through checksummed streams. */
module Archive {
  import opened Bits
  import opened VarInt
  import opened Crc32
  import opened Stream
  import opened Maybe
  import PagedFile

  type Name = seq<byte>

  const SLASH: byte := 0x2f
  const SIGNATURE: seq<byte> := [0x42, 0x50, 0x41, 0x31]

  /** A directory's contents in the order the system lists them; a file that cannot be read has no data. */
  datatype Forest =
    | Nothing
    | FileThen(name: Name, data: Option<seq<byte>>, writable: bool, executable: bool, rest: Forest)
    | FolderThen(name: Name, writable: bool, executable: bool, children: Forest, rest: Forest)

  /** One entry of an archive, its path relative to the archived directory and without a closing slash. */
  datatype Entry = Entry(path: Name, folder: bool, writable: bool, executable: bool, data: Option<seq<byte>>)

  /** What a path names on the disk that is unpacked to. */
  datatype Item = Folder | Document(data: seq<byte>)

  type Disk = map<Name, Item>

  // ---------------------------------------------------------------- scanning

  /** Every entry below a directory, each folder before what it holds. */
  function Scanned(forest: Forest, prefix: Name): seq<Entry> {
    match forest
    case Nothing => []
    case FileThen(name, data, w, x, rest) => [Entry(prefix + name, false, w, x, data)] + Scanned(rest, prefix)
    case FolderThen(name, w, x, children, rest) =>
      [Entry(prefix + name, true, w, x, None)] + Scanned(children, prefix + name + [SLASH]) + Scanned(rest, prefix)
  }

  lemma ScannedStep(f: Forest, prefix: Name)
    requires !f.Nothing?
    ensures f.FileThen? ==>
      Scanned(f, prefix) == [Entry(prefix + f.name, false, f.writable, f.executable, f.data)] + Scanned(f.rest, prefix)
    ensures f.FolderThen? ==>
      Scanned(f, prefix) == [Entry(prefix + f.name, true, f.writable, f.executable, None)]
                            + Scanned(f.children, prefix + f.name + [SLASH]) + Scanned(f.rest, prefix)
  {
  }

  lemma ScannedNothing(prefix: Name)
    ensures Scanned(Nothing, prefix) == []
  {
  }

  /** `scan`. */
  method Scan(result: seq<Entry>, prefix: Name, forest: Forest) returns (r: seq<Entry>)
    ensures r == result + Scanned(forest, prefix)
    decreases forest
  {
    hide Scanned;
    r := result;
    var f := forest;
    while !f.Nothing?
      invariant r + Scanned(f, prefix) == result + Scanned(forest, prefix)
      invariant f == forest || f < forest
      decreases f
    {
      ScannedStep(f, prefix);
      if f.FileThen? {
        r := r + [Entry(prefix + f.name, false, f.writable, f.executable, f.data)];
      } else {
        r := r + [Entry(prefix + f.name, true, f.writable, f.executable, None)];
        r := Scan(r, prefix + f.name + [SLASH], f.children);
      }
      f := f.rest;
    }
    ScannedNothing(prefix);
  }

  // ---------------------------------------------------------------- the bytes of an archive

  function Flag(b: bool): nat {
    if b then 1 else 0
  }

  function Info(e: Entry): nat
    requires |e.path| > 0
  {
    (Flag(e.folder) + 2 * Flag(e.writable) + 4 * Flag(e.executable) + 8 * (|e.path| - 1)) % WORD32
  }

  function Data(e: Entry): seq<byte> {
    if e.data.Some? then e.data.value else []
  }

  function EntryBytes(e: Entry): seq<byte>
    requires |e.path| > 0
  {
    Encode(Info(e)) + e.path
    + if e.folder then [] else Encode(|Data(e)|) + Data(e) + WordBytes(Digest(Data(e)))
  }

  ghost predicate Named(entries: seq<Entry>) {
    forall i :: 0 <= i < |entries| ==> 0 < |entries[i].path|
  }

  ghost function EntriesBytes(entries: seq<Entry>): seq<byte>
    requires Named(entries)
  {
    if entries == [] then [] else EntryBytes(entries[0]) + EntriesBytes(entries[1..])
  }

  function Preamble(markup: seq<byte>): seq<byte> {
    SIGNATURE + Encode(|markup|) + markup
  }

  ghost function Packed(markup: seq<byte>, entries: seq<Entry>): seq<byte>
    requires Named(entries)
  {
    var body := Preamble(markup) + EntriesBytes(entries);
    body + WordBytes(Digest(body))
  }

  /** An unreadable file is written as an empty one: the checksum of nothing is zero. */
  lemma DigestNothing()
    ensures Digest([]) == 0 && WordBytes(0) == [0, 0, 0, 0]
  {
  }

  /** Copying a file into the archive byte by byte, its checksum behind it. */
  method WriteFile(w: Writer, data: seq<byte>)
    requires w.Valid() && |data| <= PagedFile.LIMIT
    modifies w, w.file, w.file.buffer
    ensures w.Valid() && w.bytes == old(w.bytes) + (Encode(|data|) + data + WordBytes(Digest(data)))
  {
    hide Register, Encode, WordBytes, Writer.Valid, ByteAt;
    var input := new Reader(data);
    var size := input.file.size;
    w.WriteNumber(size);
    ghost var before := w.bytes;
    var n := 0;
    while n < size
      invariant 0 <= n <= size == |data| && w.Valid() && input.Valid() && input.data == data
      invariant fresh(input) && fresh(input.file) && fresh(input.file.buffer)
      invariant input.cursor == n && input.fed == data[..n] && w.bytes == before + data[..n]
    {
      var b := input.Read();
      ByteInside(data, n);
      assert data[..n] + [data[n]] == data[..n + 1];
      w.Write(b);
      n := n + 1;
    }
    assert data[..n] == data;
    var sum := input.Sum();
    w.WriteWord(sum);
    assert w.bytes == old(w.bytes) + (Encode(|data|) + data + WordBytes(Digest(data)));
  }

  lemma ByteInside(a: seq<byte>, i: nat)
    requires i < |a|
    ensures ByteAt(a, i) == a[i]
  {
  }

  method WriteEntry(w: Writer, e: Entry)
    requires w.Valid() && |e.path| > 0 && |Data(e)| <= PagedFile.LIMIT
    modifies w, w.file, w.file.buffer
    ensures w.Valid() && w.bytes == old(w.bytes) + EntryBytes(e)
  {
    hide Register, Encode, Info, Digest, WordBytes, Writer.Valid;
    w.WriteNumber(Info(e));
    w.WriteAll(e.path);
    if e.folder { return; }
    if e.data.Some? {
      WriteFile(w, e.data.value);
    } else {
      DigestNothing();
      w.WriteNumber(0);
      w.WriteWord(0);
    }
  }

  predicate EndsWith(s: string, suffix: string) {
    |s| >= |suffix| && s[|s| - |suffix|..] == suffix
  }

  lemma EntriesStep(entries: seq<Entry>, n: nat)
    requires n <= |entries| && Named(entries)
    ensures Named(entries[n..])
    ensures n == |entries| ==> EntriesBytes(entries[n..]) == []
    ensures n < |entries| ==> EntriesBytes(entries[n..]) == EntryBytes(entries[n]) + EntriesBytes(entries[n + 1..])
  {
    hide EntryBytes;
    if n < |entries| { assert entries[n..][1..] == entries[n + 1..]; }
  }

  /** Files of which every byte can be read. */
  ghost predicate Readable(entries: seq<Entry>) {
    forall i :: 0 <= i < |entries| ==> |Data(entries[i])| <= PagedFile.LIMIT
  }

  method WriteEntries(w: Writer, entries: seq<Entry>)
    requires w.Valid() && Named(entries) && Readable(entries)
    modifies w, w.file, w.file.buffer
    ensures w.Valid() && w.bytes == old(w.bytes) + EntriesBytes(entries)
  {
    hide Register, EntryBytes, EntriesBytes, Writer.Valid, Data;
    assert entries[0..] == entries;
    var n := 0;
    EntriesStep(entries, 0);
    while n < |entries|
      invariant 0 <= n <= |entries| && w.Valid() && Named(entries[n..])
      invariant w.bytes + EntriesBytes(entries[n..]) == old(w.bytes) + EntriesBytes(entries)
    {
      EntriesStep(entries, n);
      EntriesStep(entries, n + 1);
      WriteEntry(w, entries[n]);
      n := n + 1;
    }
    EntriesStep(entries, n);
  }

  /** `create`: the file keeps the whole archive if and only if that has at most 2^31 bytes. */
  method Create(beatName: string, pathName: string, markup: seq<byte>, forest: Forest)
    returns (ok: bool, disk: seq<byte>)
    requires Named(Scanned(forest, [])) && Readable(Scanned(forest, []))
    ensures ok <==> EndsWith(beatName, ".bpa") && EndsWith(pathName, "/")
    ensures var archive := Packed(markup, Scanned(forest, []));
      ok ==> disk == PagedFile.Kept(archive) && (disk == archive <==> |archive| <= PagedFile.LIMIT)
  {
    hide Register, Encode, EntriesBytes, WordBytes, Scanned, EndsWith, PagedFile.Kept, Writer.Valid, Readable, Digest;
    if !EndsWith(beatName, ".bpa") || !EndsWith(pathName, "/") { return false, []; }
    var w := new Writer();
    w.WriteAll(SIGNATURE);
    w.WriteNumber(|markup|);
    w.WriteAll(markup);
    var contents := Scan([], [], forest);
    assert contents == Scanned(forest, []);
    assert w.bytes == Preamble(markup);
    WriteEntries(w, contents);
    ghost var body := Preamble(markup) + EntriesBytes(Scanned(forest, []));
    assert w.bytes == body;
    w.WriteDigest();
    PagedFile.KeptWhole(w.bytes);
    disk := w.Close();
    ok := true;
  }
}
