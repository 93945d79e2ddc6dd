/** The archive format in its own terms: what stands where in an archive, and which damage is noticed. */
module ArchiveFormat {
  import opened Bits
  import opened VarInt
  import opened Crc32
  import opened Crc32Remainder
  import opened Archive
  import opened ArchiveUnpack
  import opened ArchiveTrip
  import opened Stream
  import opened Maybe
  import PagedFile

  // ---------------------------------------------------------------- what stands where

  lemma AndOne(x: nat)
    ensures And(x, 1) == x % 2
  {
    assert And(x / 2, 0) == 0;
  }

  /** The three lowest bits of a number. */
  lemma LowBits(v: nat)
    ensures And(v, 1) != 0 <==> v % 2 == 1
    ensures And(v, 2) != 0 <==> v / 2 % 2 == 1
    ensures And(v, 4) != 0 <==> v / 4 % 2 == 1
  {
    AndOne(v);
    AndOne(v / 2);
    AndOne(v / 2 / 2);
    assert v / 2 / 2 == v / 4;
  }

  lemma FlagBits(e: Entry)
    requires 0 < |e.path| <= 0x2000_0000
    ensures var v := Info(e);
      && (And(v, 1) != 0 <==> e.folder) && (And(v, 2) != 0 <==> e.writable) && (And(v, 4) != 0 <==> e.executable)
      && v / 8 + 1 == |e.path|
  {
    hide And;
    var a, b, c := Flag(e.folder), Flag(e.writable), Flag(e.executable);
    var v, n := Info(e), |e.path| - 1;
    InfoParts(a, b, c, |e.path|);
    assert v == a + 2 * b + 4 * c + 8 * n;
    LowBits(v);
    DivModUnique(v, b + 2 * (c + 2 * n), a, 2);
    DivModUnique(v / 2, c + 2 * n, b, 2);
    DivModUnique(v, c + 2 * n, a + 2 * b, 4);
    DivModUnique(v / 4, n, c, 2);
  }

  /** Where an entry begins. */
  ghost function EntryAt(markup: seq<byte>, entries: seq<Entry>, k: nat): nat
    requires Named(entries) && k <= |entries|
  {
    |Preamble(markup)| + |EntriesBytes(entries[..k])|
  }

  lemma {:induction false} EntriesSplit(a: seq<Entry>, b: seq<Entry>)
    requires Named(a) && Named(b)
    ensures Named(a + b) && EntriesBytes(a + b) == EntriesBytes(a) + EntriesBytes(b)
    decreases |a|
  {
    hide EntryBytes;
    if a == [] {
      assert a + b == b;
    } else {
      assert (a + b)[1..] == a[1..] + b;
      EntriesSplit(a[1..], b);
    }
  }

  lemma EntryThere(markup: seq<byte>, entries: seq<Entry>, k: nat)
    requires Named(entries) && k < |entries|
    ensures At(Packed(markup, entries), EntryAt(markup, entries, k), EntryBytes(entries[k]))
  {
    hide EntryBytes, EntriesBytes, Preamble, WordIn, Digest, Slice, At, Packed;
    var front, back := entries[..k], entries[k..];
    assert entries == front + back;
    EntriesSplit(front, back);
    EntriesStep(back, 0);
    assert back[0..] == back && back[0] == entries[k];
    PackedParts(markup, entries);
    var a, i := Packed(markup, entries), |Preamble(markup)|;
    AtSplit(a, i, EntriesBytes(front), EntriesBytes(back));
    AtSplit(a, i + |EntriesBytes(front)|, EntryBytes(entries[k]), EntriesBytes(back[1..]));
  }

  /**
    * The layout of an entry: a number whose lowest bits tell folder, writable and executable, and whose others the
    * name's length less one; the name; and for a file its length, its data and their checksum.
    */
  lemma EntryLayout(markup: seq<byte>, entries: seq<Entry>, k: nat)
    requires Storable(entries) && k < |entries|
    ensures var a, e := Packed(markup, entries), entries[k];
      var info := NumberAt(a, EntryAt(markup, entries, k));
      && (And(info.value, 1) != 0 <==> e.folder)
      && (And(info.value, 2) != 0 <==> e.writable)
      && (And(info.value, 4) != 0 <==> e.executable)
      && info.value / 8 + 1 == |e.path| && Slice(a, info.next, |e.path|) == e.path
      && (!e.folder ==>
            var size := NumberAt(a, info.next + |e.path|);
            && size.value == |Data(e)| && Slice(a, size.next, |Data(e)|) == Data(e)
            && WordIn(a, size.next + |Data(e)|) == Digest(Data(e)))
  {
    hide Encode, Slice, NumberAt, EntryBytes, FileBytes, At, Info;
    hide NameLength, And, Data, Digest, WordIn, Packed, EntryAt;
    var a, e, i := Packed(markup, entries), entries[k], EntryAt(markup, entries, k);
    EntryThere(markup, entries, k);
    EntryHead(a, i, e);
    FlagBits(e);
    if !e.folder { FileLayout(a, i + |Encode(Info(e))| + |e.path|, e); }
  }

  lemma FileLayout(a: seq<byte>, i: nat, e: Entry)
    requires At(a, i, FileBytes(e))
    ensures var size := NumberAt(a, i);
      && size.value == |Data(e)| && Slice(a, size.next, |Data(e)|) == Data(e)
      && WordIn(a, size.next + |Data(e)|) == Digest(Data(e))
  {
    hide Encode, Slice, NumberAt, WordBytes, Digest, WordIn, At, Data;
    var size := Encode(|Data(e)|);
    AtSplit(a, i, size + Data(e), WordBytes(Digest(Data(e))));
    AtSplit(a, i, size, Data(e));
    NumberEncoded(a, i, |Data(e)|);
    SliceAt(a, i + |size|, Data(e));
    WordInAt(a, i + |size| + |Data(e)|, Digest(Data(e)));
  }

  /** An archive of a directory as `create` leaves it on the disk, entry by entry. */
  method CreateLayout(beatName: string, pathName: string, markup: seq<byte>, forest: Forest, k: nat)
    returns (ok: bool, disk: seq<byte>)
    requires Paths(Scanned(forest, [])) && k < |Scanned(forest, [])|
    requires |Packed(markup, Scanned(forest, []))| <= PagedFile.LIMIT
    ensures ok ==>
      var e, info := Scanned(forest, [])[k], NumberAt(disk, EntryAt(markup, Scanned(forest, []), k));
      && (And(info.value, 1) != 0 <==> e.folder)
      && (And(info.value, 2) != 0 <==> e.writable)
      && (And(info.value, 4) != 0 <==> e.executable)
      && Slice(disk, info.next, info.value / 8 + 1) == e.path
  {
    hide Packed, Scanned, Paths, Plain, Readable, NumberAt, Slice, And, EntryAt, PagedFile.Kept, Storable;
    ScannedPlain(forest, []);
    PathsNamed(Scanned(forest, []));
    Fits(markup, Scanned(forest, []));
    StorableParts(Scanned(forest, []));
    EntryLayout(markup, Scanned(forest, []), k);
    ok, disk := Create(beatName, pathName, markup, forest);
  }

  lemma StorableParts(entries: seq<Entry>)
    requires Storable(entries)
    ensures Paths(entries) && Readable(entries)
  {
  }

  // ---------------------------------------------------------------- dangerous names

  lemma {:induction false} ContainsSomewhere(s: seq<byte>, pattern: seq<byte>)
    requires |pattern| > 0
    ensures Contains(s, pattern) <==> exists i: nat :: At(s, i, pattern)
    decreases |s|
  {
    hide At;
    if At(s, 0, pattern) || |s| < |pattern| {
      AtFront(s, pattern);
    } else {
      AtFront(s, pattern);
      ContainsSomewhere(s[1..], pattern);
      if i: nat :| At(s, i, pattern) { AtLater(s, i - 1, pattern); }
      if i: nat :| At(s[1..], i, pattern) { AtLater(s, i, pattern); }
    }
  }

  lemma AtFront(s: seq<byte>, pattern: seq<byte>)
    requires |pattern| > 0
    ensures At(s, 0, pattern) <==> |s| >= |pattern| && s[..|pattern|] == pattern
    ensures |s| < |pattern| ==> forall i :: !At(s, i, pattern)
  {
  }

  lemma AtLater(s: seq<byte>, i: nat, pattern: seq<byte>)
    requires |s| > 0
    ensures At(s, i + 1, pattern) <==> At(s[1..], i, pattern)
  {
    var n := |pattern|;
    if i + 1 + n <= |s| { assert s[i + 1..i + 1 + n] == s[1..][i..i + n]; }
  }

  /** What a name is refused for: a backslash, or two dots before a slash. */
  lemma BlockedExactly(name: Name)
    ensures Blocked(name)
       <==> 0x5c in name
            || exists i :: 0 <= i < |name| - 2 && name[i] == 0x2e && name[i + 1] == 0x2e && name[i + 2] == 0x2f
  {
    hide Contains;
    ContainsSomewhere(name, [0x5c]);
    ContainsSomewhere(name, [0x2e, 0x2e, 0x2f]);
    if 0x5c in name {
      var i :| 0 <= i < |name| && name[i] == 0x5c;
      assert At(name, i, [0x5c]);
    }
    if i: nat :| At(name, i, [0x5c]) { assert name[i..i + 1][0] == name[i]; }
    if i :| 0 <= i < |name| - 2 && name[i] == 0x2e && name[i + 1] == 0x2e && name[i + 2] == 0x2f {
      assert At(name, i, [0x2e, 0x2e, 0x2f]);
    }
    if i: nat :| At(name, i, [0x2e, 0x2e, 0x2f]) {
      var s := name[i..i + 3];
      assert s[0] == name[i] && s[1] == name[i + 1] && s[2] == name[i + 2];
    }
  }

  /** So a folder whose name ends in two dots cannot hold anything that is unpacked. */
  lemma DottedFolder(prefix: Name, name: Name)
    ensures Blocked(prefix + [0x2e, 0x2e] + [SLASH] + name)
  {
    hide Blocked;
    var whole := prefix + [0x2e, 0x2e] + [SLASH] + name;
    BlockedExactly(whole);
    assert whole[|prefix|] == 0x2e && whole[|prefix| + 1] == 0x2e && whole[|prefix| + 2] == 0x2f;
  }

  // ---------------------------------------------------------------- folders

  /** A path and the folders that it lies in, without the slashes behind their names. */
  function Ancestors(path: Name): (r: set<Name>)
    ensures forall k :: k in r ==> |k| <= |path|
    decreases |path|
  {
    if path == [] then {}
    else if EndsInSlash(path) then Ancestors(path[..|path| - 1])
    else {path} + if Parent(path).Some? then Ancestors(Parent(path).value) else {}
  }

  /** A path without the slashes behind it. */
  function Trimmed(path: Name): (r: Name)
    ensures !EndsInSlash(r)
  {
    if EndsInSlash(path) then Trimmed(path[..|path| - 1]) else path
  }

  /**
    * Making a folder succeeds when no file has its name or that of a folder above it; it keeps what is there, and makes
    * nothing but folders of those names.
    */
  lemma {:induction false} FolderMade(d: Disk, path: Name)
    ensures var (ok, made) := MakeFolder(d, path);
      && (ok ==> Trimmed(path) == [] || IsFolder(made, Trimmed(path)))
      && ((forall k :: k in Ancestors(path) ==> k !in d || d[k].Folder?) ==> ok)
      && (forall k :: k in d ==> k in made && made[k] == d[k])
      && (forall k :: k in made && k !in d ==> made[k].Folder? && k in Ancestors(path))
    decreases |path|
  {
    hide Parent;
    if path != [] {
      if EndsInSlash(path) {
        FolderMade(d, path[..|path| - 1]);
      } else if !IsFolder(d, path) && Parent(path).Some? {
        FolderMade(d, Parent(path).value);
      }
    }
  }

  /** Every file lies in a folder. */
  ghost predicate Housed(d: Disk) {
    forall k :: k in d && d[k].Document? ==> Parent(k).Some? ==> IsFolder(d, Parent(k).value)
  }

  lemma FolderHoused(d: Disk, path: Name)
    requires Housed(d)
    ensures Housed(MakeFolder(d, path).1)
  {
    hide Parent, MakeFolder, Ancestors, Trimmed;
    FolderMade(d, path);
  }

  lemma EntryHoused(a: seq<byte>, i: nat, d: Disk)
    requires Housed(d)
    ensures Housed(OneEntry(a, i, d).disk)
  {
    hide Slice, NumberAt, Digest, WordIn, Held, NameLength, Blocked, MakeFolder, PagedFile.Kept, Parent;
    var info := NumberAt(a, i);
    FolderHoused(d, Slice(a, info.next, NameLength(info.value)));
  }

  /** Whatever an archive holds, unpacking it never leaves a file without its folder. */
  lemma {:induction false} UnpackedHoused(a: seq<byte>, i: nat, d: Disk)
    requires Housed(d)
    ensures Housed(Unpacked(a, i, d).1)
    decreases |a| - i
  {
    hide OneEntry, Housed, WordIn, Digest, Slice;
    if !AtFooter(a, i) {
      EntryHoused(a, i, d);
      if OneEntry(a, i, d).Went? { UnpackedHoused(a, OneEntry(a, i, d).next, OneEntry(a, i, d).disk); }
    }
  }

  // ---------------------------------------------------------------- damaged archives

  /** An archive whose bytes are those of some entries, a file with any data and any word for its checksum, and more. */
  ghost function Damaged(markup: seq<byte>, before: seq<Entry>, e: Entry, data: seq<byte>, w: nat, after: seq<byte>)
    : seq<byte>
    requires Named(before) && |e.path| > 0
  {
    Preamble(markup) + EntriesBytes(before) + (HeadBytes(e) + (Encode(|data|) + data + WordBytes(w))) + after
  }

  /** An archive that `create` makes is one with the file's own data and their checksum. */
  lemma Undamaged(markup: seq<byte>, before: seq<Entry>, e: Entry, behind: seq<Entry>) returns (after: seq<byte>)
    requires Named(before) && |e.path| > 0 && !e.folder && Named(behind)
    ensures Named(before + [e] + behind)
    ensures Packed(markup, before + [e] + behind) == Damaged(markup, before, e, Data(e), Digest(Data(e)), after)
  {
    hide EntryBytes, EntriesBytes, Encode, WordBytes, Digest, Data, Preamble, Info;
    var entries := before + [e] + behind;
    EntriesSplit(before, [e]);
    EntriesSplit(before + [e], behind);
    EntryParts(e);
    EntriesOne(e);
    var sum := WordBytes(Digest(Preamble(markup) + EntriesBytes(entries)));
    after := EntriesBytes(behind) + sum;
    Rejoin(Preamble(markup), EntriesBytes(before), EntryBytes(e), EntriesBytes(behind), sum);
  }

  lemma Rejoin(a: seq<byte>, b: seq<byte>, c: seq<byte>, d: seq<byte>, e: seq<byte>)
    ensures a + (b + c + d) + e == a + b + c + (d + e)
  {
  }

  lemma EntriesOne(e: Entry)
    requires |e.path| > 0
    ensures Named([e]) && EntriesBytes([e]) == EntryBytes(e)
  {
    hide EntryBytes;
    assert [e][1..] == [] && EntryBytes(e) + [] == EntryBytes(e);
  }

  lemma DamagedParts(markup: seq<byte>, before: seq<Entry>, e: Entry, data: seq<byte>, w: nat, after: seq<byte>)
    requires Named(before) && |e.path| > 0
    ensures var a := Damaged(markup, before, e, data, w, after);
      var i := |Preamble(markup)| + |EntriesBytes(before)|;
      && At(a, 0, Preamble(markup)) && At(a, |Preamble(markup)|, EntriesBytes(before))
      && At(a, i, HeadBytes(e)) && At(a, i + |HeadBytes(e)|, Encode(|data|) + data + WordBytes(w))
      && i + |HeadBytes(e)| + 5 <= |a|
  {
    hide EntriesBytes, Encode, HeadBytes, Preamble, WordBytes;
    var a := Damaged(markup, before, e, data, w, after);
    var file := Encode(|data|) + data + WordBytes(w);
    var body := Preamble(markup) + EntriesBytes(before) + (HeadBytes(e) + file);
    AtStart(body, after);
    AtSplit(a, 0, Preamble(markup) + EntriesBytes(before), HeadBytes(e) + file);
    AtSplit(a, 0, Preamble(markup), EntriesBytes(before));
    AtSplit(a, |Preamble(markup)| + |EntriesBytes(before)|, HeadBytes(e), file);
    EncodeNonempty(|data|);
  }

  lemma FileDamaged(a: seq<byte>, i: nat, name: Name, data: seq<byte>, w: nat, d: Disk)
    requires At(a, i, Encode(|data|) + data + WordBytes(w)) && |data| <= PagedFile.LIMIT
    requires w < WORD32 && w != Digest(data)
    ensures OneFile(a, i, name, d).Stopped? && LookFile(a, i, true) == Found([])
  {
    hide Encode, Slice, NumberAt, WordBytes, Digest, WordIn, At, Held, PagedFile.Kept;
    var size := Encode(|data|);
    AtSplit(a, i, size + data, WordBytes(w));
    AtSplit(a, i, size, data);
    NumberEncoded(a, i, |data|);
    SliceAt(a, i + |size|, data);
    WordInAt(a, i + |size| + |data|, w);
    HeldSmall(|data|);
  }

  lemma EntryDamaged(a: seq<byte>, i: nat, e: Entry, data: seq<byte>, w: nat, d: Disk)
    requires 0 < |e.path| <= 0x2000_0000 && !e.folder && At(a, i, HeadBytes(e)) && |data| <= PagedFile.LIMIT
    requires At(a, i + |HeadBytes(e)|, Encode(|data|) + data + WordBytes(w)) && w < WORD32 && w != Digest(data)
    ensures OneEntry(a, i, d).Stopped? && LookEntry(a, i, e.path) == Found([])
  {
    hide Encode, Slice, NumberAt, At, Info, NameLength;
    hide OneFile, LookFile, HeadBytes, CanWrite, Blocked, Digest, WordBytes;
    HeadRead(a, i, e);
    FileDamaged(a, i + |HeadBytes(e)|, e.path, data, w, d);
  }

  lemma Stops(a: seq<byte>, i: nat, d: Disk)
    requires i + 4 < |a| && OneEntry(a, i, d).Stopped?
    ensures !Unpacked(a, i, d).0
  {
  }

  lemma Finds(a: seq<byte>, i: nat, path: Name, data: seq<byte>)
    requires i + 4 < |a| && LookEntry(a, i, path) == Found(data)
    ensures Extracted(a, i, path) == Bytes(data)
  {
  }

  /**
    * A file whose word is not the checksum of its data makes unpacking fail, whatever follows; extracting gives
    * nothing.
    */
  lemma DamagedFile(markup: seq<byte>, before: seq<Entry>, e: Entry, data: seq<byte>, w: nat, after: seq<byte>)
    requires Storable(before) && 0 < |e.path| <= 0x2000_0000 && !e.folder
    requires |markup| <= PagedFile.LIMIT && |data| <= PagedFile.LIMIT && w < WORD32 && w != Digest(data)
    ensures var a := Damaged(markup, before, e, data, w, after);
      && !UnpackedAll(a).0
      && (Lookup(before, e.path) == None && |a| <= PagedFile.LIMIT ==> ExtractedAll(a, e.path) == Bytes([]))
  {
    hide EntriesBytes, NumberAt, Slice, Damaged, Preamble, Restored, Unpacked, Extracted, WordIn, Digest, At, HeadBytes;
    hide Held, SeekFrom, Lookup, OneEntry, LookEntry, Encode, WordBytes, Storable, Named;
    StorableParts(before);
    PathsNamed(before);
    var a := Damaged(markup, before, e, data, w, after);
    var start, i := |Preamble(markup)|, |Preamble(markup)| + |EntriesBytes(before)|;
    DamagedParts(markup, before, e, data, w, after);
    PreambleRead(a, markup);
    PreambleLength(markup);
    HeldSmall(|markup|);
    EntriesRead(a, start, before, map[]);
    var d := Restored(before, map[]).1;
    EntryDamaged(a, i, e, data, w, d);
    Stops(a, i, d);
    if Lookup(before, e.path) == None && |a| <= PagedFile.LIMIT {
      SeekOnward(a, start - |markup|, |markup|);
      EntriesSearched(a, start, before, e.path);
      Finds(a, i, e.path, []);
    }
  }

  /** A file of an archive that was changed within four bytes is refused. */
  lemma ChangedFile(markup: seq<byte>, before: seq<Entry>, e: Entry, a: seq<byte>, x: seq<byte>, y: seq<byte>,
                    b: seq<byte>, after: seq<byte>)
    requires Storable(before) && 0 < |e.path| <= 0x2000_0000 && !e.folder && Data(e) == a + x + b
    requires |markup| <= PagedFile.LIMIT && |Data(e)| <= PagedFile.LIMIT && |x| == |y| <= 4 && x != y
    ensures var changed := Damaged(markup, before, e, a + y + b, Digest(Data(e)), after);
      && !UnpackedAll(changed).0
      && (Lookup(before, e.path) == None && |changed| <= PagedFile.LIMIT ==>
            ExtractedAll(changed, e.path) == Bytes([]))
  {
    hide Digest, Damaged, UnpackedAll, ExtractedAll, Lookup, Storable, Data;
    BurstNoticed(a, x, y, b);
    DamagedFile(markup, before, e, a + y + b, Digest(Data(e)), after);
  }

  /** An archive with another word at its end is refused. */
  lemma DamagedEnd(markup: seq<byte>, entries: seq<Entry>, w: nat)
    requires Storable(entries) && |markup| <= PagedFile.LIMIT
    requires w < WORD32 && w != Digest(Preamble(markup) + EntriesBytes(entries))
    ensures Named(entries) && !UnpackedAll(Preamble(markup) + EntriesBytes(entries) + WordBytes(w)).0
  {
    hide EntriesBytes, NumberAt, Slice, Preamble, Restored, Unpacked, WordIn, Digest, At, Held, WordBytes;
    PathsNamed(entries);
    var body := Preamble(markup) + EntriesBytes(entries);
    var a := body + WordBytes(w);
    AtStart(body, WordBytes(w));
    SliceAt(a, 0, body);
    AtSplit(a, 0, Preamble(markup), EntriesBytes(entries));
    AtBehind(body, WordBytes(w));
    WordInAt(a, |body|, w);
    PreambleRead(a, markup);
    HeldSmall(|markup|);
    EntriesRead(a, |Preamble(markup)|, entries, map[]);
    UnpackedEnd(a, Restored(entries, map[]).1);
  }

  lemma AtBehind(a: seq<byte>, b: seq<byte>)
    ensures At(a + b, |a|, b)
  {
  }

  // ---------------------------------------------------------------- any archive that is accepted

  /** The word behind the data of the entry at `i`, if it is a file's, is their checksum. */
  ghost predicate FileSound(a: seq<byte>, i: nat) {
    var info := NumberAt(a, i);
    var size := NumberAt(a, info.next + NameLength(info.value));
    var n := Held(size.value);
    info.value % 2 == 0 ==> WordIn(a, size.next + n) == Digest(Slice(a, size.next, n))
  }

  /** Where the numbers of the entry at `i` say that it ends. */
  ghost function Behind(a: seq<byte>, i: nat): (next: nat)
    ensures next > i
  {
    var info := NumberAt(a, i);
    var after := info.next + NameLength(info.value);
    if info.value % 2 == 1 then after else NumberAt(a, after).next + Held(NumberAt(a, after).value) + 4
  }

  /** Where the entries from `i` on end. */
  ghost function End(a: seq<byte>, i: nat): (end: nat)
    ensures end + 4 >= |a|
    decreases |a| - i
  {
    if i + 4 >= |a| then i else End(a, Behind(a, i))
  }

  /** The entry at `k` is one of those from `i` on. */
  ghost predicate Met(a: seq<byte>, i: nat, k: nat)
    decreases |a| - i
  {
    i + 4 < |a| && (k == i || Met(a, Behind(a, i), k))
  }

  lemma SoundEntry(a: seq<byte>, i: nat, d: Disk)
    requires OneEntry(a, i, d).Went?
    ensures FileSound(a, i) && OneEntry(a, i, d).next == Behind(a, i)
  {
    hide Slice, NumberAt, Digest, WordIn, Held, NameLength, Blocked, MakeFolder, CanWrite, PagedFile.Kept;
  }

  /** Every archive that is accepted has the checksum of each file behind it, and its own behind the entries. */
  lemma {:induction false} Accepted(a: seq<byte>, i: nat, d: Disk, k: nat)
    requires Unpacked(a, i, d).0
    ensures WordIn(a, End(a, i)) == Digest(Slice(a, 0, End(a, i)))
    ensures Met(a, i, k) ==> FileSound(a, k)
    decreases |a| - i
  {
    hide OneEntry, FileSound, Behind, WordIn, Digest, Slice;
    if i + 4 < |a| {
      SoundEntry(a, i, d);
      Accepted(a, Behind(a, i), OneEntry(a, i, d).disk, k);
    }
  }

  /** What a search gives is the data of a file of that name, with their checksum behind them. */
  lemma {:induction false} ExtractedSound(a: seq<byte>, i: nat, path: Name) returns (k: nat)
    requires Extracted(a, i, path).Bytes? && Extracted(a, i, path).data != []
    ensures var info := NumberAt(a, k);
      var size := NumberAt(a, info.next + NameLength(info.value));
      && info.value % 2 == 0 && Slice(a, info.next, NameLength(info.value)) == path && FileSound(a, k)
      && Extracted(a, i, path).data == Slice(a, size.next, Held(size.value))
    decreases |a| - i
  {
    hide Slice, NumberAt, WordIn, Digest, NameLength, SeekFrom, Held;
    if LookEntry(a, i, path).Found? {
      k := i;
    } else {
      k := ExtractedSound(a, LookEntry(a, i, path).next, path);
    }
  }

  /** Where the entries begin. */
  ghost function Start(a: seq<byte>): nat {
    NumberAt(a, 4).next + Held(NumberAt(a, 4).value)
  }

  /** An accepted archive whose entries leave its last word over ends in the checksum of everything before. */
  lemma AcceptedWhole(a: seq<byte>, k: nat)
    requires UnpackedAll(a).0
    ensures Slice(a, 0, 4) == [0x42, 0x50, 0x41, 0x31]
    ensures Met(a, Start(a), k) ==> FileSound(a, k)
    ensures End(a, Start(a)) + 4 == |a| ==> WordAt(a, |a| - 4) == Digest(a[..|a| - 4])
  {
    hide NumberAt, Slice, Unpacked, End, Met, FileSound, Digest, WordAt, Held;
    Accepted(a, Start(a), map[], k);
    if End(a, Start(a)) + 4 == |a| {
      SliceIs(a, |a| - 4, 4);
      SliceIs(a, 0, |a| - 4);
      WordOfSlice(a, |a| - 4);
    }
  }

  /**
    * So a change within four bytes of an accepted archive is noticed, as long as its entries still end where they
    * did.
    */
  lemma ChangedArchive(a: seq<byte>, x: seq<byte>, y: seq<byte>, b: seq<byte>, w: nat)
    requires |x| == |y| <= 4 && x != y && w < WORD32
    requires var whole := a + x + b + WordBytes(w); UnpackedAll(whole).0 && End(whole, Start(whole)) + 4 == |whole|
    requires var changed := a + y + b + WordBytes(w); End(changed, Start(changed)) + 4 == |changed|
    ensures !UnpackedAll(a + y + b + WordBytes(w)).0
  {
    hide Digest, UnpackedAll, End, Start, WordAt, WordBytes, FileSound, Met, Slice;
    var whole, changed := a + x + b + WordBytes(w), a + y + b + WordBytes(w);
    BurstNoticed(a, x, y, b);
    AcceptedWhole(whole, 0);
    LastWord(a + x + b, w);
    LastWord(a + y + b, w);
    if UnpackedAll(changed).0 { AcceptedWhole(changed, 0); }
  }

  lemma LastWord(body: seq<byte>, w: nat)
    requires w < WORD32
    ensures var a := body + WordBytes(w); a[..|a| - 4] == body && WordAt(a, |a| - 4) == w
  {
    hide WordBytes, WordAt;
    AtBehind(body, WordBytes(w));
    WordRoundTrip(body + WordBytes(w), |body|, w);
  }

  lemma SliceIs(a: seq<byte>, i: nat, n: nat)
    requires i + n <= |a|
    ensures Slice(a, i, n) == a[i..i + n]
  {
  }

  lemma WordOfSlice(a: seq<byte>, i: nat)
    requires i + 4 <= |a|
    ensures WordAt(a[i..i + 4], 0) == WordAt(a, i)
  {
  }

  /** Feeding a register its own bytes empties it. */
  lemma RegisterOfItself(s: seq<byte>)
    ensures Register(s + WordBytes(Register(s))) == 0
  {
    hide Register, Input, Xor, Table;
    var r := Register(s);
    var w := WordBytes(r);
    var s1, s2, s3 := s + [w[0]], s + [w[0]] + [w[1]], s + [w[0]] + [w[1]] + [w[2]];
    assert s + w == s3 + [w[3]];
    RegisterAppend(s, w[0]);
    RegisterAppend(s1, w[1]);
    RegisterAppend(s2, w[2]);
    RegisterAppend(s3, w[3]);
    InputOfItself(r);
    InputOfItself(r / 256);
    InputOfItself(r / 256 / 256);
    InputOfItself(r / 256 / 256 / 256);
  }

  lemma TableNothing()
    ensures Table(0) == 0
  {
  }

  lemma InputOfItself(r: nat)
    requires r < WORD32
    ensures Input(r, r % 256) == r / 256
  {
    hide Table;
    XorSame(r % 256);
    TableNothing();
  }

  /** "BPA1", the length of four bytes of metadata, and in them the register after these five bytes. */
  ghost function Overrun(): (a: seq<byte>)
    ensures |a| == 9
  {
    SIGNATURE + [0x84] + WordBytes(Register(SIGNATURE + [0x84]))
  }

  /** An archive whose markup or entries run over its last word can be accepted without ending in its checksum. */
  lemma OverrunAccepted()
    ensures UnpackedAll(Overrun()).0 && End(Overrun(), Start(Overrun())) == |Overrun()|
    ensures WordAt(Overrun(), |Overrun()| - 4) != Digest(Overrun()[..|Overrun()| - 4])
  {
    hide Register, WordBytes, NumberAt, Slice, WordIn;
    var head := SIGNATURE + [0x84];
    var a := Overrun();
    assert a[..5] == head && a[..4] == SIGNATURE;
    RegisterOfItself(head);
    SliceIs(a, 0, 4);
    SliceIs(a, 0, 9);
    assert a[0..9] == a;
    NumberStep(a, 4);
    assert a[4] == 0x84;
    HeldSmall(4);
    WordBeyond(a);
    AtBehind(head, WordBytes(Register(head)));
    WordRoundTrip(a, 5, Register(head));
  }

  lemma WordBeyond(a: seq<byte>)
    ensures WordIn(a, |a|) == WORD32 - 1
  {
  }
}
