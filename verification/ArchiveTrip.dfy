/** What unpacking and searching make of an archive created from a directory. */
module ArchiveTrip {
  import opened Bits
  import opened VarInt
  import opened Crc32
  import opened Archive
  import opened ArchiveUnpack
  import opened Stream
  import opened Maybe
  import PagedFile

  // ---------------------------------------------------------------- entries

  /** The disk after restoring a list of entries, or at the first one refused. */
  function Restored(entries: seq<Entry>, d: Disk): (bool, Disk) {
    if entries == [] then (true, d)
    else
      var (ok, d1) := RestoredOne(entries[0], d);
      if ok then Restored(entries[1..], d1) else (false, d1)
  }

  function RestoredOne(e: Entry, d: Disk): (bool, Disk) {
    if Blocked(e.path) then (false, d)
    else if e.folder then MakeFolder(d, e.path)
    else if CanWrite(d, e.path) then (true, d[e.path := Document(Data(e))])
    else (false, d)
  }

  /** Paths whose lengths an archive can hold. */
  ghost predicate Paths(entries: seq<Entry>) {
    Named(entries) && forall i :: 0 <= i < |entries| ==> |entries[i].path| <= 0x2000_0000
  }

  ghost predicate Storable(entries: seq<Entry>) {
    Paths(entries) && Readable(entries)
  }

  /** No file of an archive is longer than the archive. */
  lemma {:induction false} EntriesLength(entries: seq<Entry>, i: nat)
    requires Named(entries) && i < |entries|
    ensures entries[i].folder || |Data(entries[i])| <= |EntriesBytes(entries)|
    decreases i
  {
    hide Encode, Digest, WordBytes, Info, Data;
    if i > 0 { EntriesLength(entries[1..], i - 1); }
  }

  /** An archive of at most 2^31 bytes holds only files of which every byte can be read and written. */
  lemma Fits(markup: seq<byte>, entries: seq<Entry>)
    requires Paths(entries) && Plain(entries) && |Packed(markup, entries)| <= PagedFile.LIMIT
    ensures Storable(entries) && |markup| <= PagedFile.LIMIT
  {
    hide EntriesBytes, Encode, Digest, WordBytes, Data, Named;
    PathsNamed(entries);
    forall i | 0 <= i < |entries| ensures |Data(entries[i])| <= PagedFile.LIMIT {
      EntriesLength(entries, i);
      FolderData(entries, i);
    }
  }

  lemma PathsNamed(entries: seq<Entry>)
    requires Paths(entries)
    ensures Named(entries)
  {
  }

  /** Folders have no data. */
  ghost predicate Plain(entries: seq<Entry>) {
    forall i :: 0 <= i < |entries| ==> entries[i].folder ==> entries[i].data == None
  }

  lemma FolderData(entries: seq<Entry>, i: nat)
    requires Plain(entries) && i < |entries|
    ensures entries[i].folder ==> Data(entries[i]) == []
  {
  }

  lemma {:induction false} ScannedPlain(forest: Forest, prefix: Name)
    ensures Plain(Scanned(forest, prefix))
    decreases forest
  {
    hide Scanned;
    if forest.Nothing? {
      ScannedNothing(prefix);
    } else {
      ScannedStep(forest, prefix);
      ScannedPlain(forest.rest, prefix);
      if forest.FolderThen? { ScannedPlain(forest.children, prefix + forest.name + [SLASH]); }
    }
  }

  lemma SliceAt(a: seq<byte>, i: nat, piece: seq<byte>)
    requires At(a, i, piece)
    ensures Slice(a, i, |piece|) == piece
  {
  }

  /** The low bits and the length packed into an entry's first number. */
  lemma InfoRead(e: Entry)
    requires 0 < |e.path| <= 0x2000_0000
    ensures Info(e) < WORD32 && NameLength(Info(e)) == |e.path| && Info(e) % 2 == Flag(e.folder)
  {
    hide Held;
    InfoParts(Flag(e.folder), Flag(e.writable), Flag(e.executable), |e.path|);
    HeldSmall(Info(e));
  }

  lemma InfoParts(a: nat, b: nat, c: nat, n: nat)
    requires a < 2 && b < 2 && c < 2 && 0 < n <= 0x2000_0000
    ensures var v := a + 2 * b + 4 * c + 8 * (n - 1);
      v % WORD32 == v < WORD32 && v / 8 + 1 == n && n % WORD32 == n && v % 2 == a
  {
    var low := a + 2 * b + 4 * c;
    var v := low + 8 * (n - 1);
    assert v < WORD32;
    DivModUnique(v, n - 1, low, 8);
    DivModUnique(v, b + 2 * c + 4 * (n - 1), a, 2);
  }

  lemma WordInAt(a: seq<byte>, i: nat, v: nat)
    requires v < WORD32 && At(a, i, WordBytes(v))
    ensures WordIn(a, i) == v
  {
    hide Slice, WordBytes, WordAt;
    SliceAt(a, i, WordBytes(v));
    WordBytesAt(v);
    WordRoundTrip(WordBytes(v), 0, v);
  }

  lemma WordBytesAt(v: nat)
    ensures At(WordBytes(v), 0, WordBytes(v))
  {
  }

  /** A file that is restored is kept whole. */
  lemma FileRead(a: seq<byte>, i: nat, e: Entry, d: Disk)
    requires |Data(e)| <= PagedFile.LIMIT
    requires At(a, i, FileBytes(e))
    ensures OneFile(a, i, e.path, d) == Went(i + |FileBytes(e)|, d[e.path := Document(Data(e))])
  {
    hide Encode, Slice, NumberAt, WordBytes, Digest, WordIn, At, Data, PagedFile.Kept, Held;
    var size := Encode(|Data(e)|);
    AtSplit(a, i, size + Data(e), WordBytes(Digest(Data(e))));
    AtSplit(a, i, size, Data(e));
    NumberEncoded(a, i, |Data(e)|);
    SliceAt(a, i + |size|, Data(e));
    WordInAt(a, i + |size| + |Data(e)|, Digest(Data(e)));
    PagedFile.KeptWhole(Data(e));
    HeldSmall(|Data(e)|);
  }

  /** What follows the name of a file. */
  function FileBytes(e: Entry): seq<byte> {
    Encode(|Data(e)|) + Data(e) + WordBytes(Digest(Data(e)))
  }

  lemma EntryParts(e: Entry)
    requires |e.path| > 0
    ensures EntryBytes(e) == (Encode(Info(e)) + e.path) + if e.folder then [] else FileBytes(e)
  {
    hide Encode, Info, Data, WordBytes, Digest;
  }

  /** The number and the name at the head of an entry. */
  function HeadBytes(e: Entry): seq<byte>
    requires |e.path| > 0
  {
    Encode(Info(e)) + e.path
  }

  lemma HeadRead(a: seq<byte>, i: nat, e: Entry)
    requires 0 < |e.path| <= 0x2000_0000 && At(a, i, HeadBytes(e))
    ensures NumberAt(a, i) == Number(Info(e), i + |Encode(Info(e))|)
    ensures Info(e) % 2 == Flag(e.folder) && NameLength(Info(e)) == |e.path|
    ensures Slice(a, i + |Encode(Info(e))|, |e.path|) == e.path
    ensures |HeadBytes(e)| == |Encode(Info(e))| + |e.path|
  {
    hide Encode, Slice, NumberAt, At, Info, NameLength;
    InfoRead(e);
    AtSplit(a, i, Encode(Info(e)), e.path);
    NumberEncoded(a, i, Info(e));
    SliceAt(a, i + |Encode(Info(e))|, e.path);
  }

  /** What is behind the head. */
  lemma EntryHead(a: seq<byte>, i: nat, e: Entry)
    requires 0 < |e.path| <= 0x2000_0000 && At(a, i, EntryBytes(e))
    ensures At(a, i, HeadBytes(e))
    ensures NumberAt(a, i) == Number(Info(e), i + |Encode(Info(e))|)
    ensures Info(e) % 2 == Flag(e.folder) && NameLength(Info(e)) == |e.path|
    ensures Slice(a, i + |Encode(Info(e))|, |e.path|) == e.path
    ensures e.folder ==> |EntryBytes(e)| == |Encode(Info(e))| + |e.path|
    ensures !e.folder ==> |EntryBytes(e)| == |Encode(Info(e))| + |e.path| + |FileBytes(e)|
    ensures !e.folder ==> At(a, i + |Encode(Info(e))| + |e.path|, FileBytes(e))
  {
    hide Encode, Slice, NumberAt, At, Info, NameLength, EntryBytes, FileBytes;
    EntryParts(e);
    AtSplit(a, i, HeadBytes(e), if e.folder then [] else FileBytes(e));
    HeadRead(a, i, e);
  }

  /** One entry's bytes are read back as that entry. */
  lemma EntryRead(a: seq<byte>, i: nat, e: Entry, d: Disk)
    requires 0 < |e.path| <= 0x2000_0000 && |Data(e)| <= PagedFile.LIMIT && At(a, i, EntryBytes(e))
    ensures OneEntry(a, i, d)
         == if RestoredOne(e, d).0 then Went(i + |EntryBytes(e)|, RestoredOne(e, d).1) else Stopped(RestoredOne(e, d).1)
  {
    hide Held, Encode, Slice, NumberAt, EntryBytes, FileBytes, At;
    hide Info, NameLength, Blocked, CanWrite, MakeFolder, OneFile, Data;
    EntryHead(a, i, e);
    if !e.folder { FileRead(a, i + |Encode(Info(e))| + |e.path|, e, d); }
  }

  lemma EntryNonempty(e: Entry)
    requires |e.path| > 0
    ensures |EntryBytes(e)| > 0
  {
    hide Encode;
  }

  /** Entries are restored one after the other, and then what is behind them. */
  lemma {:induction false} EntriesRead(a: seq<byte>, i: nat, entries: seq<Entry>, d: Disk)
    requires Storable(entries) && At(a, i, EntriesBytes(entries)) && i + |EntriesBytes(entries)| + 4 <= |a|
    ensures var r := Restored(entries, d);
      Unpacked(a, i, d) == if r.0 then Unpacked(a, i + |EntriesBytes(entries)|, r.1) else r
    decreases |entries|
  {
    hide EntryBytes, OneEntry, RestoredOne, WordIn, Digest, Slice, At;
    if entries != [] {
      var e, rest := entries[0], entries[1..];
      EntryNonempty(e);
      AtSplit(a, i, EntryBytes(e), EntriesBytes(rest));
      EntryRead(a, i, e, d);
      if RestoredOne(e, d).0 {
        EntriesRead(a, i + |EntryBytes(e)|, rest, RestoredOne(e, d).1);
      }
    }
  }

  lemma UnpackedEnd(a: seq<byte>, d: Disk)
    requires |a| >= 4
    ensures Unpacked(a, |a| - 4, d) == (WordIn(a, |a| - 4) == Digest(Slice(a, 0, |a| - 4)), d)
  {
    hide WordIn, Digest, Slice;
  }

  lemma PackedParts(markup: seq<byte>, entries: seq<Entry>)
    requires Named(entries)
    ensures var a := Packed(markup, entries); var i := |Preamble(markup)|;
      && i + |EntriesBytes(entries)| + 4 == |a|
      && At(a, 0, Preamble(markup)) && At(a, i, EntriesBytes(entries))
      && WordIn(a, |a| - 4) == Digest(Slice(a, 0, |a| - 4))
  {
    hide EntriesBytes, Encode, WordBytes, Digest, WordIn, Preamble, Slice;
    var body := Preamble(markup) + EntriesBytes(entries);
    var a := Packed(markup, entries);
    assert a == body + WordBytes(Digest(body));
    AtStart(body, WordBytes(Digest(body)));
    AtSplit(a, 0, Preamble(markup), EntriesBytes(entries));
    SliceAt(a, 0, body);
    assert At(a, |body|, WordBytes(Digest(body)));
    WordInAt(a, |body|, Digest(body));
  }

  lemma PreambleRead(a: seq<byte>, markup: seq<byte>)
    requires At(a, 0, Preamble(markup)) && |markup| <= PagedFile.LIMIT
    ensures Slice(a, 0, 4) == SIGNATURE && NumberAt(a, 4) == Number(|markup|, |Preamble(markup)| - |markup|)
  {
    hide Encode, Slice, NumberAt, At;
    AtSplit(a, 0, SIGNATURE + Encode(|markup|), markup);
    AtSplit(a, 0, SIGNATURE, Encode(|markup|));
    SliceAt(a, 0, SIGNATURE);
    NumberEncoded(a, 4, |markup|);
  }

  /** Unpacking an archive is restoring its entries. */
  lemma UnpackPacked(markup: seq<byte>, entries: seq<Entry>)
    requires Storable(entries) && |markup| <= PagedFile.LIMIT
    ensures UnpackedAll(Packed(markup, entries)) == Restored(entries, map[])
  {
    hide EntriesBytes, NumberAt, Slice, Packed, Preamble, Restored, Unpacked, WordIn, Digest, Held;
    PackedParts(markup, entries);
    var a := Packed(markup, entries);
    PreambleRead(a, markup);
    EntriesRead(a, |Preamble(markup)|, entries, map[]);
    UnpackedEnd(a, Restored(entries, map[]).1);
    HeldSmall(|markup|);
  }

  // ---------------------------------------------------------------- directories

  /** Every path below a directory, and what it names; unreadable files come back empty. */
  function Tree(forest: Forest, prefix: Name): Disk {
    match forest
    case Nothing => map[]
    case FileThen(name, data, _, _, rest) =>
      map[prefix + name := Document(if data.Some? then data.value else [])] + Tree(rest, prefix)
    case FolderThen(name, _, _, children, rest) =>
      map[prefix + name := Folder] + Tree(children, prefix + name + [SLASH]) + Tree(rest, prefix)
  }

  function Names(forest: Forest): set<Name> {
    match forest
    case Nothing => {}
    case FileThen(name, _, _, _, rest) => {name} + Names(rest)
    case FolderThen(name, _, _, _, rest) => {name} + Names(rest)
  }

  /** A directory as a file system can hold it: names are not empty, have no slash, and differ. */
  ghost predicate Proper(forest: Forest) {
    match forest
    case Nothing => true
    case FileThen(name, _, _, _, rest) => name != [] && SLASH !in name && name !in Names(rest) && Proper(rest)
    case FolderThen(name, _, _, children, rest) =>
      name != [] && SLASH !in name && name !in Names(rest) && Proper(children) && Proper(rest)
  }

  /** The first component of a path. */
  function Head(s: Name): Name {
    if s == [] || s[0] == SLASH then [] else [s[0]] + Head(s[1..])
  }

  lemma {:induction false} HeadIs(name: Name, tail: Name)
    requires SLASH !in name && (tail == [] || tail[0] == SLASH)
    ensures Head(name + tail) == name
  {
    if name == [] {
      assert name + tail == tail;
    } else {
      assert (name + tail)[1..] == name[1..] + tail;
      HeadIs(name[1..], tail);
    }
  }

  /** The paths below a directory begin with the name of one of its members. */
  lemma {:induction false} TreeHeads(forest: Forest, prefix: Name, key: Name)
    requires Proper(forest) && key in Tree(forest, prefix)
    ensures |prefix| < |key| && key[..|prefix|] == prefix && Head(key[|prefix|..]) in Names(forest)
    decreases forest
  {
    if key in Tree(forest.rest, prefix) {
      TreeHeads(forest.rest, prefix, key);
    } else if key == prefix + forest.name {
      HeadIs(forest.name, []);
      assert key[|prefix|..] == forest.name + [];
    } else {
      var below := prefix + forest.name + [SLASH];
      TreeHeads(forest.children, below, key);
      var tail := [SLASH] + key[|below|..];
      HeadIs(forest.name, tail);
      PathParts(prefix, forest.name, key);
    }
  }

  lemma {:induction false} ParentOf(above: Name, name: Name)
    requires SLASH !in name
    ensures Parent(name) == None
    ensures Parent(above + [SLASH] + name) == Some(above)
  {
    var path := above + [SLASH] + name;
    if name == [] {
      assert path[..|path| - 1] == above;
    } else {
      ParentOf(above, name[..|name| - 1]);
      assert path[..|path| - 1] == above + [SLASH] + name[..|name| - 1];
    }
  }

  /** The folder that `prefix` leads into is there. */
  ghost predicate Entered(prefix: Name, d: Disk) {
    prefix == []
    || (prefix[|prefix| - 1] == SLASH && !EndsInSlash(prefix[..|prefix| - 1]) && IsFolder(d, prefix[..|prefix| - 1]))
  }

  ghost predicate Safe(entries: seq<Entry>) {
    forall i :: 0 <= i < |entries| ==> !Blocked(entries[i].path)
  }

  /** Making a member of a folder that is there. */
  lemma MemberMade(prefix: Name, name: Name, d: Disk)
    requires name != [] && SLASH !in name && Entered(prefix, d) && prefix + name !in d
    ensures CanWrite(d, prefix + name) && MakeFolder(d, prefix + name) == (true, d[prefix + name := Folder])
  {
    assert (prefix + name)[|prefix + name| - 1] == name[|name| - 1];
    if prefix == [] {
      ParentOf([], name);
      assert prefix + name == name;
    } else {
      var above := prefix[..|prefix| - 1];
      ParentOf(above, name);
      assert prefix + name == above + [SLASH] + name;
    }
  }

  lemma {:induction false} RestoredAppend(a: seq<Entry>, b: seq<Entry>, d: Disk)
    ensures Restored(a, d).0 ==> Restored(a + b, d) == Restored(b, Restored(a, d).1)
    decreases |a|
  {
    hide RestoredOne;
    if a == [] {
      assert a + b == b;
    } else {
      assert (a + b)[1..] == a[1..] + b;
      if RestoredOne(a[0], d).0 { RestoredAppend(a[1..], b, RestoredOne(a[0], d).1); }
    }
  }

  lemma HeadOfMember(prefix: Name, name: Name)
    requires SLASH !in name
    ensures (prefix + name)[|prefix|..] == name && Head(name) == name
  {
    HeadIs(name, []);
    assert name + [] == name;
  }

  lemma HeadOfChild(children: Forest, prefix: Name, name: Name, key: Name)
    requires Proper(children) && SLASH !in name && key in Tree(children, prefix + name + [SLASH])
    ensures |prefix| < |key| && Head(key[|prefix|..]) == name
  {
    hide Tree, Head, Names, Proper;
    var below := prefix + name + [SLASH];
    TreeHeads(children, below, key);
    var tail := [SLASH] + key[|below|..];
    HeadIs(name, tail);
    PathParts(prefix, name, key);
  }

  lemma PathParts(prefix: Name, name: Name, key: Name)
    requires var below := prefix + name + [SLASH]; |below| <= |key| && key[..|below|] == below
    ensures key[|prefix|..] == name + ([SLASH] + key[|prefix| + |name| + 1..])
  {
    var below := prefix + name + [SLASH];
    assert key == below + key[|below|..];
    assert key == prefix + (name + ([SLASH] + key[|below|..]));
  }

  /** A path below the later members is not the first one, nor below it. */
  lemma KeyElsewhere(forest: Forest, prefix: Name, key: Name)
    requires !forest.Nothing? && Proper(forest) && key in Tree(forest.rest, prefix)
    ensures key != prefix + forest.name
    ensures forest.FolderThen? ==> key !in Tree(forest.children, prefix + forest.name + [SLASH])
  {
    hide Tree, Head;
    TreeHeads(forest.rest, prefix, key);
    HeadOfMember(prefix, forest.name);
    if forest.FolderThen? {
      forall k | k in Tree(forest.children, prefix + forest.name + [SLASH])
        ensures |prefix| < |k| && Head(k[|prefix|..]) == forest.name
      {
        HeadOfChild(forest.children, prefix, forest.name, k);
      }
    }
  }

  lemma SafeParts(a: seq<Entry>, b: seq<Entry>)
    requires Safe(a + b)
    ensures Safe(a) && Safe(b)
  {
    assert forall i :: 0 <= i < |a| ==> a[i] == (a + b)[i];
    assert forall i :: 0 <= i < |b| ==> b[i] == (a + b)[|a| + i];
  }

  lemma RestoredFirst(e: Entry, rest: seq<Entry>, d: Disk)
    ensures RestoredOne(e, d).0 ==> Restored([e] + rest, d) == Restored(rest, RestoredOne(e, d).1)
  {
    hide RestoredOne;
    assert ([e] + rest)[1..] == rest;
  }

  /** Restoring the entries of a directory makes exactly its files and folders. */
  lemma {:induction false} RestoredTree(forest: Forest, prefix: Name, d: Disk)
    requires Proper(forest) && Entered(prefix, d) && Safe(Scanned(forest, prefix))
    requires Tree(forest, prefix).Keys !! d.Keys
    ensures Restored(Scanned(forest, prefix), d) == (true, d + Tree(forest, prefix))
    decreases forest, 1
  {
    match forest
    case Nothing =>
      assert d + map[] == d;
    case FileThen(_, _, _, _, _) => RestoredFile(forest, prefix, d);
    case FolderThen(_, _, _, _, _) => RestoredFolder(forest, prefix, d);
  }

  lemma {:induction false} RestoredFile(forest: Forest, prefix: Name, d: Disk)
    requires forest.FileThen? && Proper(forest) && Entered(prefix, d) && Safe(Scanned(forest, prefix))
    requires Tree(forest, prefix).Keys !! d.Keys
    ensures Restored(Scanned(forest, prefix), d) == (true, d + Tree(forest, prefix))
    decreases forest, 0
  {
    hide Blocked, CanWrite, MakeFolder, Restored, Safe;
    var path, rest := prefix + forest.name, forest.rest;
    var e := Entry(path, false, forest.writable, forest.executable, forest.data);
    var d1 := d[path := Document(Data(e))];
    SafeParts([e], Scanned(rest, prefix));
    SafeOne(e);
    MemberMade(prefix, forest.name, d);
    RestoredFirst(e, Scanned(rest, prefix), d);
    forall key | key in Tree(rest, prefix) ensures key !in d1 { KeyElsewhere(forest, prefix, key); }
    RestoredTree(rest, prefix, d1);
    assert d1 + Tree(rest, prefix) == d + Tree(forest, prefix);
  }

  lemma SafeOne(e: Entry)
    requires Safe([e])
    ensures !Blocked(e.path)
  {
    assert [e][0] == e;
  }

  lemma {:induction false} RestoredFolder(forest: Forest, prefix: Name, d: Disk)
    requires forest.FolderThen? && Proper(forest) && Entered(prefix, d) && Safe(Scanned(forest, prefix))
    requires Tree(forest, prefix).Keys !! d.Keys
    ensures Restored(Scanned(forest, prefix), d) == (true, d + Tree(forest, prefix))
    decreases forest, 0
  {
    hide Blocked, CanWrite, MakeFolder, Restored, Safe, Tree, Scanned;
    FolderParts(forest, prefix);
    var path, rest := prefix + forest.name, forest.rest;
    var below := path + [SLASH];
    var e := Entry(path, true, forest.writable, forest.executable, None);
    var d1 := d[path := Folder];
    var d2 := d1 + Tree(forest.children, below);
    SafeParts([e] + Scanned(forest.children, below), Scanned(rest, prefix));
    SafeParts([e], Scanned(forest.children, below));
    SafeOne(e);
    MemberMade(prefix, forest.name, d);
    RestoredFirst(e, Scanned(forest.children, below), d);
    assert below[..|below| - 1] == path && path[|path| - 1] == forest.name[|forest.name| - 1];
    forall key | key in Tree(forest.children, below) ensures key !in d1 { TreeHeads(forest.children, below, key); }
    RestoredTree(forest.children, below, d1);
    RestoredAppend([e] + Scanned(forest.children, below), Scanned(rest, prefix), d);
    forall key | key in Tree(rest, prefix) ensures key !in d2 { KeyElsewhere(forest, prefix, key); }
    EnteredStays(prefix, d, d2, path, Tree(forest.children, below));
    RestoredTree(rest, prefix, d2);
    Merged(d, path, Tree(forest.children, below), Tree(rest, prefix));
  }

  lemma FolderParts(forest: Forest, prefix: Name)
    requires forest.FolderThen?
    ensures var path := prefix + forest.name;
      && Scanned(forest, prefix)
         == [Entry(path, true, forest.writable, forest.executable, None)]
            + Scanned(forest.children, path + [SLASH]) + Scanned(forest.rest, prefix)
      && Tree(forest, prefix)
         == map[path := Folder] + Tree(forest.children, path + [SLASH]) + Tree(forest.rest, prefix)
  {
  }

  lemma Merged(d: Disk, path: Name, inner: Disk, rest: Disk)
    ensures (d[path := Folder] + inner) + rest == d + (map[path := Folder] + inner + rest)
  {
  }

  lemma EnteredStays(prefix: Name, d: Disk, d2: Disk, path: Name, made: Disk)
    requires Entered(prefix, d) && path !in d && made.Keys !! d.Keys && d2 == d[path := Folder] + made
    ensures Entered(prefix, d2)
  {
  }

  lemma SafeSplit(entries: seq<Entry>)
    ensures Safe(entries) <==> entries == [] || (!Blocked(entries[0].path) && Safe(entries[1..]))
  {
    hide Blocked;
    if entries != [] {
      assert forall i :: 0 < i < |entries| ==> entries[i] == entries[1..][i - 1];
    }
  }

  lemma {:induction false} BlockedStops(entries: seq<Entry>, d: Disk)
    requires !Safe(entries)
    ensures !Restored(entries, d).0
    decreases |entries|
  {
    hide Blocked, MakeFolder, CanWrite;
    SafeSplit(entries);
    if !Blocked(entries[0].path) && RestoredOne(entries[0], d).0 {
      BlockedStops(entries[1..], RestoredOne(entries[0], d).1);
    }
  }

  /** Unpacking what was packed from a directory rebuilds it, exactly when no path looks dangerous. */
  lemma UnpackRestores(markup: seq<byte>, forest: Forest)
    requires Proper(forest) && Paths(Scanned(forest, []))
    requires |Packed(markup, Scanned(forest, []))| <= PagedFile.LIMIT
    ensures var r := UnpackedAll(Packed(markup, Scanned(forest, [])));
      (r.0 <==> Safe(Scanned(forest, []))) && (r.0 ==> r.1 == Tree(forest, []))
  {
    hide UnpackedAll, Packed, Restored, Safe, Scanned, Tree, Paths, Plain, Storable;
    ScannedPlain(forest, []);
    PathsNamed(Scanned(forest, []));
    Fits(markup, Scanned(forest, []));
    UnpackPacked(markup, Scanned(forest, []));
    if Safe(Scanned(forest, [])) {
      RestoredTree(forest, [], map[]);
      assert map[] + Tree(forest, []) == Tree(forest, []);
    } else {
      BlockedStops(Scanned(forest, []), map[]);
    }
  }

  /** Archiving a directory and unpacking it elsewhere, both through files: exact for archives of at most 2^31 bytes. */
  method RoundTrip(beatName: string, pathName: string, markup: seq<byte>, forest: Forest) returns (ok: bool, disk: Disk)
    requires Proper(forest) && Paths(Scanned(forest, []))
    requires |Packed(markup, Scanned(forest, []))| <= PagedFile.LIMIT
    requires EndsWith(beatName, ".bpa") && EndsWith(pathName, "/")
    ensures ok <==> Safe(Scanned(forest, []))
    ensures ok ==> disk == Tree(forest, [])
  {
    hide UnpackedAll, Packed, Safe, Scanned, Tree, EndsWith, Paths, Plain, Readable, PagedFile.Kept;
    UnpackRestores(markup, forest);
    ScannedPlain(forest, []);
    PathsNamed(Scanned(forest, []));
    Fits(markup, Scanned(forest, []));
    var created, archive := Create(beatName, pathName, markup, forest);
    ok, disk := Unpack(beatName, pathName, archive);
  }

  // ---------------------------------------------------------------- the order of entries

  /** Every entry's folder is the root or came before it. */
  ghost predicate Ordered(entries: seq<Entry>, known: set<Name>)
    decreases |entries|
  {
    entries == []
    || (&& (Parent(entries[0].path).Some? ==> Parent(entries[0].path).value in known)
        && Ordered(entries[1..], if entries[0].folder then known + {entries[0].path} else known))
  }

  /** The folders of a list of entries. */
  function Folders(entries: seq<Entry>): set<Name> {
    if entries == [] then {}
    else (if entries[0].folder then {entries[0].path} else {}) + Folders(entries[1..])
  }

  lemma {:induction false} OrderedAppend(a: seq<Entry>, b: seq<Entry>, known: set<Name>)
    requires Ordered(a, known) && Ordered(b, known + Folders(a))
    ensures Ordered(a + b, known)
    decreases |a|
  {
    hide Parent;
    if a == [] {
      assert a + b == b && known + {} == known;
    } else {
      assert (a + b)[1..] == a[1..] + b;
      var more := if a[0].folder then known + {a[0].path} else known;
      assert known + Folders(a) == more + Folders(a[1..]);
      OrderedAppend(a[1..], b, more);
    }
  }

  /** The scan lists each folder before anything in it. */
  lemma {:induction false} ScanOrdered(forest: Forest, prefix: Name, known: set<Name>)
    requires Proper(forest)
    requires prefix == [] || (prefix[|prefix| - 1] == SLASH && prefix[..|prefix| - 1] in known)
    ensures Ordered(Scanned(forest, prefix), known)
    decreases forest
  {
    hide Parent;
    if !forest.Nothing? {
      var path := prefix + forest.name;
      var e := Entry(path, forest.FolderThen?, forest.writable, forest.executable,
                     if forest.FileThen? then forest.data else None);
      if prefix == [] {
        ParentOf([], forest.name);
        assert path == forest.name;
      } else {
        ParentOf(prefix[..|prefix| - 1], forest.name);
        assert path == prefix[..|prefix| - 1] + [SLASH] + forest.name;
      }
      OrderedOne(e, known);
      if forest.FileThen? {
        ScanOrdered(forest.rest, prefix, known + Folders([e]));
        OrderedAppend([e], Scanned(forest.rest, prefix), known);
      } else {
        var below := path + [SLASH];
        assert below[..|below| - 1] == path;
        var inner := Scanned(forest.children, below);
        ScanOrdered(forest.children, below, known + Folders([e]));
        OrderedAppend([e], inner, known);
        ScanOrdered(forest.rest, prefix, known + Folders([e] + inner));
        OrderedAppend([e] + inner, Scanned(forest.rest, prefix), known);
      }
    }
  }

  lemma OrderedOne(e: Entry, known: set<Name>)
    requires Parent(e.path).Some? ==> Parent(e.path).value in known
    ensures Ordered([e], known) && Folders([e]) == if e.folder then {e.path} else {}
  {
    assert [e][1..] == [];
  }

  // ---------------------------------------------------------------- extracting

  /** The first file of a list of entries with a given path. */
  function Lookup(entries: seq<Entry>, path: Name): Option<seq<byte>> {
    if entries == [] then None
    else if !entries[0].folder && entries[0].path == path then Some(Data(entries[0]))
    else Lookup(entries[1..], path)
  }

  /** The search stops at the entry asked for, and walks over the others to what is behind them. */
  lemma {:induction false} EntriesSearched(a: seq<byte>, i: nat, entries: seq<Entry>, path: Name)
    requires Storable(entries) && At(a, i, EntriesBytes(entries)) && i + |EntriesBytes(entries)| + 4 <= |a|
    requires |a| <= PagedFile.LIMIT
    ensures var found := Lookup(entries, path);
      Extracted(a, i, path)
      == if found.Some? then Bytes(found.value) else Extracted(a, i + |EntriesBytes(entries)|, path)
    decreases |entries|
  {
    hide EntryBytes, LookEntry, At, Digest, Data, Extracted;
    if entries != [] {
      var e, rest := entries[0], entries[1..];
      EntryNonempty(e);
      ExtractedStep(a, i, path);
      AtSplit(a, i, EntryBytes(e), EntriesBytes(rest));
      EntrySearched(a, i, e, path);
      if e.folder || e.path != path {
        EntriesSearched(a, i + |EntryBytes(e)|, rest, path);
      }
    }
  }

  lemma ExtractedStep(a: seq<byte>, i: nat, path: Name)
    requires i + 4 < |a|
    ensures var look := LookEntry(a, i, path);
      Extracted(a, i, path)
      == if look.Found? then Bytes(look.data)
         else if look.next <= i then SentBack
         else Extracted(a, look.next, path)
  {
    hide LookEntry;
  }

  lemma ExtractedEnd(a: seq<byte>, path: Name)
    requires |a| >= 4
    ensures Extracted(a, |a| - 4, path) == Bytes([])
  {
  }

  lemma FileSearched(a: seq<byte>, i: nat, e: Entry, wanted: bool)
    requires |Data(e)| <= PagedFile.LIMIT
    requires At(a, i, FileBytes(e)) && i + |FileBytes(e)| < |a| <= PagedFile.LIMIT
    ensures LookFile(a, i, wanted) == if wanted then Found(Data(e)) else Onward(i + |FileBytes(e)|)
  {
    hide Encode, Slice, NumberAt, WordBytes, Digest, At, WordIn, Data, Held, SeekFrom;
    var size := Encode(|Data(e)|);
    HeldSmall(|Data(e)|);
    AtMeans(a, i, FileBytes(e));
    AtSplit(a, i, size + Data(e), WordBytes(Digest(Data(e))));
    AtSplit(a, i, size, Data(e));
    NumberEncoded(a, i, |Data(e)|);
    SliceAt(a, i + |size|, Data(e));
    WordInAt(a, i + |size| + |Data(e)|, Digest(Data(e)));
    SeekOnward(a, i + |size|, |Data(e)| + 4);
  }

  lemma SeekOnward(a: seq<byte>, i: nat, distance: nat)
    requires i + distance < |a| <= PagedFile.LIMIT
    ensures SeekFrom(a, i, distance) == i + distance
  {
  }

  lemma EntrySearched(a: seq<byte>, i: nat, e: Entry, path: Name)
    requires 0 < |e.path| <= 0x2000_0000 && |Data(e)| <= PagedFile.LIMIT
    requires At(a, i, EntryBytes(e)) && i + |EntryBytes(e)| < |a| <= PagedFile.LIMIT
    ensures LookEntry(a, i, path)
         == if e.folder || e.path != path then Onward(i + |EntryBytes(e)|) else Found(Data(e))
  {
    hide Encode, Slice, NumberAt, EntryBytes, FileBytes, At, Info, NameLength, LookFile, Data;
    EntryHead(a, i, e);
    if !e.folder { FileSearched(a, i + |Encode(Info(e))| + |e.path|, e, e.path == path); }
  }

  lemma {:induction false} LookupAppend(a: seq<Entry>, b: seq<Entry>, path: Name)
    ensures Lookup(a + b, path) == if Lookup(a, path).Some? then Lookup(a, path) else Lookup(b, path)
    decreases |a|
  {
    hide Data;
    if a == [] {
      assert a + b == b;
    } else {
      assert (a + b)[1..] == a[1..] + b;
      LookupAppend(a[1..], b, path);
    }
  }

  /** Looking a path up in the scan is looking it up in the tree. */
  lemma {:induction false} LookupTree(forest: Forest, prefix: Name, path: Name)
    requires Proper(forest)
    ensures var tree := Tree(forest, prefix);
      Lookup(Scanned(forest, prefix), path)
      == if path in tree && tree[path].Document? then Some(tree[path].data) else None
    decreases forest
  {
    if !forest.Nothing? {
      var here := prefix + forest.name;
      var e := Entry(here, forest.FolderThen?, forest.writable, forest.executable,
                     if forest.FileThen? then forest.data else None);
      LookupOne(e, path);
      LookupTree(forest.rest, prefix, path);
      if path in Tree(forest.rest, prefix) { KeyElsewhere(forest, prefix, path); }
      if forest.FileThen? {
        LookupAppend([e], Scanned(forest.rest, prefix), path);
      } else {
        var inner := Scanned(forest.children, here + [SLASH]);
        LookupTree(forest.children, here + [SLASH], path);
        LookupAppend([e], inner, path);
        LookupAppend([e] + inner, Scanned(forest.rest, prefix), path);
        if path in Tree(forest.children, here + [SLASH]) { TreeHeads(forest.children, here + [SLASH], path); }
      }
    }
  }

  lemma LookupOne(e: Entry, path: Name)
    ensures Lookup([e], path) == if !e.folder && e.path == path then Some(Data(e)) else None
  {
    assert [e][1..] == [];
  }

  /**
    * Extracting a path from an archive of at most 2^31 bytes gives the file of that path, and nothing for any other
    * path.
    */
  lemma ExtractFinds(markup: seq<byte>, forest: Forest, path: Name)
    requires Proper(forest) && Paths(Scanned(forest, []))
    requires |Packed(markup, Scanned(forest, []))| <= PagedFile.LIMIT
    ensures var tree := Tree(forest, []);
      ExtractedAll(Packed(markup, Scanned(forest, [])), path)
      == Bytes(if path in tree && tree[path].Document? then tree[path].data else [])
  {
    hide EntriesBytes, NumberAt, Slice, Packed, Preamble, Extracted, WordIn, Digest, Tree, Scanned;
    hide Paths, Plain, Readable, Named, SeekFrom, Held, Lookup, Storable;
    var entries := Scanned(forest, []);
    PathsNamed(entries);
    ScannedPlain(forest, []);
    Fits(markup, entries);
    PackedParts(markup, entries);
    var a := Packed(markup, entries);
    PreambleRead(a, markup);
    PreambleLength(markup);
    HeldSmall(|markup|);
    SeekOnward(a, |Preamble(markup)| - |markup|, |markup|);
    EntriesSearched(a, |Preamble(markup)|, entries, path);
    ExtractedEnd(a, path);
    LookupTree(forest, [], path);
  }

  lemma PreambleLength(markup: seq<byte>)
    ensures |Preamble(markup)| >= |markup|
  {
    hide Encode;
  }
}
