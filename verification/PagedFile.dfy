/** A file behind a one-page write-back buffer, and the plain byte array it is meant to be. */
module PagedFile {
  import opened Bits
  import opened Maybe

  const PAGE: nat := 4096
  const UNUSED: int := -1
  /** Page offsets are 32-bit signed: from here on they are negative, and a negative page counts as unused. */
  const LIMIT: nat := 0x8000_0000

  datatype Mode = ReadOnly | WriteOnly | Modify | Append

  // ---------------------------------------------------------------- pages

  predicate Aligned(page: int) {
    page % PAGE == 0
  }

  lemma PageMask(offset: nat)
    ensures And(offset, PAGE - 1) == offset % PAGE <= offset && Aligned(offset - offset % PAGE)
  {
    hide And, Pow2;
    PagePower();
    AndMask(offset, 12);
    Fundamental(offset, PAGE);
    DivModUnique(offset - offset % PAGE, offset / PAGE, 0, PAGE);
  }

  lemma PagePower()
    ensures Pow2(12) == PAGE
  {
    assert Pow2(12) == 8 * Pow2(9) && Pow2(9) == 8 * Pow2(6) && Pow2(6) == 8 * Pow2(3) && Pow2(3) == 8 by {
      assert Pow2(12) == 2 * Pow2(11) == 4 * Pow2(10) == 8 * Pow2(9);
      assert Pow2(9) == 2 * Pow2(8) == 4 * Pow2(7) == 8 * Pow2(6);
      assert Pow2(6) == 2 * Pow2(5) == 4 * Pow2(4) == 8 * Pow2(3);
      assert Pow2(3) == 2 * Pow2(2) == 4 * Pow2(1);
    }
  }

  /** `offset & buffer_mask`. */
  function InPage(offset: nat): (i: nat)
    ensures i < PAGE && i <= offset && Aligned(offset - i)
  {
    PageMask(offset);
    And(offset, PAGE - 1)
  }

  /** `offset & ~buffer_mask`. */
  function PageOf(offset: nat): (page: nat)
    ensures page <= offset < page + PAGE && Aligned(page) && InPage(offset) == offset - page
  {
    offset - InPage(offset)
  }

  /** A 32-bit signed offset as an unsigned one. */
  function Unsigned(page: int): (u: nat)
    ensures u < WORD32
  {
    page % WORD32
  }

  lemma SignedPage(page: nat)
    requires page < WORD32 && Aligned(page)
    ensures Unsigned(Signed32(page)) == page && Aligned(Signed32(page)) && Signed32(page) != UNUSED
    ensures Signed32(page) >= 0 <==> page < LIMIT
    ensures page < LIMIT ==> page + PAGE <= LIMIT
  {
  }

  /** The bytes of a page that the file has; the sum is taken in 32 bits. */
  function PageLength(page: int, size: nat): (length: nat)
    ensures length <= PAGE
  {
    if (Unsigned(page) + PAGE) % WORD32 <= size then PAGE else size % PAGE
  }

  lemma PageLengthIs(page: int, size: nat)
    requires 0 <= page <= size < WORD32 && Aligned(page) && page < LIMIT
    ensures PageLength(page, size) == if page + PAGE <= size then PAGE else size - page
    ensures page + PageLength(page, size) <= LIMIT && page + PageLength(page, size) <= size
  {
    PageEnds(page);
    if size < page + PAGE { DivModUnique(size, page / PAGE, size - page, PAGE); }
  }

  lemma PageEnds(page: nat)
    requires Aligned(page) && page < LIMIT
    ensures page == PAGE * (page / PAGE) && page + PAGE <= LIMIT
    ensures Unsigned(page) == page && (page + PAGE) % WORD32 == page + PAGE
  {
    Fundamental(page, PAGE);
    DivModUnique(page, 0, page, WORD32);
    DivModUnique(page + PAGE, 0, page + PAGE, WORD32);
  }

  // ---------------------------------------------------------------- the file as its code keeps it

  /** What a file amounts to: the bytes it will leave on the disk, and its 32-bit size and offset. */
  datatype Core = Core(open: bool, mode: Mode, image: seq<byte>, size: nat, offset: nat)

  predicate CanRead(c: Core) {
    c.open && !c.mode.WriteOnly? && c.offset < c.size
  }

  predicate CanWrite(c: Core) {
    c.open && !c.mode.ReadOnly?
  }

  function Put(data: seq<byte>, at: nat, b: byte): seq<byte> {
    if at < |data| then data[at := b] else data + [b]
  }

  /** Below 2^31 a read answers with a byte of the image; beyond, nothing is known of the answer. */
  predicate Determined(c: Core) {
    CanRead(c) ==> c.offset < LIMIT && c.offset < |c.image|
  }

  function CoreAnswer(c: Core): byte {
    if CanRead(c) && c.offset < |c.image| then c.image[c.offset] else 0xff
  }

  function CoreRead(c: Core): Core {
    if CanRead(c) then c.(offset := c.offset + 1) else c
  }

  /** The offset after a byte wraps at 2^32. */
  function Next(offset: nat): (next: nat)
    ensures next < WORD32
  {
    (offset + 1) % WORD32
  }

  lemma NextIs(offset: nat)
    requires offset + 1 < WORD32
    ensures Next(offset) == offset + 1
  {
  }

  /** A byte written at 2^31 or beyond never reaches the disk. */
  function CoreWrite(c: Core, b: byte): Core {
    if !CanWrite(c) then c
    else
      var next := Next(c.offset);
      c.(image := if c.offset < LIMIT then Put(c.image, c.offset, b) else c.image,
         offset := next, size := if next > c.size then next else c.size)
  }

  function Zeroed(c: Core, n: nat): Core {
    if n == 0 then c else CoreWrite(Zeroed(c, n - 1), 0)
  }

  function Destination(offset: nat, distance: int, relative: bool): nat {
    var wanted := if relative then offset + distance else distance;
    if wanted < 0 then 0 else wanted
  }

  function CoreSeek(c: Core, distance: int, relative: bool): Core {
    var wanted := Destination(c.offset, distance, relative);
    if !c.open then c
    else if wanted <= c.size then c.(offset := wanted)
    else if c.mode.ReadOnly? then c.(offset := c.size)
    else Zeroed(c.(offset := c.size), wanted - c.size)
  }

  /** Padding to 2^32 or beyond would never end: the size cannot get there. */
  predicate SeekEnds(c: Core, distance: int, relative: bool) {
    CanWrite(c) ==> Destination(c.offset, distance, relative) < WORD32
  }

  // ---------------------------------------------------------------- the buffered page

  /** `fwrite` at a position. */
  function Overwrite(disk: seq<byte>, at: nat, bytes: seq<byte>): seq<byte>
    requires at <= |disk|
  {
    disk[..at] + bytes + (if at + |bytes| <= |disk| then disk[at + |bytes|..] else [])
  }

  /** The page holds the image's bytes, as far as the file reaches. */
  ghost predicate Shows(image: seq<byte>, page: nat, bytes: seq<byte>, size: nat) {
    |bytes| == PAGE && forall i :: 0 <= i < PAGE && page + i < size && page + i < |image| ==>
      bytes[i] == image[page + i]
  }

  /** Flushing the page would leave the image on the disk. */
  ghost predicate Behind(disk: seq<byte>, image: seq<byte>, page: nat, bytes: seq<byte>, size: nat) {
    && |bytes| == PAGE && page <= |disk|
    && Overwrite(disk, page, bytes[..PageLength(page, size)]) == image
  }

  /** The file reaches as far as the disk can hold it. */
  predicate Covered(image: seq<byte>, size: nat) {
    size <= |image| || LIMIT <= |image|
  }

  /** Flushing a page that shows the disk changes nothing. */
  lemma CleanBehind(disk: seq<byte>, page: nat, bytes: seq<byte>, size: nat)
    requires page <= size < WORD32 && Aligned(page) && page < LIMIT && Covered(disk, size)
    requires Shows(disk, page, bytes, size)
    ensures Behind(disk, disk, page, bytes, size)
  {
    PageLengthIs(page, size);
    var n := PageLength(page, size);
    assert bytes[..n] == disk[page..page + n];
    assert disk == disk[..page] + disk[page..page + n] + disk[page + n..];
  }

  function Grown(size: nat, offset: nat): nat {
    if offset + 1 > size then offset + 1 else size
  }

  /** Changing a byte of the page changes that byte of the image. */
  lemma PutShown(image: seq<byte>, page: nat, bytes: seq<byte>, size: nat, offset: nat, b: byte)
    requires page <= offset < page + PAGE && offset <= size && offset <= |image|
    requires Shows(image, page, bytes, size)
    ensures |bytes| == PAGE && Shows(Put(image, offset, b), page, bytes[offset - page := b], Grown(size, offset))
  {
  }

  lemma PutBehind(disk: seq<byte>, image: seq<byte>, page: nat, bytes: seq<byte>, size: nat, offset: nat, b: byte)
    requires page <= offset < page + PAGE && offset <= size < WORD32 && Aligned(page) && page < LIMIT
    requires offset + 1 < WORD32 && Covered(image, size)
    requires Behind(disk, image, page, bytes, size)
    ensures Behind(disk, Put(image, offset, b), page, bytes[offset - page := b], Grown(size, offset))
  {
    PageLengthIs(page, size);
    PageLengthIs(page, Grown(size, offset));
    var n, m := PageLength(page, size), PageLength(page, Grown(size, offset));
    var bytes' := bytes[offset - page := b];
    var u := Overwrite(disk, page, bytes'[..m]);
    var v := Put(image, offset, b);
    assert |image| == if page + n <= |disk| then |disk| else page + n;
    assert |u| == |v|;
    forall i | 0 <= i < |u| ensures u[i] == v[i] {
      if i != offset { assert v[i] == image[i] == Overwrite(disk, page, bytes[..n])[i]; }
    }
  }

  class File {
    /** What the operating system holds. */
    var disk: seq<byte>
    const buffer: array<byte>
    var page: int
    var dirty: bool
    var isOpen: bool
    var offset: nat
    var size: nat
    var mode: Mode
    /** What the disk will hold once the buffer is flushed. */
    ghost var image: seq<byte>

    ghost predicate Valid()
      reads this, buffer
    {
      && buffer.Length == PAGE
      && (!isOpen ==> disk == image)
      && (isOpen ==>
          && offset <= size < WORD32 && Covered(image, size)
          && (page == UNUSED || (-(LIMIT as int) <= page < LIMIT && Aligned(page)))
          && (page >= 0 ==> page <= size && Shows(image, page, buffer[..], size))
          && (if dirty && page >= 0 && !mode.ReadOnly? then Behind(disk, image, page, buffer[..], size)
              else disk == image))
    }

    ghost function View(): Core
      reads this
    {
      Core(isOpen, mode, image, size, offset)
    }

    constructor ()
      ensures Valid() && !isOpen && fresh(buffer)
    {
      disk, image := [], [];
      buffer := new byte[PAGE](_ => 0);
      page := UNUSED;
      dirty := false;
      isOpen := false;
      offset := 0;
      size := 0;
      mode := ReadOnly;
    }

    /** `open`: `existing` is what the path names, if anything; the two creating modes discard it. */
    method Open(existing: Option<seq<byte>>, wanted: Mode) returns (ok: bool)
      requires Valid()
      modifies this
      ensures Valid()
      ensures ok <==> !old(isOpen) && (existing.Some? || wanted.WriteOnly? || wanted.Append?)
      ensures ok ==> View() == Opened(existing, wanted) && disk == image
      ensures ok && (wanted.ReadOnly? || wanted.Modify?) ==> existing == Some(disk)
      ensures ok && (wanted.WriteOnly? || wanted.Append?) ==> disk == []
      ensures old(isOpen) ==> View() == old(View())
    {
      if isOpen { return false; }
      mode := wanted;
      if wanted.ReadOnly? || wanted.Modify? {
        if existing.None? { return false; }
        disk := existing.value;
      } else {
        disk := [];
      }
      image := disk;
      isOpen := true;
      page := UNUSED;
      offset := 0;
      size := |disk| % WORD32;
      return true;
    }

    /** `buffer_flush`: a page at 2^31 or beyond is taken for an unused one. */
    method FlushBuffer()
      requires Valid()
      modifies this`disk, this`page, this`dirty
      ensures Valid() && View() == old(View()) && disk == image
      ensures page == old(page) || page == UNUSED
    {
      hide Aligned, PageLength, Shows;
      if !isOpen { return; }
      if mode.ReadOnly? { return; }
      if page < 0 { return; }
      if !dirty { return; }
      var length := PageLength(page, size);
      assert buffer[..][..length] == buffer[..length];
      if length > 0 {
        disk := Overwrite(disk, page, buffer[..length]);
      }
      page := UNUSED;
      dirty := false;
    }

    /** Fills the buffer; from a negative position, where `fseek` fails, with bytes nothing is known of. */
    method FillBuffer(length: nat)
      requires buffer.Length == PAGE && length <= PAGE && (page >= 0 ==> page + length <= |disk|)
      modifies buffer
      ensures page >= 0 ==> buffer[..length] == disk[page..page + length]
    {
      for i := 0 to length
        invariant page >= 0 ==> forall k :: 0 <= k < i ==> buffer[k] == disk[page + k]
      {
        if page >= 0 { buffer[i] := disk[page + i]; } else { buffer[i] := *; }
      }
    }

    /** `buffer_sync`: afterwards the buffer is for the page under the cursor. */
    method SyncBuffer()
      requires Valid() && isOpen
      modifies this`disk, this`page, this`dirty, buffer
      ensures Valid() && View() == old(View())
      ensures page == Signed32(PageOf(offset))
    {
      hide Aligned, PageLength, PageOf, Shows, Behind, Signed32, Unsigned, Overwrite;
      SignedPage(PageOf(offset));
      if Unsigned(page) != PageOf(offset) {
        FlushBuffer();
        page := Signed32(PageOf(offset));
        SignedIs(PageOf(offset));
        var length := PageLength(page, size);
        if page >= 0 { PageLengthIs(page, size); }
        FillBuffer(length);
        if page >= 0 {
          FilledShows(disk, page, buffer[..], size);
          CleanBehind(disk, page, buffer[..], size);
        }
      } else {
        UnsignedIs(page, PageOf(offset));
      }
    }

    method Read() returns (b: byte)
      requires Valid()
      modifies this, buffer
      ensures Valid() && View() == CoreRead(old(View()))
      ensures Determined(old(View())) ==> b == CoreAnswer(old(View()))
    {
      hide Aligned, PageOf, InPage, Behind, Signed32, PageLength;
      if !isOpen { return 0xff; }
      if mode.WriteOnly? { return 0xff; }
      if offset >= size { return 0xff; }
      SyncBuffer();
      SignedIs(PageOf(offset));
      SignedPage(PageOf(offset));
      b := buffer[InPage(offset)];
      assert b == buffer[..][InPage(offset)];
      offset := offset + 1;
    }

    method Write(b: byte)
      requires Valid()
      modifies this, buffer
      ensures Valid() && View() == CoreWrite(old(View()), b)
    {
      hide Put, Aligned, PageOf, InPage, Shows, Behind, Signed32, Unsigned, PageLength, Covered, Next;
      if !isOpen { return; }
      if mode.ReadOnly? { return; }
      SyncBuffer();
      SignedIs(PageOf(offset));
      SignedPage(PageOf(offset));
      ghost var bytes := buffer[..];
      if page >= 0 {
        PutByte(disk, image, page, bytes, size, offset, b, dirty);
        image := Put(image, offset, b);
        NextIs(offset);
      } else {
        CoveredBeyond(image, size, offset);
      }
      buffer[InPage(offset)] := b;
      assert buffer[..] == bytes[InPage(offset) := b];
      dirty := true;
      offset := Next(offset);
      if offset > size { size := offset; }
    }

    method Flush()
      requires Valid()
      modifies this, buffer
      ensures Valid() && View() == old(View()) && disk == image
    {
      FlushBuffer();
    }

    /** `seek`: a writer past the end writes zeros, page by page, until it is there. */
    method Seek(distance: int, relative: bool)
      requires Valid() && SeekEnds(View(), distance, relative)
      modifies this, buffer
      ensures Valid() && View() == CoreSeek(old(View()), distance, relative)
    {
      hide Shows, Behind, Aligned, CoreWrite, Zeroed;
      if !isOpen { return; }
      FlushBuffer();
      var wanted := if relative then offset + distance else distance;
      if wanted < 0 { wanted := 0; }
      if wanted > size {
        if mode.ReadOnly? {
          wanted := size;
        } else {
          offset := size;
          ghost var before := View();
          ZeroedNothing(before);
          while size < wanted
            invariant Valid() && before.size <= size <= wanted < WORD32 && offset == size && isOpen && !mode.ReadOnly?
            invariant View() == Zeroed(before, size - before.size)
            decreases wanted - size
          {
            ZeroedMore(before, size - before.size);
            CoreWriteAtEnd(View());
            Write(0);
          }
        }
      }
      offset := wanted;
    }

    method Close()
      requires Valid()
      modifies this, buffer
      ensures Valid() && !isOpen && disk == old(image)
    {
      if !isOpen { return; }
      FlushBuffer();
      isOpen := false;
    }

    method AtEnd() returns (end: bool)
      requires Valid()
      ensures end <==> (View().open ==> View().offset >= View().size)
    {
      if !isOpen { return true; }
      return offset >= size;
    }
  }

  /** The file a successful `open` starts from. */
  function Opened(existing: Option<seq<byte>>, mode: Mode): Core {
    var data := if (mode.ReadOnly? || mode.Modify?) && existing.Some? then existing.value else [];
    Core(true, mode, data, |data| % WORD32, 0)
  }

  lemma SignedIs(u: nat)
    requires u < WORD32
    ensures Signed32(u) == if u < LIMIT then u else u - WORD32
  {
  }

  lemma UnsignedIs(page: int, u: nat)
    requires page == UNUSED || -(LIMIT as int) <= page < LIMIT
    requires Unsigned(page) == u && Aligned(u)
    ensures page == Signed32(u)
  {
  }

  lemma FilledShows(disk: seq<byte>, page: nat, bytes: seq<byte>, size: nat)
    requires page <= size < WORD32 && Aligned(page) && page < LIMIT && |bytes| == PAGE
    requires page + PageLength(page, size) <= |disk|
    requires bytes[..PageLength(page, size)] == disk[page..page + PageLength(page, size)]
    ensures Shows(disk, page, bytes, size)
  {
    PageLengthIs(page, size);
    var n := PageLength(page, size);
    forall i | 0 <= i < PAGE && page + i < size && page + i < |disk| ensures bytes[i] == disk[page + i] {
      assert bytes[i] == bytes[..n][i] == disk[page..page + n][i];
    }
  }

  /** A byte written into a page on which the disk may be behind. */
  lemma PutByte(disk: seq<byte>, image: seq<byte>, page: nat, bytes: seq<byte>, size: nat, offset: nat, b: byte,
                dirty: bool)
    requires page <= offset < page + PAGE && offset <= size < WORD32 && Aligned(page) && page < LIMIT
    requires offset < LIMIT && Covered(image, size) && Shows(image, page, bytes, size)
    requires if dirty then Behind(disk, image, page, bytes, size) else disk == image
    ensures var image', bytes', size' := Put(image, offset, b), bytes[offset - page := b], Grown(size, offset);
      && Covered(image', size') && Shows(image', page, bytes', size') && Behind(disk, image', page, bytes', size')
  {
    hide Put, Aligned, Shows, Behind;
    if !dirty { CleanBehind(disk, page, bytes, size); }
    PutShown(image, page, bytes, size, offset, b);
    PutBehind(disk, image, page, bytes, size, offset, b);
    PutLength(image, offset, b);
  }

  lemma CoveredBeyond(image: seq<byte>, size: nat, offset: nat)
    requires LIMIT <= offset <= size && Covered(image, size)
    ensures forall s: nat :: Covered(image, s)
  {
  }

  lemma PutLength(data: seq<byte>, at: nat, b: byte)
    requires at <= |data|
    ensures |Put(data, at, b)| == if at < |data| then |data| else |data| + 1
  {
  }

  lemma ZeroedNothing(c: Core)
    ensures Zeroed(c, 0) == c
  {
  }

  lemma ZeroedMore(c: Core, n: nat)
    ensures Zeroed(c, n + 1) == CoreWrite(Zeroed(c, n), 0)
  {
  }

  lemma CoreWriteAtEnd(c: Core)
    requires CanWrite(c) && c.offset == c.size && c.size + 1 < WORD32
    ensures CoreWrite(c, 0).size == CoreWrite(c, 0).offset == c.size + 1
    ensures CoreWrite(c, 0).open && CoreWrite(c, 0).mode == c.mode
  {
  }

  // ---------------------------------------------------------------- the plain file

  /** An array of bytes with a cursor. */
  datatype Plain = Plain(open: bool, mode: Mode, data: seq<byte>, offset: nat)

  predicate Readable(p: Plain) {
    p.open && !p.mode.WriteOnly? && p.offset < |p.data|
  }

  predicate Writable(p: Plain) {
    p.open && !p.mode.ReadOnly?
  }

  /** Reading: 0xff when it is not possible, and then the cursor stays. */
  function ReadResult(p: Plain): byte {
    if Readable(p) then p.data[p.offset] else 0xff
  }

  function AfterRead(p: Plain): Plain {
    if Readable(p) then p.(offset := p.offset + 1) else p
  }

  function AfterWrite(p: Plain, b: byte): Plain {
    if Writable(p) then p.(data := Put(p.data, p.offset, b), offset := p.offset + 1) else p
  }

  function Zeros(n: nat): (z: seq<byte>)
    ensures |z| == n
  {
    seq(n, _ => 0)
  }

  /** Seeking: clamped at both ends when reading, padded with zeros when writing. */
  function AfterSeek(p: Plain, distance: int, relative: bool): Plain {
    var wanted := Destination(p.offset, distance, relative);
    if !p.open then p
    else if wanted <= |p.data| then p.(offset := wanted)
    else if p.mode.ReadOnly? then p.(offset := |p.data|)
    else p.(data := p.data + Zeros(wanted - |p.data|), offset := wanted)
  }

  // ---------------------------------------------------------------- every run

  datatype Operation = GetByte | PutByteAt(b: byte) | MoveTo(distance: int, relative: bool) | Sync

  function AfterOperation(p: Plain, op: Operation): Plain {
    match op
    case GetByte => AfterRead(p)
    case PutByteAt(b) => AfterWrite(p, b)
    case MoveTo(distance, relative) => AfterSeek(p, distance, relative)
    case Sync => p
  }

  /** What an operation answers: reading gives a byte. */
  function Answer(p: Plain, op: Operation): seq<byte> {
    if op.GetByte? then [ReadResult(p)] else []
  }

  function AfterRun(p: Plain, ops: seq<Operation>): Plain {
    if ops == [] then p else AfterOperation(AfterRun(p, ops[..|ops| - 1]), ops[|ops| - 1])
  }

  function Answers(p: Plain, ops: seq<Operation>): seq<byte> {
    if ops == [] then []
    else Answers(p, ops[..|ops| - 1]) + Answer(AfterRun(p, ops[..|ops| - 1]), ops[|ops| - 1])
  }

  function CoreOperation(c: Core, op: Operation): Core {
    match op
    case GetByte => CoreRead(c)
    case PutByteAt(b) => CoreWrite(c, b)
    case MoveTo(distance, relative) => CoreSeek(c, distance, relative)
    case Sync => c
  }

  function CoreRun(c: Core, ops: seq<Operation>): Core {
    if ops == [] then c else CoreOperation(CoreRun(c, ops[..|ops| - 1]), ops[|ops| - 1])
  }

  /** The operation reads, writes and pads below 2^31 only. */
  predicate InReach(p: Plain, op: Operation) {
    match op
    case GetByte => Readable(p) ==> p.offset < LIMIT
    case PutByteAt(_) => Writable(p) ==> p.offset < LIMIT
    case MoveTo(distance, relative) =>
      var wanted := Destination(p.offset, distance, relative);
      Writable(p) && wanted > |p.data| ==> wanted <= LIMIT
    case Sync => true
  }

  ghost predicate RunInReach(p: Plain, ops: seq<Operation>) {
    if ops == [] then true
    else RunInReach(p, ops[..|ops| - 1]) && InReach(AfterRun(p, ops[..|ops| - 1]), ops[|ops| - 1])
  }

  predicate Ends(c: Core, op: Operation) {
    op.MoveTo? ==> SeekEnds(c, op.distance, op.relative)
  }

  ghost predicate RunEnds(c: Core, ops: seq<Operation>) {
    if ops == [] then true
    else RunEnds(c, ops[..|ops| - 1]) && Ends(CoreRun(c, ops[..|ops| - 1]), ops[|ops| - 1])
  }

  /** The kept file is the plain one. */
  ghost predicate Agrees(c: Core, p: Plain) {
    c == Core(p.open, p.mode, p.data, |p.data|, p.offset) && p.offset <= |p.data| < WORD32
  }

  lemma {:induction false} ZeroedAgrees(c: Core, p: Plain, n: nat)
    requires Agrees(c, p) && CanWrite(c) && c.offset == c.size && (n > 0 ==> c.size + n <= LIMIT)
    ensures Agrees(Zeroed(c, n), p.(data := p.data + Zeros(n), offset := p.offset + n))
  {
    if n == 0 {
      assert p.data + Zeros(0) == p.data;
    } else {
      ZeroedAgrees(c, p, n - 1);
      assert (p.data + Zeros(n - 1)) + [0] == p.data + Zeros(n);
    }
  }

  /** Within reach an operation does to the kept file what it does to the plain one. */
  lemma OperationAgrees(c: Core, p: Plain, op: Operation)
    requires Agrees(c, p) && InReach(p, op)
    ensures Agrees(CoreOperation(c, op), AfterOperation(p, op)) && Ends(c, op)
    ensures op.GetByte? ==> Determined(c) && CoreAnswer(c) == ReadResult(p)
  {
    if op.MoveTo? {
      hide Zeroed, Zeros;
      var wanted := Destination(p.offset, op.distance, op.relative);
      if Writable(p) && wanted > |p.data| {
        ZeroedAgrees(c.(offset := c.size), p.(offset := |p.data|), wanted - |p.data|);
      }
    }
  }

  lemma {:induction false} RunAgrees(c: Core, p: Plain, ops: seq<Operation>)
    requires Agrees(c, p) && RunInReach(p, ops)
    ensures Agrees(CoreRun(c, ops), AfterRun(p, ops)) && RunEnds(c, ops)
    decreases |ops|
  {
    hide Agrees, InReach, CoreOperation, AfterOperation, Ends;
    if ops != [] {
      var front, last := ops[..|ops| - 1], ops[|ops| - 1];
      RunAgrees(c, p, front);
      OperationAgrees(CoreRun(c, front), AfterRun(p, front), last);
    }
  }

  // ---------------------------------------------------------------- the limit

  /** What the buffer can never change: the bytes from 2^31 on. */
  function Beyond(s: seq<byte>): seq<byte> {
    if |s| <= LIMIT then [] else s[LIMIT..]
  }

  /** The size and the offset, as the code keeps them in range. */
  predicate Sane(c: Core) {
    c.offset <= c.size < WORD32 && Covered(c.image, c.size)
  }

  lemma WriteBeyond(c: Core, b: byte)
    requires Sane(c)
    ensures Sane(CoreWrite(c, b)) && Beyond(CoreWrite(c, b).image) == Beyond(c.image)
  {
  }

  lemma {:induction false} ZeroedBeyond(c: Core, n: nat)
    requires Sane(c)
    ensures Sane(Zeroed(c, n)) && Beyond(Zeroed(c, n).image) == Beyond(c.image)
  {
    hide CoreWrite, Sane, Beyond;
    if n > 0 {
      ZeroedBeyond(c, n - 1);
      WriteBeyond(Zeroed(c, n - 1), 0);
    }
  }

  /** No run whatever changes a byte from 2^31 on, nor adds one. */
  lemma {:induction false} RunBeyond(c: Core, ops: seq<Operation>)
    requires Sane(c)
    ensures Sane(CoreRun(c, ops)) && Beyond(CoreRun(c, ops).image) == Beyond(c.image)
    decreases |ops|
  {
    hide CoreWrite, Beyond, Zeroed;
    if ops != [] {
      var front, last := ops[..|ops| - 1], ops[|ops| - 1];
      RunBeyond(c, front);
      var d := CoreRun(c, front);
      match last
      case GetByte =>
      case PutByteAt(b) => WriteBeyond(d, b);
      case MoveTo(distance, relative) =>
        var wanted := Destination(d.offset, distance, relative);
        if wanted > d.size { ZeroedBeyond(d.(offset := d.size), wanted - d.size); }
      case Sync =>
    }
  }

  /** A run within reach keeps the cursor inside; the file never shrinks and changes only when writable. */
  lemma {:induction false} RunKeeps(p: Plain, ops: seq<Operation>)
    requires p.offset <= |p.data|
    ensures AfterRun(p, ops).offset <= |AfterRun(p, ops).data|
    ensures |p.data| <= |AfterRun(p, ops).data|
    ensures p.mode.ReadOnly? ==> AfterRun(p, ops).data == p.data
    ensures AfterRun(p, ops).mode == p.mode && AfterRun(p, ops).open == p.open
    decreases |ops|
  {
    if ops != [] { RunKeeps(p, ops[..|ops| - 1]); }
  }

  /** From at most 2^31 bytes on, a run is within reach exactly when the plain file grows no longer than that. */
  lemma {:induction false} ReachBySize(p: Plain, ops: seq<Operation>)
    requires p.offset <= |p.data| <= LIMIT
    ensures RunInReach(p, ops) <==> |AfterRun(p, ops).data| <= LIMIT
    decreases |ops|
  {
    if ops != [] {
      var front, last := ops[..|ops| - 1], ops[|ops| - 1];
      ReachBySize(p, front);
      RunKeeps(p, front);
      var q := AfterRun(p, front);
      RunKeeps(q, [last]);
      OneOperation(q, last);
      if |q.data| <= LIMIT { StepBySize(q, last); }
    }
  }

  lemma OneOperation(p: Plain, op: Operation)
    ensures AfterRun(p, [op]) == AfterOperation(p, op)
  {
    hide AfterOperation;
    assert [op][..0] == [];
  }

  lemma StepBySize(p: Plain, op: Operation)
    requires p.offset <= |p.data| <= LIMIT
    ensures InReach(p, op) <==> |AfterOperation(p, op).data| <= LIMIT
  {
  }

  /**
    * For every run on a file of at most 2^31 bytes, what is left on the disk is the plain file's content
    * if and only if the run stays within reach.
    */
  lemma DiskExact(p: Plain, ops: seq<Operation>)
    requires p.offset <= |p.data| <= LIMIT
    ensures CoreRun(Core(p.open, p.mode, p.data, |p.data|, p.offset), ops).image == AfterRun(p, ops).data
       <==> RunInReach(p, ops)
  {
    hide CoreRun, AfterRun, RunInReach;
    var c := Core(p.open, p.mode, p.data, |p.data|, p.offset);
    ReachBySize(p, ops);
    RunBeyond(c, ops);
    if RunInReach(p, ops) { RunAgrees(c, p, ops); }
  }

  /** Two bytes written across 2^31: the second one is lost. */
  lemma OutOfReach()
    ensures var ops := [MoveTo(0x7fff_ffff, false), PutByteAt(1), PutByteAt(2)];
      && AfterRun(Plain(true, WriteOnly, [], 0), ops).data == Zeros(0x7fff_ffff) + [1, 2]
      && CoreRun(Core(true, WriteOnly, [], 0, 0), ops).image == Zeros(0x7fff_ffff) + [1]
  {
    hide AfterRun, CoreRun, Zeroed, Zeros;
    var p, c := Plain(true, WriteOnly, [], 0), Core(true, WriteOnly, [], 0, 0);
    var a, b, d := MoveTo(0x7fff_ffff, false), PutByteAt(1), PutByteAt(2);
    RunNothing(p, c);
    RunAppend(p, c, [], a);
    RunAppend(p, c, [a], b);
    RunAppend(p, c, [a, b], d);
    assert [] + [a] == [a] && [a] + [b] == [a, b] && [a, b] + [d] == [a, b, d];
    ZeroedAgrees(c, p, 0x7fff_ffff);
    var z := Zeros(0x7fff_ffff);
    assert [] + z == z;
    assert CoreRun(c, [a]) == Core(true, WriteOnly, z, 0x7fff_ffff, 0x7fff_ffff);
    assert CoreRun(c, [a, b]) == Core(true, WriteOnly, z + [1], LIMIT, LIMIT);
    assert z + [1] + [2] == z + [1, 2];
  }

  lemma RunNothing(p: Plain, c: Core)
    ensures AfterRun(p, []) == p && Answers(p, []) == [] && CoreRun(c, []) == c
    ensures RunInReach(p, []) && RunEnds(c, [])
  {
  }

  lemma RunAppend(p: Plain, c: Core, ops: seq<Operation>, op: Operation)
    ensures AfterRun(p, ops + [op]) == AfterOperation(AfterRun(p, ops), op)
    ensures Answers(p, ops + [op]) == Answers(p, ops) + Answer(AfterRun(p, ops), op)
    ensures CoreRun(c, ops + [op]) == CoreOperation(CoreRun(c, ops), op)
    ensures RunInReach(p, ops + [op]) <==> RunInReach(p, ops) && InReach(AfterRun(p, ops), op)
    ensures RunEnds(c, ops + [op]) <==> RunEnds(c, ops) && Ends(CoreRun(c, ops), op)
  {
    hide AfterOperation, Answer, CoreOperation, InReach, Ends;
    assert (ops + [op])[..|ops + [op]| - 1] == ops;
  }

  lemma {:induction false} RunPrefix(p: Plain, c: Core, ops: seq<Operation>, n: nat)
    requires n <= |ops|
    ensures RunInReach(p, ops) ==> RunInReach(p, ops[..n])
    ensures RunEnds(c, ops) ==> RunEnds(c, ops[..n])
    decreases |ops|
  {
    hide InReach, Ends, AfterRun, CoreRun;
    if n == |ops| {
      assert ops[..n] == ops;
    } else {
      assert ops[..|ops| - 1][..n] == ops[..n];
      RunPrefix(p, c, ops[..|ops| - 1], n);
    }
  }

  // ---------------------------------------------------------------- a file in use

  method Perform(f: File, op: Operation) returns (answer: seq<byte>)
    requires f.Valid() && Ends(f.View(), op)
    modifies f, f.buffer
    ensures f.Valid() && f.View() == CoreOperation(old(f.View()), op)
    ensures |answer| == if op.GetByte? then 1 else 0
    ensures op.GetByte? && Determined(old(f.View())) ==> answer == [CoreAnswer(old(f.View()))]
  {
    hide CoreRead, CoreWrite, CoreSeek, CoreAnswer, Determined, SeekEnds;
    answer := [];
    match op
    case GetByte =>
      var b := f.Read();
      answer := [b];
    case PutByteAt(b) => f.Write(b);
    case MoveTo(distance, relative) => f.Seek(distance, relative);
    case Sync => f.Flush();
  }

  /** The plain file that an opened one stands for. */
  function PlainOf(c: Core): Plain {
    Plain(c.open, c.mode, c.image, c.offset)
  }

  /**
    * Opening, any run whose padding ends, and closing: the disk holds the kept image; within reach that is the plain
    * file's content and every answer is the plain file's; from at most 2^31 bytes on, only within reach.
    */
  method Session(existing: Option<seq<byte>>, mode: Mode, ops: seq<Operation>)
    returns (ok: bool, answers: seq<byte>, disk: seq<byte>)
    requires RunEnds(Opened(existing, mode), ops)
    ensures ok <==> existing.Some? || mode.WriteOnly? || mode.Append?
    ensures ok ==> disk == CoreRun(Opened(existing, mode), ops).image
    ensures var p := PlainOf(Opened(existing, mode));
      ok && |p.data| < WORD32 && RunInReach(p, ops) ==> answers == Answers(p, ops) && disk == AfterRun(p, ops).data
    ensures var p := PlainOf(Opened(existing, mode));
      ok && |p.data| <= LIMIT ==> (disk == AfterRun(p, ops).data <==> RunInReach(p, ops))
  {
    hide AfterRun, Answers, CoreRun, RunInReach, RunEnds, CoreOperation;
    hide InReach, Ends, Agrees, Determined, CoreAnswer, ReadResult;
    var f := new File();
    ok := f.Open(existing, mode);
    answers, disk := [], [];
    if !ok { return; }
    ghost var c := Opened(existing, mode);
    ghost var p := PlainOf(c);
    RunNothing(p, c);
    ghost var near := |p.data| < WORD32 && RunInReach(p, ops);
    var n := 0;
    assert ops[..0] == [];
    while n < |ops|
      invariant 0 <= n <= |ops| && fresh(f) && fresh(f.buffer) && f.Valid()
      invariant f.View() == CoreRun(c, ops[..n])
      invariant near ==> answers == Answers(p, ops[..n])
    {
      RunAppend(p, c, ops[..n], ops[n]);
      assert ops[..n] + [ops[n]] == ops[..n + 1];
      RunPrefix(p, c, ops, n + 1);
      if near { NextAnswer(p, c, ops[..n], ops[n]); }
      var answer := Perform(f, ops[n]);
      answers := answers + answer;
      n := n + 1;
    }
    assert ops[..n] == ops;
    f.Close();
    disk := f.disk;
    if near { StartAgrees(p, c); RunAgrees(c, p, ops); ImageIs(CoreRun(c, ops), AfterRun(p, ops)); }
    if |p.data| <= LIMIT { DiskExact(p, ops); }
  }

  lemma StartAgrees(p: Plain, c: Core)
    requires c.offset == 0 && p == PlainOf(c) && |p.data| < WORD32 && c.size == |p.data|
    ensures Agrees(c, p)
  {
  }

  lemma ImageIs(c: Core, p: Plain)
    requires Agrees(c, p)
    ensures c.image == p.data
  {
  }

  lemma NextAnswer(p: Plain, c: Core, ops: seq<Operation>, op: Operation)
    requires c.offset == 0 && p == PlainOf(c) && |p.data| < WORD32 && c.size == |p.data|
    requires RunInReach(p, ops + [op])
    ensures op.GetByte? ==> Determined(CoreRun(c, ops)) && CoreAnswer(CoreRun(c, ops)) == ReadResult(AfterRun(p, ops))
  {
    hide AfterRun, CoreRun, RunInReach, CoreOperation, InReach, Ends, Agrees, Determined, CoreAnswer, ReadResult;
    RunAppend(p, c, ops, op);
    StartAgrees(p, c);
    RunAgrees(c, p, ops);
    OperationAgrees(CoreRun(c, ops), AfterRun(p, ops), op);
  }

  /** Two operations, and then reading a byte. */
  lemma ThreeAnswers(p: Plain, x: Operation, y: Operation)
    ensures var q := AfterOperation(p, x);
      Answers(p, [x, y, GetByte]) == Answer(p, x) + Answer(q, y) + [ReadResult(AfterOperation(q, y))]
  {
    hide AfterRun, Answers, CoreRun, RunInReach, RunEnds, AfterOperation, ReadResult;
    var c := Core(true, p.mode, [], 0, 0);
    RunNothing(p, c);
    assert [] + [x] == [x] && [x] + [y] == [x, y] && [x, y] + [GetByte] == [x, y, GetByte];
    RunAppend(p, c, [], x);
    RunAppend(p, c, [x], y);
    RunAppend(p, c, [x, y], GetByte);
  }

  /** A byte written and sought back to is the byte read. */
  lemma ReadsBack(p: Plain, b: byte)
    requires Writable(p) && !p.mode.WriteOnly? && p.offset <= |p.data|
    ensures Answers(p, [PutByteAt(b), MoveTo(-1, true), GetByte]) == [b]
  {
    hide Answers, Put;
    ThreeAnswers(p, PutByteAt(b), MoveTo(-1, true));
    var q := AfterWrite(p, b);
    PutHas(p.data, p.offset, b);
    assert AfterSeek(q, -1, true) == q.(offset := p.offset);
  }

  /** A gap that seeking leaves behind the end reads as zeros; and behind the end of a file that is only read, 0xff. */
  lemma GapReadsBack(p: Plain, gap: nat)
    requires p.open && !p.mode.WriteOnly? && gap > 0
    ensures var end := |p.data| + gap;
      Answers(p, [MoveTo(end, false), MoveTo(if p.mode.ReadOnly? then 0 else -1, true), GetByte])
      == [if p.mode.ReadOnly? then 0xff else 0]
  {
    hide Answers;
    var end, back := |p.data| + gap, if p.mode.ReadOnly? then 0 else -1;
    ThreeAnswers(p, MoveTo(end, false), MoveTo(back, true));
    if !p.mode.ReadOnly? {
      var q := AfterSeek(p, end, false);
      assert q == p.(data := p.data + Zeros(gap), offset := end);
      assert AfterSeek(q, -1, true) == q.(offset := end - 1);
      assert q.data[end - 1] == Zeros(gap)[gap - 1] == 0;
    }
  }

  lemma PutHas(data: seq<byte>, at: nat, b: byte)
    requires at <= |data|
    ensures at < |Put(data, at, b)| && Put(data, at, b)[at] == b
  {
  }

  // ---------------------------------------------------------------- a file written from front to back

  /** The file after writing bytes into a new one. */
  function Writing(s: seq<byte>): Core {
    if s == [] then Core(true, WriteOnly, [], 0, 0) else CoreWrite(Writing(s[..|s| - 1]), s[|s| - 1])
  }

  /** What is on the disk when it is closed. */
  function Kept(s: seq<byte>): seq<byte> {
    Writing(s).image
  }

  lemma WritingMore(s: seq<byte>, b: byte)
    ensures Writing(s + [b]) == CoreWrite(Writing(s), b)
  {
    hide CoreWrite;
    assert (s + [b])[..|s + [b]| - 1] == s;
  }

  lemma WriteMore(s: seq<byte>, b: byte)
    requires |s| < LIMIT
    ensures CoreWrite(Core(true, WriteOnly, s, |s|, |s|), b) == Core(true, WriteOnly, s + [b], |s| + 1, |s| + 1)
  {
    hide Next;
    NextIs(|s|);
  }

  lemma WriteStaysOpen(c: Core, b: byte)
    ensures CanWrite(CoreWrite(c, b)) == CanWrite(c)
  {
    hide Next, Put;
  }

  lemma WritingNothing()
    ensures Writing([]) == Core(true, WriteOnly, [], 0, 0) && Sane(Writing([])) && Beyond(Kept([])) == []
  {
  }

  lemma {:induction false} WritingSane(s: seq<byte>)
    ensures Sane(Writing(s)) && Beyond(Kept(s)) == [] && CanWrite(Writing(s))
    ensures |s| <= LIMIT ==> Writing(s) == Core(true, WriteOnly, s, |s|, |s|)
    decreases |s|
  {
    hide Writing, CoreWrite, Sane, Beyond;
    if s == [] {
      WritingNothing();
    } else {
      var front, last := s[..|s| - 1], s[|s| - 1];
      assert s == front + [last];
      WritingSane(front);
      WritingMore(front, last);
      WriteBeyond(Writing(front), last);
      WriteStaysOpen(Writing(front), last);
      if |s| <= LIMIT { WriteMore(front, last); }
    }
  }

  /** A file written from front to back is on the disk as written if and only if it has at most 2^31 bytes. */
  lemma KeptWhole(s: seq<byte>)
    ensures Kept(s) == s <==> |s| <= LIMIT
    ensures |Kept(s)| <= LIMIT
  {
    hide Writing;
    WritingSane(s);
  }
}
