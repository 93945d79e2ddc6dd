/** Files that feed every byte written or read to a running checksum: the streams of patches and archives. */
module Stream {
  import opened Bits
  import opened Arith
  import opened VarInt
  import opened Crc32
  import opened PagedFile
  import opened Maybe

  // ---------------------------------------------------------------- writing

  class Writer {
    const file: File
    var checksum: nat
    /** Everything written so far, whether or not the disk can keep it. */
    ghost var bytes: seq<byte>

    ghost predicate Valid()
      reads this, file, file.buffer
    {
      file.Valid() && file.View() == Writing(bytes) && checksum == Register(bytes)
    }

    constructor ()
      ensures Valid() && bytes == [] && fresh(file) && fresh(file.buffer)
    {
      file := new File();
      checksum := WORD32 - 1;
      bytes := [];
      new;
      RegisterEmpty();
      var ok := file.Open(None, WriteOnly);
    }

    method Write(b: byte)
      requires Valid()
      modifies this, file, file.buffer
      ensures Valid() && bytes == old(bytes) + [b]
    {
      hide Register, Input, Writing, CoreWrite;
      RegisterAppend(bytes, b);
      WritingMore(bytes, b);
      file.Write(b);
      bytes := bytes + [b];
      checksum := Input(checksum, b);
    }

    method WriteAll(s: seq<byte>)
      requires Valid()
      modifies this, file, file.buffer
      ensures Valid() && bytes == old(bytes) + s
    {
      hide Register, Writing;
      var n := 0;
      while n < |s|
        invariant 0 <= n <= |s| && Valid() && bytes == old(bytes) + s[..n]
      {
        assert s[..n] + [s[n]] == s[..n + 1];
        Write(s[n]);
        n := n + 1;
      }
      assert s[..n] == s;
    }

    /** `writevu`, and the patch encoders' `encode`. */
    method WriteNumber(value: nat)
      requires Valid()
      modifies this, file, file.buffer
      ensures Valid() && bytes == old(bytes) + Encode(value)
    {
      hide Register, Encode, Writing;
      var data := value;
      while true
        invariant Valid() && bytes + Encode(data) == old(bytes) + Encode(value)
        decreases data
      {
        EncodeStep(data);
        var x := data % 128;
        data := data / 128;
        if data == 0 {
          Write(128 + x);
          return;
        }
        assert bytes + ([x] + Encode(data - 1)) == (bytes + [x]) + Encode(data - 1);
        Write(x);
        data := data - 1;
      }
    }

    /** Four bytes, the lowest first. */
    method WriteWord(word: nat)
      requires Valid() && word < WORD32
      modifies this, file, file.buffer
      ensures Valid() && bytes == old(bytes) + WordBytes(word)
    {
      hide WordBytes;
      WriteAll(WordBytes(word));
    }

    method Sum() returns (sum: nat)
      requires Valid()
      ensures sum == Digest(bytes)
    {
      hide Register;
      sum := WORD32 - 1 - checksum;
    }

    /** The checksum of everything written before. */
    method WriteDigest()
      requires Valid()
      modifies this, file, file.buffer
      ensures Valid() && bytes == old(bytes) + WordBytes(Digest(old(bytes)))
    {
      hide Register, Writing, WordBytes;
      var sum := Sum();
      WriteWord(sum);
    }

    /** Closing: what the file then holds. */
    method Close() returns (disk: seq<byte>)
      requires Valid()
      modifies file, file.buffer
      ensures disk == Kept(bytes)
    {
      hide Register, Writing;
      file.Close();
      disk := file.disk;
    }
  }

  lemma EncodeStep(data: nat)
    ensures data / 128 == 0 ==> Encode(data) == [128 + data % 128]
    ensures data / 128 > 0 ==> Encode(data) == [data % 128] + Encode(data / 128 - 1)
  {
  }

  // ---------------------------------------------------------------- reading

  /** Bytes past the end of a file read as 0xff. */
  function ByteAt(a: seq<byte>, i: nat): byte {
    if i < |a| then a[i] else 0xff
  }

  function Slice(a: seq<byte>, i: nat, n: nat): (s: seq<byte>)
    ensures |s| == n
    ensures forall k :: 0 <= k < n ==> s[k] == ByteAt(a, i + k)
  {
    if i + n <= |a| then a[i..i + n] else seq<byte>(n, k requires 0 <= k => ByteAt(a, i + k))
  }

  lemma SliceJoin(a: seq<byte>, i: nat, m: nat, n: nat)
    ensures Slice(a, i, m) + Slice(a, i + m, n) == Slice(a, i, m + n)
  {
    hide ByteAt;
  }

  /** The number at `i`, which may be past the end. */
  function NumberAt(a: seq<byte>, i: nat): (r: Number)
    ensures r.Number? && r.next > i
  {
    var at := Inside(i, |a|);
    PaddedEnds(a, at);
    var r := Parse(Padded(a), at);
    Number(r.value, i + (r.next - at))
  }

  function Inside(i: nat, size: nat): nat {
    if i < size then i else size
  }

  lemma NumberEncoded(a: seq<byte>, i: nat, n: nat)
    requires At(a, i, Encode(n))
    ensures NumberAt(a, i) == Number(n, i + |Encode(n)|)
  {
    hide Encode, Parse;
    assert Padded(a)[i..i + |Encode(n)|] == a[i..i + |Encode(n)|];
    ParseEncoded(Padded(a), i, n);
  }

  /** One byte of a number. */
  lemma NumberStep(a: seq<byte>, i: nat)
    ensures var b := ByteAt(a, i);
      if b >= 128 then NumberAt(a, i) == Number(b - 128, i + 1)
      else NumberAt(a, i) == Number(b + 128 * (NumberAt(a, i + 1).value + 1), NumberAt(a, i + 1).next)
  {
    hide Parse;
    PaddedEnds(a, Inside(i, |a|));
    PaddedEnds(a, Inside(i + 1, |a|));
    ParseStep(Padded(a), Inside(i, |a|));
  }

  /** `seek` clamps to the file. */
  function Clamped(position: int, size: nat): (r: nat)
    ensures r <= size
  {
    if position < 0 then 0 else if position > size then size else position
  }

  /** A file of at most 2^31 bytes that is open for reading; `cursor` also counts the reads past the end. */
  class Reader {
    const file: File
    var checksum: nat
    ghost const data: seq<byte>
    ghost var cursor: nat
    ghost var fed: seq<byte>

    ghost predicate Valid()
      reads this, file, file.buffer
    {
      && |data| <= LIMIT && file.Valid()
      && file.View() == Core(true, ReadOnly, data, |data|, Inside(cursor, |data|))
      && checksum == Register(fed)
    }

    constructor (bytes: seq<byte>)
      requires |bytes| <= LIMIT
      ensures Valid() && data == bytes && cursor == 0 && fed == [] && fresh(file) && fresh(file.buffer)
    {
      file := new File();
      data := bytes;
      checksum := WORD32 - 1;
      cursor := 0;
      fed := [];
      new;
      RegisterEmpty();
      var ok := file.Open(Some(bytes), ReadOnly);
    }

    method Read() returns (b: byte)
      requires Valid()
      modifies this, file, file.buffer
      ensures Valid() && b == ByteAt(data, old(cursor)) && cursor == old(cursor) + 1 && fed == old(fed) + [b]
    {
      hide Register, Input;
      b := file.Read();
      RegisterAppend(fed, b);
      checksum := Input(checksum, b);
      cursor := cursor + 1;
      fed := fed + [b];
    }

    /** `reads`, and the loops that read one byte after the other. */
    method ReadBytes(n: nat) returns (s: seq<byte>)
      requires Valid()
      modifies this, file, file.buffer
      ensures Valid() && s == Slice(data, old(cursor), n) && cursor == old(cursor) + n && fed == old(fed) + s
    {
      hide Register, ByteAt;
      s := [];
      while |s| < n
        invariant |s| <= n && Valid() && cursor == old(cursor) + |s| && fed == old(fed) + s
        invariant forall k :: 0 <= k < |s| ==> s[k] == ByteAt(data, old(cursor) + k)
        decreases n - |s|
      {
        var b := Read();
        s := s + [b];
      }
    }

    /** `readvu`, and the `decode` of patches: sum and shift are kept in an unsigned word and wrap. */
    method ReadNumber(m: WordRange) returns (value: nat)
      requires Valid()
      modifies this, file, file.buffer
      ensures Valid() && value == NumberAt(data, old(cursor)).value % m
      ensures cursor == NumberAt(data, old(cursor)).next
      ensures fed == old(fed) + Slice(data, old(cursor), cursor - old(cursor))
    {
      hide NumberAt, Mod, Times, Slice, ByteAt, Reader.Valid;
      ghost var start := cursor;
      var shift := 1;
      value := 0;
      ghost var sum: nat, scale: nat := 0, 1;
      ModSmall(0, m);
      ModSmall(1, m);
      SliceNothing(data, start);
      TimesIs(1, NumberAt(data, start).value);
      while true
        invariant Valid() && cursor >= start && fed == old(fed) + Slice(data, start, cursor - start)
        invariant value == Mod(sum, m) && shift == Mod(scale, m)
        invariant NumberAt(data, start)
               == Number(sum + Times(scale, NumberAt(data, cursor).value), NumberAt(data, cursor).next)
        decreases NumberAt(data, cursor).next - cursor
      {
        NumberStep(data, cursor);
        SliceMore(data, start, cursor - start);
        var b := Read();
        var x := b % 128;
        AddScaled(sum, scale, x, m);
        value := Mod(value + Times(x, shift), m);
        sum := sum + Times(x, scale);
        if b >= 128 {
          ModIs(sum, m);
          ScaledLast(scale, x);
          return;
        }
        NextScale(sum, scale, x, NumberAt(data, cursor).value);
        ShiftScale(sum, scale, m);
        shift := Mod(128 * shift, m);
        value := Mod(value + shift, m);
        scale := 128 * scale;
        sum := sum + scale;
      }
    }

    /** `readl(4)`. */
    method ReadWord() returns (word: nat)
      requires Valid()
      modifies this, file, file.buffer
      ensures Valid() && word == WordAt(Slice(data, old(cursor), 4), 0) && cursor == old(cursor) + 4
      ensures fed == old(fed) + Slice(data, old(cursor), 4)
    {
      hide Register, Slice, WordAt;
      var s := ReadBytes(4);
      word := WordAt(s, 0);
    }

    /** `seek` to a 32-bit signed position, clamped to the file. */
    method Seek(position: nat)
      requires Valid()
      modifies this`cursor, file, file.buffer
      ensures Valid() && file.offset == cursor == Clamped(Signed32(position), |data|)
    {
      hide Register;
      file.Seek(Signed32(position), false);
      cursor := file.offset;
    }

    /** `seek` by a 32-bit signed distance from where the file stands. */
    method Skip(distance: int)
      requires Valid()
      modifies this`cursor, file, file.buffer
      ensures Valid() && file.offset == cursor == Clamped(Inside(old(cursor), |data|) + Signed32(distance), |data|)
    {
      hide Register;
      file.Seek(Signed32(distance), true);
      cursor := file.offset;
    }

    method Sum() returns (sum: nat)
      requires Valid()
      ensures sum == Digest(fed)
    {
      hide Register;
      sum := WORD32 - 1 - checksum;
    }

    method Reset()
      requires Valid()
      modifies this`checksum, this`fed
      ensures Valid() && fed == []
    {
      RegisterEmpty();
      checksum := WORD32 - 1;
      fed := [];
    }
  }

  /** Where the file's own cursor stands. */
  lemma AtCursor(r: Reader)
    requires r.Valid()
    ensures r.file.offset == Inside(r.cursor, |r.data|) && r.file.size == |r.data|
  {
  }

  lemma SliceNothing(a: seq<byte>, i: nat)
    ensures Slice(a, i, 0) == []
  {
  }

  lemma SliceMore(a: seq<byte>, i: nat, n: nat)
    ensures Slice(a, i, n) + [ByteAt(a, i + n)] == Slice(a, i, n + 1)
  {
    hide ByteAt;
  }
}
