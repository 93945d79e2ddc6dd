/** The checksum of patches and archives. */
module Crc32 {
  import opened Bits

  const POLYNOMIAL: nat := 0xedb8_8320

  lemma WordWidth()
    ensures Pow2(32) == WORD32 && Pow2(8) == 256
  {
    assert Pow2(8) == 16 * Pow2(4) && Pow2(4) == 16 by {
      assert Pow2(8) == 2 * Pow2(7) == 4 * Pow2(6) == 8 * Pow2(5) == 16 * Pow2(4);
      assert Pow2(4) == 2 * Pow2(3) == 4 * Pow2(2) == 8 * Pow2(1);
    }
    Pow2Add(8, 8);
    Pow2Add(16, 16);
  }

  /** One bit of the table's division. */
  function Divide(c: nat): (r: nat)
    requires c < WORD32
    ensures r < WORD32
  {
    WordWidth();
    WordBounds(c / 2, if c % 2 == 1 then POLYNOMIAL else 0, 32);
    Xor(c / 2, if c % 2 == 1 then POLYNOMIAL else 0)
  }

  function Table(index: byte): (r: nat)
    ensures r < WORD32
  {
    Divide(Divide(Divide(Divide(Divide(Divide(Divide(Divide(index))))))))
  }

  function Input(checksum: nat, value: byte): (r: nat)
    requires checksum < WORD32
    ensures r < WORD32
  {
    WordWidth();
    WordBounds(checksum % 256, value, 8);
    WordBounds(checksum / 256, Table(Xor(checksum % 256, value)), 32);
    Xor(checksum / 256, Table(Xor(checksum % 256, value)))
  }

  /** The register after a byte string. */
  function Register(s: seq<byte>): (r: nat)
    ensures r < WORD32
  {
    if s == [] then WORD32 - 1 else Input(Register(s[..|s| - 1]), s[|s| - 1])
  }

  /** The checksum of a byte string: the register's complement. */
  function Digest(s: seq<byte>): (r: nat)
    ensures r < WORD32
  {
    WORD32 - 1 - Register(s)
  }

  lemma RegisterAppend(s: seq<byte>, b: byte)
    ensures Register(s + [b]) == Input(Register(s), b)
  {
    hide Input;
    assert (s + [b])[..|s + [b]| - 1] == s;
  }

  lemma RegisterEmpty()
    ensures Register([]) == WORD32 - 1
  {
  }

  /** Feeding more bytes into a running checksum. */
  method Feed(checksum: nat, bytes: seq<byte>, ghost before: seq<byte>) returns (r: nat)
    requires checksum == Register(before)
    ensures r == Register(before + bytes)
  {
    hide Register, Input;
    r := checksum;
    var i := 0;
    assert before + bytes[..0] == before;
    while i < |bytes|
      invariant 0 <= i <= |bytes| && r == Register(before + bytes[..i])
    {
      RegisterAppend(before + bytes[..i], bytes[i]);
      assert before + bytes[..i] + [bytes[i]] == before + bytes[..i + 1];
      r := Input(r, bytes[i]);
      i := i + 1;
    }
    assert bytes[..i] == bytes;
  }

  method Sum(bytes: seq<byte>) returns (r: nat)
    ensures r == Digest(bytes)
  {
    hide Register;
    RegisterEmpty();
    assert [] + bytes == bytes;
    var c := Feed(WORD32 - 1, bytes, []);
    r := WORD32 - 1 - c;
  }
}
