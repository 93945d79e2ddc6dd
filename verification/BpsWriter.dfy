/** What the patch encoders share: a queue of literals, the header and the footer, written through a stream. */
module BpsWriter {
  import opened Bits
  import opened VarInt
  import opened Crc32
  import opened BpsPatch
  import opened BpsPlan
  import opened Stream

  /** `targetReadFlush`. */
  method WriteQueue(w: Writer, target: seq<byte>, out: nat, pending: nat)
    requires w.Valid() && pending <= out <= |target|
    modifies w, w.file, w.file.buffer
    ensures w.Valid() && w.bytes == old(w.bytes) + Flush(target, out, pending)
  {
    hide Register, Encode, Writer.Valid;
    if pending > 0 {
      w.WriteNumber(LengthWord(1, pending));
      w.WriteAll(target[out - pending..out]);
    }
  }

  /** The header, up to and including the markup. */
  method WriteHeader(w: Writer, source: seq<byte>, target: seq<byte>, markup: seq<byte>)
    requires w.Valid()
    modifies w, w.file, w.file.buffer
    ensures w.Valid() && w.bytes == old(w.bytes) + HeaderBytes(source, target, markup)
  {
    hide Register, Encode, Writer.Valid;
    w.WriteAll(MAGIC);
    w.WriteNumber(|source|);
    w.WriteNumber(|target|);
    w.WriteNumber(|markup|);
    w.WriteAll(markup);
  }

  /** The footer; the last word is the checksum of everything before it. */
  method WriteFooter(w: Writer, source: seq<byte>, target: seq<byte>)
    requires w.Valid()
    modifies w, w.file, w.file.buffer
    ensures w.Valid() && w.bytes == Sealed(source, target, old(w.bytes))
  {
    hide Register, WordBytes, Writer.Valid, Digest;
    var sum := Sum(source);
    w.WriteWord(sum);
    sum := Sum(target);
    w.WriteWord(sum);
    w.WriteDigest();
  }
}
