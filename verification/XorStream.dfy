/**
 * The streaming XOR that packs and unpacks a Chromium archive: each chunk goes through a byte loop
 * with a repeated key, and a running offset ties the chunks together.
 */
module XorStream {
  type Byte = bv8

  const KEY_TEXT := "specrails-desktop-chromium-pack-v1"

  /** The key's UTF-8 bytes; its characters are all ASCII. */
  function KeyByte(c: char): Byte {
    (c as int % 256) as bv8
  }

  function ObfuscationKey(): (key: seq<Byte>)
    ensures key != []
  {
    seq(|KEY_TEXT|, i requires 0 <= i < |KEY_TEXT| => KeyByte(KEY_TEXT[i]))
  }

  /** The bytes at stream position `offset` on, each combined with its key byte. */
  function Xor(bytes: seq<Byte>, key: seq<Byte>, offset: nat): (r: seq<Byte>)
    requires key != []
    ensures |r| == |bytes|
    ensures forall i :: 0 <= i < |bytes| ==> r[i] == bytes[i] ^ key[(offset + i) % |key|]
  {
    seq(|bytes|, i requires 0 <= i < |bytes| => bytes[i] ^ key[(offset + i) % |key|])
  }

  function Flatten(chunks: seq<seq<Byte>>): seq<Byte> {
    if chunks == [] then [] else Flatten(chunks[..|chunks| - 1]) + chunks[|chunks| - 1]
  }

  lemma XorAppend(a: seq<Byte>, b: seq<Byte>, key: seq<Byte>, offset: nat)
    requires key != []
    ensures Xor(a + b, key, offset) == Xor(a, key, offset) + Xor(b, key, offset + |a|)
  {
    forall i | 0 <= i < |a + b|
      ensures Xor(a + b, key, offset)[i] == (Xor(a, key, offset) + Xor(b, key, offset + |a|))[i]
    {
      if i >= |a| { assert offset + i == offset + |a| + (i - |a|); }
    }
  }

  lemma XorByteTwice(b: Byte, k: Byte)
    ensures (b ^ k) ^ k == b
  {
  }

  lemma XorTwice(bytes: seq<Byte>, key: seq<Byte>, offset: nat)
    requires key != []
    ensures Xor(Xor(bytes, key, offset), key, offset) == bytes
  {
    forall i | 0 <= i < |bytes| ensures Xor(Xor(bytes, key, offset), key, offset)[i] == bytes[i] {
      XorByteTwice(bytes[i], key[(offset + i) % |key|]);
    }
  }

  /** One transform stream. */
  class XorTransform {
    const key: seq<Byte>
    var offset: nat

    constructor (key: seq<Byte>)
      requires key != []
      ensures this.key == key && offset == 0
    {
      this.key, offset := key, 0;
    }

    method Transform(chunk: array<Byte>) returns (out: array<Byte>)
      requires key != []
      modifies `offset
      ensures fresh(out) && out[..] == Xor(chunk[..], key, old(offset))
      ensures offset == old(offset) + chunk.Length
    {
      out := new Byte[chunk.Length];
      var i := 0;
      while i < chunk.Length
        modifies out
        invariant i <= chunk.Length
        invariant forall k :: 0 <= k < i ==> out[k] == chunk[k] ^ key[(offset + k) % |key|]
      {
        out[i] := chunk[i] ^ key[(offset + i) % |key|];
        i := i + 1;
      }
      offset := offset + chunk.Length;
    }
  }

  /**
   * However a byte stream is cut into chunks, what comes out is the whole stream combined with the
   * repeated key.
   */
  method Pipe(chunks: seq<seq<Byte>>, key: seq<Byte>) returns (out: seq<Byte>)
    requires key != []
    ensures out == Xor(Flatten(chunks), key, 0)
    ensures |out| == |Flatten(chunks)| && forall i | 0 <= i < |out| :: out[i] == Flatten(chunks)[i] ^ key[i % |key|]
  {
    var transform := new XorTransform(key);
    out := [];
    var i := 0;
    while i < |chunks|
      invariant i <= |chunks| && transform.key == key
      invariant transform.offset == |Flatten(chunks[..i])|
      invariant out == Xor(Flatten(chunks[..i]), key, 0)
    {
      var chunk := new Byte[|chunks[i]|](k requires 0 <= k < |chunks[i]| => chunks[i][k]);
      assert chunk[..] == chunks[i];
      var piece := transform.Transform(chunk);
      assert chunks[..i + 1][..i] == chunks[..i];
      XorAppend(Flatten(chunks[..i]), chunks[i], key, 0);
      out := out + piece[..];
      i := i + 1;
    }
    assert chunks[..i] == chunks;
  }

  /** Packing a stream and unpacking the result, each cut as it may be, gives the stream back. */
  method PackAndUnpack(chunks: seq<seq<Byte>>, recut: seq<Byte> -> seq<seq<Byte>>, key: seq<Byte>)
    returns (packed: seq<Byte>, unpacked: seq<Byte>)
    requires key != []
    requires forall bytes :: Flatten(recut(bytes)) == bytes
    ensures unpacked == Flatten(chunks)
    ensures packed == Xor(Flatten(chunks), key, 0)
  {
    packed := Pipe(chunks, key);
    unpacked := Pipe(recut(packed), key);
    XorTwice(Flatten(chunks), key, 0);
  }

  /** Unpack an archive with the application's own key, however the file is read. */
  method Deobfuscate(archive: seq<seq<Byte>>, original: seq<Byte>) returns (out: seq<Byte>)
    requires |Flatten(archive)| == |original|
    requires forall i | 0 <= i < |original| ::
               Flatten(archive)[i] == original[i] ^ KeyByte("specrails-desktop-chromium-pack-v1"[i % 34])
    ensures out == original
  {
    assert |ObfuscationKey()| == 34;
    assert Flatten(archive) == Xor(original, ObfuscationKey(), 0);
    out := Pipe(archive, ObfuscationKey());
    XorTwice(original, ObfuscationKey(), 0);
  }
}
