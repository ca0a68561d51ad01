/**
 * Little-endian byte layout of unsigned words on i386: the least significant
 * byte is stored at the lowest address.
 */
module LittleEndian {
  import opened Types

  function Pow256(n: nat): (r: nat)
    ensures r >= 1
  {
    if n == 0 then 1 else 256 * Pow256(n - 1)
  }

  /** The value of a little-endian byte string. */
  function Decode(bs: seq<u8>): (x: nat)
    ensures x < Pow256(|bs|)
  {
    if bs == [] then 0 else bs[0] as nat + 256 * Decode(bs[1..])
  }

  /** The `n` low-order bytes of `x`, least significant first. */
  function Encode(x: nat, n: nat): (bs: seq<u8>)
    ensures |bs| == n
  {
    if n == 0 then [] else [(x % 256) as u8] + Encode(x / 256, n - 1)
  }

  /** Encoding a value that fits in `n` bytes and decoding it gives the value back. */
  lemma {:induction false} DecodeEncode(x: nat, n: nat)
    requires x < Pow256(n)
    ensures Decode(Encode(x, n)) == x
    decreases n
  {
    if n > 0 {
      var bs := Encode(x, n);
      assert bs[1..] == Encode(x / 256, n - 1);
      assert x / 256 < Pow256(n - 1);
      DecodeEncode(x / 256, n - 1);
    }
  }

  /** Decoding a byte string and encoding it to the same width gives the bytes back. */
  lemma {:induction false} EncodeDecode(bs: seq<u8>)
    ensures Encode(Decode(bs), |bs|) == bs
    decreases |bs|
  {
    if bs != [] {
      var x := Decode(bs);
      assert x % 256 == bs[0] as nat && x / 256 == Decode(bs[1..]);
      EncodeDecode(bs[1..]);
    }
  }

  /** A 32-bit word read from four bytes (a `uint32_t` field of a packed structure). */
  function DecodeU32(bs: seq<u8>): (w: u32)
    requires |bs| == 4
    ensures w as int == bs[0] as int + 0x100 * bs[1] as int + 0x1_0000 * bs[2] as int + 0x100_0000 * bs[3] as int
  {
    var b1, b2, b3 := bs[1..], bs[2..], bs[3..];
    assert b1[1..] == b2 && b2[1..] == b3 && b3[1..] == [];
    assert Decode(b3) == bs[3] as nat;
    assert Decode(b2) == bs[2] as nat + 256 * bs[3] as nat;
    assert Decode(b1) == bs[1] as nat + 256 * Decode(b2);
    Decode(bs) as u32
  }

  /** The four bytes that store a 32-bit word. */
  function EncodeU32(w: u32): (bs: seq<u8>)
    ensures |bs| == 4
  {
    Encode(w as nat, 4)
  }

  lemma DecodeEncodeU32(w: u32)
    ensures DecodeU32(EncodeU32(w)) == w
  {
    DecodeEncode(w as nat, 4);
  }

  lemma EncodeDecodeU32(bs: seq<u8>)
    requires |bs| == 4
    ensures EncodeU32(DecodeU32(bs)) == bs
  {
    EncodeDecode(bs);
  }
}
