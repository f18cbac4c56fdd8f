/**
 * librbd::crypto types: the cipher direction and ParentCryptoParams, the
 * record a formatted clone keeps in its image metadata to find its parent's
 * cipher again. The record is written with Ceph's versioned encoding: a
 * one-byte struct version, a one-byte compat version and a little-endian u32
 * body length, followed by the body.
 */
module CryptoTypes {
  import opened Common

  datatype CipherMode = Enc | Dec

  datatype ParentCryptoParams = ParentCryptoParams(wrappedKey: seq<byte>, blockSize: u64, dataOffset: u64)

  /** The encoder's struct version and the oldest decoder version it is compatible with. */
  const STRUCT_V: byte := 1
  const STRUCT_COMPAT: byte := 1

  function Pow256(n: nat): (r: nat)
    ensures r > 0
  {
    if n == 0 then 1 else 256 * Pow256(n - 1)
  }

  lemma Pow256Widths()
    ensures Pow256(4) == U32 && Pow256(8) == U64
  {
    assert Pow256(2) == 65536;
  }

  /** The low `n` bytes of `x`, least significant first. */
  function LittleEndian(x: nat, n: nat): (r: seq<byte>)
    ensures |r| == n
  {
    if n == 0 then [] else [x % 256] + LittleEndian(x / 256, n - 1)
  }

  /** The value of a little-endian byte string. */
  function FromLittleEndian(s: seq<byte>): (r: nat)
    ensures r < Pow256(|s|)
  {
    if s == [] then 0
    else
      var rest := FromLittleEndian(s[1..]);
      assert rest <= Pow256(|s| - 1) - 1;
      assert 256 * rest <= 256 * Pow256(|s| - 1) - 256;
      s[0] + 256 * rest
  }

  lemma {:induction false} LittleEndianRoundTrip(x: nat, n: nat)
    requires x < Pow256(n)
    ensures FromLittleEndian(LittleEndian(x, n)) == x
  {
    if n > 0 {
      var s := LittleEndian(x, n);
      assert s[1..] == LittleEndian(x / 256, n - 1);
      assert x / 256 < Pow256(n - 1);
      LittleEndianRoundTrip(x / 256, n - 1);
    }
  }

  /** Reads a little-endian u32. */
  function ReadU32(s: seq<byte>): (r: u32)
    requires |s| == 4
    ensures r == FromLittleEndian(s)
  {
    Pow256Widths();
    FromLittleEndian(s)
  }

  /** Reads a little-endian u64. */
  function ReadU64(s: seq<byte>): (r: u64)
    requires |s| == 8
    ensures r == FromLittleEndian(s)
  {
    Pow256Widths();
    FromLittleEndian(s)
  }

  /**
   * The body: the key length as a u32, that many key bytes, then block_size
   * and data_offset as u64. The length is stored in 32 bits, so a key of 2^32
   * bytes or more is cut to its length modulo 2^32.
   */
  function EncodeBody(p: ParentCryptoParams): (r: seq<byte>)
    ensures |r| == 20 + |p.wrappedKey| % U32
  {
    var keySize := |p.wrappedKey| % U32;
    LittleEndian(keySize, 4) + p.wrappedKey[..keySize] + LittleEndian(p.blockSize, 8) + LittleEndian(p.dataOffset, 8)
  }

  /** ParentCryptoParams::encode: the envelope header followed by the body. */
  function Encode(p: ParentCryptoParams): (r: seq<byte>)
    ensures |p.wrappedKey| < U32 ==> |r| == 26 + |p.wrappedKey|
  {
    var body := EncodeBody(p);
    [STRUCT_V, STRUCT_COMPAT] + LittleEndian(|body| % U32, 4) + body
  }

  datatype Decoded = Decoded(params: ParentCryptoParams, consumed: nat)

  /** Decodes a body; None when the fields run past its end. */
  function DecodeBody(body: seq<byte>): (r: Option<ParentCryptoParams>)
    ensures r.Some? ==> 20 + |r.value.wrappedKey| <= |body| && |r.value.wrappedKey| < U32
  {
    if |body| < 4 then None
    else
      var keySize := ReadU32(body[..4]);
      if |body| < 20 + keySize then None
      else
        Some(ParentCryptoParams(
          body[4..4 + keySize],
          ReadU64(body[4 + keySize..12 + keySize]),
          ReadU64(body[12 + keySize..20 + keySize])))
  }

  /**
   * ParentCryptoParams::decode. It fails when the input is too short for the
   * envelope header, when the record needs a newer decoder (compat above 1),
   * when the body length runs past the input, or when the fields run past the
   * body. Bytes after the fields and inside the body are skipped; bytes after
   * the body are not read. `consumed` is where the read position ends.
   */
  function Decode(s: seq<byte>): (r: Option<Decoded>)
    ensures r.Some? ==> 26 + |r.value.params.wrappedKey| <= r.value.consumed <= |s|
    ensures r.Some? ==> s[1] <= STRUCT_COMPAT
  {
    if |s| < 6 || s[1] > STRUCT_COMPAT then None
    else
      var structLen := ReadU32(s[2..6]);
      if structLen > |s| - 6 then None
      else
        match DecodeBody(s[6..6 + structLen])
        case None => None
        case Some(p) => Some(Decoded(p, 6 + structLen))
  }

  /** Each part of a four-part concatenation, recovered by slicing. */
  lemma SliceParts(a: seq<byte>, b: seq<byte>, c: seq<byte>, d: seq<byte>)
    ensures var s, i, j, k := a + b + c + d, |a|, |a| + |b|, |a| + |b| + |c|;
      && s[..i] == a && s[i..j] == b && s[j..k] == c && s[k..] == d
  {
  }

  /** The pieces of a body with a key shorter than 2^32 bytes, each at its own offset. */
  lemma {:induction false} BodyParts(p: ParentCryptoParams)
    requires |p.wrappedKey| < U32
    ensures var b, k := EncodeBody(p), |p.wrappedKey|;
      && |b| == 20 + k
      && b[..4] == LittleEndian(k, 4)
      && b[4..4 + k] == p.wrappedKey
      && b[4 + k..12 + k] == LittleEndian(p.blockSize, 8)
      && b[12 + k..20 + k] == LittleEndian(p.dataOffset, 8)
  {
    var k := |p.wrappedKey|;
    var len, bs, off := LittleEndian(k, 4), LittleEndian(p.blockSize, 8), LittleEndian(p.dataOffset, 8);
    assert p.wrappedKey[..k] == p.wrappedKey;
    assert EncodeBody(p) == len + p.wrappedKey + bs + off;
    SliceParts(len, p.wrappedKey, bs, off);
  }

  /** The envelope around a body of 20 + |key| bytes, followed by any trailing bytes. */
  lemma {:induction false} EnvelopeParts(p: ParentCryptoParams, trailing: seq<byte>)
    requires |p.wrappedKey| < U32 - 20
    ensures var s, k := Encode(p) + trailing, |p.wrappedKey|;
      && |Encode(p)| == 26 + k
      && s[0] == STRUCT_V && s[1] == STRUCT_COMPAT
      && s[2..6] == LittleEndian(20 + k, 4)
      && s[6..26 + k] == EncodeBody(p)
  {
    var k := |p.wrappedKey|;
    var body := EncodeBody(p);
    BodyParts(p);
    var head := [STRUCT_V, STRUCT_COMPAT];
    assert |body| % U32 == 20 + k;
    var len := LittleEndian(20 + k, 4);
    assert Encode(p) == head + len + body;
    SliceParts(head, len, body, trailing);
  }

  /** The body decoder reads back every field the body encoder wrote. */
  lemma {:induction false} DecodeBodyEncodeBody(p: ParentCryptoParams)
    requires |p.wrappedKey| < U32
    ensures DecodeBody(EncodeBody(p)) == Some(p)
  {
    Pow256Widths();
    var k := |p.wrappedKey|;
    BodyParts(p);
    LittleEndianRoundTrip(k, 4);
    LittleEndianRoundTrip(p.blockSize, 8);
    LittleEndianRoundTrip(p.dataOffset, 8);
  }

  /** Every field is read back in the order it was written, whatever follows the record. */
  lemma {:induction false} DecodeEncode(p: ParentCryptoParams, trailing: seq<byte>)
    requires |p.wrappedKey| < U32 - 20
    ensures Decode(Encode(p) + trailing) == Some(Decoded(p, |Encode(p)|))
  {
    Pow256Widths();
    var k := |p.wrappedKey|;
    var s := Encode(p) + trailing;
    EnvelopeParts(p, trailing);
    LittleEndianRoundTrip(20 + k, 4);
    assert ReadU32(s[2..6]) == 20 + k;
    DecodeBodyEncodeBody(p);
  }

  /**
   * The round trip's bound on the key is exact: from 2^32 - 20 key bytes on,
   * the u32 struct length wraps to less than the 20 bytes of fixed fields,
   * and the record no longer decodes at all.
   */
  lemma {:induction false} LongKeyDoesNotRoundTrip(p: ParentCryptoParams, trailing: seq<byte>)
    requires U32 - 20 <= |p.wrappedKey| < U32
    ensures Decode(Encode(p) + trailing) == None
  {
    Pow256Widths();
    var k := |p.wrappedKey|;
    var body := EncodeBody(p);
    var structLen := 20 + k - U32;
    assert |body| % U32 == structLen;
    var head, len := [STRUCT_V, STRUCT_COMPAT], LittleEndian(structLen, 4);
    var s := Encode(p) + trailing;
    assert s == head + len + body + trailing;
    SliceParts(head, len, body, trailing);
    LittleEndianRoundTrip(structLen, 4);
    assert ReadU32(s[2..6]) == structLen;
    assert DecodeBody(s[6..6 + structLen]) == None;
  }

  /** The key is length-prefixed, so two records with equal encodings are equal. */
  lemma EncodeInjective(p: ParentCryptoParams, q: ParentCryptoParams)
    requires |p.wrappedKey| < U32 - 20 && |q.wrappedKey| < U32 - 20
    requires Encode(p) == Encode(q)
    ensures p == q
  {
    DecodeEncode(p, []);
    DecodeEncode(q, []);
    assert Encode(p) + [] == Encode(q) + [];
  }

  /**
   * The layout: version 1, compat 1, a body of 4 + |key| + 16 bytes, and in
   * the body the key length, the key bytes, block_size and data_offset.
   */
  lemma {:induction false} EncodeLayout(p: ParentCryptoParams)
    requires |p.wrappedKey| < U32 - 20
    ensures var e, k := Encode(p), |p.wrappedKey|;
      && e[0] == STRUCT_V && e[1] == STRUCT_COMPAT
      && FromLittleEndian(e[2..6]) == 4 + k + 16
      && FromLittleEndian(e[6..10]) == k
      && e[10..10 + k] == p.wrappedKey
      && FromLittleEndian(e[10 + k..18 + k]) == p.blockSize
      && FromLittleEndian(e[18 + k..26 + k]) == p.dataOffset
  {
    Pow256Widths();
    var e, k := Encode(p), |p.wrappedKey|;
    EnvelopeParts(p, []);
    assert e + [] == e;
    BodyParts(p);
    var body := e[6..26 + k];
    assert e[6..10] == body[..4];
    assert e[10..10 + k] == body[4..4 + k];
    assert e[10 + k..18 + k] == body[4 + k..12 + k];
    assert e[18 + k..26 + k] == body[12 + k..20 + k];
    LittleEndianRoundTrip(20 + k, 4);
    LittleEndianRoundTrip(k, 4);
    LittleEndianRoundTrip(p.blockSize, 8);
    LittleEndianRoundTrip(p.dataOffset, 8);
  }

  /** The record a clone of an unencrypted parent stores: ("", 0, 0), 26 bytes. */
  lemma EmptyRecord()
    ensures var e := Encode(ParentCryptoParams([], 0, 0));
      |e| == 26 && e[..6] == [1, 1, 20, 0, 0, 0] && forall i :: 6 <= i < 26 ==> e[i] == 0
    ensures Decode(Encode(ParentCryptoParams([], 0, 0))) == Some(Decoded(ParentCryptoParams([], 0, 0), 26))
  {
    var p := ParentCryptoParams([], 0, 0);
    var zeros8: seq<byte> := [0, 0, 0, 0, 0, 0, 0, 0];
    assert LittleEndian(0, 8) == zeros8;
    assert LittleEndian(0, 4) == [0, 0, 0, 0];
    assert LittleEndian(20, 4) == [20, 0, 0, 0];
    var body := EncodeBody(p);
    assert body == [0, 0, 0, 0] + zeros8 + zeros8;
    assert forall i :: 0 <= i < 20 ==> body[i] == 0;
    var e := Encode(p);
    assert e == [1, 1, 20, 0, 0, 0] + body;
    DecodeEncode(p, []);
    assert Encode(p) + [] == Encode(p);
  }

  /** The record used as the encoder's test instance: ("mykey", 123, 456). */
  lemma TestInstanceRoundTrips()
    ensures var p := ParentCryptoParams([109, 121, 107, 101, 121], 123, 456);
      Decode(Encode(p)) == Some(Decoded(p, 31))
  {
    var p := ParentCryptoParams([109, 121, 107, 101, 121], 123, 456);
    DecodeEncode(p, []);
    assert Encode(p) + [] == Encode(p);
  }
}
