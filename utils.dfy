/**
 * librbd::crypto::util: installing a cipher on an image (set_crypto), AES key
 * wrapping as described in section 2.2.1 of RFC 3394 (key_wrap), and building
 * an XTS data cipher from a raw key (build_crypto). The OpenSSL calls are a
 * DataCryptor value whose functions return what the library would.
 */
module CryptoUtils {
  import opened Common
  import opened CryptoTypes
  import opened IoDispatcher
  import opened Image

  /** The cipher names the DataCryptor is initialised with. */
  datatype Algorithm = IdAes256Wrap | Xts(suite: CipherSuite)

  datatype Crypted = Crypted(status: int, output: seq<byte>)

  /**
   * openssl::DataCryptor: `init` is the status of initialising a cipher with a
   * key; `update` runs one pass of a cipher over an input and returns its
   * status and the new contents of the output buffer it writes into.
   */
  datatype DataCryptor = DataCryptor(
    init: (Algorithm, seq<byte>) -> int,
    update: (CipherMode, seq<byte>, seq<byte>, seq<byte>) -> Crypted)

  /** std::string::resize: truncate, or pad with zero bytes. */
  function Resize(s: seq<byte>, n: nat): (r: seq<byte>)
    ensures |r| == n
    ensures forall i :: 0 <= i < n ==> r[i] == if i < |s| then s[i] else 0
  {
    if n <= |s| then s[..n] else s + seq(n - |s|, _ => 0)
  }

  /**
   * The size of the output buffer: the input length plus 8 to wrap, minus 8
   * to unwrap, computed in 32 bits.
   */
  function KeyWrapOutputLength(mode: CipherMode, inLength: u32): (r: u32)
    ensures mode == Enc && inLength < U32 - 8 ==> r == inLength + 8
    ensures mode == Enc && inLength >= U32 - 8 ==> r == inLength + 8 - U32
    ensures mode == Dec && inLength >= 8 ==> r == inLength - 8
    ensures mode == Dec && inLength < 8 ==> r == U32 - 8 + inLength
  {
    (inLength + (if mode == Enc then 8 else U32 - 8)) % U32
  }

  datatype WrapResult = WrapResult(status: int, out: seq<byte>)

  /**
   * key_wrap: wraps (Enc) or unwraps (Dec) `input` under the first 32 bytes
   * of `wrappingKey` with id-aes256-wrap. `out` is the caller's string; it is
   * left alone on every error. Once the cipher is initialised the call
   * succeeds: a failing update is not reported.
   */
  function KeyWrap(mode: CipherMode, wrappingKey: seq<byte>, input: seq<byte>, out: seq<byte>, cryptor: DataCryptor): (r: WrapResult)
    requires |wrappingKey| < U32 && |input| < U32
    ensures |wrappingKey| < 32 ==> r == WrapResult(-EINVAL, out)
    ensures |input| % 8 != 0 ==> r == WrapResult(-EINVAL, out)
    ensures r.status != 0 ==> r.out == out
    ensures r.status == 0 ==> |r.out| == KeyWrapOutputLength(mode, |input|)
  {
    if |wrappingKey| < 32 then WrapResult(-EINVAL, out)
    else if |input| % 8 != 0 then WrapResult(-EINVAL, out)
    else
      var r := cryptor.init(IdAes256Wrap, wrappingKey[..32]);
      if r != 0 then WrapResult(r, out)
      else
        var n := KeyWrapOutputLength(mode, |input|);
        var crypted := cryptor.update(mode, wrappingKey[..32], input, Resize(out, n));
        WrapResult(0, Resize(crypted.output, n))
  }

  /**
   * key_wrap succeeds exactly when the key has at least 32 bytes, the input
   * is a whole number of 8-byte blocks and the cipher initialises; what the
   * update pass returns plays no part.
   */
  lemma KeyWrapSucceeds(mode: CipherMode, wrappingKey: seq<byte>, input: seq<byte>, out: seq<byte>, cryptor: DataCryptor)
    requires |wrappingKey| < U32 && |input| < U32
    ensures KeyWrap(mode, wrappingKey, input, out, cryptor).status == 0 <==>
              |wrappingKey| >= 32 && |input| % 8 == 0 && cryptor.init(IdAes256Wrap, wrappingKey[..32]) == 0
  {
  }

  /** Only the first 32 bytes of a long enough wrapping key are used. */
  lemma KeyWrapUsesFirst32Bytes(mode: CipherMode, k1: seq<byte>, k2: seq<byte>, input: seq<byte>, out: seq<byte>, cryptor: DataCryptor)
    requires 32 <= |k1| < U32 && 32 <= |k2| < U32 && |input| < U32
    requires k1[..32] == k2[..32]
    ensures KeyWrap(mode, k1, input, out, cryptor) == KeyWrap(mode, k2, input, out, cryptor)
  {
  }

  /** The length the cipher selected by key length takes: 32 bytes for AES-128-XTS, 64 for AES-256-XTS. */
  function XtsKeyLength(suite: CipherSuite): nat
  {
    match suite
    case Aes128Xts => 32
    case Aes256Xts => 64
  }

  function SuiteForKeyLength(n: nat): (r: Option<CipherSuite>)
    ensures r.Some? ==> XtsKeyLength(r.value) == n
    ensures r.None? <==> n != 32 && n != 64
  {
    if n == 32 then Some(Aes128Xts)
    else if n == 64 then Some(Aes256Xts)
    else None
  }

  datatype BuildResult = BuildResult(status: int, crypto: Option<Crypto>)

  /**
   * build_crypto: an XTS cipher chosen by the key length, with the block size
   * and data offset passed through; -ENOTSUP for any other length, and the
   * initialisation status when the cipher refuses the key.
   */
  function BuildCrypto(key: KeyBytes, blockSize: u64, dataOffset: u64, cryptor: DataCryptor): (r: BuildResult)
    ensures r.status == 0 <==> r.crypto.Some?
    ensures r.crypto.Some? ==>
              && XtsKeyLength(r.crypto.value.suite) == |key|
              && r.crypto.value.key == key
              && r.crypto.value.blockSize == blockSize
              && r.crypto.value.dataOffset == dataOffset
    ensures |key| != 32 && |key| != 64 ==> r == BuildResult(-ENOTSUP, None)
  {
    match SuiteForKeyLength(|key|)
    case None => BuildResult(-ENOTSUP, None)
    case Some(suite) =>
      var r := cryptor.init(Xts(suite), key);
      if r != 0 then BuildResult(r, None)
      else BuildResult(0, Some(Crypto(suite, key, blockSize, dataOffset)))
  }

  /** build_crypto fails only on an unsupported key length or a refused key, and then reports why. */
  lemma BuildCryptoStatus(key: KeyBytes, blockSize: u64, dataOffset: u64, cryptor: DataCryptor)
    ensures var r := BuildCrypto(key, blockSize, dataOffset, cryptor);
      && ((|key| == 32 || |key| == 64) ==> r.status == cryptor.init(Xts(SuiteForKeyLength(|key|).value), key))
      && (r.status == 0 <==> (|key| == 32 || |key| == 64) && cryptor.init(Xts(SuiteForKeyLength(|key|).value), key) == 0)
  {
  }

  /**
   * set_crypto: the image must have no cipher or this one already; the
   * cipher is installed and one crypto layer is registered with each of the
   * image's dispatchers (which asserts that layer is still free).
   */
  method SetCrypto(image: ImageCtx, crypto: Crypto)
    requires image.Valid()
    requires image.crypto == None || image.crypto == Some(crypto)
    requires LayersFree(image.State())
    modifies image, image.objectDispatcher, image.imageDispatcher
    ensures image.Valid()
    ensures image.State() == Installed(old(image.State()), crypto)
    ensures image.isFormattedClone == old(image.isFormattedClone) && image.encryptionFormat == old(image.encryptionFormat)
  {
    image.crypto := Some(crypto);
    image.objectDispatcher.RegisterDispatch(CRYPTO_OBJECT_DISPATCH);
    image.imageDispatcher.RegisterDispatch(CRYPTO_IMAGE_DISPATCH);
  }
}
