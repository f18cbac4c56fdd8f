/**
 * FormatRequest: formats an image with an encryption format. The steps run
 * in order: checks, shutting down a cipher already loaded, formatting,
 * flushing, and for a clone persisting its parent's key wrapped under the
 * new key; the first failing step ends the request with its status, and
 * only a request that ends with 0 installs the new cipher.
 */
module Format {
  import opened Common
  import opened CryptoTypes
  import opened IoDispatcher
  import opened Image
  import opened CryptoUtils

  /** The image metadata key a clone's ParentCryptoParams is stored under. */
  const PARENT_CRYPTOR_METADATA_KEY: string := ".rbd_encryption_parent_cryptor"

  /** The state after ShutDownCryptoRequest succeeds: no cipher, no crypto layers. */
  function Unloaded(s: CtxState): (r: CtxState)
    ensures r.crypto.None? && LayersFree(r)
  {
    CtxState(None, s.objectDispatches - {OBJECT_DISPATCH_LAYER_CRYPTO}, s.imageDispatches - {IMAGE_DISPATCH_LAYER_CRYPTO})
  }

  /**
   * The effect of a successful ShutDownCryptoRequest. That request is not
   * part of this model; the finish step's set_crypto asserts the image has no
   * other cipher left, and registering the layers again asserts they are gone.
   */
  method UnloadCrypto(image: ImageCtx)
    requires image.Valid()
    modifies image, image.objectDispatcher, image.imageDispatcher
    ensures image.Valid()
    ensures image.State() == Unloaded(old(image.State()))
    ensures image.isFormattedClone == old(image.isFormattedClone) && image.encryptionFormat == old(image.encryptionFormat)
  {
    image.crypto := None;
    // the crypto layers' own shut_down completes with 0 (CryptoObjectDispatch.ShutDown)
    var _, _ := image.objectDispatcher.ShutDownDispatch(OBJECT_DISPATCH_LAYER_CRYPTO, _ => 0);
    var _, _ := image.imageDispatcher.ShutDownDispatch(IMAGE_DISPATCH_LAYER_CRYPTO, _ => 0);
  }

  /**
   * The record a clone stores for its parent: the parent's key wrapped under
   * the child's key with the parent's block size and data offset, or
   * ("", 0, 0) for a parent without a cipher; or the failed wrap's status.
   */
  function ParentRecord(parentCrypto: Option<Crypto>, childKey: KeyBytes, cryptor: DataCryptor): (r: Result)
    ensures parentCrypto.None? ==> r == Ok(ParentCryptoParams([], 0, 0))
    ensures r.Fail? ==> parentCrypto.Some? && r.status != 0
    ensures r.Ok? && parentCrypto.Some? ==>
              && r.params.blockSize == parentCrypto.value.blockSize
              && r.params.dataOffset == parentCrypto.value.dataOffset
              && r.params.wrappedKey == KeyWrap(Enc, childKey, parentCrypto.value.key, [], cryptor).out
  {
    match parentCrypto
    case None => Ok(ParentCryptoParams([], 0, 0))
    case Some(pc) =>
      var w := KeyWrap(Enc, childKey, pc.key, [], cryptor);
      if w.status != 0 then Fail(w.status)
      else Ok(ParentCryptoParams(w.out, pc.blockSize, pc.dataOffset))
  }

  datatype Result = Ok(params: ParentCryptoParams) | Fail(status: int)

  /** The wrap status the metadata step sees: 0 when there is nothing to wrap. */
  function WrapStatus(parentCrypto: Option<Crypto>, childKey: KeyBytes, cryptor: DataCryptor): int
  {
    match ParentRecord(parentCrypto, childKey, cryptor)
    case Ok(_) => 0
    case Fail(status) => status
  }

  /**
   * The status a whole format request ends with: journaling and an already
   * formatted clone are refused before anything else; then the first failing
   * step wins among the shutdown (only with a cipher loaded), format, flush,
   * and for a clone the key wrap and the metadata write.
   */
  function FormatOutcome(journaling: bool, formattedClone: bool, cryptoLoaded: bool, hasParent: bool,
                         shutDown: int, format: int, flush: int, wrap: int, metadataSet: int): int
  {
    if journaling then -ENOTSUP
    else if formattedClone then -EINVAL
    else FirstError((if cryptoLoaded then [shutDown] else []) + [format, flush] + (if hasParent then [wrap, metadataSet] else []))
  }

  /**
   * A request that succeeds has passed the checks, and every step it ran
   * returned 0; a failing one reports a step's own status or a refusal.
   */
  lemma FormatOutcomeCases(journaling: bool, formattedClone: bool, cryptoLoaded: bool, hasParent: bool,
                           shutDown: int, format: int, flush: int, wrap: int, metadataSet: int)
    ensures var r := FormatOutcome(journaling, formattedClone, cryptoLoaded, hasParent, shutDown, format, flush, wrap, metadataSet);
      && (r == 0 <==> (!journaling && !formattedClone && (cryptoLoaded ==> shutDown == 0) && format == 0 && flush == 0
                       && (hasParent ==> wrap == 0 && metadataSet == 0)))
      && (r != 0 ==> r in [-ENOTSUP, -EINVAL, shutDown, format, flush, wrap, metadataSet])
  {
    var steps := (if cryptoLoaded then [shutDown] else []) + [format, flush] + (if hasParent then [wrap, metadataSet] else []);
    if !journaling && !formattedClone {
      if cryptoLoaded { assert steps[0] == shutDown; }
      var k := if cryptoLoaded then 1 else 0;
      assert steps[k] == format && steps[k + 1] == flush;
      if hasParent { assert steps[k + 2] == wrap && steps[k + 3] == metadataSet; }
    }
  }

  /** FormatOutcome step by step, in the order the handlers test the statuses. */
  lemma FormatOutcomeInOrder(journaling: bool, formattedClone: bool, cryptoLoaded: bool, hasParent: bool,
                             shutDown: int, format: int, flush: int, wrap: int, metadataSet: int)
    ensures FormatOutcome(journaling, formattedClone, cryptoLoaded, hasParent, shutDown, format, flush, wrap, metadataSet) ==
      if journaling then -ENOTSUP
      else if formattedClone then -EINVAL
      else if cryptoLoaded && shutDown != 0 then shutDown
      else if format != 0 then format
      else if flush != 0 then flush
      else if !hasParent then 0
      else if wrap != 0 then wrap
      else metadataSet
  {
    var tail := if hasParent then [wrap, metadataSet] else [];
    assert [format, flush] + tail == [format] + ([flush] + tail);
    FirstErrorAppend([format], [flush] + tail);
    FirstErrorAppend([flush], tail);
    if hasParent {
      FirstErrorAppend([wrap], [metadataSet]);
    }
    var head := if cryptoLoaded then [shutDown] else [];
    FirstErrorAppend(head, [format, flush] + tail);
    assert head + [format, flush] + tail == head + ([format, flush] + tail);
  }

  datatype FormatStep = FormatStart | ShuttingDownCrypto | Formatting | Flushing | SettingMetadata | FormatFinished

  class FormatRequest {
    const image: ImageCtx
    const format: EncryptionFormat
    var step: FormatStep
    /** The encoded ParentCryptoParams handed to MetadataSetRequest. */
    var serializedParentCryptor: seq<byte>
    /** The (key, value) pair handed to MetadataSetRequest, once it is issued. */
    var metadataRequest: Option<(string, seq<byte>)>
    /** Statuses on_finish was completed with. */
    var onFinish: seq<int>

    /**
     * The image is not its own parent; from the shutdown on, until the
     * request finishes, it has no cipher.
     */
    ghost predicate Valid()
      reads this, image, image.objectDispatcher, image.imageDispatcher
    {
      && image.Valid()
      && image.parent != image
      && (step in {Formatting, Flushing, SettingMetadata} ==> image.crypto.None?)
      && (step == FormatFinished <==> onFinish != [])
    }

    constructor (image: ImageCtx, format: EncryptionFormat)
      requires image.Valid() && image.parent != image
      ensures Valid() && this.image == image && this.format == format
      ensures step == FormatStart && onFinish == [] && serializedParentCryptor == [] && metadataRequest == None
    {
      this.image := image;
      this.format := format;
      step := FormatStart;
      serializedParentCryptor := [];
      metadataRequest := None;
      onFinish := [];
    }

    /**
     * finish: on 0 the new cipher is installed, the format moved into the
     * image, and a clone marked as formatted; on_finish is completed once
     * with `r` either way.
     */
    method Finish(r: int)
      requires Valid() && step != FormatFinished
      requires r == 0 ==> image.crypto.None?
      modifies this, image, image.objectDispatcher, image.imageDispatcher
      ensures Valid() && step == FormatFinished
      ensures onFinish == old(onFinish) + [r] && metadataRequest == old(metadataRequest)
      ensures r == 0 ==>
                && image.State() == Installed(old(image.State()), format.crypto)
                && image.encryptionFormat == Some(format)
                && image.isFormattedClone == (old(image.isFormattedClone) || image.parent != null)
      ensures r != 0 ==> unchanged(image, image.objectDispatcher, image.imageDispatcher)
    {
      if r == 0 {
        SetCrypto(image, format.crypto);
        image.encryptionFormat := Some(format);
        if image.parent != null {
          image.isFormattedClone := true;
        }
      }
      onFinish := onFinish + [r];
      step := FormatFinished;
    }

    /** send: the journaling and formatted-clone checks, then shutdown or format. */
    method Send()
      requires Valid() && step == FormatStart
      modifies this, image, image.objectDispatcher, image.imageDispatcher
      ensures Valid()
      ensures unchanged(image, image.objectDispatcher, image.imageDispatcher)
      ensures metadataRequest == old(metadataRequest)
      ensures image.journaling ==> step == FormatFinished && onFinish == old(onFinish) + [-ENOTSUP]
      ensures !image.journaling && image.isFormattedClone ==> step == FormatFinished && onFinish == old(onFinish) + [-EINVAL]
      ensures !image.journaling && !image.isFormattedClone ==>
                && onFinish == old(onFinish)
                && step == (if image.crypto.None? then Formatting else ShuttingDownCrypto)
    {
      if image.journaling {
        Finish(-ENOTSUP);
        return;
      }
      if image.isFormattedClone {
        Finish(-EINVAL);
        return;
      }
      if image.crypto.None? {
        step := Formatting;
        return;
      }
      step := ShuttingDownCrypto;
    }

    method HandleShutdownCrypto(r: int)
      requires Valid() && step == ShuttingDownCrypto
      modifies this, image, image.objectDispatcher, image.imageDispatcher
      ensures Valid()
      ensures metadataRequest == old(metadataRequest)
      ensures r != 0 ==> step == FormatFinished && onFinish == old(onFinish) + [r] && unchanged(image, image.objectDispatcher, image.imageDispatcher)
      ensures r == 0 ==> step == Formatting && onFinish == old(onFinish) && image.State() == Unloaded(old(image.State()))
      ensures image.isFormattedClone == old(image.isFormattedClone) && image.encryptionFormat == old(image.encryptionFormat)
    {
      if r != 0 {
        Finish(r);
        return;
      }
      UnloadCrypto(image);
      step := Formatting;
    }

    method HandleFormat(r: int)
      requires Valid() && step == Formatting
      modifies this, image, image.objectDispatcher, image.imageDispatcher
      ensures Valid() && unchanged(image, image.objectDispatcher, image.imageDispatcher)
      ensures metadataRequest == old(metadataRequest)
      ensures r != 0 ==> step == FormatFinished && onFinish == old(onFinish) + [r]
      ensures r == 0 ==> step == Flushing && onFinish == old(onFinish)
    {
      if r != 0 {
        Finish(r);
        return;
      }
      step := Flushing;
    }

    /**
     * metadata_set: builds the parent record; a failed wrap finishes the
     * request before anything is written, otherwise the encoded record is
     * handed to MetadataSetRequest under the parent-cryptor key.
     */
    method MetadataSet(cryptor: DataCryptor)
      requires Valid() && step == Flushing && image.parent != null
      modifies this, image, image.objectDispatcher, image.imageDispatcher
      ensures Valid() && unchanged(image, image.objectDispatcher, image.imageDispatcher)
      ensures match ParentRecord(image.parent.crypto, format.crypto.key, cryptor)
              case Fail(status) => step == FormatFinished && onFinish == old(onFinish) + [status]
                                   && metadataRequest == old(metadataRequest)
              case Ok(params) => step == SettingMetadata && onFinish == old(onFinish)
                                 && serializedParentCryptor == Encode(params)
                                 && metadataRequest == Some((PARENT_CRYPTOR_METADATA_KEY, Encode(params)))
    {
      var wrappedKey: seq<byte> := [];
      var blockSize: u64 := 0;
      var dataOffset: u64 := 0;
      var parentCrypto := image.parent.crypto;
      if parentCrypto.Some? {
        var crypto := format.crypto;
        blockSize := parentCrypto.value.blockSize;
        dataOffset := parentCrypto.value.dataOffset;
        var wrapped := KeyWrap(Enc, crypto.key, parentCrypto.value.key, wrappedKey, cryptor);
        wrappedKey := wrapped.out;
        if wrapped.status != 0 {
          Finish(wrapped.status);
          return;
        }
      }
      serializedParentCryptor := Encode(ParentCryptoParams(wrappedKey, blockSize, dataOffset));
      metadataRequest := Some((PARENT_CRYPTOR_METADATA_KEY, serializedParentCryptor));
      step := SettingMetadata;
    }

    /** handle_flush: a clone goes on to store its parent record, any other image finishes with 0. */
    method HandleFlush(r: int, cryptor: DataCryptor)
      requires Valid() && step == Flushing
      modifies this, image, image.objectDispatcher, image.imageDispatcher
      ensures Valid()
      ensures r != 0 || image.parent == null ==> metadataRequest == old(metadataRequest)
      ensures r != 0 ==> step == FormatFinished && onFinish == old(onFinish) + [r] && unchanged(image, image.objectDispatcher, image.imageDispatcher)
      ensures r == 0 && image.parent == null ==>
                && step == FormatFinished && onFinish == old(onFinish) + [0]
                && image.State() == Installed(old(image.State()), format.crypto)
                && image.encryptionFormat == Some(format) && image.isFormattedClone == old(image.isFormattedClone)
      ensures r == 0 && image.parent != null ==>
                && unchanged(image, image.objectDispatcher, image.imageDispatcher)
                && match ParentRecord(image.parent.crypto, format.crypto.key, cryptor)
                   case Fail(status) => step == FormatFinished && onFinish == old(onFinish) + [status]
                                        && metadataRequest == old(metadataRequest)
                   case Ok(params) => step == SettingMetadata && onFinish == old(onFinish)
                                      && metadataRequest == Some((PARENT_CRYPTOR_METADATA_KEY, Encode(params)))
    {
      if r != 0 {
        Finish(r);
        return;
      }
      if image.parent != null {
        MetadataSet(cryptor);
      } else {
        Finish(0);
      }
    }

    /** handle_metadata_set: the write's status is the request's. */
    method HandleMetadataSet(r: int)
      requires Valid() && step == SettingMetadata
      modifies this, image, image.objectDispatcher, image.imageDispatcher
      ensures Valid() && step == FormatFinished && onFinish == old(onFinish) + [r]
      ensures metadataRequest == old(metadataRequest)
      ensures r == 0 ==>
                && image.State() == Installed(old(image.State()), format.crypto)
                && image.encryptionFormat == Some(format)
                && image.isFormattedClone == (old(image.isFormattedClone) || image.parent != null)
      ensures r != 0 ==> unchanged(image, image.objectDispatcher, image.imageDispatcher)
    {
      Finish(r);
    }

    /**
     * A whole request, each asynchronous step completing with the status
     * given for it (statuses of steps that do not run are ignored): on_finish
     * is completed once, with FormatOutcome. A successful shutdown unloads
     * the old cipher whatever happens next; the new cipher and format are
     * installed on top of that exactly when the outcome is 0; the parent
     * record is written exactly when every earlier step succeeded on a clone.
     */
    method Run(shutDown: int, formatStatus: int, flush: int, metadataSet: int, cryptor: DataCryptor)
      requires Valid() && step == FormatStart && onFinish == []
      modifies this, image, image.objectDispatcher, image.imageDispatcher
      ensures Valid() && step == FormatFinished
      ensures var outcome := FormatOutcome(image.journaling, old(image.isFormattedClone), old(image.crypto).Some?, image.parent != null,
                                           shutDown, formatStatus, flush,
                                           if image.parent == null then 0 else WrapStatus(image.parent.crypto, format.crypto.key, cryptor),
                                           metadataSet);
        var checked := !image.journaling && !old(image.isFormattedClone);
        var unloaded := if checked && old(image.crypto).Some? && shutDown == 0 then Unloaded(old(image.State())) else old(image.State());
        && onFinish == [outcome]
        && (outcome == 0 ==> image.State() == Installed(unloaded, format.crypto) && image.encryptionFormat == Some(format)
                             && image.isFormattedClone == (old(image.isFormattedClone) || image.parent != null))
        && (outcome != 0 ==> image.State() == unloaded && image.encryptionFormat == old(image.encryptionFormat)
                             && image.isFormattedClone == old(image.isFormattedClone))
      ensures var written := !image.journaling && !old(image.isFormattedClone) && (old(image.crypto).Some? ==> shutDown == 0)
                             && formatStatus == 0 && flush == 0 && image.parent != null
                             && ParentRecord(image.parent.crypto, format.crypto.key, cryptor).Ok?;
        metadataRequest == if written then Some((PARENT_CRYPTOR_METADATA_KEY, Encode(ParentRecord(image.parent.crypto, format.crypto.key, cryptor).params)))
                           else old(metadataRequest)
    {
      ghost var wrap := if image.parent == null then 0 else WrapStatus(image.parent.crypto, format.crypto.key, cryptor);
      FormatOutcomeInOrder(image.journaling, image.isFormattedClone, image.crypto.Some?, image.parent != null,
                           shutDown, formatStatus, flush, wrap, metadataSet);
      FormatOutcomeInOrder(false, false, false, image.parent != null, 0, formatStatus, flush, wrap, metadataSet);
      Send();
      if step == ShuttingDownCrypto {
        HandleShutdownCrypto(shutDown);
      }
      if step == Formatting {
        RunFromFormat(formatStatus, flush, metadataSet, cryptor);
      }
    }

    /**
     * The rest of a request once the old cipher, if any, is gone: format,
     * flush, and for a clone the parent record; its status is FormatOutcome
     * with the checks and the shutdown out of the way.
     */
    method RunFromFormat(formatStatus: int, flush: int, metadataSet: int, cryptor: DataCryptor)
      requires Valid() && step == Formatting
      modifies this, image, image.objectDispatcher, image.imageDispatcher
      ensures Valid() && step == FormatFinished
      ensures var outcome := FormatOutcome(false, false, false, image.parent != null, 0, formatStatus, flush,
                                           if image.parent == null then 0 else WrapStatus(image.parent.crypto, format.crypto.key, cryptor),
                                           metadataSet);
        && onFinish == old(onFinish) + [outcome]
        && (outcome == 0 ==> image.State() == Installed(old(image.State()), format.crypto) && image.encryptionFormat == Some(format)
                             && image.isFormattedClone == (old(image.isFormattedClone) || image.parent != null))
        && (outcome != 0 ==> image.State() == old(image.State()) && image.encryptionFormat == old(image.encryptionFormat)
                             && image.isFormattedClone == old(image.isFormattedClone))
      ensures var written := formatStatus == 0 && flush == 0 && image.parent != null
                             && ParentRecord(image.parent.crypto, format.crypto.key, cryptor).Ok?;
        metadataRequest == if written then Some((PARENT_CRYPTOR_METADATA_KEY, Encode(ParentRecord(image.parent.crypto, format.crypto.key, cryptor).params)))
                           else old(metadataRequest)
    {
      FormatOutcomeInOrder(false, false, false, image.parent != null, 0, formatStatus, flush,
                           if image.parent == null then 0 else WrapStatus(image.parent.crypto, format.crypto.key, cryptor),
                           metadataSet);
      HandleFormat(formatStatus);
      if step == Flushing {
        HandleFlush(flush, cryptor);
      }
      if step == SettingMetadata {
        HandleMetadataSet(metadataSet);
      }
    }
  }
}
