/**
 * The parts of librbd's ImageCtx the crypto layer reads and writes: the
 * loaded cipher, the formatted-clone flag, the encryption format, the
 * journaling feature, the parent image and the two I/O dispatchers. Image
 * contexts form a chain image -> parent -> grandparent, walked through the
 * `parent` pointers.
 */
module Image {
  import opened Common
  import opened IoDispatcher

  datatype CipherSuite = Aes128Xts | Aes256Xts

  /** Key lengths are passed around as uint32_t. */
  type KeyBytes = k: seq<byte> | |k| < U32

  /**
   * A loaded data cipher (CryptoInterface): its suite, key, block size and
   * data offset. A value here; the code shares one reference-counted object.
   */
  datatype Crypto = Crypto(suite: CipherSuite, key: KeyBytes, blockSize: u64, dataOffset: u64)

  /**
   * An encryption format plugin (LUKS and the like) together with the cipher
   * it builds: what its get_crypto returns once its format or load step has
   * succeeded.
   */
  datatype EncryptionFormat = EncryptionFormat(name: string, crypto: Crypto)

  /**
   * The layers the crypto dispatches register at. The enumerations live in
   * librbd/io/Types.h, which is not part of this model; any fixed values do.
   */
  const OBJECT_DISPATCH_LAYER_CRYPTO: nat := 2
  const IMAGE_DISPATCH_LAYER_CRYPTO: nat := 10

  /** The CryptoObjectDispatch and CryptoImageDispatch handlers set_crypto registers. */
  const CRYPTO_OBJECT_DISPATCH: Dispatch := Dispatch(OBJECT_DISPATCH_LAYER_CRYPTO, 0)
  const CRYPTO_IMAGE_DISPATCH: Dispatch := Dispatch(IMAGE_DISPATCH_LAYER_CRYPTO, 0)

  /** What the crypto workflows change on one image context. */
  datatype CtxState = CtxState(crypto: Option<Crypto>, objectDispatches: map<nat, Dispatch>, imageDispatches: map<nat, Dispatch>)

  /** Neither crypto layer is registered. */
  predicate LayersFree(s: CtxState)
  {
    OBJECT_DISPATCH_LAYER_CRYPTO !in s.objectDispatches && IMAGE_DISPATCH_LAYER_CRYPTO !in s.imageDispatches
  }

  /** The state after `c` is installed: the cipher set and both crypto layers registered. */
  function Installed(s: CtxState, c: Crypto): (r: CtxState)
    ensures r.crypto == Some(c) && !LayersFree(r)
    ensures LayersFree(s) ==> |r.objectDispatches| == |s.objectDispatches| + 1 && |r.imageDispatches| == |s.imageDispatches| + 1
  {
    CtxState(Some(c),
             s.objectDispatches[OBJECT_DISPATCH_LAYER_CRYPTO := CRYPTO_OBJECT_DISPATCH],
             s.imageDispatches[IMAGE_DISPATCH_LAYER_CRYPTO := CRYPTO_IMAGE_DISPATCH])
  }

  /** ContextWQ: callbacks queued with the status they are to be completed with. */
  class WorkQueue {
    var queued: seq<(nat, int)>

    constructor ()
      ensures queued == []
    {
      queued := [];
    }

    method Queue(onFinish: nat, r: int)
      modifies this
      ensures queued == old(queued) + [(onFinish, r)]
    {
      queued := queued + [(onFinish, r)];
    }
  }

  class ImageCtx {
    var crypto: Option<Crypto>
    var isFormattedClone: bool
    var encryptionFormat: Option<EncryptionFormat>
    /** test_features(RBD_FEATURE_JOURNALING). */
    const journaling: bool
    const parent: ImageCtx?
    const objectDispatcher: Dispatcher
    const imageDispatcher: Dispatcher
    const opWorkQueue: WorkQueue

    /**
     * Both dispatchers are well formed, and an image without a cipher has no
     * crypto layer registered.
     */
    ghost predicate Valid()
      reads this, objectDispatcher, imageDispatcher
    {
      && objectDispatcher != imageDispatcher
      && objectDispatcher.Valid() && imageDispatcher.Valid()
      && (crypto.None? ==> LayersFree(State()))
    }

    ghost function State(): CtxState
      reads this, objectDispatcher, imageDispatcher
    {
      CtxState(crypto, objectDispatcher.dispatches, imageDispatcher.dispatches)
    }

    constructor (journaling: bool, parent: ImageCtx?)
      ensures Valid() && fresh(objectDispatcher) && fresh(imageDispatcher)
      ensures crypto == None && !isFormattedClone && encryptionFormat == None
      ensures this.journaling == journaling && this.parent == parent
    {
      crypto := None;
      isFormattedClone := false;
      encryptionFormat := None;
      this.journaling := journaling;
      this.parent := parent;
      objectDispatcher := new Dispatcher();
      imageDispatcher := new Dispatcher();
      opWorkQueue := new WorkQueue();
    }
  }

  /**
   * `chain` is an image followed by its ancestors, linked by `parent` and
   * ending at an image without one; every context owns its own dispatchers.
   */
  ghost predicate IsChain(chain: seq<ImageCtx>)
  {
    && |chain| >= 1
    && (forall i :: 0 <= i < |chain| - 1 ==> chain[i].parent == chain[i + 1])
    && chain[|chain| - 1].parent == null
    && (forall i, j :: 0 <= i < j < |chain| ==> chain[i] != chain[j])
    && (forall i, j :: 0 <= i < j < |chain| ==>
          && chain[i].objectDispatcher != chain[j].objectDispatcher
          && chain[i].imageDispatcher != chain[j].imageDispatcher)
    && (forall i, j :: 0 <= i < |chain| && 0 <= j < |chain| ==> chain[i].objectDispatcher != chain[j].imageDispatcher)
  }

  ghost function Footprint(chain: seq<ImageCtx>): set<object>
  {
    (set i | 0 <= i < |chain| :: chain[i] as object)
    + (set i | 0 <= i < |chain| :: chain[i].objectDispatcher as object)
    + (set i | 0 <= i < |chain| :: chain[i].imageDispatcher as object)
  }

  ghost predicate ChainValid(chain: seq<ImageCtx>)
    reads Footprint(chain)
  {
    forall i :: 0 <= i < |chain| ==> chain[i].Valid()
  }

  /** The states of a chain's contexts, image first. */
  ghost function States(chain: seq<ImageCtx>): (r: seq<CtxState>)
    reads Footprint(chain)
    ensures |r| == |chain|
  {
    seq(|chain|, i reads Footprint(chain) requires 0 <= i < |chain| => chain[i].State())
  }
}
