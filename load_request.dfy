/**
 * LoadRequest: loads an encryption format on an image and on every ancestor
 * that shares or records a cipher. After the format has loaded the image's
 * cipher, the request walks image -> parent -> grandparent: each visited
 * image gets the current cipher; an ancestor reached through a missing
 * parent record inherits it, an empty record ends the walk, and a recorded
 * wrapped key is unwrapped with the current key into the next cipher. On
 * success every image from the image up to the first one without a cipher
 * has its crypto layers registered; on failure the ciphers set by the walk
 * are cleared again.
 */
module Load {
  import opened Common
  import opened CryptoTypes
  import opened IoDispatcher
  import opened Image
  import opened CryptoUtils

  /** The length of the leading run of contexts that have a cipher. */
  function CryptoPrefix(s: seq<CtxState>): (n: nat)
    ensures n <= |s|
    ensures forall j :: 0 <= j < n ==> s[j].crypto.Some?
    ensures n < |s| ==> s[n].crypto.None?
  {
    if s == [] || s[0].crypto.None? then 0 else 1 + CryptoPrefix(s[1..])
  }

  lemma {:induction false} CryptoPrefixUnique(s: seq<CtxState>, n: nat)
    requires n <= |s|
    requires forall j :: 0 <= j < n ==> s[j].crypto.Some?
    requires n < |s| ==> s[n].crypto.None?
    ensures CryptoPrefix(s) == n
  {
    if n > 0 {
      assert s[0].crypto.Some?;
      CryptoPrefixUnique(s[1..], n - 1);
    }
  }

  /** finish on success: each context of the leading run gets its own cipher installed. */
  function Committed(s: seq<CtxState>): (r: seq<CtxState>)
    ensures |r| == |s|
  {
    seq(|s|, j requires 0 <= j < |s| => if j < CryptoPrefix(s) then Installed(s[j], s[j].crypto.value) else s[j])
  }

  /** finish on failure: the cipher of each context of the leading run is cleared. */
  function RolledBack(s: seq<CtxState>): (r: seq<CtxState>)
    ensures |r| == |s|
  {
    seq(|s|, j requires 0 <= j < |s| => if j < CryptoPrefix(s) then s[j].(crypto := None) else s[j])
  }

  /**
   * Committing keeps every cipher and registers both crypto layers exactly
   * on the images of the leading run; nothing after it changes.
   */
  lemma CommittedRegistersLeadingRun(s: seq<CtxState>, j: nat)
    requires j < |s|
    ensures Committed(s)[j].crypto == s[j].crypto
    ensures j < CryptoPrefix(s) ==> !LayersFree(Committed(s)[j])
    ensures j >= CryptoPrefix(s) ==> Committed(s)[j] == s[j]
    ensures CryptoPrefix(Committed(s)) == CryptoPrefix(s)
  {
    var c := Committed(s);
    CryptoPrefixUnique(c, CryptoPrefix(s));
  }

  /**
   * Rolling back leaves the image without a cipher, touches no dispatcher,
   * and stops at the first image that had none.
   */
  lemma RolledBackClearsLeadingRun(s: seq<CtxState>, j: nat)
    requires j < |s|
    ensures RolledBack(s)[0].crypto.None?
    ensures RolledBack(s)[j].objectDispatches == s[j].objectDispatches
    ensures RolledBack(s)[j].imageDispatches == s[j].imageDispatches
    ensures j >= CryptoPrefix(s) ==> RolledBack(s)[j] == s[j]
    ensures CryptoPrefix(RolledBack(s)) == 0
  {
  }

  /** Rolling back a chain whose image has no cipher changes nothing. */
  lemma RolledBackNothing(s: seq<CtxState>)
    requires |s| > 0 && s[0].crypto.None?
    ensures RolledBack(s) == s
  {
  }

  /**
   * What one metadata read decides about the next ancestor: inherit the
   * current cipher (no record), stop the walk (a record with an empty key),
   * move on with the cipher unwrapped from the record, or fail with a status.
   */
  datatype Visit = Inherit | Stop | Unwrapped(crypto: Crypto) | Failed(status: int)

  /**
   * handle_read_metadata's decision from the read status `r`, the status and
   * value of the metadata reply, and the current cipher. A malformed record
   * makes the decoder throw, so a successful reply must hold one.
   */
  function NextVisit(r: int, replyStatus: int, value: seq<byte>, current: Crypto, cryptor: DataCryptor): (v: Visit)
    requires r >= 0 && replyStatus >= 0 ==> Decode(value).Some?
    ensures r == -ENOENT ==> v == Inherit
    ensures r < 0 && r != -ENOENT ==> v == Failed(r)
    ensures r >= 0 && replyStatus < 0 ==> v == Failed(replyStatus)
    ensures v.Stop? <==> r >= 0 && replyStatus >= 0 && Decode(value).value.params.wrappedKey == []
    ensures v.Failed? ==> v.status != 0
    ensures v.Unwrapped? ==>
              var params := Decode(value).value.params;
              && r >= 0 && replyStatus >= 0
              && v.crypto.blockSize == params.blockSize && v.crypto.dataOffset == params.dataOffset
              && v.crypto.key == KeyWrap(Dec, current.key, params.wrappedKey, [], cryptor).out
    ensures r >= 0 && replyStatus >= 0 && Decode(value).value.params.wrappedKey != [] ==>
              var params := Decode(value).value.params;
              var unwrapped := KeyWrap(Dec, current.key, params.wrappedKey, [], cryptor);
              var built := BuildCrypto(unwrapped.out, params.blockSize, params.dataOffset, cryptor);
              && (v.Unwrapped? <==> unwrapped.status == 0 && built.status == 0)
              && (v.Failed? ==> v.status == if unwrapped.status != 0 then unwrapped.status else built.status)
  {
    if r == -ENOENT then Inherit
    else if r < 0 then Failed(r)
    else if replyStatus < 0 then Failed(replyStatus)
    else
      var params := Decode(value).value.params;
      if params.wrappedKey == [] then Stop
      else
        var unwrapped := KeyWrap(Dec, current.key, params.wrappedKey, [], cryptor);
        if unwrapped.status != 0 then Failed(unwrapped.status)
        else
          var built := BuildCrypto(unwrapped.out, params.blockSize, params.dataOffset, cryptor);
          if built.status != 0 then Failed(built.status)
          else Unwrapped(built.crypto.value)
  }

  /**
   * A non-empty parent record leads on to the next ancestor exactly when the
   * current key is long enough, the record is whole 8-byte blocks, the key
   * wrap cipher initialises, and the unwrapped key has an XTS length whose
   * cipher initialises too; otherwise the walk fails with the status of the
   * first of those steps that failed.
   */
  lemma {:induction false} UnwrapDecision(r: int, replyStatus: int, value: seq<byte>, current: Crypto, cryptor: DataCryptor)
    requires r >= 0 && replyStatus >= 0 && Decode(value).Some?
    requires Decode(value).value.params.wrappedKey != []
    ensures var params := Decode(value).value.params;
      var v := NextVisit(r, replyStatus, value, current, cryptor);
      var wrapInit := cryptor.init(IdAes256Wrap, if |current.key| >= 32 then current.key[..32] else current.key);
      var unwrapped := KeyWrap(Dec, current.key, params.wrappedKey, [], cryptor).out;
      var keyLen := |params.wrappedKey| - 8;
      && (v.Unwrapped? <==>
            && |current.key| >= 32 && |params.wrappedKey| % 8 == 0 && wrapInit == 0
            && (keyLen == 32 || keyLen == 64)
            && cryptor.init(Xts(SuiteForKeyLength(keyLen).value), unwrapped) == 0)
      && (|current.key| < 32 || |params.wrappedKey| % 8 != 0 ==> v == Failed(-EINVAL))
      && (|current.key| >= 32 && |params.wrappedKey| % 8 == 0 && wrapInit != 0 ==> v == Failed(wrapInit))
      && (|current.key| >= 32 && |params.wrappedKey| % 8 == 0 && wrapInit == 0 && keyLen != 32 && keyLen != 64 ==>
            v == Failed(-ENOTSUP))
  {
    var params := Decode(value).value.params;
    KeyWrapSucceeds(Dec, current.key, params.wrappedKey, [], cryptor);
    var w := KeyWrap(Dec, current.key, params.wrappedKey, [], cryptor);
    if w.status == 0 {
      assert |params.wrappedKey| >= 8;
      assert |w.out| == |params.wrappedKey| - 8;
      BuildCryptoStatus(w.out, params.blockSize, params.dataOffset, cryptor);
    }
  }

  /**
   * A recorded parent key is used only if it unwraps under the current key
   * into a 32- or 64-byte key that builds an XTS cipher.
   */
  lemma UnwrapNeedsSupportedKey(r: int, replyStatus: int, value: seq<byte>, current: Crypto, cryptor: DataCryptor)
    requires r >= 0 && replyStatus >= 0 ==> Decode(value).Some?
    ensures var v := NextVisit(r, replyStatus, value, current, cryptor);
      v.Unwrapped? ==>
        var params := Decode(value).value.params;
        && |params.wrappedKey| % 8 == 0 && |current.key| >= 32
        && |params.wrappedKey| - 8 == XtsKeyLength(v.crypto.suite)
  {
    var v := NextVisit(r, replyStatus, value, current, cryptor);
    if v.Unwrapped? {
      var params := Decode(value).value.params;
      KeyWrapSucceeds(Dec, current.key, params.wrappedKey, [], cryptor);
    }
  }

  /**
   * As written, finish rolls back whenever it is given an error, including
   * the -EEXIST with which send refuses an image that already has a cipher:
   * that image loses its cipher and keeps both crypto layers registered.
   */
  lemma RollbackOfLoadedImage(c: Crypto)
    ensures var loaded := Installed(CtxState(None, map[], map[]), c);
      && RolledBack([loaded])[0].crypto.None?
      && !LayersFree(RolledBack([loaded])[0])
  {
    var loaded := Installed(CtxState(None, map[], map[]), c);
    assert CryptoPrefix([loaded]) == 1 by { CryptoPrefixUnique([loaded], 1); }
  }

  /** The parent pointer of a chain's context is the next context, or null at the end. */
  lemma ChainLink(chain: seq<ImageCtx>, i: nat)
    requires IsChain(chain) && i < |chain|
    ensures chain[i].parent == if i + 1 < |chain| then chain[i + 1] else null
  {
  }

  /** The contexts of a chain other than `chain[i]` own none of its objects. */
  lemma ChainSeparated(chain: seq<ImageCtx>, i: nat)
    requires IsChain(chain) && i < |chain|
    ensures forall j :: 0 <= j < |chain| && j != i ==>
              && chain[j] != chain[i]
              && chain[j].objectDispatcher != chain[i].objectDispatcher
              && chain[j].imageDispatcher != chain[i].imageDispatcher
              && chain[j].objectDispatcher != chain[i].imageDispatcher
              && chain[j].imageDispatcher != chain[i].objectDispatcher
  {
    forall j | 0 <= j < |chain| && j != i
      ensures chain[j] != chain[i]
      ensures chain[j].objectDispatcher != chain[i].objectDispatcher && chain[j].imageDispatcher != chain[i].imageDispatcher
    {
      if j < i {
      } else {
      }
    }
  }

  /**
   * What the commit loop keeps for one context: it is well formed and its
   * state is the `before` state, with the cipher installed once the loop has
   * passed it.
   */
  ghost predicate Committing(c: ImageCtx, before: CtxState, passed: bool)
    reads c, c.objectDispatcher, c.imageDispatcher
  {
    && c.Valid()
    && if passed then before.crypto.Some? && c.State() == Installed(before, before.crypto.value) else c.State() == before
  }

  /** What the rollback loop keeps for one context, as for the commit loop. */
  ghost predicate Clearing(c: ImageCtx, before: CtxState, passed: bool)
    reads c, c.objectDispatcher, c.imageDispatcher
  {
    && c.Valid()
    && if passed then before.crypto.Some? && c.State() == before.(crypto := None) else c.State() == before
  }

  /** One step of the commit loop: set_crypto on a context that has a cipher and no crypto layer. */
  method InstallAt(ictx: ImageCtx, ghost before: CtxState)
    requires Committing(ictx, before, false) && ictx.crypto.Some? && LayersFree(before)
    modifies ictx, ictx.objectDispatcher, ictx.imageDispatcher
    ensures Committing(ictx, before, true)
  {
    SetCrypto(ictx, ictx.crypto.value);
  }

  /** One step of the rollback loop: clear the cipher of a context that has no crypto layer. */
  method ClearAt(ictx: ImageCtx, ghost before: CtxState)
    requires Clearing(ictx, before, false) && ictx.crypto.Some? && LayersFree(before)
    modifies ictx
    ensures Clearing(ictx, before, true)
  {
    ictx.crypto := None;
  }

  /** Per-context description of a run of the commit loop that stopped after `n` contexts. */
  lemma CommittedFromSteps(before: seq<CtxState>, after: seq<CtxState>, n: nat)
    requires |after| == |before| && n <= |before|
    requires forall j :: 0 <= j < n ==> before[j].crypto.Some?
    requires n < |before| ==> before[n].crypto.None?
    requires forall j :: 0 <= j < |before| ==> after[j] == (if j < n then Installed(before[j], before[j].crypto.value) else before[j])
    ensures after == Committed(before)
  {
    CryptoPrefixUnique(before, n);
  }

  /** Per-context description of a run of the rollback loop that stopped after `n` contexts. */
  lemma RolledBackFromSteps(before: seq<CtxState>, after: seq<CtxState>, n: nat)
    requires |after| == |before| && n <= |before|
    requires forall j :: 0 <= j < n ==> before[j].crypto.Some?
    requires n < |before| ==> before[n].crypto.None?
    requires forall j :: 0 <= j < |before| ==> after[j] == (if j < n then before[j].(crypto := None) else before[j])
    ensures after == RolledBack(before)
  {
    CryptoPrefixUnique(before, n);
  }

  /**
   * The commit loop of finish: set_crypto on each image of the leading run.
   * Returns the length `n` of that run.
   */
  method InstallLeadingRun(image: ImageCtx, ghost chain: seq<ImageCtx>, ghost before: seq<CtxState>)
    returns (ghost n: nat)
    requires IsChain(chain) && chain[0] == image && |before| == |chain|
    requires forall j :: 0 <= j < |chain| ==> Committing(chain[j], before[j], false) && LayersFree(before[j])
    modifies Footprint(chain)
    ensures n <= |chain| && (forall j :: 0 <= j < n ==> before[j].crypto.Some?) && (n < |chain| ==> before[n].crypto.None?)
    ensures forall j :: 0 <= j < |chain| ==> Committing(chain[j], before[j], j < n)
  {
    var ictx: ImageCtx? := image;
    n := 0;
    while ictx != null
      invariant 0 <= n <= |chain| && ictx == (if n < |chain| then chain[n] else null)
      invariant forall j :: 0 <= j < |chain| ==> Committing(chain[j], before[j], j < n)
      decreases |chain| - n
    {
      if ictx.crypto.None? {
        break;
      }
      ChainSeparated(chain, n);
      InstallAt(ictx, before[n]);
      ictx := ictx.parent;
      n := n + 1;
    }
  }

  /** The rollback loop of finish: clear the cipher of each image of the leading run, whose length it returns. */
  method ClearLeadingRun(image: ImageCtx, ghost chain: seq<ImageCtx>, ghost before: seq<CtxState>)
    returns (ghost n: nat)
    requires IsChain(chain) && chain[0] == image && |before| == |chain|
    requires forall j :: 0 <= j < |chain| ==> Clearing(chain[j], before[j], false)
    requires forall j :: 0 <= j < |chain| && before[j].crypto.Some? ==> LayersFree(before[j])
    modifies set j | 0 <= j < |chain| :: chain[j]
    ensures n <= |chain| && (forall j :: 0 <= j < n ==> before[j].crypto.Some?) && (n < |chain| ==> before[n].crypto.None?)
    ensures forall j :: 0 <= j < |chain| ==> Clearing(chain[j], before[j], j < n)
  {
    var ictx: ImageCtx? := image;
    n := 0;
    while ictx != null && ictx.crypto.Some?
      invariant 0 <= n <= |chain| && ictx == (if n < |chain| then chain[n] else null)
      invariant forall j :: 0 <= j < |chain| ==> Clearing(chain[j], before[j], j < n)
      decreases |chain| - n
    {
      ChainSeparated(chain, n);
      ClearAt(ictx, before[n]);
      ictx := ictx.parent;
      n := n + 1;
    }
  }

  /** Before either loop, every context of a well-formed chain is its own snapshot. */
  lemma StartLoops(chain: seq<ImageCtx>)
    requires ChainValid(chain)
    ensures forall j :: 0 <= j < |chain| ==>
              && Committing(chain[j], States(chain)[j], false)
              && Clearing(chain[j], States(chain)[j], false)
  {
  }

  /** The chain after the commit loop, in terms of States. */
  lemma CommittedChain(chain: seq<ImageCtx>, before: seq<CtxState>, n: nat)
    requires |before| == |chain|
    requires n <= |chain| && (forall j :: 0 <= j < n ==> before[j].crypto.Some?) && (n < |chain| ==> before[n].crypto.None?)
    requires forall j :: 0 <= j < |chain| ==> Committing(chain[j], before[j], j < n)
    ensures ChainValid(chain) && States(chain) == Committed(before)
    ensures forall j :: 0 <= j < |chain| ==> chain[j].crypto == before[j].crypto
  {
    CommittedFromSteps(before, States(chain), n);
  }

  /** The chain after the rollback loop, in terms of States. */
  lemma ClearedChain(chain: seq<ImageCtx>, before: seq<CtxState>, n: nat)
    requires |before| == |chain|
    requires n <= |chain| && (forall j :: 0 <= j < n ==> before[j].crypto.Some?) && (n < |chain| ==> before[n].crypto.None?)
    requires forall j :: 0 <= j < |chain| ==> Clearing(chain[j], before[j], j < n)
    ensures ChainValid(chain) && States(chain) == RolledBack(before)
  {
    RolledBackFromSteps(before, States(chain), n);
  }

  /** The success half of finish: the commit loop, then the format recorded on the image. */
  method CommitChain(image: ImageCtx, ghost chain: seq<ImageCtx>, format: EncryptionFormat)
    requires IsChain(chain) && chain[0] == image && ChainValid(chain)
    requires forall j :: 0 <= j < |chain| ==> LayersFree(chain[j].State())
    modifies Footprint(chain)
    ensures ChainValid(chain)
    ensures States(chain) == Committed(old(States(chain)))
    ensures image.encryptionFormat == Some(format)
    ensures forall j :: 0 <= j < |chain| ==> chain[j].crypto == old(chain[j].crypto)
  {
    ghost var before := States(chain);
    StartLoops(chain);
    ghost var n := InstallLeadingRun(image, chain, before);
    CommittedChain(chain, before, n);
    RecordFormat(image, chain, format);
  }

  /** Records the format on the image; no state and no other flag changes. */
  method RecordFormat(image: ImageCtx, ghost chain: seq<ImageCtx>, format: EncryptionFormat)
    requires IsChain(chain) && chain[0] == image && ChainValid(chain)
    modifies image
    ensures ChainValid(chain) && States(chain) == old(States(chain)) && image.encryptionFormat == Some(format)
    ensures forall j :: 0 <= j < |chain| ==> chain[j].crypto == old(chain[j].crypto)
  {
    ghost var states := States(chain);
    ChainSeparated(chain, 0);
    image.encryptionFormat := Some(format);
    assert forall j :: 0 <= j < |chain| ==> chain[j].State() == states[j];
  }

  /** The failure half of finish: the rollback loop. */
  method RollBackChain(image: ImageCtx, ghost chain: seq<ImageCtx>)
    requires IsChain(chain) && chain[0] == image && ChainValid(chain)
    requires forall j :: 0 <= j < |chain| && chain[j].crypto.Some? ==> LayersFree(chain[j].State())
    modifies Footprint(chain)
    ensures ChainValid(chain)
    ensures States(chain) == RolledBack(old(States(chain)))
  {
    ghost var before := States(chain);
    StartLoops(chain);
    ghost var n := ClearLeadingRun(image, chain, before);
    ClearedChain(chain, before, n);
  }

  datatype LoadStep = LoadStart | Loading | ReadingMetadata | LoadFinished

  class LoadRequest {
    const image: ImageCtx
    const format: EncryptionFormat
    /** The image and its ancestors. */
    ghost const chain: seq<ImageCtx>
    /** m_current_ctx and its position in the chain. */
    var current: ImageCtx
    ghost var index: nat
    /** m_current_crypto. */
    var currentCrypto: Option<Crypto>
    var step: LoadStep
    /** Statuses on_finish was completed with. */
    var onFinish: seq<int>

    /**
     * While the request runs, no image of the chain has a crypto layer
     * registered; the images visited so far have a cipher.
     */
    ghost predicate Valid()
      reads this, Footprint(chain)
    {
      && this !in Footprint(chain)
      && IsChain(chain) && chain[0] == image && ChainValid(chain)
      && index < |chain| && current == chain[index]
      && (step == LoadFinished <==> onFinish != [])
      && (step == LoadStart ==> index == 0 && forall j :: 1 <= j < |chain| ==> LayersFree(chain[j].State()))
      && ((step.Loading? || step.ReadingMetadata?) ==> forall j :: 0 <= j < |chain| ==> LayersFree(chain[j].State()))
      && (step == ReadingMetadata ==>
            && currentCrypto.Some?
            && forall j :: 0 <= j < index ==> chain[j].crypto.Some?)
    }

    constructor (image: ImageCtx, format: EncryptionFormat, ghost chain: seq<ImageCtx>)
      requires IsChain(chain) && chain[0] == image && ChainValid(chain)
      requires forall j :: 1 <= j < |chain| ==> LayersFree(chain[j].State())
      ensures Valid() && this.image == image && this.format == format && this.chain == chain
      ensures step == LoadStart && onFinish == [] && currentCrypto == None
    {
      this.image := image;
      this.format := format;
      this.chain := chain;
      current := image;
      index := 0;
      currentCrypto := None;
      step := LoadStart;
      onFinish := [];
    }

    /** A metadata read of `current`'s record is in flight; `current` has a parent. */
    ghost predicate AwaitingMetadata()
      reads this, Footprint(chain)
    {
      Valid() && step == ReadingMetadata && index < |chain| - 1 && current.crypto == currentCrypto
    }

    /**
     * send: refuse an image that already has a cipher with -EEXIST, leaving
     * it as it is; refuse with -ENOTSUP if the image or any ancestor has
     * journaling; otherwise hand over to the format's load.
     */
    method Send()
      requires Valid() && step == LoadStart
      modifies this, Footprint(chain)
      ensures Valid()
      ensures States(chain) == old(States(chain))
      ensures old(image.crypto).Some? ==> onFinish == [-EEXIST]
      ensures old(image.crypto).None? && (exists j :: 0 <= j < |chain| && chain[j].journaling) ==> onFinish == [-ENOTSUP]
      ensures old(image.crypto).None? && (forall j :: 0 <= j < |chain| ==> !chain[j].journaling) ==> step == Loading && onFinish == []
    {
      if image.crypto.Some? {
        step := LoadFinished;
        onFinish := onFinish + [-EEXIST];
        return;
      }
      var ictx: ImageCtx? := image;
      ghost var i := 0;
      while ictx != null && !ictx.journaling
        invariant 0 <= i <= |chain| && ictx == (if i < |chain| then chain[i] else null)
        invariant forall j :: 0 <= j < i ==> !chain[j].journaling
        decreases |chain| - i
      {
        ictx := ictx.parent;
        i := i + 1;
      }
      if ictx != null {
        RolledBackNothing(States(chain));
        Finish(-ENOTSUP);
        return;
      }
      step := Loading;
    }

    /** handle_load: a failed load finishes with its status, otherwise the walk starts at the image with the format's cipher. */
    method HandleLoad(r: int)
      requires Valid() && step == Loading
      modifies this, Footprint(chain)
      ensures Valid()
      ensures r != 0 ==> onFinish == [r] && States(chain) == RolledBack(old(States(chain)))
      ensures r == 0 ==> index == 0 && currentCrypto == Some(format.crypto)
      ensures r == 0 ==> image.crypto == Some(format.crypto)
      ensures r == 0 && |chain| == 1 ==>
                onFinish == [0] && States(chain) == Committed(old(States(chain))[0 := old(image.State()).(crypto := Some(format.crypto))])
      ensures r == 0 && |chain| > 1 ==>
                AwaitingMetadata() && States(chain) == old(States(chain))[0 := old(image.State()).(crypto := Some(format.crypto))]
    {
      if r != 0 {
        Finish(r);
        return;
      }
      current := image;
      index := 0;
      currentCrypto := Some(format.crypto);
      ReadMetadata();
    }

    /**
     * read_metadata: give the current image the current cipher; without a
     * parent the walk succeeds, otherwise the image's parent record is read.
     */
    method ReadMetadata()
      requires Valid() && (step.Loading? || step.ReadingMetadata?) && currentCrypto.Some?
      requires forall j :: 0 <= j < index ==> chain[j].crypto.Some?
      modifies this, Footprint(chain)
      ensures Valid() && index == old(index) && currentCrypto == old(currentCrypto)
      ensures chain[index].crypto == currentCrypto
      ensures index == |chain| - 1 ==>
                && onFinish == [0]
                && States(chain) == Committed(old(States(chain))[index := old(current.State()).(crypto := currentCrypto)])
      ensures index < |chain| - 1 ==>
                && AwaitingMetadata()
                && States(chain) == old(States(chain))[index := old(current.State()).(crypto := currentCrypto)]
    {
      ChainLink(chain, index);
      SetCurrentCrypto();
      if current.parent == null {
        Commit();
        return;
      }
      AwaitParentRecord();
    }

    /** The current image has a parent: its parent record is read next. */
    method AwaitParentRecord()
      requires Valid() && (step.Loading? || step.ReadingMetadata?) && current.parent != null
      requires forall j :: 0 <= j <= index ==> chain[j].crypto.Some?
      requires current.crypto == currentCrypto
      modifies this
      ensures AwaitingMetadata() && index == old(index) && currentCrypto == old(currentCrypto)
    {
      ChainLink(chain, index);
      step := ReadingMetadata;
    }

    /** ImageCtx::set_crypto on the current image: only the pointer, no dispatch layer. */
    method SetCurrentCrypto()
      requires Valid() && (step.Loading? || step.ReadingMetadata?) && currentCrypto.Some?
      requires forall j :: 0 <= j < index ==> chain[j].crypto.Some?
      modifies current
      ensures Valid() && forall j :: 0 <= j <= index ==> chain[j].crypto.Some?
      ensures current.crypto == currentCrypto
      ensures States(chain) == old(States(chain))[index := old(current.State()).(crypto := currentCrypto)]
    {
      ChainSeparated(chain, index);
      current.crypto := currentCrypto;
    }

    /**
     * handle_read_metadata: act on the decision NextVisit takes from the
     * metadata reply.
     */
    method HandleReadMetadata(r: int, replyStatus: int, value: seq<byte>, cryptor: DataCryptor)
      requires AwaitingMetadata()
      requires r >= 0 && replyStatus >= 0 ==> Decode(value).Some?
      modifies this, Footprint(chain)
      ensures Valid()
      ensures Visited(NextVisit(r, replyStatus, value, old(currentCrypto).value, cryptor))
    {
      var visit := NextVisit(r, replyStatus, value, currentCrypto.value, cryptor);
      ApplyVisit(visit);
    }

    /**
     * What handling one metadata reply did: finish with the error; finish
     * successfully at an empty record; or move to the parent with the
     * inherited or unwrapped cipher, which the parent is given before its
     * own record is read (or, at the last ancestor, the walk succeeds).
     */
    twostate predicate Visited(visit: Visit)
      reads this, Footprint(chain)
    {
      && (visit.Failed? ==> onFinish == [visit.status] && States(chain) == RolledBack(old(States(chain))))
      && (visit.Stop? ==> onFinish == [0] && States(chain) == Committed(old(States(chain))))
      && (visit.Inherit? || visit.Unwrapped? ==>
            && index == old(index) + 1
            && currentCrypto == (if visit.Inherit? then old(currentCrypto) else Some(visit.crypto))
            && index < |chain| && chain[index].crypto == currentCrypto
            && (index == |chain| - 1 ==>
                  onFinish == [0] && States(chain) == Committed(old(States(chain))[index := old(States(chain))[index].(crypto := currentCrypto)]))
            && (index < |chain| - 1 ==>
                  AwaitingMetadata() && States(chain) == old(States(chain))[index := old(States(chain))[index].(crypto := currentCrypto)]))
    }

    method ApplyVisit(visit: Visit)
      requires AwaitingMetadata()
      requires visit.Failed? ==> visit.status != 0
      modifies this, Footprint(chain)
      ensures Valid() && Visited(visit)
    {
      match visit
      case Failed(status) =>
        Finish(status);
      case Stop =>
        Finish(0);
      case Inherit =>
        Advance(currentCrypto.value);
      case Unwrapped(crypto) =>
        Advance(crypto);
    }

    /** Move on to the parent with cipher `next`, which read_metadata gives it. */
    method Advance(next: Crypto)
      requires AwaitingMetadata()
      modifies this, Footprint(chain)
      ensures Valid() && index == old(index) + 1 && currentCrypto == Some(next)
      ensures index < |chain| && chain[index].crypto == Some(next)
      ensures index == |chain| - 1 ==>
                onFinish == [0] && States(chain) == Committed(old(States(chain))[index := old(States(chain))[index].(crypto := Some(next))])
      ensures index < |chain| - 1 ==>
                AwaitingMetadata() && States(chain) == old(States(chain))[index := old(States(chain))[index].(crypto := Some(next))]
    {
      ghost var before := States(chain);
      currentCrypto := Some(next);
      MoveToParent();
      assert States(chain) == before && current.State() == before[index];
      ReadMetadata();
    }

    /** m_current_ctx = m_current_ctx->parent. */
    method MoveToParent()
      requires Valid() && step == ReadingMetadata && index < |chain| - 1 && currentCrypto.Some?
      requires forall j :: 0 <= j <= index ==> chain[j].crypto.Some?
      modifies this
      ensures Valid() && step == ReadingMetadata && currentCrypto == old(currentCrypto)
      ensures index == old(index) + 1 && current == chain[index]
      ensures forall j :: 0 <= j < index ==> chain[j].crypto.Some?
    {
      ChainLink(chain, index);
      current := current.parent;
      index := index + 1;
    }

    /**
     * finish: on success install the cipher (and register both crypto layers)
     * on the image and each ancestor up to the first one without a cipher,
     * and record the format on the image; on failure clear the ciphers of
     * that same leading run.
     */
    method Finish(r: int)
      requires Valid() && step != LoadFinished
      requires step == LoadStart ==> r != 0 && image.crypto.None?
      modifies this, Footprint(chain)
      ensures Valid() && step == LoadFinished && onFinish == [r]
      ensures index == old(index) && current == old(current) && currentCrypto == old(currentCrypto)
      ensures r == 0 ==> States(chain) == Committed(old(States(chain)))
      ensures r == 0 ==> image.encryptionFormat == Some(format)
      ensures r != 0 ==> States(chain) == RolledBack(old(States(chain)))
    {
      if r == 0 {
        Commit();
      } else {
        RollBack(r);
      }
    }

    /** finish(0). */
    method Commit()
      requires Valid() && (step.Loading? || step.ReadingMetadata?)
      modifies this, Footprint(chain)
      ensures Valid() && step == LoadFinished && onFinish == [0]
      ensures index == old(index) && current == old(current) && currentCrypto == old(currentCrypto)
      ensures States(chain) == Committed(old(States(chain)))
      ensures image.encryptionFormat == Some(format)
      ensures forall j :: 0 <= j < |chain| ==> chain[j].crypto == old(chain[j].crypto)
    {
      CommitChain(image, chain, format);
      step := LoadFinished;
      onFinish := onFinish + [0];
    }

    /** finish(r) with r != 0. */
    method RollBack(r: int)
      requires Valid() && step != LoadFinished
      requires step == LoadStart ==> image.crypto.None?
      modifies this, Footprint(chain)
      ensures Valid() && step == LoadFinished && onFinish == [r]
      ensures index == old(index) && current == old(current) && currentCrypto == old(currentCrypto)
      ensures States(chain) == RolledBack(old(States(chain)))
    {
      RollBackChain(image, chain);
      step := LoadFinished;
      onFinish := onFinish + [r];
    }
  }
}
