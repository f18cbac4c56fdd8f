/**
 * FlattenRequest: removes an encrypted clone's dependence on its parent's
 * cipher. It opens a second, raw context of the image (no cipher loaded),
 * copies the objects holding the crypto header up from the parent, removes
 * the stored parent record, lets the format rewrite its own header, and
 * closes the raw context again. The first error wins, but a raw context
 * that was opened is always closed.
 */
module Flatten {
  import opened Common
  import opened Image
  import opened Format

  /**
   * What flattening one header object does: whether it asked for a copyup
   * and the status it hands back to the throttle (1 for "nothing to do").
   */
  datatype ObjectFlatten = ObjectFlatten(status: int, copyupRequested: bool)

  /**
   * C_FlattenObject::send. `mayNotExist` is the object map's answer for the
   * object, None when the image has no object map; `copyupStarted` is what
   * trigger_copyup reports when it is asked (false once the parent is gone).
   */
  function FlattenObject(mayNotExist: Option<bool>, copyupStarted: bool): (r: ObjectFlatten)
    ensures r.status == 0 || r.status == 1
    ensures r.copyupRequested <==> mayNotExist != Some(false)
    ensures r.status == 0 <==> r.copyupRequested && copyupStarted
  {
    if mayNotExist == Some(false) then ObjectFlatten(1, false)
    else if !copyupStarted then ObjectFlatten(1, true)
    else ObjectFlatten(0, true)
  }

  /** The requests a flatten issues, in the order it issues them. */
  datatype FlattenOp =
    | OpenRaw
    | FlattenHeader(headerBytes: u64)
    | RemoveMetadata(key: string)
    | FormatFlatten
    | CloseRaw

  /**
   * The status a whole flatten reports, given whether a format was passed,
   * whether the image has a cipher loaded, and the status each asynchronous
   * step completes with (a step that does not run is ignored).
   */
  function FlattenOutcome(hasFormat: bool, cryptoLoaded: bool,
                          open: int, header: int, remove: int, flatten: int, close: int): int
  {
    if !hasFormat then (if cryptoLoaded then -EINVAL else 0)
    else if open < 0 then open
    else
      var ret := if !cryptoLoaded then 0 else if header < 0 then header else if remove < 0 then remove else flatten;
      if close < 0 && ret >= 0 then close else ret
  }

  /** The requests a whole flatten issues, under the same inputs. */
  function FlattenOps(hasFormat: bool, crypto: Option<Crypto>, open: int, header: int, remove: int): seq<FlattenOp>
  {
    if !hasFormat then []
    else if open < 0 then [OpenRaw]
    else if crypto.None? then [OpenRaw, CloseRaw]
    else if header < 0 then [OpenRaw, FlattenHeader(crypto.value.dataOffset), CloseRaw]
    else if remove < 0 then [OpenRaw, FlattenHeader(crypto.value.dataOffset), RemoveMetadata(PARENT_CRYPTOR_METADATA_KEY), CloseRaw]
    else [OpenRaw, FlattenHeader(crypto.value.dataOffset), RemoveMetadata(PARENT_CRYPTOR_METADATA_KEY), FormatFlatten, CloseRaw]
  }

  /** The full step order: open, flatten the header, remove the record, format flatten. */
  function FullOrder(crypto: Crypto): seq<FlattenOp>
  {
    [OpenRaw, FlattenHeader(crypto.dataOffset), RemoveMetadata(PARENT_CRYPTOR_METADATA_KEY), FormatFlatten]
  }

  /**
   * Without a format nothing is opened; otherwise the raw context is opened
   * first, and it is closed, as the last request, exactly when the open
   * succeeded. In between, the steps run in their fixed order, each only
   * after every earlier one succeeded.
   */
  lemma FlattenOpsOrder(hasFormat: bool, crypto: Option<Crypto>, open: int, header: int, remove: int)
    ensures var ops := FlattenOps(hasFormat, crypto, open, header, remove);
      && (!hasFormat <==> ops == [])
      && (hasFormat ==> ops[0] == OpenRaw)
      && (CloseRaw in ops <==> hasFormat && open >= 0)
      && (CloseRaw in ops ==> ops[|ops| - 1] == CloseRaw && CloseRaw !in ops[..|ops| - 1])
      && (hasFormat && open >= 0 && crypto.Some? ==>
            exists k :: 1 < k <= 4 && ops == FullOrder(crypto.value)[..k] + [CloseRaw])
      && (FormatFlatten in ops <==> hasFormat && open >= 0 && crypto.Some? && header >= 0 && remove >= 0)
  {
    var ops := FlattenOps(hasFormat, crypto, open, header, remove);
    if hasFormat && open >= 0 && crypto.Some? {
      var full := FullOrder(crypto.value);
      var k := if header < 0 then 2 else if remove < 0 then 3 else 4;
      assert ops == full[..k] + [CloseRaw];
    }
  }

  /**
   * A flatten succeeds exactly when there is nothing to flatten (no format
   * and no cipher), or every step that ran succeeded; an error is always
   * the status of some step, or -EINVAL for a cipher without its format.
   */
  lemma FlattenOutcomeCases(hasFormat: bool, cryptoLoaded: bool, open: int, header: int, remove: int, flatten: int, close: int)
    requires open <= 0 && header <= 0 && remove <= 0 && flatten <= 0 && close <= 0
    ensures var r := FlattenOutcome(hasFormat, cryptoLoaded, open, header, remove, flatten, close);
      && (r == 0 <==> if !hasFormat then !cryptoLoaded
                      else open == 0 && close == 0 && (cryptoLoaded ==> header == 0 && remove == 0 && flatten == 0))
      && (r != 0 ==> r in [-EINVAL, open, header, remove, flatten, close])
  {
  }

  /**
   * With statuses that are 0 or negative errnos, the flatten reports the
   * first failing step among those that ran, the close included: a close
   * error is reported only when nothing failed before it.
   */
  lemma {:induction false} FlattenOutcomeFirstError(cryptoLoaded: bool, open: int, header: int, remove: int, flatten: int, close: int)
    requires open <= 0 && header <= 0 && remove <= 0 && flatten <= 0 && close <= 0
    ensures FlattenOutcome(true, cryptoLoaded, open, header, remove, flatten, close) ==
      if !cryptoLoaded then FirstError([open, close]) else FirstError([open, header, remove, flatten, close])
  {
    FirstErrorAppend([open], [close]);
    FirstErrorAppend([open], [header, remove, flatten, close]);
    FirstErrorAppend([header], [remove, flatten, close]);
    FirstErrorAppend([remove], [flatten, close]);
    FirstErrorAppend([flatten], [close]);
  }

  datatype FlattenStep = FlattenStart | OpeningRaw | FlatteningHeader | RemovingMetadata | CryptoFlattening | ClosingRaw | FlattenFinished

  class FlattenRequest {
    const image: ImageCtx
    /** m_format; None stands for a null format. */
    const format: Option<EncryptionFormat>
    var step: FlattenStep
    /** Whether the raw image context is open (opened and not yet closed). */
    var rawOpen: bool
    /** m_return: None until a step assigns it. */
    var result: Option<int>
    /** The requests issued so far. */
    var ops: seq<FlattenOp>
    /** Statuses on_finish was completed with. */
    var onFinish: seq<int>

    /**
     * The raw context is open while any step after its open is pending, and
     * closed before and after the request; the result is assigned before
     * the close is issued.
     */
    ghost predicate Valid()
      reads this
    {
      && (step == FlattenFinished <==> onFinish != [])
      && (step.FlatteningHeader? || step.RemovingMetadata? || step.CryptoFlattening? || step.ClosingRaw? ==> rawOpen)
      && (step.FlattenStart? || step.FlattenFinished? ==> !rawOpen)
      && (!step.FlattenStart? && !step.FlattenFinished? ==> format.Some?)
      && (step.ClosingRaw? ==> result.Some?)
    }

    constructor (image: ImageCtx, format: Option<EncryptionFormat>)
      ensures Valid() && this.image == image && this.format == format
      ensures step == FlattenStart && !rawOpen && result == None && ops == [] && onFinish == []
    {
      this.image := image;
      this.format := format;
      step := FlattenStart;
      rawOpen := false;
      result := None;
      ops := [];
      onFinish := [];
    }

    method Finish(r: int)
      requires step != FlattenFinished && onFinish == [] && !rawOpen
      modifies this
      ensures Valid() && step == FlattenFinished && !rawOpen
      ensures onFinish == old(onFinish) + [r] && ops == old(ops) && result == old(result)
    {
      onFinish := onFinish + [r];
      step := FlattenFinished;
    }

    /**
     * send: a null format finishes at once, with 0 when no cipher is loaded
     * and -EINVAL when one is; otherwise the raw context is opened.
     */
    method Send()
      requires Valid() && step == FlattenStart
      modifies this
      ensures Valid() && !rawOpen && result == old(result)
      ensures format.None? ==> step == FlattenFinished && ops == old(ops)
                               && onFinish == old(onFinish) + [if image.crypto.None? then 0 else -EINVAL]
      ensures format.Some? ==> step == OpeningRaw && ops == old(ops) + [OpenRaw] && onFinish == old(onFinish)
    {
      if format.None? {
        if image.crypto.None? {
          Finish(0);
          return;
        }
        Finish(-EINVAL);
        return;
      }
      ops := ops + [OpenRaw];
      step := OpeningRaw;
    }

    /** handle_create_raw_ctx: a failed open finishes with its status and closes nothing. */
    method HandleCreateRawCtx(r: int)
      requires Valid() && step == OpeningRaw && !rawOpen
      modifies this
      ensures Valid()
      ensures r < 0 ==> step == FlattenFinished && !rawOpen && onFinish == old(onFinish) + [r] && ops == old(ops)
      ensures r >= 0 ==> rawOpen && onFinish == old(onFinish)
      ensures r >= 0 ==> (match image.crypto
        case None => step == ClosingRaw && result == Some(0) && ops == old(ops) + [CloseRaw]
        case Some(c) => step == FlatteningHeader && ops == old(ops) + [FlattenHeader(c.dataOffset)] && result == old(result))
    {
      if r < 0 {
        Finish(r);
        return;
      }
      rawOpen := true;
      FlattenCryptoHeader();
    }

    /**
     * flatten_crypto_header: with no cipher loaded there is no header to
     * copy up and the result is 0; otherwise the objects holding the first
     * data_offset bytes are flattened.
     */
    method FlattenCryptoHeader()
      requires Valid() && step == OpeningRaw && rawOpen
      modifies this
      ensures Valid() && rawOpen && onFinish == old(onFinish)
      ensures match image.crypto
        case None => step == ClosingRaw && result == Some(0) && ops == old(ops) + [CloseRaw]
        case Some(c) => step == FlatteningHeader && ops == old(ops) + [FlattenHeader(c.dataOffset)] && result == old(result)
    {
      if image.crypto.None? {
        result := Some(0);
        CloseRawCtx();
        return;
      }
      ops := ops + [FlattenHeader(image.crypto.value.dataOffset)];
      step := FlatteningHeader;
    }

    /** handle_flatten_crypto_header: an error becomes the result and skips to the close. */
    method HandleFlattenCryptoHeader(r: int)
      requires Valid() && step == FlatteningHeader
      modifies this
      ensures Valid() && rawOpen && onFinish == old(onFinish)
      ensures r < 0 ==> step == ClosingRaw && result == Some(r) && ops == old(ops) + [CloseRaw]
      ensures r >= 0 ==> step == RemovingMetadata && result == old(result)
                         && ops == old(ops) + [RemoveMetadata(PARENT_CRYPTOR_METADATA_KEY)]
    {
      if r < 0 {
        result := Some(r);
        CloseRawCtx();
        return;
      }
      MetadataRemove();
    }

    /** metadata_remove: the stored parent record is removed from the image. */
    method MetadataRemove()
      requires Valid() && step == FlatteningHeader
      modifies this
      ensures Valid() && step == RemovingMetadata && onFinish == old(onFinish) && result == old(result)
      ensures ops == old(ops) + [RemoveMetadata(PARENT_CRYPTOR_METADATA_KEY)]
    {
      ops := ops + [RemoveMetadata(PARENT_CRYPTOR_METADATA_KEY)];
      step := RemovingMetadata;
    }

    /** handle_metadata_remove: an error becomes the result and skips to the close. */
    method HandleMetadataRemove(r: int)
      requires Valid() && step == RemovingMetadata
      modifies this
      ensures Valid() && rawOpen && onFinish == old(onFinish)
      ensures r < 0 ==> step == ClosingRaw && result == Some(r) && ops == old(ops) + [CloseRaw]
      ensures r >= 0 ==> step == CryptoFlattening && result == old(result) && ops == old(ops) + [FormatFlatten]
    {
      if r < 0 {
        result := Some(r);
        CloseRawCtx();
        return;
      }
      CryptoFlatten();
    }

    /** crypto_flatten: the format rewrites its own header on the raw context. */
    method CryptoFlatten()
      requires Valid() && step == RemovingMetadata
      modifies this
      ensures Valid() && step == CryptoFlattening && onFinish == old(onFinish) && result == old(result)
      ensures ops == old(ops) + [FormatFlatten]
    {
      ops := ops + [FormatFlatten];
      step := CryptoFlattening;
    }

    /** handle_crypto_flatten: its status, success or not, is the result. */
    method HandleCryptoFlatten(r: int)
      requires Valid() && step == CryptoFlattening
      modifies this
      ensures Valid() && rawOpen && onFinish == old(onFinish)
      ensures step == ClosingRaw && result == Some(r) && ops == old(ops) + [CloseRaw]
    {
      result := Some(r);
      CloseRawCtx();
    }

    method CloseRawCtx()
      requires Valid() && rawOpen && result.Some? && step != FlattenFinished
      modifies this
      ensures Valid() && step == ClosingRaw && rawOpen && onFinish == old(onFinish) && result == old(result)
      ensures ops == old(ops) + [CloseRaw]
    {
      ops := ops + [CloseRaw];
      step := ClosingRaw;
    }

    /**
     * handle_raw_ctx_close: a close error replaces the result only when the
     * result is not already an error; the request finishes with the result.
     */
    method HandleRawCtxClose(r: int)
      requires Valid() && step == ClosingRaw
      modifies this
      ensures Valid() && step == FlattenFinished && !rawOpen && ops == old(ops)
      ensures old(result).value < 0 ==> onFinish == old(onFinish) + [old(result).value]
      ensures old(result).value >= 0 ==> onFinish == old(onFinish) + [if r < 0 then r else old(result).value]
    {
      if r < 0 {
        if result.value >= 0 {
          result := Some(r);
        }
      }
      rawOpen := false;
      Finish(result.value);
    }

    /**
     * A whole request, each asynchronous step completing with the status
     * given for it: on_finish is completed once, with FlattenOutcome; the
     * requests issued are FlattenOps; the raw context is left closed.
     */
    method Run(open: int, header: int, remove: int, flatten: int, close: int)
      requires Valid() && step == FlattenStart && ops == [] && onFinish == []
      modifies this
      ensures Valid() && step == FlattenFinished && !rawOpen
      ensures onFinish == [FlattenOutcome(format.Some?, image.crypto.Some?, open, header, remove, flatten, close)]
      ensures ops == FlattenOps(format.Some?, image.crypto, open, header, remove)
    {
      Send();
      if step == OpeningRaw {
        HandleCreateRawCtx(open);
      }
      if step == FlatteningHeader {
        HandleFlattenCryptoHeader(header);
      }
      if step == RemovingMetadata {
        HandleMetadataRemove(remove);
      }
      if step == CryptoFlattening {
        HandleCryptoFlatten(flatten);
      }
      if step == ClosingRaw {
        HandleRawCtxClose(close);
      }
    }
  }
}
