/**
 * The crypto object-dispatch layer (CryptoObjectDispatch): it claims every
 * object read, widens it to whole 4096-byte cipher blocks, reads the widened
 * extent through the layers below it and hands back only the bytes the
 * caller asked for. Writes, write-sames and compare-and-writes are passed on
 * to the next layer.
 */
module CryptoDispatch {
  import opened Common
  import opened IoDispatcher
  import opened Image

  const BLOCK_SIZE: nat := 4096

  /** The request offset rounded down to a block boundary. */
  function AlignedOff(objectOff: u64): (r: u64)
    ensures r % BLOCK_SIZE == 0
    ensures r <= objectOff < r + BLOCK_SIZE
  {
    objectOff - objectOff % BLOCK_SIZE
  }

  /**
   * The request length grown by the bytes in front of it down to the block
   * boundary, then rounded up to a whole block; both sums are uint64_t.
   */
  function AlignedLen(objectOff: u64, objectLen: u64): (r: u64)
    ensures r % BLOCK_SIZE == 0
  {
    var preAligned := objectOff % BLOCK_SIZE;
    var len := (objectLen + preAligned) % U64;
    var padded := len + (BLOCK_SIZE - len % BLOCK_SIZE) % BLOCK_SIZE;
    assert padded % BLOCK_SIZE == 0 by {
      if len % BLOCK_SIZE != 0 {
        assert padded == (len / BLOCK_SIZE + 1) * BLOCK_SIZE;
      }
    }
    assert padded % U64 % BLOCK_SIZE == 0 by {
      assert U64 == BLOCK_SIZE * 0x10_0000_0000_0000;
      if padded >= U64 {
        assert padded % U64 == padded - U64;
      }
    }
    padded % U64
  }

  /**
   * Short of wrapping around, the aligned extent is whole blocks, covers the
   * request and ends less than one block after it.
   */
  lemma {:induction false} AlignedLenBounds(objectOff: u64, objectLen: u64)
    requires objectLen <= U64 - 2 * BLOCK_SIZE
    ensures AlignedLen(objectOff, objectLen) % BLOCK_SIZE == 0
    ensures AlignedOff(objectOff) + AlignedLen(objectOff, objectLen) >= objectOff + objectLen
    ensures AlignedLen(objectOff, objectLen) - (objectLen + objectOff % BLOCK_SIZE) < BLOCK_SIZE
  {
    var pre := objectOff % BLOCK_SIZE;
    var len := objectLen + pre;
    assert (objectLen + pre) % U64 == len;
    var pad := (BLOCK_SIZE - len % BLOCK_SIZE) % BLOCK_SIZE;
    assert (len + pad) % U64 == len + pad;
    if len % BLOCK_SIZE == 0 {
      assert pad == 0;
    } else {
      assert pad == BLOCK_SIZE - len % BLOCK_SIZE;
      assert (len + pad) % BLOCK_SIZE == 0 by {
        assert len + pad == (len / BLOCK_SIZE + 1) * BLOCK_SIZE;
      }
    }
  }

  /** A zero-length read: nothing at a block boundary, one block anywhere else. */
  lemma ZeroLength(objectOff: u64)
    ensures objectOff % BLOCK_SIZE == 0 ==> AlignedLen(objectOff, 0) == 0
    ensures objectOff % BLOCK_SIZE != 0 ==> AlignedLen(objectOff, 0) == BLOCK_SIZE
  {
  }

  /** The uint64_t sums wrap: a read of 2^64 - 1 bytes at offset 1 widens to nothing. */
  lemma AlignedLenWraps()
    ensures AlignedLen(1, U64 - 1) == 0
  {
  }

  /**
   * Trimming gives back the caller's bytes: if the backing buffer holds the
   * object's bytes over the aligned extent, the slice finish takes from it
   * is the object's bytes over the requested extent.
   */
  lemma {:induction false} TrimRecoversRequest(data: seq<byte>, objectOff: u64, objectLen: u64)
    requires objectLen <= U64 - 2 * BLOCK_SIZE
    requires AlignedOff(objectOff) + AlignedLen(objectOff, objectLen) <= |data|
    ensures var a: int, n: int := AlignedOff(objectOff), AlignedLen(objectOff, objectLen);
      data[a..a + n][objectOff - a..objectOff - a + objectLen] == data[objectOff..objectOff + objectLen]
  {
    AlignedLenBounds(objectOff, objectLen);
    var a: int, n: int := AlignedOff(objectOff), AlignedLen(objectOff, objectLen);
    var backing := data[a..a + n];
    var lo := objectOff - a;
    assert 0 <= lo && lo + objectLen <= n;
    var trimmed, wanted := backing[lo..lo + objectLen], data[objectOff..objectOff + objectLen];
    assert |trimmed| == |wanted|;
    forall i | 0 <= i < objectLen
      ensures trimmed[i] == wanted[i]
    {
      assert trimmed[i] == backing[lo + i] == data[objectOff + i];
    }
  }

  /**
   * io::ReadResult::C_ObjectReadRequest, the standard object read completion:
   * the extent it reads, where the bytes go in the caller's buffer, the
   * buffer it reads into, and the statuses it was finished with.
   */
  class ObjectReadRequest {
    const objectOff: u64
    const objectLen: u64
    /** Buffer extents as (offset, length) pairs. */
    const bufferExtents: seq<(nat, nat)>
    var bl: seq<byte>
    var finished: seq<int>

    constructor (objectOff: u64, objectLen: u64, bufferExtents: seq<(nat, nat)>)
      ensures this.objectOff == objectOff && this.objectLen == objectLen && this.bufferExtents == bufferExtents
      ensures bl == [] && finished == []
    {
      this.objectOff := objectOff;
      this.objectLen := objectLen;
      this.bufferExtents := bufferExtents;
      bl := [];
      finished := [];
    }

    /** Hands the buffer and status on to the read result (not part of this model). */
    method Finish(r: int)
      modifies this
      ensures finished == old(finished) + [r] && bl == old(bl)
    {
      finished := finished + [r];
    }
  }

  /**
   * C_EncryptedObjectReadRequest: the completion of a read this layer widened;
   * it owns the backing read of the aligned extent.
   */
  class EncryptedObjectReadRequest {
    const objectOff: u64
    const objectLen: u64
    const backing: ObjectReadRequest

    ghost predicate Valid()
    {
      && backing.objectOff == AlignedOff(objectOff)
      && backing.objectLen == AlignedLen(objectOff, objectLen)
    }

    /** The backing read covers the aligned extent and puts its bytes at [0, objectLen) of the caller's buffer. */
    constructor (objectOff: u64, objectLen: u64)
      ensures Valid() && fresh(backing)
      ensures this.objectOff == objectOff && this.objectLen == objectLen
      ensures backing.bufferExtents == [(0, objectLen)]
      ensures backing.bl == [] && backing.finished == []
    {
      this.objectOff := objectOff;
      this.objectLen := objectLen;
      backing := new ObjectReadRequest(AlignedOff(objectOff), AlignedLen(objectOff, objectLen), [(0, objectLen)]);
    }

    /**
     * On success the backing buffer is moved out and its slice holding the
     * caller's bytes put back; in every other case the buffer is left as it
     * is. Either way the backing read is then finished once with the same
     * status. When the backing buffer ends before the requested bytes do,
     * bufferlist::substr_of throws (`threw`): the buffer has been moved out,
     * so it is left empty, and the backing read is never finished.
     */
    method Finish(r: int) returns (threw: bool)
      requires Valid()
      modifies backing
      ensures var lo := objectOff - backing.objectOff;
        threw <==> r == 0 && lo + objectLen > |old(backing.bl)|
      ensures threw ==> backing.bl == [] && backing.finished == old(backing.finished)
      ensures !threw && r == 0 ==>
                var lo := objectOff - backing.objectOff;
                && backing.bl == old(backing.bl)[lo..lo + objectLen]
                && backing.finished == old(backing.finished) + [0]
      ensures r != 0 ==> backing.bl == old(backing.bl) && backing.finished == old(backing.finished) + [r]
    {
      threw := false;
      if r == 0 {
        var blCopy := backing.bl;
        backing.bl := [];
        var lo := objectOff - backing.objectOff;
        if lo + objectLen > |blCopy| {
          threw := true;
          return;
        }
        backing.bl := blCopy[lo..lo + objectLen];
      }
      backing.Finish(r);
    }
  }

  /** AioCompletion as read sets it up: the callback it completes and its pending request count. */
  datatype AioCompletion = AioCompletion(onFinish: nat, requestCount: nat)

  /** The object read this layer issues to the layers below it. */
  datatype ObjectRead = ObjectRead(layer: nat, objectNo: nat, objectOff: u64, objectLen: u64, snapId: nat)

  class CryptoObjectDispatch {
    const image: ImageCtx

    constructor (image: ImageCtx)
      ensures this.image == image
    {
      this.image := image;
    }

    /** Completes on_finish with 0 from the image's work queue. */
    method ShutDown(onFinish: nat)
      modifies image.opWorkQueue
      ensures image.opWorkQueue.queued == old(image.opWorkQueue.queued) + [(onFinish, 0)]
    {
      image.opWorkQueue.Queue(onFinish, 0);
    }

    /**
     * Claims the read: one pending request, the dispatch result COMPLETE,
     * and a read of the aligned extent issued as the crypto layer, whose
     * completion trims the result back to the requested bytes.
     */
    method Read(objectNo: nat, objectOff: u64, objectLen: u64, snapId: nat, onFinish: nat)
      returns (claimed: bool, dispatchResult: DispatchResult, aio: AioCompletion, issued: ObjectRead, req: EncryptedObjectReadRequest)
      ensures claimed && dispatchResult == Complete
      ensures aio == AioCompletion(onFinish, 1)
      ensures fresh(req) && fresh(req.backing) && req.Valid()
      ensures req.objectOff == objectOff && req.objectLen == objectLen
      ensures issued == ObjectRead(OBJECT_DISPATCH_LAYER_CRYPTO, objectNo, AlignedOff(objectOff), AlignedLen(objectOff, objectLen), snapId)
    {
      aio := AioCompletion(onFinish, 1);
      req := new EncryptedObjectReadRequest(objectOff, objectLen);
      dispatchResult := Complete;
      issued := ObjectRead(OBJECT_DISPATCH_LAYER_CRYPTO, objectNo, req.backing.objectOff, req.backing.objectLen, snapId);
      claimed := true;
    }

    /** Writes are not claimed: the next layer handles them. */
    method Write(objectNo: nat, objectOff: u64, data: seq<byte>) returns (claimed: bool)
      ensures !claimed
    {
      claimed := false;
    }

    method WriteSame(objectNo: nat, objectOff: u64, objectLen: u64, data: seq<byte>) returns (claimed: bool)
      ensures !claimed
    {
      claimed := false;
    }

    method CompareAndWrite(objectNo: nat, objectOff: u64, cmpData: seq<byte>, writeData: seq<byte>) returns (claimed: bool)
      ensures !claimed
    {
      claimed := false;
    }
  }
}
