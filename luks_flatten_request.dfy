/**
 * The LUKS part of a flatten. A formatted clone's LUKS header carries the
 * RBD clone magic in place of the LUKS magic so that the clone cannot be
 * opened as a plain LUKS device; flattening puts the LUKS magic back. The
 * request reads the header area of the image, loads it into libcryptsetup,
 * swaps the magic, and when anything changed writes the patched bytes back
 * to offset 0 of the image and flushes.
 */
module LuksFlatten {
  import opened Common

  /** What a header read back from libcryptsetup returns: a status and the bytes. */
  datatype HeaderRead = HeaderRead(status: int, bytes: seq<byte>)

  /**
   * What replace_magic returns: the largest offset it changed (0 when the
   * LUKS magic was already in place, negative on error), and the header
   * file afterwards.
   */
  datatype MagicReplaced = MagicReplaced(maxOffset: int, file: seq<byte>)

  /**
   * The libcryptsetup-backed header (luks/Header.cc is not part of this
   * model): the status of init, the status of loading bytes into the header
   * file, the magic swap over the file's contents, and reading the first
   * `n` bytes of the file back.
   */
  datatype CryptsetupHeader = CryptsetupHeader(
    init: int,
    write: seq<byte> -> int,
    replaceMagic: seq<byte> -> MagicReplaced,
    read: (seq<byte>, nat) -> HeaderRead)

  /** I/O the request issues against the image. */
  datatype ImageIo = ReadExtent(offset: u64, length: u64) | WriteExtent(offset: u64, data: seq<byte>) | FlushImage

  /**
   * What the header steps decide once the header area was read: fail with
   * a status, stop because the magic is already LUKS, or write back the
   * patched header bytes.
   */
  datatype HeaderPass = PassFailed(status: int) | AlreadyLuks | Patched(bytes: seq<byte>)

  /**
   * The header steps of handle_read_header, from the bytes read off the
   * image: load them into libcryptsetup, swap the magic, and read the
   * changed prefix back.
   */
  function PatchHeader(header: CryptsetupHeader, data: seq<byte>): (p: HeaderPass)
    ensures p.PassFailed? ==> p.status < 0
    ensures p.AlreadyLuks? <==> header.write(data) >= 0 && header.replaceMagic(data).maxOffset == 0
    ensures p.Patched? <==>
              && header.write(data) >= 0
              && header.replaceMagic(data).maxOffset > 0
              && header.read(header.replaceMagic(data).file, header.replaceMagic(data).maxOffset).status >= 0
    ensures p.Patched? ==> p.bytes == header.read(header.replaceMagic(data).file, header.replaceMagic(data).maxOffset).bytes
  {
    var w := header.write(data);
    if w < 0 then PassFailed(w)
    else
      var m := header.replaceMagic(data);
      if m.maxOffset < 0 then PassFailed(m.maxOffset)
      else if m.maxOffset == 0 then AlreadyLuks
      else
        var rd := header.read(m.file, m.maxOffset);
        if rd.status < 0 then PassFailed(rd.status) else Patched(rd.bytes)
  }

  /**
   * The status a whole LUKS flatten reports: the init, the image read and
   * the header steps can each end it; a header already in LUKS form ends it
   * with 0; otherwise a write error ends it, and the flush status is final.
   */
  function LuksFlattenOutcome(header: CryptsetupHeader, read: int, data: seq<byte>, write: int, flush: int): int
  {
    if header.init < 0 then header.init
    else if read < 0 then read
    else match PatchHeader(header, data)
      case PassFailed(s) => s
      case AlreadyLuks => 0
      case Patched(_) => if write < 0 then write else flush
  }

  /** The image I/O a whole LUKS flatten issues, under the same inputs. */
  function LuksFlattenIos(header: CryptsetupHeader, maximumHeaderSize: u64, read: int, data: seq<byte>, write: int): seq<ImageIo>
  {
    if header.init < 0 then []
    else if read < 0 then [ReadExtent(0, maximumHeaderSize)]
    else match PatchHeader(header, data)
      case Patched(bytes) =>
        [ReadExtent(0, maximumHeaderSize), WriteExtent(0, bytes)] + (if write < 0 then [] else [FlushImage])
      case _ => [ReadExtent(0, maximumHeaderSize)]
  }

  /**
   * The image is only ever read over [0, maximumHeaderSize) and written at
   * offset 0 with the bytes libcryptsetup read back after the magic swap;
   * it is written only when the swap changed something and every earlier
   * step succeeded, and flushed only after a successful write.
   */
  lemma LuksFlattenIoOrder(header: CryptsetupHeader, maximumHeaderSize: u64, read: int, data: seq<byte>, write: int)
    ensures var ios := LuksFlattenIos(header, maximumHeaderSize, read, data, write);
      && (ios != [] <==> header.init >= 0)
      && (ios != [] ==> ios[0] == ReadExtent(0, maximumHeaderSize))
      && (forall i :: 0 < i < |ios| ==> !ios[i].ReadExtent?)
      && (|ios| > 1 <==> header.init >= 0 && read >= 0 && PatchHeader(header, data).Patched?)
      && (|ios| > 1 ==> ios[1] == WriteExtent(0, PatchHeader(header, data).bytes))
      && (FlushImage in ios <==> |ios| > 1 && write >= 0)
      && (FlushImage in ios ==> ios[|ios| - 1] == FlushImage)
  {
  }

  /**
   * A magic swap that changed nothing ends the flatten with 0 and no write;
   * a failed swap ends it with the swap's own status and no write.
   */
  lemma {:induction false} MagicSwapOutcome(header: CryptsetupHeader, maximumHeaderSize: u64, data: seq<byte>, write: int, flush: int)
    requires header.init >= 0 && header.write(data) >= 0
    ensures var m := header.replaceMagic(data).maxOffset;
      && (m == 0 ==> LuksFlattenOutcome(header, 0, data, write, flush) == 0
                     && LuksFlattenIos(header, maximumHeaderSize, 0, data, write) == [ReadExtent(0, maximumHeaderSize)])
      && (m < 0 ==> LuksFlattenOutcome(header, 0, data, write, flush) == m
                    && LuksFlattenIos(header, maximumHeaderSize, 0, data, write) == [ReadExtent(0, maximumHeaderSize)])
  {
    var p := PatchHeader(header, data);
    if header.replaceMagic(data).maxOffset < 0 {
      assert p == PassFailed(header.replaceMagic(data).maxOffset);
    }
  }

  /**
   * When libcryptsetup reads back as many bytes as it was asked for, the
   * write covers exactly [0, replace_magic's offset).
   */
  lemma WriteCoversReplacedPrefix(header: CryptsetupHeader, data: seq<byte>)
    requires PatchHeader(header, data).Patched?
    requires var m := header.replaceMagic(data); |header.read(m.file, m.maxOffset).bytes| == m.maxOffset
    ensures |PatchHeader(header, data).bytes| == header.replaceMagic(data).maxOffset > 0
  {
  }

  /**
   * An outcome of 0 means either the header was already LUKS, or the
   * patched header was written and flushed; a non-zero one is the status of
   * the step that failed.
   */
  lemma LuksFlattenOutcomeCases(header: CryptsetupHeader, read: int, data: seq<byte>, write: int, flush: int)
    requires flush <= 0
    ensures var r := LuksFlattenOutcome(header, read, data, write, flush);
      && (r == 0 <==> header.init >= 0 && read >= 0
                      && (PatchHeader(header, data).AlreadyLuks? || (PatchHeader(header, data).Patched? && write >= 0 && flush == 0)))
      && (r != 0 ==> r < 0)
  {
  }

  datatype LuksFlattenStep = LuksStart | ReadingHeader | WritingHeader | FlushingImage | LuksFinished

  class LuksFlattenRequest {
    /** MAXIMUM_HEADER_SIZE from luks/Header.h, which is not part of this model. */
    const maximumHeaderSize: u64
    const header: CryptsetupHeader
    var step: LuksFlattenStep
    /** m_bl: the image's header area, then the patched bytes to write back. */
    var bl: seq<byte>
    /** The contents of the libcryptsetup header file. */
    var file: seq<byte>
    /** The I/O issued against the image so far. */
    var ios: seq<ImageIo>
    /** Statuses on_finish was completed with. */
    var onFinish: seq<int>

    /** The request finishes once; the buffer is handed over when the write is issued. */
    ghost predicate Valid()
      reads this
    {
      && (step == LuksFinished <==> onFinish != [])
      && (step.WritingHeader? || step.FlushingImage? ==> bl == [])
    }

    constructor (maximumHeaderSize: u64, header: CryptsetupHeader)
      ensures Valid() && this.maximumHeaderSize == maximumHeaderSize && this.header == header
      ensures step == LuksStart && bl == [] && file == [] && ios == [] && onFinish == []
    {
      this.maximumHeaderSize := maximumHeaderSize;
      this.header := header;
      step := LuksStart;
      bl := [];
      file := [];
      ios := [];
      onFinish := [];
    }

    method Finish(r: int)
      requires step != LuksFinished && onFinish == []
      modifies this
      ensures Valid() && step == LuksFinished
      ensures onFinish == [r] && ios == old(ios) && file == old(file) && bl == old(bl)
    {
      onFinish := [r];
      step := LuksFinished;
    }

    /** send: a failed libcryptsetup init finishes with its status before any read. */
    method Send()
      requires Valid() && step == LuksStart
      modifies this
      ensures Valid() && bl == old(bl)
      ensures header.init < 0 ==> step == LuksFinished && onFinish == [header.init] && ios == old(ios)
      ensures header.init >= 0 ==> step == ReadingHeader && onFinish == old(onFinish)
                                   && ios == old(ios) + [ReadExtent(0, maximumHeaderSize)]
    {
      var r := header.init;
      if r < 0 {
        Finish(r);
        return;
      }
      ReadHeader();
    }

    /** read_header: the image range [0, MAXIMUM_HEADER_SIZE) is read into the buffer. */
    method ReadHeader()
      requires Valid() && step == LuksStart
      modifies this
      ensures Valid() && step == ReadingHeader && onFinish == old(onFinish) && bl == old(bl)
      ensures ios == old(ios) + [ReadExtent(0, maximumHeaderSize)]
    {
      ios := ios + [ReadExtent(0, maximumHeaderSize)];
      step := ReadingHeader;
    }

    /**
     * handle_read_header: `data` is what the image read returned. The bytes
     * are loaded into libcryptsetup and the buffer cleared; after the magic
     * swap the changed prefix is read back into the empty buffer and
     * written to the image. An error, or a swap with nothing to change,
     * finishes the request with no write.
     */
    method HandleReadHeader(r: int, data: seq<byte>)
      requires Valid() && step == ReadingHeader && bl == []
      modifies this
      ensures Valid()
      ensures r < 0 ==> step == LuksFinished && onFinish == [r] && ios == old(ios)
      ensures r >= 0 && header.write(data) >= 0 ==> file == header.replaceMagic(data).file
      ensures r >= 0 ==> match PatchHeader(header, data)
        case PassFailed(s) => step == LuksFinished && onFinish == [s] && ios == old(ios)
        case AlreadyLuks => step == LuksFinished && onFinish == [0] && ios == old(ios)
        case Patched(bytes) => step == WritingHeader && onFinish == old(onFinish) && ios == old(ios) + [WriteExtent(0, bytes)]
    {
      if r < 0 {
        Finish(r);
        return;
      }
      bl := data;
      var written := header.write(bl);
      if written < 0 {
        Finish(written);
        return;
      }
      file := bl;
      bl := [];

      var replaced := header.replaceMagic(file);
      file := replaced.file;
      var maxReplaceOffset := replaced.maxOffset;
      if maxReplaceOffset < 0 {
        Finish(maxReplaceOffset);
        return;
      } else if maxReplaceOffset == 0 {
        Finish(0);
        return;
      }

      var readBack := header.read(file, maxReplaceOffset);
      if readBack.status < 0 {
        Finish(readBack.status);
        return;
      }
      bl := bl + readBack.bytes;
      assert bl == readBack.bytes;
      WriteHeader();
    }

    /** write_header: the buffer is moved into a write at image offset 0 covering its whole length. */
    method WriteHeader()
      requires step == ReadingHeader && onFinish == []
      modifies this
      ensures Valid() && step == WritingHeader && onFinish == old(onFinish) && file == old(file)
      ensures ios == old(ios) + [WriteExtent(0, old(bl))]
    {
      ios := ios + [WriteExtent(0, bl)];
      bl := [];
      step := WritingHeader;
    }

    /** handle_write_header: a write error finishes with its status and skips the flush. */
    method HandleWriteHeader(r: int)
      requires Valid() && step == WritingHeader
      modifies this
      ensures Valid()
      ensures r < 0 ==> step == LuksFinished && onFinish == [r] && ios == old(ios)
      ensures r >= 0 ==> step == FlushingImage && onFinish == old(onFinish) && ios == old(ios) + [FlushImage]
    {
      if r < 0 {
        Finish(r);
        return;
      }
      FlushHeader();
    }

    method FlushHeader()
      requires Valid() && step == WritingHeader
      modifies this
      ensures Valid() && step == FlushingImage && onFinish == old(onFinish)
      ensures ios == old(ios) + [FlushImage]
    {
      ios := ios + [FlushImage];
      step := FlushingImage;
    }

    /** handle_flush: the flush status, success or not, is the request's. */
    method HandleFlush(r: int)
      requires Valid() && step == FlushingImage
      modifies this
      ensures Valid() && step == LuksFinished && onFinish == [r] && ios == old(ios)
    {
      Finish(r);
    }

    /**
     * A whole request, each asynchronous step completing with the status
     * given for it: on_finish is completed once, with LuksFlattenOutcome,
     * and the image I/O issued is LuksFlattenIos.
     */
    method Run(read: int, data: seq<byte>, write: int, flush: int)
      requires Valid() && step == LuksStart && ios == [] && bl == []
      modifies this
      ensures Valid() && step == LuksFinished
      ensures onFinish == [LuksFlattenOutcome(header, read, data, write, flush)]
      ensures ios == LuksFlattenIos(header, maximumHeaderSize, read, data, write)
    {
      Send();
      if step == ReadingHeader {
        HandleReadHeader(read, data);
      }
      if step == WritingHeader {
        HandleWriteHeader(write);
      }
      if step == FlushingImage {
        HandleFlush(flush);
      }
    }
  }
}
