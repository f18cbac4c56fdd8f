# librbd crypto layer — a Dafny model

This project models the client-side block-encryption layer of Ceph's RBD
image library (`librbd::crypto`), together with the generic I/O layer
dispatcher (`librbd::io::Dispatcher`) its layers plug into. The model is in
Dafny, and every contract listed below is proved. The pieces are:

- **CryptoObjectDispatch** (`object_dispatch.dfy`, module `CryptoDispatch`).
  An object read is widened to whole 4096-byte cipher blocks. The widened
  extent is read through the lower layers, and the completion trims the
  buffer back to the caller's bytes. Writes, write-sames and
  compare-and-writes are declined.
- **FormatRequest** (`format_request.dfy`, module `Format`). Formatting an
  image runs these steps, each ending the request on a non-zero status:
  - the journaling and formatted-clone checks;
  - the shutdown of a cipher already loaded;
  - the format;
  - a flush;
  - for a clone, persisting its parent's key wrapped under the new key.

  Only a request that ends with 0 installs the new cipher; a successful
  shutdown of the old one stands even when a later step fails.
- **LoadRequest** (`load_request.dfy`, module `Load`). Loading walks
  image → parent → grandparent:
  - it refuses any journaling ancestor;
  - each ancestor inherits the cipher, stops the walk, or gets a cipher
    unwrapped from its parent record;
  - on success it registers the crypto layers on the leading run of images
    that have a cipher;
  - on failure it clears their ciphers again.
- **FlattenRequest** (`flatten_request.dfy`, module `Flatten`). An encrypted
  clone is made independent of its parent's cipher in these steps:
  - open a raw context;
  - copy the header objects up from the parent;
  - remove the parent record;
  - let the format flatten its header;
  - close the raw context.

  The first error wins, and a raw context that was opened is always closed.
- **luks::FlattenRequest** (`luks_flatten_request.dfy`, module
  `LuksFlatten`). It reads the header area, swaps the RBD clone magic back to
  the LUKS magic through libcryptsetup, and writes and flushes the changed
  prefix. It writes nothing when the magic is already LUKS.
- **Utilities** (`utils.dfy`, module `CryptoUtils`):
  - `set_crypto`;
  - `key_wrap`, the id-aes256-wrap cipher of section 2.2.1 of RFC 3394, with
    its argument checks and 32-bit output sizing;
  - `build_crypto`, the choice of XTS suite by key length.
- **ParentCryptoParams** (`types.dfy`, module `CryptoTypes`). The record a
  formatted clone stores for its parent, in Ceph's versioned encoding: a
  version byte, a compat byte, a little-endian u32 body length, then the
  body. The body is a u32 key length, the key bytes, and u64 `block_size`
  and `data_offset`.
- **Dispatcher** (`dispatcher.dfy`, module `IoDispatcher`). An ordered map
  from layer to handler:
  - register, exists, remove one layer, and shut down all, passing on the
    status of the handlers' own shutdown;
  - the `send` loop, which offers a request to the layers above its current
    one in increasing order until one claims it;
  - the same walk in `C_LayerIterator`.
- `image.dfy` (module `Image`) holds the parts of `ImageCtx` these use.
  `common.dfy` (module `Common`) holds fixed-width integer ranges, errno
  values, `Option`, and the "first non-zero status wins" rule.

Each asynchronous workflow is modelled in the same way:

- It is a class with one method per handler, and a `step` field for the
  state machine.
- It keeps a log of the statuses `on_finish` was completed with, and a log
  of the requests it issued.
- A `Run` method drives a whole request, with the status of each
  asynchronous step as an input.
- `Run` is proved equal to a pure reference function of those statuses
  (`FormatOutcome`, `FlattenOutcome`/`FlattenOps`,
  `LuksFlattenOutcome`/`LuksFlattenIos`). Lemmas about those functions state
  the workflow's promises.
- LoadRequest works over a chain of `ImageCtx` objects. Its commit and
  rollback loops are proved against the functions `Committed` and
  `RolledBack` of the chain's states.

Behaviours of the code worth knowing:

- `metadata_set` wraps the parent's key under the new (child) key.
- `key_wrap` reports success once its cipher has initialised, even when the
  update pass fails (`src/librbd/crypto/Utils.cc:63-70`).
- LoadRequest uses `key_wrap` in the unwrap direction to recover each
  ancestor's key from its parent record.
- A zero-length read at a block-aligned offset widens to nothing. Only an
  unaligned one widens to one block.
- A metadata write failure after a successful format ends the request
  without installing the new cipher. `finish` installs the cipher only on
  status 0.
- The parent record is stored under `.rbd_encryption_parent_cryptor`.

## Model

| member | source | states |
|---|---|---|
| IoDispatcher.UpperBound | src/librbd/io/Dispatcher.h:109-110 | `std::map::upper_bound` on the layers: None exactly when no layer is registered above `after`, otherwise the least registered layer above it |
| IoDispatcher.Walk | src/librbd/io/Dispatcher.h:107-128 | the handlers the send loop (and C_LayerIterator's loop, lines 159-178) offers in order, the next registered layer each time; every one but the last declined the request |
| IoDispatcher.AboveShrinks | src/librbd/io/Dispatcher.h:108-120 | moving `dispatch_layer` to the layer just offered removes exactly that layer from those still ahead, so the walk ends |
| IoDispatcher.WalkIncreasing | src/librbd/io/Dispatcher.h:107-122 | every handler a walk offers is registered under its own layer, lies above the starting layer, and the layers rise strictly |
| IoDispatcher.WalkNoSkip | src/librbd/io/Dispatcher.h:107-122 | no registered layer between the starting layer and the last layer offered is skipped |
| IoDispatcher.WalkStopsAtFirstHandler | src/librbd/io/Dispatcher.h:122-127 | only the last handler offered can have claimed the request; if it did not, every layer above the start was offered and declined |
| IoDispatcher.Dispatcher.RegisterDispatch | src/librbd/io/Dispatcher.h:59-68 | the layer must be absent (the assertion); afterwards the map holds exactly one more entry, that handler under its own layer |
| IoDispatcher.Dispatcher.Exists | src/librbd/io/Dispatcher.h:70-73 | true if and only if the layer is registered |
| IoDispatcher.Dispatcher.ShutDownDispatch | src/librbd/io/Dispatcher.h:75-95 | only that layer is removed; an absent layer leaves the map as it was and shuts nothing down; a present one has its own handler shut down, and on_finish is completed with the status that handler's `shut_down` completes with (the wrapper at lines 200-211); 0 for an absent layer |
| IoDispatcher.Dispatcher.ShutDown | src/librbd/io/Dispatcher.h:43-57 | the map is left empty; every handler that was registered is shut down exactly once, highest layer first (the order of the chained completions, lines 200-211); on_finish is completed with the status of the last shutdown, the lowest layer's, or 0 when nothing was registered |
| IoDispatcher.ChainStatus | src/librbd/io/Dispatcher.h:200-211 | the status that reaches on_finish through a chain of shutdown wrappers: each outer link drops its status and starts the next shutdown, so it is the last handler's shutdown status, or 0 for an empty chain |
| IoDispatcher.Dispatcher.Send | src/librbd/io/Dispatcher.h:97-133 | the handlers offered are exactly the walk from the spec's layer; if one claims the request, the spec points at its layer, holds the dispatch result that layer wrote (COMPLETE for the crypto read, CryptoObjectDispatch.cc:81) and dispatcher_ctx is untouched; otherwise the result is COMPLETE and dispatcher_ctx is completed once with 0 |
| IoDispatcher.Dispatcher.OfferLayers | src/librbd/io/Dispatcher.h:107-128 | the send loop: it offers the walk, sets dispatch_layer to each layer before offering it, resets the result to INVALID before each offer, and leaves the claiming layer's own result when one claims the request and COMPLETE when the layers run out |
| IoDispatcher.LayerIterator.Complete | src/librbd/io/Dispatcher.h:157-183 | offers the same walk from its own position; a claiming layer leaves on_finish pending; past the last layer on_finish is completed with 0 whatever status the iterator got |
| Image.Installed | src/librbd/crypto/Utils.cc:28-35 | installing a cipher sets it and registers both crypto layers, each a new entry when the layers were free |
| CryptoUtils.Resize | src/librbd/crypto/Utils.cc:60 | `std::string::resize`: exactly `n` bytes, the old prefix kept and zero padding after it |
| CryptoUtils.KeyWrapOutputLength | src/librbd/crypto/Utils.cc:60 | the output is 8 bytes longer to wrap and 8 shorter to unwrap, computed in 32 bits: wrapping an input of 2^32 - 8 bytes or more wraps around, and unwrapping fewer than 8 bytes asks for 2^32 - 8 bytes more than the input |
| CryptoUtils.KeyWrap | src/librbd/crypto/Utils.cc:38-71 | -EINVAL for a wrapping key under 32 bytes and for an input that is not a whole number of 8-byte blocks; the caller's string is untouched on every error; on success it has the sized output length |
| CryptoUtils.KeyWrapSucceeds | src/librbd/crypto/Utils.cc:41-70 | key_wrap returns 0 if and only if the key is long enough, the input is 8-byte aligned and the cipher initialises; the update pass cannot make it fail |
| CryptoUtils.KeyWrapUsesFirst32Bytes | src/librbd/crypto/Utils.cc:54 | two wrapping keys that agree on their first 32 bytes give the same result |
| CryptoUtils.SuiteForKeyLength | src/librbd/crypto/Utils.cc:78-88 | a 32-byte key selects aes-128-xts, a 64-byte key aes-256-xts, and any other length none |
| CryptoUtils.BuildCrypto | src/librbd/crypto/Utils.cc:73-102 | success exactly when a cipher is built; the cipher has the suite matching the key length, the key, and the block size and data offset passed in; any other length gives -ENOTSUP and nothing built |
| CryptoUtils.BuildCryptoStatus | src/librbd/crypto/Utils.cc:78-101 | for a supported length the status is the data cryptor's init status; build_crypto succeeds if and only if the length is supported and init succeeds |
| CryptoUtils.SetCrypto | src/librbd/crypto/Utils.cc:24-36 | requires the image to have no cipher or this one and its crypto layers free; afterwards the cipher is set and one object and one image crypto layer are registered, other flags untouched |
| CryptoTypes.LittleEndianRoundTrip | src/librbd/crypto/Types.cc:15-18 | an integer below 256^n written as n little-endian bytes reads back unchanged |
| CryptoTypes.Encode | src/librbd/crypto/Types.cc:12-20 | a record with a key under 2^32 bytes encodes to 26 + key-length bytes |
| CryptoTypes.Decode | src/librbd/crypto/Types.cc:22-31 | a successful decode consumes at least 26 + key-length bytes, never more than the input, and only from a record whose compat version is at most 1 |
| CryptoTypes.EncodeBody | src/librbd/crypto/Types.cc:14-18 | the body is 20 bytes plus the key length cut to 32 bits: a u32 key size, the key, and two u64 fields |
| CryptoTypes.DecodeBody | src/librbd/crypto/Types.cc:24-29 | a body decodes only when it holds the 4-byte key size, that many key bytes and the two u64 fields; a decoded key is shorter than 2^32 bytes |
| CryptoTypes.DecodeEncode | src/librbd/crypto/Types.cc:12-31 | decoding an encoded record gives back all three fields and stops at its end, whatever bytes follow |
| CryptoTypes.LongKeyDoesNotRoundTrip | src/librbd/crypto/Types.cc:12-31 | a key of 2^32 - 20 bytes or more wraps the u32 struct length below the 20 bytes of fixed fields, so the encoded record does not decode at all |
| CryptoTypes.EncodeInjective | src/librbd/crypto/Types.cc:14-16 | the key is length-prefixed, so two records with equal encodings are equal, whatever bytes (NULs included) the keys hold |
| CryptoTypes.EncodeLayout | src/librbd/crypto/Types.cc:13-19 | version 1, compat 1, body length 4 + key-length + 16, then the key length, the key bytes, block_size and data_offset, in that order |
| CryptoTypes.EmptyRecord | src/librbd/crypto/Types.cc:12-31 | the record ("", 0, 0) of an unencrypted parent is the 26 bytes 1, 1, 20, 0, 0, 0 and twenty zeros, and decodes back to itself |
| CryptoTypes.TestInstanceRoundTrips | src/librbd/crypto/Types.cc:40-43 | the test instance ("mykey", 123, 456) round-trips through 31 bytes |
| CryptoDispatch.AlignedOff | src/librbd/crypto/CryptoObjectDispatch.cc:28-30 | the aligned offset is a multiple of 4096, at most the request offset and less than one block below it |
| CryptoDispatch.AlignedLen | src/librbd/crypto/CryptoObjectDispatch.cc:29-34 | the aligned length, with both uint64_t sums taken modulo 2^64, is always a whole number of blocks, wrapped or not |
| CryptoDispatch.AlignedLenBounds | src/librbd/crypto/CryptoObjectDispatch.cc:29-34 | short of 64-bit wrap-around, the aligned length is whole blocks, the aligned extent covers the request, and it is less than one block longer than needed |
| CryptoDispatch.ZeroLength | src/librbd/crypto/CryptoObjectDispatch.cc:28-34 | a zero-length read widens to nothing at a block boundary and to exactly one block anywhere else |
| CryptoDispatch.AlignedLenWraps | src/librbd/crypto/CryptoObjectDispatch.cc:31-34 | the uint64_t sums wrap: a read of 2^64 - 1 bytes at offset 1 widens to length 0 |
| CryptoDispatch.TrimRecoversRequest | src/librbd/crypto/CryptoObjectDispatch.cc:40-47 | slicing the aligned buffer at object_off - aligned_off for object_len bytes gives exactly the object's bytes over the requested extent |
| CryptoDispatch.EncryptedObjectReadRequest.constructor | src/librbd/crypto/CryptoObjectDispatch.cc:23-38 | the backing read covers the aligned extent, with buffer extents {(0, object_len)} |
| CryptoDispatch.ObjectReadRequest.Finish | src/librbd/crypto/CryptoObjectDispatch.cc:49 | the backing read is finished once more, with the status given, and its buffer is handed on as it is |
| CryptoDispatch.EncryptedObjectReadRequest.Finish | src/librbd/crypto/CryptoObjectDispatch.cc:40-50 | on 0 with a buffer that reaches the requested end, the buffer becomes exactly the requested slice and the backing request is finished with 0; on 0 with a shorter buffer `substr_of` throws, leaving the moved-from buffer empty and the backing request unfinished; on any other status the buffer is untouched and the backing request is finished with that status |
| CryptoDispatch.CryptoObjectDispatch.ShutDown | src/librbd/crypto/CryptoObjectDispatch.cc:59-62 | on_finish is queued on the work queue with status 0 |
| CryptoDispatch.CryptoObjectDispatch.Read | src/librbd/crypto/CryptoObjectDispatch.cc:64-89 | claims the read with result COMPLETE and a request count of 1, and issues one read of the aligned extent tagged with the crypto layer, whose completion trims back to the request |
| CryptoDispatch.CryptoObjectDispatch.Write | src/librbd/crypto/CryptoObjectDispatch.cc:91-100 | declines the write |
| CryptoDispatch.CryptoObjectDispatch.WriteSame | src/librbd/crypto/CryptoObjectDispatch.cc:102-112 | declines the write-same |
| CryptoDispatch.CryptoObjectDispatch.CompareAndWrite | src/librbd/crypto/CryptoObjectDispatch.cc:114-124 | declines the compare-and-write |
| Format.Unloaded | src/librbd/crypto/FormatRequest.cc:56-59 | after the crypto shutdown the image has no cipher and neither crypto layer |
| Format.UnloadCrypto | src/librbd/crypto/FormatRequest.cc:56-59 | a successful shutdown request leaves the image in the Unloaded state, other flags untouched |
| Format.ParentRecord | src/librbd/crypto/FormatRequest.cc:128-155 | a parent without a cipher gives ("", 0, 0); a parent with one gives its key wrapped under the child key, its block size and its data offset; a failure is a non-zero wrap status |
| Format.FormatOutcomeCases | src/librbd/crypto/FormatRequest.cc:37-195 | a format succeeds if and only if both checks pass and every step that runs returns 0; an error is -ENOTSUP, -EINVAL or a step's own status |
| Format.FormatOutcomeInOrder | src/librbd/crypto/FormatRequest.cc:37-195 | the outcome in handler order: journaling, formatted clone, shutdown (only with a cipher loaded), format, flush, then for a clone only the wrap and the metadata write |
| Format.FormatRequest.Finish | src/librbd/crypto/FormatRequest.cc:182-195 | on 0 the new cipher and its layers are installed, the format is moved into the image, and a clone is marked formatted; otherwise the image is untouched; on_finish is completed once with the status |
| Format.FormatRequest.Send | src/librbd/crypto/FormatRequest.cc:37-60 | journaling gives -ENOTSUP before anything else; a formatted clone gives -EINVAL; the image is untouched; the shutdown runs exactly when a cipher is loaded |
| Format.FormatRequest.HandleShutdownCrypto | src/librbd/crypto/FormatRequest.cc:62-74 | a failed shutdown finishes with its status and leaves the image alone; a successful one leaves it unloaded and moves on to the format |
| Format.FormatRequest.HandleFormat | src/librbd/crypto/FormatRequest.cc:76-95 | a format error finishes with its status; success moves on to the flush |
| Format.FormatRequest.HandleFlush | src/librbd/crypto/FormatRequest.cc:97-125 | a flush error finishes with its status; a clone goes on to its parent record; any other image finishes with 0 and gets the cipher installed |
| Format.FormatRequest.MetadataSet | src/librbd/crypto/FormatRequest.cc:127-167 | a failed wrap finishes with its status and writes nothing; otherwise the encoded ParentRecord is handed to the metadata write under the parent-cryptor key |
| Format.FormatRequest.HandleMetadataSet | src/librbd/crypto/FormatRequest.cc:169-179 | the metadata write's status ends the request; only 0 installs the cipher |
| Format.FormatRequest.Run | src/librbd/crypto/FormatRequest.cc:37-195 | a whole request completes on_finish once with FormatOutcome. A successful shutdown of a loaded cipher leaves the image unloaded (no cipher, no crypto layers) whatever follows; on outcome 0 the new cipher and both crypto layers are installed on top of that, the format recorded and a clone marked formatted; on any other outcome the image stays as the shutdown left it. The parent record is written under the parent-cryptor key exactly when the checks, shutdown, format and flush succeeded on a clone and the key wrap did too |
| Format.FormatRequest.RunFromFormat | src/librbd/crypto/FormatRequest.cc:62-195 | the request from the format step on completes on_finish once with FormatOutcome with the checks and shutdown passed; on 0 the cipher and layers are installed, otherwise the image is unchanged; the parent record is written exactly when format, flush and key wrap succeeded on a clone |
| Load.CryptoPrefix | src/librbd/crypto/LoadRequest.cc:171-175 | the leading run of contexts with a cipher, which the finish loops visit |
| Load.CommittedRegistersLeadingRun | src/librbd/crypto/LoadRequest.cc:168-182 | committing keeps every cipher and registers both crypto layers exactly on the leading run; contexts after it are unchanged |
| Load.RolledBackClearsLeadingRun | src/librbd/crypto/LoadRequest.cc:183-189 | rolling back leaves the image without a cipher, touches no dispatcher, and changes nothing from the first context without a cipher on |
| Load.RolledBackNothing | src/librbd/crypto/LoadRequest.cc:183-189 | rolling back a chain whose image has no cipher changes nothing |
| Load.NextVisit | src/librbd/crypto/LoadRequest.cc:94-162 | -ENOENT inherits the cipher; other read or reply errors fail with their status; an empty wrapped key stops the walk; a non-empty one leads on exactly when both the unwrap and the cipher build return 0, with the unwrapped key and the recorded block size and data offset as the cipher, and otherwise fails with the unwrap's status, or the build's when the unwrap succeeded |
| Load.UnwrapDecision | src/librbd/crypto/LoadRequest.cc:133-156 | a non-empty record leads on exactly when the current key has 32 bytes or more, the record is whole 8-byte blocks, the wrap cipher initialises, the unwrapped key is 32 or 64 bytes and its XTS cipher initialises; a short key or ragged record fails with -EINVAL, a failed wrap init with its status, and an unsupported unwrapped length with -ENOTSUP |
| Load.UnwrapNeedsSupportedKey | src/librbd/crypto/LoadRequest.cc:133-156 | a recorded key is used only if it is 8-byte aligned, the current key has 32 bytes or more, and it unwraps to a 32- or 64-byte XTS key |
| Load.RollbackOfLoadedImage | src/librbd/crypto/LoadRequest.cc:183-189 | as written, rolling back an image whose cipher is loaded clears the cipher but leaves its crypto layers registered |
| Load.InstallLeadingRun | src/librbd/crypto/LoadRequest.cc:169-180 | the commit loop calls set_crypto on each context of the leading run and stops at the first without a cipher |
| Load.ClearLeadingRun | src/librbd/crypto/LoadRequest.cc:183-189 | the rollback loop clears the cipher of each context of the leading run and stops at the first without one |
| Load.CommitChain | src/librbd/crypto/LoadRequest.cc:168-182 | the chain's states become Committed of the old ones, the format is recorded, and no cipher changes |
| Load.RecordFormat | src/librbd/crypto/LoadRequest.cc:181-182 | the format is moved into the image and nothing else changes |
| Load.RollBackChain | src/librbd/crypto/LoadRequest.cc:183-189 | the chain's states become RolledBack of the old ones |
| Load.LoadRequest.Send | src/librbd/crypto/LoadRequest.cc:31-53 | an image with a cipher is refused with -EEXIST and left as it is; a journaling image or ancestor gives -ENOTSUP; otherwise the load starts |
| Load.LoadRequest.HandleLoad | src/librbd/crypto/LoadRequest.cc:55-69 | a load error finishes with that status and rolls back; on success the image gets the format's cipher and the walk starts at the image |
| Load.LoadRequest.ReadMetadata | src/librbd/crypto/LoadRequest.cc:71-92 | the current context gets the current cipher; without a parent the walk commits and finishes with 0; otherwise its parent record is awaited |
| Load.LoadRequest.AwaitParentRecord | src/librbd/crypto/LoadRequest.cc:80-91 | the metadata read of the current context's record is in flight |
| Load.LoadRequest.SetCurrentCrypto | src/librbd/crypto/LoadRequest.cc:73 | only the current context's cipher pointer changes, to the current cipher |
| Load.LoadRequest.HandleReadMetadata | src/librbd/crypto/LoadRequest.cc:94-162 | acts on NextVisit: failure rolls back with the status, an empty record commits with 0, and inherit or unwrap moves to the parent with that cipher |
| Load.LoadRequest.ApplyVisit | src/librbd/crypto/LoadRequest.cc:98-161 | each of the four decisions leads to the state Visited describes |
| Load.LoadRequest.Advance | src/librbd/crypto/LoadRequest.cc:159-161 | the parent becomes current and gets the new cipher; at the last ancestor the walk commits with 0 |
| Load.LoadRequest.MoveToParent | src/librbd/crypto/LoadRequest.cc:160 | the current context moves one step up the chain |
| Load.LoadRequest.Finish | src/librbd/crypto/LoadRequest.cc:164-193 | 0 commits the chain and records the format; any other status rolls the chain back; on_finish is completed once with the status |
| Load.LoadRequest.Commit | src/librbd/crypto/LoadRequest.cc:168-182 | finish(0): the chain is Committed, the format is recorded, and no cipher changes |
| Load.LoadRequest.RollBack | src/librbd/crypto/LoadRequest.cc:183-189 | finish with an error: the chain is RolledBack |
| Flatten.FlattenObject | src/librbd/crypto/FlattenRequest.cc:41-56 | an object the object map knows to exist is skipped with 1 and no copyup; otherwise a copyup is asked for, and the result is 0 exactly when it started |
| Flatten.FlattenOpsOrder | src/librbd/crypto/FlattenRequest.cc:72-226 | no format opens nothing; otherwise the raw open comes first; the close is issued, last and once, exactly when the open succeeded; the steps run in fixed order, each after every earlier one succeeded |
| Flatten.FlattenOutcomeCases | src/librbd/crypto/FlattenRequest.cc:72-234 | for non-positive completion statuses: a flatten succeeds exactly when there is nothing to flatten or every step that ran succeeded; an error is -EINVAL or a step's own status |
| Flatten.FlattenOutcomeFirstError | src/librbd/crypto/FlattenRequest.cc:213-226 | for non-positive completion statuses: the result is the first failing step's status, the close included: a close error counts only when nothing failed before it |
| Flatten.FlattenRequest.Finish | src/librbd/crypto/FlattenRequest.cc:228-234 | on_finish is completed once with the status, with the raw context closed |
| Flatten.FlattenRequest.Send | src/librbd/crypto/FlattenRequest.cc:72-95 | a null format finishes with 0 without a cipher and -EINVAL with one, opening nothing; otherwise the raw context open is issued |
| Flatten.FlattenRequest.HandleCreateRawCtx | src/librbd/crypto/FlattenRequest.cc:97-115 | a failed open finishes with its status and closes nothing; a successful one moves on to the header |
| Flatten.FlattenRequest.FlattenCryptoHeader | src/librbd/crypto/FlattenRequest.cc:117-145 | without a cipher the result is 0 and the raw context is closed; otherwise the objects holding the first data_offset bytes are flattened |
| Flatten.FlattenRequest.HandleFlattenCryptoHeader | src/librbd/crypto/FlattenRequest.cc:147-160 | an error becomes the result and skips to the close; success moves on to removing the parent record |
| Flatten.FlattenRequest.MetadataRemove | src/librbd/crypto/FlattenRequest.cc:162-169 | removal of the parent-cryptor key is issued |
| Flatten.FlattenRequest.HandleMetadataRemove | src/librbd/crypto/FlattenRequest.cc:171-184 | an error becomes the result and skips to the close; success moves on to the format's flatten |
| Flatten.FlattenRequest.CryptoFlatten | src/librbd/crypto/FlattenRequest.cc:186-191 | the format's own flatten is issued |
| Flatten.FlattenRequest.HandleCryptoFlatten | src/librbd/crypto/FlattenRequest.cc:193-204 | its status, success or not, becomes the result, then the close |
| Flatten.FlattenRequest.CloseRawCtx | src/librbd/crypto/FlattenRequest.cc:206-211 | the close of the raw context is issued, with the result already assigned |
| Flatten.FlattenRequest.HandleRawCtxClose | src/librbd/crypto/FlattenRequest.cc:213-226 | a close error replaces the result only when the result is not already an error; the request finishes with the result |
| Flatten.FlattenRequest.Run | src/librbd/crypto/FlattenRequest.cc:72-234 | a whole flatten completes on_finish once with FlattenOutcome, issues exactly FlattenOps, and leaves the raw context closed |
| LuksFlatten.PatchHeader | src/librbd/crypto/luks/FlattenRequest.cc:70-98 | failures carry a negative status; the magic was already LUKS exactly when the load succeeded and replace_magic returned 0; the patch holds exactly the bytes read back |
| LuksFlatten.LuksFlattenIoOrder | src/librbd/crypto/luks/FlattenRequest.cc:44-141 | the image is read once over [0, MAXIMUM_HEADER_SIZE); it is written at offset 0 with the patched bytes only when the swap changed something; the flush comes last and only after a successful write |
| LuksFlatten.MagicSwapOutcome | src/librbd/crypto/luks/FlattenRequest.cc:78-90 | a swap that changed nothing ends with 0 and a swap that failed ends with its status, neither writing |
| LuksFlatten.WriteCoversReplacedPrefix | src/librbd/crypto/luks/FlattenRequest.cc:92-114 | when the read-back returns the bytes asked for, the write covers exactly [0, replace_magic's offset) |
| LuksFlatten.LuksFlattenOutcomeCases | src/librbd/crypto/luks/FlattenRequest.cc:32-159 | for a non-positive flush status: 0 means the header was already LUKS, or it was patched, written and flushed; any other result is a failing step's negative status |
| LuksFlatten.LuksFlattenRequest.Finish | src/librbd/crypto/luks/FlattenRequest.cc:155-159 | on_finish is completed once with the status |
| LuksFlatten.LuksFlattenRequest.Send | src/librbd/crypto/luks/FlattenRequest.cc:32-42 | a failed libcryptsetup init finishes with its status before any read |
| LuksFlatten.LuksFlattenRequest.ReadHeader | src/librbd/crypto/luks/FlattenRequest.cc:44-57 | a read of [0, MAXIMUM_HEADER_SIZE) is issued |
| LuksFlatten.LuksFlattenRequest.HandleReadHeader | src/librbd/crypto/luks/FlattenRequest.cc:59-99 | a read error finishes with its status; otherwise the bytes are loaded into the header and the buffer cleared; PatchHeader's decision then finishes the request or writes the patched bytes |
| LuksFlatten.LuksFlattenRequest.WriteHeader | src/librbd/crypto/luks/FlattenRequest.cc:101-115 | the whole buffer is moved into a write at image offset 0 |
| LuksFlatten.LuksFlattenRequest.HandleWriteHeader | src/librbd/crypto/luks/FlattenRequest.cc:117-129 | a write error finishes with its status and skips the flush |
| LuksFlatten.LuksFlattenRequest.FlushHeader | src/librbd/crypto/luks/FlattenRequest.cc:131-141 | a flush of the image is issued |
| LuksFlatten.LuksFlattenRequest.HandleFlush | src/librbd/crypto/luks/FlattenRequest.cc:143-153 | the flush status, success or not, is the request's |
| LuksFlatten.LuksFlattenRequest.Run | src/librbd/crypto/luks/FlattenRequest.cc:32-159 | a whole request completes on_finish once with LuksFlattenOutcome and issues exactly LuksFlattenIos |

## Left out

- ShutDownCryptoRequest is not part of this model. FormatRequest uses its
  effect on success (Format.UnloadCrypto): no cipher and no crypto layers.
  Its status is an input.
- The encryption format plugins (`format`, `load`, `flatten`,
  `get_crypto`) are a value carrying the cipher they build. Their completion
  statuses are inputs.
- Cryptography is left uninterpreted, and unwrapping is not assumed to
  invert wrapping:
  - the OpenSSL DataCryptor, whose `init` and `update` are functions
    supplied as inputs;
  - AES key wrap and AES-XTS themselves;
  - the libcryptsetup header of luks/Header.cc, whose `init`, `write`,
    `replace_magic` and `read` are functions supplied as inputs.
- MAXIMUM_HEADER_SIZE is defined in luks/Header.h, which is not part of this
  model. It is a parameter of the LUKS flatten.
- RADOS and the librbd request machinery are each recorded as an issued
  request or a status input:
  - `aio_operate` and `metadata_get`;
  - MetadataSetRequest and MetadataRemoveRequest;
  - ImageDispatchSpec reads, writes and flushes;
  - AioCompletion;
  - `ObjectDispatchSpec::create_read`;
  - the raw image open and close.
- The header flatten is left out in part:
  - `Striper::get_num_objects` and the AsyncObjectThrottle are one
    FlattenHeader request, recorded with the data offset, plus its status;
  - Flatten.FlattenObject models one object's decision, with the object map
    answer and the copyup trigger as inputs.
- The exclusive-lock assertion and `unset_require_lock` in
  `handle_create_raw_ctx` are locking, which is not modelled.
- Also not modelled: locks, reference counts (`get`/`put`),
  `delete this`, concurrency and scheduling, logging, `printf`, and `dump`.
- The Dispatcher destructor's assertion that the map is empty is not
  modelled. Dispatcher.ShutDown proves that the map ends empty.
- Only the order and the status of the shutdown completion chain
  (LambdaContext, at Dispatcher.h:200-212) are modelled, not the deletion of
  handlers. Each handler's `shut_down` status is a function supplied as an
  input, and every handler is taken to complete its context.
  `send_dispatch` and `C_LayerIterator::execute` (C_InvalidateCache and the
  like) are functions supplied as inputs, and so is the dispatch result a
  claiming layer writes into the spec; what a declining layer writes there
  is overwritten before the spec is read again.
- The io layer enumerations are in librbd/io/Types.h, which is not part of
  this model. The two crypto layers are fixed placeholder numbers.
- Load.NextVisit requires a record that decodes: a malformed record makes
  `decode` throw, and exceptions are not modelled. The status of
  `metadata_get_finish` is an input.
- Load.LoadRequest and its helpers do not track the formatted-clone flag,
  which LoadRequest never changes.
- The `ParentCryptoParams` constructor is the datatype constructor; it needs
  no member of its own.
- Load.LoadRequest.constructor requires every ancestor's crypto layers to be
  unregistered. LoadRequest never checks this. An ancestor that still has
  its layers while the image below it has no cipher is excluded, and so is
  what the source does then: its rollback only clears ciphers, but its
  commit reaches `register_dispatch`, whose assertion (Dispatcher.h:66-67)
  aborts.
- CryptoDispatch.EncryptedObjectReadRequest.Finish: `substr_of` takes 32-bit
  offset and length parameters (bufferlist is not part of this model); the
  model slices with the full 64-bit values.
- CryptoDispatch.AlignedLen: when object_len is within a block of 2^64 the
  aligned length wraps (CryptoDispatch.AlignedLenWraps), the backing read is
  too short for the requested bytes, and every successful completion of it
  throws in Finish. The model exhibits this but adds no corrected aligned
  length: object extents that large do not arise from librbd's striping,
  which is not part of this model.
- CryptoTypes.Encode: keys of 2^32 - 20 bytes or more do not round-trip,
  because the u32 struct length wraps (CryptoTypes.LongKeyDoesNotRoundTrip);
  the round-trip, layout and injectivity lemmas cover only shorter keys.
  Keys of 2^32 bytes or more also have their u32 key size cut to 32 bits.

## Findings

| source | as written | input that shows it | evidently intended | confidence | as-written member | corrected member |
|---|---|---|---|---|---|---|
| src/librbd/crypto/LoadRequest.cc:33-37 | `send` refuses an image that already has a cipher by calling `finish(-EEXIST)`. `finish` then runs its rollback loop (lines 183-189), clearing that image's cipher and the ciphers of the ancestors after it, while their crypto layers stay registered | a load on an image that already has a loaded cipher and registered crypto layers | complete the request with -EEXIST and leave the image and its ancestors untouched | medium, not executed | Load.RollbackOfLoadedImage | Load.LoadRequest.Send |
