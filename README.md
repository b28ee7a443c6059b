# FileSource: a verified model of the file source's byte delivery

The file source is the engine's ingestion front end for local files. It is
opened once, which opens the file and picks a compression mode from the
`compression` parameter. Then `fillTupleBuffer` is called once per tuple
buffer the engine hands it; each call copies the next bytes of the file into
the buffer. Finally the source is closed.

With `compression = "zstd"`, bytes pass through two staging vectors. A
compressed chunk of `ZSTD_DStreamInSize()` bytes is read into the first. It is
inflated into the second, of `ZSTD_DStreamOutSize()` bytes. `decompressedOffset`
and `decompressedSize` track what has not been copied out yet, and
`endOfCompressedStream` records an empty read. Two system-test adaptors point
a source configuration at a test file, refusing one that already names a file.

The project is in Dafny and is made of these modules:

- `Base` (base.dfy): bytes, `Option`, `Result` and the errors the source raises.
- `StreamCodec` (codec.dfy): the zstd streaming decoder, kept abstract.
  - It is described by its two recommended sizes and one step function.
  - The step sees the decoder context, the unconsumed input and the free
    output space, and says how much input it consumed and what it wrote, or
    fails with an error name.
  - The context is described by its history: what was fed in and what came out.
  - `Sound` is what the source relies on from the library: a step stays inside
    what it was offered, and makes progress when it has input and space.
- `InputFile` (input_file.dfy): the binary `ifstream`, as a byte sequence and
  a read position.
- `Decompression` (decompression.dfy): the zstd path as functions on a session value.
  - A session holds the decoder context, the file and its position, the staged
    bytes, the offset into them and the end-of-stream flag.
  - `Inflate` is the inner loop and `NextBlock` is `decompressNextBlock`.
  - `Fill` is one zstd `fillTupleBuffer` call, and `Drain` a run of calls.
  - The lemmas about them state what the path promises.
- `FileSources` (file_source.dfy): the class `FileSource`. It has the source's
  fields and arrays, and methods with its loops. The zstd methods are proved
  to do exactly what the `Decompression` functions say.
- `TestData` (test_data.dfy): the two test-data adaptors and the test-file text.
- `Quirks` (quirks.dfy): three small files on which the zstd path behaves
  surprisingly. All three behaviours are modelled as the code has them.

The state kept by the model:
- Ghost fields record the lifecycle phase and whether a call threw.
- The ghost field `delivered` records every byte handed out since `open`.
- The class invariant `Valid` says:
  - `decompressedOffset <= decompressedSize <= decompressedBuffer.Length`;
  - the staging buffers have the codec's sizes;
  - everything the decoder emitted is either delivered or still staged, in order.

Behaviour the proofs make explicit:
- **Input dropped when the staging buffer is full.** The inner loop stops as
  soon as the staging buffer is full. The rest of that chunk is never given to
  the decoder, because the next call reads a fresh chunk.
  - `FillNeverCatchesUp` shows the gap between bytes read and bytes decoded
    never closes again.
  - `DrainRoundTrip` therefore concludes "the decoder was given the whole
    file, and every byte it emitted was delivered once, in order" only when
    the decoder stays in sync with the file.
  - `Quirks.InputDroppedWhenStagingIsFull` shows a file losing a byte this way.
- **A chunk that decodes to nothing ends the fill.** `decompressNextBlock` then
  returns false without flagging the end of the stream. The fill stops there,
  and with nothing written it reports `eos`, although the file has more.
  - `Quirks.EmptyBlockEndsFill` shows such an early `eos`, followed by a fill
    that delivers the next byte.
  - So `eos` is final only once the end of the compressed stream was really
    reached (`EndOfStreamIsFinal`).
  - Callers take `eos` to be final, meaning the stream is exhausted. The
    model follows the code, where it is not always.
- **Output the decoder holds back at the end of the file is never asked for.**
  After the last chunk the source makes no further `ZSTD_decompressStream`
  call. It also ignores the call's non-error return value, which says whether
  the frame is complete. An empty read only sets the end-of-stream flag.
  - So a frame cut short ends in `eos` without an error, and output the
    decoder still holds is not delivered.
  - `Quirks.HeldBackOutputLost` shows a decoder that was given the whole file
    but emitted only part of it, with the stream at its end and nothing pending.
- **After a decompression error, the invariant may not hold.** The code resets
  `decompressedSize` before the inner loop and leaves `decompressedOffset`
  alone, so after an error `offset <= size` may fail.
  - `offset <= size <= capacity` is expected to hold at all times.
  - The model follows the code: the invariant is kept while the source has
    not thrown, and a source that threw is not filled again.

## Model

| member | source | states |
|---|---|---|
| InputFile.Read | nes-sources/src/FileSource.cpp:182-184 | a read of `n` bytes transfers `min(n, remaining)` bytes. They are the next bytes of the file, and the read is empty exactly when `n` is 0 or the file is at its end |
| InputFile.ReadsAreContiguous | nes-sources/src/FileSource.cpp:182-185 | successive reads of any sizes deliver the file from the start position with no gap and no repeat, up to the total requested or the end of the file |
| InputFile.ReadsToEndOfStream | nes-sources/src/FileSource.cpp:186-189 | reading until a non-empty request comes back empty yields exactly the rest of the file |
| FileSources.ParseCompression | nes-sources/src/FileSource.cpp:61-79 | the compression value is accepted exactly when it is "zstd", "none" or empty, and selects decompression exactly when it is "zstd". Any other value fails with an error naming it |
| FileSources.Outcome | nes-sources/src/FileSource.cpp:173-178 | the result is `eos` exactly when zero bytes were written, and `withBytes(n)` otherwise |
| FileSources.FileSource.constructor | nes-sources/src/FileSource.cpp:46-50 | a new source keeps its path and compression, is unopened, has no decompression context and has read nothing |
| FileSources.FileSource.Open | nes-sources/src/FileSource.cpp:52-80 | an unresolvable path fails naming it. Otherwise the file is opened at position 0, and the compression value is rejected as `ParseCompression` says. For "zstd", a failed context creation fails; otherwise the session starts fresh. Every other outcome leaves the context (except after a failed creation), the staging buffers, the offsets and the end-of-stream flag unchanged. The counter is unchanged and `Valid` holds |
| FileSources.FileSource.StartDecompression | nes-sources/src/FileSource.cpp:61-75 | a fresh context, new staging buffers of exactly `inSize` and `outSize` bytes, offset = size = 0 and no end of stream. The session is the opened session of the file |
| FileSources.FileSource.Close | nes-sources/src/FileSource.cpp:82-90 | the file is closed and the context released. The staging state, the counter and what was delivered are unchanged |
| FileSources.FileSource.ReadInto | nes-sources/src/FileSource.cpp:100-101 | the front of the destination receives exactly `Read` of its length from the current position. The bytes after them are untouched, and the position advances by the count |
| FileSources.FileSource.DecompressNextBlock | nes-sources/src/FileSource.cpp:92-138 | the new state is exactly the session `NextBlock` gives, or the source fails with `NextBlock`'s error. `Valid` is kept; the file, the counter and what was delivered are unchanged |
| FileSources.FileSource.InflateBlock | nes-sources/src/FileSource.cpp:109-137 | after a non-empty read, the chunk is inflated into the staging buffer and the offset reset to 0, as `NextBlock` says. A decoder error fails the source with that error |
| FileSources.FileSource.DecompressChunk | nes-sources/src/FileSource.cpp:110-134 | the inner loop's result is exactly `Inflate` of the chunk just read. On success the context is the decoder's new state and the staging buffer holds exactly the staged bytes |
| FileSources.FileSource.Stage | nes-sources/src/FileSource.cpp:116-127 | one step's output is appended to the valid part of the staging buffer, and the size grows by its length |
| FileSources.FileSource.FillTupleBuffer | nes-sources/src/FileSource.cpp:140-191 | zstd: the bytes written are exactly what `Fill` delivers, and the bytes past them are untouched. The session becomes `Fill`'s, and a decoder error fails the call. Uncompressed: exactly `Read` of the buffer's length, and the context, staging buffers, offsets and end-of-stream flag are unchanged. Both: the result is `Outcome` of the count, the counter and `delivered` grow by exactly those bytes, and an uncompressed `eos` on a non-empty buffer means the whole file was delivered |
| FileSources.FileSource.FillFromStream | nes-sources/src/FileSource.cpp:142-171 | the copy/decompress loop writes exactly the bytes `Fill` delivers, in order, at the front of the buffer, and leaves the rest of the buffer untouched |
| FileSources.FileSource.CopyTurn | nes-sources/src/FileSource.cpp:152-162 | one copy step keeps the loop's account: what was written, followed by what the rest of the fill delivers, is the whole fill |
| FileSources.FileSource.BlockTurn | nes-sources/src/FileSource.cpp:163-170 | one decompression step: on an error the whole fill fails; with nothing staged the fill ends with what was written; otherwise the account is kept |
| FileSources.FileSource.CopyStaged | nes-sources/src/FileSource.cpp:152-161 | `min(pending, space)` bytes are copied, and they are exactly the next staged bytes. The offset moves past them, the buffer before and after them is unchanged, and `Valid` is kept |
| FileSources.FileSource.Memcpy | nes-sources/src/FileSource.cpp:158 | the destination range holds the source range, and the rest of the destination is unchanged |
| Decompression.Inflate | nes-sources/src/FileSource.cpp:112-134 | the inner loop: a run that ends without a decoder error never stages more than the staging buffer holds. `InflateAccounts` states what it fed and emitted |
| Decompression.InflateAccounts | nes-sources/src/FileSource.cpp:112-134 | the decoder consumed the chunk from the start position up to the returned one, and emitted exactly the bytes appended to the staging area. Input is left unconsumed only when the staging area is full |
| Decompression.InflateStepAccounts | nes-sources/src/FileSource.cpp:114-133 | the same account for a run whose first step made progress |
| Decompression.OpenedSession | nes-sources/src/FileSource.cpp:61-74 | the session `open` sets up for "zstd": position 0 in the file, nothing pending, no end of stream, and a fresh decoder that is in sync with the (empty) prefix read and has emitted nothing |
| Decompression.NextBlock | nes-sources/src/FileSource.cpp:92-138 | the session stays valid (`offset <= size <= capacity`), the read position never moves back, and a block reports `true` only when it read input and staged bytes |
| Decompression.NextBlockStagesDecoderOutput | nes-sources/src/FileSource.cpp:113-137 | the bytes a block stages are exactly what the decoder emitted for it |
| Decompression.NextBlockFeedsDecoder | nes-sources/src/FileSource.cpp:100-134 | the decoder is fed a prefix of the chunk just read, and a strict prefix only when the staging buffer filled up |
| Decompression.NextBlockKeepsSync | nes-sources/src/FileSource.cpp:100-134 | when a block's output fits the staging buffer, a decoder that had seen exactly the file read so far still has |
| Decompression.NextBlockOnChunk | nes-sources/src/FileSource.cpp:109-137 | a chunk that inflated gives the staged session with offset 0, which stays valid and keeps the delivered/pending account |
| Decompression.Fill | nes-sources/src/FileSource.cpp:142-171 | a fill writes at most the buffer's size, keeps the session valid and never moves the read position back. A fill that stops short of a full buffer leaves nothing pending |
| Decompression.FillPending | nes-sources/src/FileSource.cpp:152-162 | the same bounds for a fill that starts with pending bytes |
| Decompression.FillNextBlock | nes-sources/src/FileSource.cpp:163-170 | the same bounds for a fill that starts by decompressing a block |
| Decompression.FillLoopCopies | nes-sources/src/FileSource.cpp:149-162 | a copy step keeps the fill loop's account |
| Decompression.FillLoopBlocks | nes-sources/src/FileSource.cpp:163-170 | a decompression step keeps the account, ends the fill when nothing was staged, or fails it with the decoder's error |
| Decompression.FillKeepsCoherent | nes-sources/src/FileSource.cpp:142-171 | if everything delivered so far, followed by the pending bytes, was the decoder's whole output, that stays true after a fill |
| Decompression.CopyStepKeepsCoherent | nes-sources/src/FileSource.cpp:152-161 | the same for a fill that starts by copying |
| Decompression.BlockStepKeepsCoherent | nes-sources/src/FileSource.cpp:163-170 | the same for a fill that starts by decompressing |
| Decompression.BlockKeepsCoherent | nes-sources/src/FileSource.cpp:92-138 | a block decompressed once nothing is pending keeps the account |
| Decompression.CopyKeepsCoherent | nes-sources/src/FileSource.cpp:158-160 | copying out the next pending bytes keeps the account |
| Decompression.FillNeverCatchesUp | nes-sources/src/FileSource.cpp:129-134 | the gap between compressed bytes read and bytes given to the decoder never shrinks during a fill, so a dropped byte is never decoded |
| Decompression.Drain | nes-sources/src/FileSource.cpp:140-179 | successive fills keep the session valid and the file unchanged |
| Decompression.DrainKeepsCoherent | nes-sources/src/FileSource.cpp:140-179 | the delivered/pending account holds across any run of fills |
| Decompression.DrainNeverCatchesUp | nes-sources/src/FileSource.cpp:129-134 | the read/decoded gap never shrinks across any run of fills |
| Decompression.DrainRoundTrip | nes-sources/src/FileSource.cpp:140-179 | from `open`, the bytes delivered followed by those pending are exactly the decoder's output. At the end of the stream, with nothing pending and the decoder in sync, the decoder was given the whole file and every byte it emitted was delivered once, in order |
| Decompression.EndOfStreamIsFinal | nes-sources/src/FileSource.cpp:94-97 | once the end of the compressed stream is flagged and nothing is pending, every later fill delivers nothing and changes nothing |
| TestData.Lines | nes-sources/src/FileSource.cpp:226-231 | the test-file text is empty exactly when there are no tuples, and otherwise ends with a line break |
| TestData.WriteLines | nes-sources/src/FileSource.cpp:226-231 | the write loop produces exactly every tuple followed by a line break, in order |
| TestData.LinesRoundTrip | nes-sources/src/FileSource.cpp:226-231 | reading the test file back line by line gives the tuples written, when no tuple holds a line break |
| TestData.RegisterFileInlineData | nes-sources/src/FileSource.cpp:215-237 | a configuration that already has `file_path` is refused. Otherwise a test file that cannot be created fails, naming its path. Otherwise the result has exactly `file_path` added, mapped to the test path, all other entries unchanged, and the tuples written one per line |
| TestData.RegisterFileFileData | nes-sources/src/FileSource.cpp:239-250 | a configuration that already has `file_path` is refused. Otherwise the call succeeds: exactly that key is added, mapped to the test path, and all other entries are unchanged |
| Quirks.InputDroppedWhenStagingIsFull | nes-sources/src/FileSource.cpp:129-133 | with a one-byte staging buffer and two-byte chunks, the file `[7, 9]` delivers only `[7]` before the end of the stream. The decoder never sees the `9` |
| Quirks.HeldBackOutputLost | nes-sources/src/FileSource.cpp:103-125 | with a decoder that holds one byte back, the file `[1, 2]` is fully given to the decoder in one fill, which delivers only `[1]` and ends at the end of the stream with nothing pending, so the `2` is never delivered |
| Quirks.EmptyBlockEndsFill | nes-sources/src/FileSource.cpp:166-168 | a chunk that decodes to nothing ends a fill with zero bytes, before the end of the file or the stream. The next fill delivers the following byte |

## Left out

- Decompression.DrainRoundTrip: frame completion and the output the decoder still holds at the end of the stream are not modelled. The lemma promises that the decoder was given the whole file and that what it emitted was delivered, not that the whole decompressed content was delivered; the source never asks the decoder for held-back output.
- FileSources.FileSource.FillTupleBuffer: fills after a call has thrown are not modelled. Every fill requires a source that has not failed, because a decoder error is fatal to the source and its staging state may then break `offset <= size`.
- Opening the file: `realpath`, the `ifstream` constructor and the errno text are OS I/O. `Open` takes the file's contents, or `None` when the path cannot be resolved or opened.
- Read errors after `open` are not modelled. A read returns `min(request, remaining)` bytes.
- Whether `ZSTD_createDCtx` succeeds is a parameter of `Open`.
- The zstd library itself is abstract. `ZSTD_DStreamInSize()` and `ZSTD_DStreamOutSize()` (131075 and 131072 in current zstd releases) are the codec's `inSize` and `outSize`. `ZSTD_decompressStream` is its step function, and `ZSTD_isError`/`ZSTD_getErrorName` are its `Fault` outcome.
- The progress half of `Sound` is assumed of the library, not proved. It is what makes the inner decompression loop terminate.
- `ZSTD_freeDCtx` is modelled as clearing the context.
- The destructor, `toString`, `validateAndFormat`, `RegisterFileSourceValidation` and `RegisterFileSource` are left out. They are formatting and registry glue that delegate to code not part of this model.
- The constructor takes the path and compression values directly, instead of reading them from the source descriptor.
- The `stop_token` parameter is unused by the source and left out. The buffer provider passed to `open` is also unused and left out.
- The counter's atomic `load`/`+=` is modelled as a plain `nat`.
- All counts and sizes are unbounded integers: `size_t`/`streamsize` overflow is not modelled.
- The tuple buffer is its memory area, an array whose length is the buffer size.
- The field defaults of the class declaration, in the header, are not part of this model. A new source is taken to start with no context, empty staging buffers and counters at 0.
- Exceptions become a `Failure` result carrying the error. Which exception type the code throws is recorded in the `Error` datatype's comments, not in the result.
- The source configuration is modelled as its `sourceConfig` map. The other members of the adaptor arguments are left out. The test file's creation is a parameter, and its contents are returned as text.
- The URL downloader is a network client over libraries that are not part of this model.
