/** `FileSource`: a source that reads a local file and hands its bytes to the
    engine one tuple buffer at a time, either as they are or through a
    streaming zstd decompressor. */
module FileSources {
  import opened Base
  import opened StreamCodec
  import opened Decompression
  import InputFile

  datatype Compression = Uncompressed | Zstd

  /** How `open` reads the `compression` parameter: "zstd" selects streaming
      decompression, "none" and the empty string select plain reads, anything
      else is rejected with an error naming the value. */
  function ParseCompression(name: string): (r: Result<Compression>)
    ensures r.Success? <==> name in {"zstd", "none", ""}
    ensures r.Success? ==> (r.value == Zstd <==> name == "zstd")
    ensures r.Failure? ==> r.error == UnsupportedCompression(name)
  {
    if name == "zstd" then Success(Zstd)
    else if name != "none" && name != "" then Failure(UnsupportedCompression(name))
    else Success(Uncompressed)
  }

  /** The documented lifecycle: `open` once, then fills, then `close`. */
  datatype Phase = Unopened | Opened | Closed

  /** What one `fillTupleBuffer` call reports. */
  datatype FillTupleBufferResult = Eos | WithBytes(bytes: nat)

  function Outcome(written: nat): (r: FillTupleBufferResult)
    ensures r == Eos <==> written == 0
    ensures r.WithBytes? ==> r.bytes == written
  {
    if written == 0 then Eos else WithBytes(written)
  }

  class FileSource {
    const filePath: string
    const compressionType: string
    /** The zstd library the source calls. */
    const codec: SoundCodec

    /** `inputFile`: whether it is open, the bytes of the file behind it and its read position. */
    var fileOpen: bool
    var file: seq<byte>
    var cursor: nat
    /** `zstdContext`; `None` stands for `nullptr`. */
    var zstdContext: Option<DCtx>
    var compressedBuffer: array<byte>
    var decompressedBuffer: array<byte>
    var decompressedOffset: nat
    var decompressedSize: nat
    var endOfCompressedStream: bool
    var totalNumBytesRead: nat

    /** Where the source is in its lifecycle. */
    ghost var phase: Phase
    /** Set when a call threw: the source is not to be filled again. */
    ghost var failed: bool
    /** Every byte handed out by `FillTupleBuffer` since `Open`, in order. */
    ghost var delivered: seq<byte>
    /** The decompressed bytes the staging buffer holds: `decompressedBuffer[..decompressedSize]`. */
    ghost var stagedBytes: seq<byte>

    ghost predicate Valid()
      reads this, decompressedBuffer
    {
      && compressedBuffer != decompressedBuffer
      && cursor <= |file|
      && (!failed ==> decompressedOffset <= decompressedSize <= decompressedBuffer.Length)
      && (phase == Opened && !failed ==> fileOpen)
      && (phase == Opened && !failed && compressionType == "zstd" ==> ZstdReady())
      && (phase == Opened && !failed && compressionType != "zstd" ==> delivered == file[..cursor])
    }

    /** The decompression state of an open zstd source: staging buffers of the
        codec's recommended sizes, `offset <= size <= capacity`, and every byte
        the decoder emitted either delivered or pending, in order. */
    ghost predicate ZstdReady()
      reads this, decompressedBuffer
    {
      && zstdContext.Some?
      && compressedBuffer.Length == codec.inSize
      && decompressedBuffer.Length == codec.outSize
      && decompressedOffset <= decompressedSize <= decompressedBuffer.Length
      && stagedBytes == decompressedBuffer[..decompressedSize]
      && cursor <= |file|
      && SessionValid(codec, State())
      && Coherent(delivered, State())
      && |zstdContext.value.consumed| <= cursor
    }

    /** The decompression state as a `Session` value. */
    ghost function State(): Session
      reads this
      requires zstdContext.Some?
    {
      Session(zstdContext.value, file, cursor, stagedBytes, decompressedOffset, endOfCompressedStream)
    }

    /** The account the zstd branch of `fillTupleBuffer` keeps: the whole
        fill, `goal`, delivers the `written` bytes already in `buf` followed
        by what filling the rest of `buf` from the current state delivers. */
    ghost predicate LoopAccount(goal: Result<(seq<byte>, Session)>, buf: array<byte>, written: nat)
      reads this, buf
    {
      && zstdContext.Some? && written <= buf.Length
      && FillsAhead(codec, goal, buf[..written], State(), buf.Length - written)
    }

    constructor (filePath: string, compressionType: string, codec: SoundCodec)
      ensures Valid() && phase == Unopened && !failed
      ensures this.filePath == filePath && this.compressionType == compressionType && this.codec == codec
      ensures !fileOpen && zstdContext.None? && totalNumBytesRead == 0 && delivered == []
    {
      this.filePath := filePath;
      this.compressionType := compressionType;
      this.codec := codec;
      fileOpen, file, cursor := false, [], 0;
      zstdContext := None;
      compressedBuffer := new byte[0];
      decompressedBuffer := new byte[0];
      decompressedOffset, decompressedSize := 0, 0;
      endOfCompressedStream := false;
      totalNumBytesRead := 0;
      phase, failed, delivered := Unopened, false, [];
    }

    /** `open`: `contents` is the file `filePath` resolves to, `None` when it
        cannot be resolved or opened; `contextCreated` says whether
        `ZSTD_createDCtx` returned a context. */
    method Open(contents: Option<seq<byte>>, contextCreated: bool) returns (r: Result<()>)
      requires Valid() && phase == Unopened && !failed
      modifies this
      ensures Valid() && phase == Opened && delivered == []
      ensures totalNumBytesRead == old(totalNumBytesRead)
      ensures contents.None? ==> r == Failure(CannotResolvePath(filePath)) && failed && !fileOpen && zstdContext == old(zstdContext)
      ensures contents.None? || ParseCompression(compressionType) != Success(Zstd) || !contextCreated ==>
        && compressedBuffer == old(compressedBuffer) && decompressedBuffer == old(decompressedBuffer)
        && decompressedOffset == old(decompressedOffset) && decompressedSize == old(decompressedSize)
        && endOfCompressedStream == old(endOfCompressedStream) && stagedBytes == old(stagedBytes)
      ensures contents.Some? ==> fileOpen && file == contents.value && cursor == 0
      ensures contents.Some? ==> match ParseCompression(compressionType)
                                 case Failure(e) =>
                                   r == Failure(e) && failed && zstdContext == old(zstdContext)
                                 case Success(Uncompressed) =>
                                   r == Success(()) && !failed && zstdContext == old(zstdContext)
                                 case Success(Zstd) =>
                                   if !contextCreated then r == Failure(ContextCreationFailed) && failed && zstdContext.None?
                                   else
                                     && r == Success(()) && !failed
                                     && zstdContext == Some(FreshContext)
                                     && fresh(compressedBuffer) && compressedBuffer.Length == codec.inSize
                                     && fresh(decompressedBuffer) && decompressedBuffer.Length == codec.outSize
                                     && decompressedOffset == 0 && decompressedSize == 0 && !endOfCompressedStream
                                     && State() == OpenedSession(file)
    {
      phase, delivered := Opened, [];
      if contents.None? {
        fileOpen, file, cursor := false, [], 0;
        failed := true;
        return Failure(CannotResolvePath(filePath));
      }
      fileOpen, file, cursor := true, contents.value, 0;
      match ParseCompression(compressionType) {
        case Failure(e) =>
          failed := true;
          return Failure(e);
        case Success(Uncompressed) =>
        case Success(Zstd) =>
          if !contextCreated {
            zstdContext := None;
            failed := true;
            return Failure(ContextCreationFailed);
          }
          StartDecompression();
      }
      r := Success(());
    }

    /** The zstd branch of `open` once a context was created: staging buffers
        of the codec's recommended sizes, both empty, and no end of stream. */
    method StartDecompression()
      requires phase == Opened && !failed && fileOpen && compressionType == "zstd"
      requires delivered == [] && cursor == 0
      modifies this
      ensures zstdContext == Some(FreshContext)
      ensures fresh(compressedBuffer) && compressedBuffer.Length == codec.inSize
      ensures fresh(decompressedBuffer) && decompressedBuffer.Length == codec.outSize
      ensures decompressedOffset == 0 && decompressedSize == 0 && !endOfCompressedStream
      ensures State() == OpenedSession(file) && Valid()
      ensures phase == old(phase) && failed == old(failed) && delivered == old(delivered) && fileOpen == old(fileOpen)
      ensures file == old(file) && cursor == old(cursor) && totalNumBytesRead == old(totalNumBytesRead)
    {
      var compressed := new byte[codec.inSize];
      var decompressed := new byte[codec.outSize];
      assert decompressed[..0] == [];
      zstdContext, compressedBuffer, decompressedBuffer := Some(FreshContext), compressed, decompressed;
      decompressedOffset, decompressedSize, endOfCompressedStream, stagedBytes := 0, 0, false, [];
      assert State() == OpenedSession(file);
    }

    /** `close`: closes the file and frees the decompression context. The
        staging buffers and their positions are left as they are. */
    method Close()
      requires Valid()
      modifies this
      ensures Valid() && phase == Closed && !fileOpen && zstdContext.None?
      ensures failed == old(failed) && delivered == old(delivered) && totalNumBytesRead == old(totalNumBytesRead)
      ensures file == old(file) && cursor == old(cursor)
      ensures compressedBuffer == old(compressedBuffer) && decompressedBuffer == old(decompressedBuffer)
      ensures decompressedOffset == old(decompressedOffset) && decompressedSize == old(decompressedSize)
      ensures endOfCompressedStream == old(endOfCompressedStream)
    {
      fileOpen := false;
      if zstdContext.Some? {
        zstdContext := None;
      }
      phase := Closed;
    }

    /** `inputFile.read(dest, dest.Length)` followed by `gcount()`: copies the
        next bytes of the file, up to the length of `dest`, to the front of
        `dest` and advances the read position past them. */
    method ReadInto(dest: array<byte>) returns (n: nat)
      requires cursor <= |file|
      modifies dest, this`cursor
      ensures n <= dest.Length && dest[..n] == InputFile.Read(file, old(cursor), dest.Length)
      ensures forall i | n <= i < dest.Length :: dest[i] == old(dest[i])
      ensures cursor == old(cursor) + n <= |file|
    {
      n := Min(dest.Length, |file| - cursor);
      forall i | 0 <= i < n {
        dest[i] := file[cursor + i];
      }
      cursor := cursor + n;
    }

    /** `decompressNextBlock`, called by `FillTupleBuffer` once every staged
        byte has been copied out. */
    method DecompressNextBlock() returns (r: Result<bool>)
      requires Valid() && phase == Opened && !failed && compressionType == "zstd"
      requires decompressedOffset == decompressedSize
      modifies this, compressedBuffer, decompressedBuffer
      ensures Valid() && phase == Opened
      ensures compressedBuffer == old(compressedBuffer) && decompressedBuffer == old(decompressedBuffer)
      ensures file == old(file) && fileOpen == old(fileOpen)
      ensures delivered == old(delivered) && totalNumBytesRead == old(totalNumBytesRead)
      ensures match NextBlock(codec, old(State()))
              case Failure(e) => r == Failure(e) && failed
              case Success((s', more)) => r == Success(more) && !failed && State() == s'
    {
      ghost var s0 := State();
      if endOfCompressedStream {
        assert NextBlock(codec, s0) == Success((State(), false));
        return Success(false);
      }
      var n := ReadInto(compressedBuffer);
      if n == 0 {
        endOfCompressedStream := true;
        assert NextBlock(codec, s0) == Success((State(), false));
        return Success(false);
      }
      r := InflateBlock(n, s0);
    }

    /** The rest of `decompressNextBlock` once a non-empty chunk of `n` bytes
        was read from the session `s0`: inflate it into the staging buffer and
        rewind the read offset into that buffer. */
    method InflateBlock(n: nat, ghost s0: Session) returns (r: Result<bool>)
      requires phase == Opened && !failed && compressionType == "zstd" && fileOpen
      requires SessionValid(codec, s0) && !s0.eos && Pending(s0) == []
      requires Coherent(delivered, s0) && |s0.ctx.consumed| <= s0.cursor
      requires zstdContext == Some(s0.ctx) && file == s0.file && !endOfCompressedStream
      requires compressedBuffer != decompressedBuffer
      requires compressedBuffer.Length == codec.inSize && decompressedBuffer.Length == codec.outSize
      requires 0 < n <= compressedBuffer.Length && compressedBuffer[..n] == InputFile.Read(file, s0.cursor, codec.inSize)
      requires cursor == s0.cursor + n
      modifies this, decompressedBuffer
      ensures Valid() && phase == Opened
      ensures compressedBuffer == old(compressedBuffer) && decompressedBuffer == old(decompressedBuffer)
      ensures file == old(file) && fileOpen == old(fileOpen)
      ensures delivered == old(delivered) && totalNumBytesRead == old(totalNumBytesRead)
      ensures match NextBlock(codec, s0)
              case Failure(e) => r == Failure(e) && failed
              case Success((s', more)) => r == Success(more) && !failed && State() == s'
    {
      var inflated := DecompressChunk(n);
      if inflated.Failure? {
        NextBlockFails(codec, s0, inflated.error);
        failed := true;
        return Failure(inflated.error);
      }
      decompressedOffset, stagedBytes := 0, inflated.value.staged;
      r := Success(decompressedSize > 0);
      NextBlockOnChunk(codec, s0, delivered, inflated.value);
      assert State() == Session(inflated.value.ctx, file, cursor, inflated.value.staged, 0, false);
      assert NextBlock(codec, s0) == Success((State(), decompressedSize > 0));
    }

    /** The inner loop of `decompressNextBlock`: feeds the `n` bytes just read
        into `compressedBuffer` to the decoder, appending its output to the
        staging buffer from position 0, until the chunk is consumed or the
        staging buffer is full. The unconsumed rest of the chunk is dropped. */
    method DecompressChunk(n: nat) returns (r: Result<Inflated>)
      requires zstdContext.Some? && compressedBuffer != decompressedBuffer
      requires 0 < n <= compressedBuffer.Length && decompressedBuffer.Length == codec.outSize
      modifies decompressedBuffer, this`decompressedSize, this`zstdContext
      ensures r == Inflate(codec, old(zstdContext.value), compressedBuffer[..n], 0, [])
      ensures r.Success? ==> zstdContext == Some(r.value.ctx) && decompressedSize == |r.value.staged|
      ensures r.Success? ==> decompressedSize <= decompressedBuffer.Length && decompressedBuffer[..decompressedSize] == r.value.staged
    {
      var chunk := compressedBuffer[..n];
      var ctx := zstdContext.value;
      ghost var goal := Inflate(codec, ctx, chunk, 0, []);
      var pos := 0;
      decompressedSize := 0;
      while pos < n
        invariant pos <= n && decompressedSize < decompressedBuffer.Length
        invariant zstdContext == Some(ctx)
        invariant goal == Inflate(codec, ctx, chunk, pos, decompressedBuffer[..decompressedSize])
        decreases n - pos, decompressedBuffer.Length - decompressedSize
      {
        ghost var prefix := decompressedBuffer[..decompressedSize];
        var step := codec.decompress(ctx, chunk[pos..], decompressedBuffer.Length - decompressedSize);
        match step {
          case Fault(name) =>
            InflateFault(codec, ctx, chunk, pos, prefix, name);
            return Failure(DecompressionFailed(name));
          case Progress(used, out) =>
            InflateProgress(codec, ctx, chunk, pos, prefix, used, out);
            Stage(out);
            ctx := Advance(ctx, chunk[pos..pos + used], out);
            zstdContext := Some(ctx);
            pos := pos + used;
            if decompressedSize >= decompressedBuffer.Length {
              assert goal == Success(Inflated(ctx, pos, decompressedBuffer[..decompressedSize]));
              break;
            }
        }
      }
      assert compressedBuffer[..n] == chunk;
      return Success(Inflated(ctx, pos, decompressedBuffer[..decompressedSize]));
    }

    /** Appends one piece of decoder output to the staging buffer, as
        `ZSTD_decompressStream` does through its output window. */
    method Stage(out: seq<byte>)
      requires decompressedSize + |out| <= decompressedBuffer.Length
      modifies decompressedBuffer, this`decompressedSize
      ensures decompressedSize == old(decompressedSize) + |out|
      ensures decompressedBuffer[..decompressedSize] == old(decompressedBuffer[..decompressedSize]) + out
    {
      forall i | 0 <= i < |out| {
        decompressedBuffer[decompressedSize + i] := out[i];
      }
      assert decompressedBuffer[..decompressedSize + |out|] == old(decompressedBuffer[..decompressedSize]) + out;
      decompressedSize := decompressedSize + |out|;
    }

    /** `fillTupleBuffer`: fills `buf` (the tuple buffer's memory, its
        length the buffer size) from the decompressed stream or straight from
        the file, and reports the end of the stream when nothing was written. */
    method FillTupleBuffer(buf: array<byte>) returns (r: Result<FillTupleBufferResult>)
      requires Valid() && phase == Opened && !failed
      requires buf != compressedBuffer && buf != decompressedBuffer
      modifies this, buf, compressedBuffer, decompressedBuffer
      ensures Valid() && phase == Opened && file == old(file) && fileOpen == old(fileOpen)
      ensures compressionType == "zstd" ==>
        match Fill(codec, old(State()), buf.Length)
        case Failure(e) => r == Failure(e) && failed && totalNumBytesRead == old(totalNumBytesRead)
        case Success((bytes, s')) =>
          && r == Success(Outcome(|bytes|)) && !failed && State() == s'
          && buf[..|bytes|] == bytes
          && (forall i | |bytes| <= i < buf.Length :: buf[i] == old(buf[i]))
          && delivered == old(delivered) + bytes
          && totalNumBytesRead == old(totalNumBytesRead) + |bytes|
      ensures compressionType != "zstd" ==>
        var bytes := InputFile.Read(old(file), old(cursor), buf.Length);
        && r == Success(Outcome(|bytes|)) && !failed && cursor == old(cursor) + |bytes|
        && buf[..|bytes|] == bytes
        && (forall i | |bytes| <= i < buf.Length :: buf[i] == old(buf[i]))
        && delivered == old(delivered) + bytes
        && totalNumBytesRead == old(totalNumBytesRead) + |bytes|
        && (r == Success(Eos) && 0 < buf.Length ==> delivered == file)
        && zstdContext == old(zstdContext)
        && compressedBuffer == old(compressedBuffer) && decompressedBuffer == old(decompressedBuffer)
        && decompressedOffset == old(decompressedOffset) && decompressedSize == old(decompressedSize)
        && endOfCompressedStream == old(endOfCompressedStream) && stagedBytes == old(stagedBytes)
    {
      if compressionType == "zstd" {
        var written := FillFromStream(buf);
        if written.Failure? {
          return Failure(written.error);
        }
        totalNumBytesRead := totalNumBytesRead + written.value;
        return Success(Outcome(written.value));
      }
      var n := ReadInto(buf);
      delivered := delivered + buf[..n];
      totalNumBytesRead := totalNumBytesRead + n;
      r := Success(Outcome(n));
    }

    /** The loop of the zstd branch of `fillTupleBuffer`: the number of bytes
        written to `buf`, which are exactly what `Fill` delivers. */
    method FillFromStream(buf: array<byte>) returns (r: Result<nat>)
      requires Valid() && phase == Opened && !failed && compressionType == "zstd"
      requires buf != compressedBuffer && buf != decompressedBuffer
      modifies this, buf, compressedBuffer, decompressedBuffer
      ensures Valid() && phase == Opened
      ensures compressedBuffer == old(compressedBuffer) && decompressedBuffer == old(decompressedBuffer)
      ensures file == old(file) && fileOpen == old(fileOpen) && totalNumBytesRead == old(totalNumBytesRead)
      ensures match Fill(codec, old(State()), buf.Length)
              case Failure(e) => r == Failure(e) && failed
              case Success((bytes, s')) =>
                && r == Success(|bytes|) && !failed && State() == s'
                && buf[..|bytes|] == bytes
                && (forall i | |bytes| <= i < buf.Length :: buf[i] == old(buf[i]))
                && delivered == old(delivered) + bytes
    {
      ghost var goal := Fill(codec, State(), buf.Length);
      var written := 0;
      PrependNothing(goal);
      while written < buf.Length
        invariant Valid() && phase == Opened && !failed
        invariant compressedBuffer == old(compressedBuffer) && decompressedBuffer == old(decompressedBuffer)
        invariant file == old(file) && fileOpen == old(fileOpen) && totalNumBytesRead == old(totalNumBytesRead)
        invariant written <= buf.Length
        invariant LoopAccount(goal, buf, written)
        invariant forall i | written <= i < buf.Length :: buf[i] == old(buf[i])
        invariant delivered == old(delivered) + buf[..written]
        decreases buf.Length - written, |file| - cursor
      {
        if decompressedOffset < decompressedSize {
          var k := CopyTurn(buf, written, goal, old(delivered));
          written := written + k;
        } else {
          var more := BlockTurn(buf, written, goal);
          if more.Failure? {
            return Failure(more.error);
          }
          if !more.value {
            break;
          }
        }
      }
      r := Success(written);
    }

    /** One turn of the loop of `FillFromStream` that copies pending bytes:
        what the whole fill delivers is still what was written so far
        followed by what the rest of the fill delivers. */
    method CopyTurn(buf: array<byte>, written: nat, ghost goal: Result<(seq<byte>, Session)>, ghost d0: seq<byte>) returns (k: nat)
      requires Valid() && phase == Opened && !failed && compressionType == "zstd"
      requires buf != decompressedBuffer
      requires written < buf.Length && decompressedOffset < decompressedSize
      requires LoopAccount(goal, buf, written)
      requires delivered == d0 + buf[..written]
      modifies buf, this`decompressedOffset, this`delivered
      ensures Valid() && 0 < k <= buf.Length - written
      ensures LoopAccount(goal, buf, written + k)
      ensures forall i | written + k <= i < buf.Length :: buf[i] == old(buf[i])
      ensures delivered == d0 + buf[..written + k]
    {
      ghost var before, s := buf[..written], State();
      FillLoopCopies(codec, goal, before, s, buf.Length - written);
      k := CopyStaged(buf, written);
    }

    /** One turn of the loop of `FillFromStream` that decompresses a block:
        on failure the whole fill fails; when nothing was staged it ends with
        what was written so far; otherwise it goes on. */
    method BlockTurn(buf: array<byte>, written: nat, ghost goal: Result<(seq<byte>, Session)>) returns (r: Result<bool>)
      requires Valid() && phase == Opened && !failed && compressionType == "zstd"
      requires buf != compressedBuffer && buf != decompressedBuffer
      requires written < buf.Length && decompressedOffset == decompressedSize
      requires LoopAccount(goal, buf, written)
      modifies this, compressedBuffer, decompressedBuffer
      ensures Valid() && phase == Opened
      ensures compressedBuffer == old(compressedBuffer) && decompressedBuffer == old(decompressedBuffer)
      ensures file == old(file) && fileOpen == old(fileOpen)
      ensures delivered == old(delivered) && totalNumBytesRead == old(totalNumBytesRead)
      ensures r.Failure? ==> goal == Failure(r.error) && failed
      ensures r == Success(true) ==> !failed && old(cursor) < cursor
      ensures r == Success(true) ==> LoopAccount(goal, buf, written)
      ensures r == Success(false) ==> !failed && goal == Success((buf[..written], State()))
    {
      FillLoopBlocks(codec, goal, buf[..written], State(), buf.Length - written);
      r := DecompressNextBlock();
    }

    /** The copy step of `fillTupleBuffer`: as many pending bytes as fit in
        the rest of `buf` are copied after the `written` bytes already there,
        and the read offset into the staging buffer moves past them. */
    method CopyStaged(buf: array<byte>, written: nat) returns (k: nat)
      requires Valid() && phase == Opened && !failed && compressionType == "zstd"
      requires buf != decompressedBuffer
      requires written < buf.Length && decompressedOffset < decompressedSize
      modifies buf, this`decompressedOffset, this`delivered
      ensures Valid() && k == Min(decompressedSize - old(decompressedOffset), buf.Length - written)
      ensures State() == old(State()).(offset := old(decompressedOffset) + k)
      ensures buf[..written + k] == old(buf[..written]) + stagedBytes[old(decompressedOffset)..decompressedOffset]
      ensures forall i | written + k <= i < buf.Length :: buf[i] == old(buf[i])
      ensures delivered == old(delivered) + stagedBytes[old(decompressedOffset)..decompressedOffset]
    {
      k := Min(decompressedSize - decompressedOffset, buf.Length - written);
      ghost var s := State();
      ghost var head := s.staged[s.offset..s.offset + k];
      CopyKeepsCoherent(delivered, s, k);
      assert head == decompressedBuffer[decompressedOffset..decompressedOffset + k];
      Memcpy(buf, written, decompressedBuffer, decompressedOffset, k);
      assert buf[..written + k] == old(buf[..written]) + head by {
        assert buf[..written + k] == buf[..written] + buf[written..written + k];
      }
      delivered := delivered + head;
      decompressedOffset := decompressedOffset + k;
      assert State() == s.(offset := s.offset + k);
    }

    /** `std::memcpy(dest + at, src + from, k)`. */
    static method Memcpy(dest: array<byte>, at: nat, src: array<byte>, from: nat, k: nat)
      requires dest != src && at + k <= dest.Length && from + k <= src.Length
      modifies dest
      ensures dest[at..at + k] == src[from..from + k]
      ensures dest[..at] == old(dest[..at])
      ensures forall i | at + k <= i < dest.Length :: dest[i] == old(dest[i])
    {
      forall i | 0 <= i < k {
        dest[at + i] := src[from + i];
      }
    }
  }
}
