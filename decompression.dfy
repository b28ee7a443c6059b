/** The streaming-decompression path of the file source as functions on a
    value: the session state that `FileSource` keeps between calls, the inner
    decompression loop, `decompressNextBlock`, one `fillTupleBuffer` call and
    a run of successive calls. The class in `FileSources` is proved to do
    exactly what these functions say. */
module Decompression {
  import opened Base
  import opened StreamCodec
  import InputFile

  /** The decompression state of one source: the decoder context, the file and
      its read position, the valid staged bytes (`decompressedBuffer[..decompressedSize]`),
      the read position in them (`decompressedOffset`) and `endOfCompressedStream`. */
  datatype Session = Session(ctx: DCtx, file: seq<byte>, cursor: nat, staged: seq<byte>, offset: nat, eos: bool)

  /** `offset <= size <= capacity`, a read position inside the file, and the end
      of the compressed stream flagged only at the end of the file. */
  predicate SessionValid(c: Codec, s: Session)
  {
    && s.cursor <= |s.file|
    && s.offset <= |s.staged| <= c.outSize
    && (s.eos ==> s.cursor == |s.file|)
  }

  /** The session `open` sets up for a zstd source over `file`. */
  function OpenedSession(file: seq<byte>): (s: Session)
    ensures s.file == file && s.cursor == 0 && !s.eos
    ensures s.offset <= |s.staged| && Pending(s) == [] && InSync(s) && Coherent([], s)
  {
    Session(FreshContext, file, 0, [], 0, false)
  }

  /** The staged bytes not yet copied out. */
  function Pending(s: Session): seq<byte>
    requires s.offset <= |s.staged|
  {
    s.staged[s.offset..]
  }

  /** The decoder has been given exactly the compressed bytes read so far. */
  predicate InSync(s: Session)
    requires s.cursor <= |s.file|
  {
    s.ctx.consumed == s.file[..s.cursor]
  }

  /** Everything the decoder emitted is either delivered or pending, in order. */
  predicate Coherent(delivered: seq<byte>, s: Session)
    requires s.offset <= |s.staged|
  {
    delivered + Pending(s) == s.ctx.emitted
  }

  datatype Inflated = Inflated(ctx: DCtx, pos: nat, staged: seq<byte>)

  /** The inner loop of `decompressNextBlock`: feed `chunk[pos..]` to the codec,
      appending its output to `staged`, until the chunk is consumed or the
      staging buffer is full. The loop stops at a full buffer even when input
      is left; the result's `pos` then falls short of the chunk's end. */
  function Inflate(c: Codec, ctx: DCtx, chunk: seq<byte>, pos: nat, staged: seq<byte>): (r: Result<Inflated>)
    requires Sound(c)
    requires pos <= |chunk| && |staged| < c.outSize
    ensures r.Success? ==> |r.value.staged| <= c.outSize
    decreases |chunk| - pos, c.outSize - |staged|
  {
    if pos == |chunk| then Success(Inflated(ctx, pos, staged))
    else
      var space := c.outSize - |staged|;
      match c.decompress(ctx, chunk[pos..], space)
      case Fault(name) => Failure(DecompressionFailed(name))
      case Progress(n, out) =>
        var ctx' := Advance(ctx, chunk[pos..pos + n], out);
        var staged' := staged + out;
        if |staged'| >= c.outSize then Success(Inflated(ctx', pos + n, staged'))
        else Inflate(c, ctx', chunk, pos + n, staged')
  }

  /** What one run of the inner loop did: the decoder consumed the chunk from
      `pos` up to the returned position and emitted exactly the bytes appended
      to the staging area; input is left over only when that area is full. */
  lemma {:induction false} InflateAccounts(c: Codec, ctx: DCtx, chunk: seq<byte>, pos: nat, staged: seq<byte>)
    requires Sound(c)
    requires pos <= |chunk| && |staged| < c.outSize
    requires Inflate(c, ctx, chunk, pos, staged).Success?
    ensures var inf := Inflate(c, ctx, chunk, pos, staged).value;
      && pos <= inf.pos <= |chunk|
      && staged <= inf.staged
      && inf.ctx.consumed == ctx.consumed + chunk[pos..inf.pos]
      && inf.ctx.emitted == ctx.emitted + inf.staged[|staged|..]
      && (inf.pos < |chunk| ==> |inf.staged| == c.outSize)
    decreases |chunk| - pos, c.outSize - |staged|, 1
  {
    if pos < |chunk| {
      var space := c.outSize - |staged|;
      var st := c.decompress(ctx, chunk[pos..], space);
      assert StepFits(chunk[pos..], space, st);
      if st.Progress? {
        InflateStepAccounts(c, ctx, chunk, pos, staged, st.consumed, st.output);
      }
    } else {
      assert staged[|staged|..] == [];
    }
  }

  /** `InflateAccounts` for a run whose first step consumed `used` bytes and
      emitted `out`. */
  lemma {:induction false} InflateStepAccounts(c: Codec, ctx: DCtx, chunk: seq<byte>, pos: nat, staged: seq<byte>, used: nat, out: seq<byte>)
    requires Sound(c)
    requires pos < |chunk| && |staged| < c.outSize
    requires c.decompress(ctx, chunk[pos..], c.outSize - |staged|) == Progress(used, out)
    requires Inflate(c, ctx, chunk, pos, staged).Success?
    ensures var inf := Inflate(c, ctx, chunk, pos, staged).value;
      && pos <= inf.pos <= |chunk|
      && staged <= inf.staged
      && inf.ctx.consumed == ctx.consumed + chunk[pos..inf.pos]
      && inf.ctx.emitted == ctx.emitted + inf.staged[|staged|..]
      && (inf.pos < |chunk| ==> |inf.staged| == c.outSize)
    decreases |chunk| - pos, c.outSize - |staged|, 0
  {
    InflateProgress(c, ctx, chunk, pos, staged, used, out);
    var ctx' := Advance(ctx, chunk[pos..pos + used], out);
    var staged' := staged + out;
    if |staged'| < c.outSize {
      InflateAccounts(c, ctx', chunk, pos + used, staged');
      var inf := Inflate(c, ctx', chunk, pos + used, staged').value;
      SlicesJoin(chunk, pos, pos + used, inf.pos);
      AppendedTail(staged, out, inf.staged);
      Associative(ctx.consumed, chunk[pos..pos + used], chunk[pos + used..inf.pos]);
      Associative(ctx.emitted, out, inf.staged[|staged'|..]);
    } else {
      AppendedTail(staged, out, staged');
    }
  }

  lemma Associative(a: seq<byte>, b: seq<byte>, c: seq<byte>)
    ensures (a + b) + c == a + (b + c)
  {
  }

  lemma SlicesJoin(x: seq<byte>, i: nat, j: nat, k: nat)
    requires i <= j <= k <= |x|
    ensures x[i..j] + x[j..k] == x[i..k]
  {
  }

  /** What follows `a` in a sequence that starts with `a + b`. */
  lemma AppendedTail(a: seq<byte>, b: seq<byte>, t: seq<byte>)
    requires a + b <= t
    ensures a <= t && t[|a|..] == b + t[|a + b|..]
  {
    assert t[|a|..] == b + t[|a + b|..];
  }

  /** One turn of the inner loop that made progress: its output is appended,
      and the loop stops if the staging buffer is now full. */
  lemma InflateProgress(c: Codec, ctx: DCtx, chunk: seq<byte>, pos: nat, staged: seq<byte>, used: nat, out: seq<byte>)
    requires Sound(c)
    requires pos < |chunk| && |staged| < c.outSize
    requires c.decompress(ctx, chunk[pos..], c.outSize - |staged|) == Progress(used, out)
    ensures pos + used <= |chunk| && |staged + out| <= c.outSize
    ensures Inflate(c, ctx, chunk, pos, staged) ==
      var ctx' := Advance(ctx, chunk[pos..pos + used], out);
      if |staged + out| >= c.outSize then Success(Inflated(ctx', pos + used, staged + out))
      else Inflate(c, ctx', chunk, pos + used, staged + out)
  {
  }

  /** One turn of the inner loop that failed: the whole block fails. */
  lemma InflateFault(c: Codec, ctx: DCtx, chunk: seq<byte>, pos: nat, staged: seq<byte>, name: string)
    requires Sound(c)
    requires pos < |chunk| && |staged| < c.outSize
    requires c.decompress(ctx, chunk[pos..], c.outSize - |staged|) == Fault(name)
    ensures Inflate(c, ctx, chunk, pos, staged) == Failure(DecompressionFailed(name))
  {
  }

  /** `decompressNextBlock`: once the end of the compressed stream is flagged,
      nothing is read. Otherwise one chunk of at most `inSize` bytes is read;
      an empty read flags the end. A non-empty chunk is inflated into a fresh
      staging area from offset 0. The flag says whether bytes were staged. */
  function NextBlock(c: Codec, s: Session): (r: Result<(Session, bool)>)
    requires Sound(c) && SessionValid(c, s)
    ensures r.Success? ==>
      && SessionValid(c, r.value.0)
      && r.value.0.file == s.file
      && s.cursor <= r.value.0.cursor
      && (r.value.1 ==> s.cursor < r.value.0.cursor && r.value.0.offset < |r.value.0.staged|)
  {
    if s.eos then Success((s, false))
    else
      var chunk := InputFile.Read(s.file, s.cursor, c.inSize);
      if chunk == [] then Success((s.(eos := true), false))
      else
        match Inflate(c, s.ctx, chunk, 0, [])
        case Failure(e) => Failure(e)
        case Success(inf) =>
          Success((Session(inf.ctx, s.file, s.cursor + |chunk|, inf.staged, 0, false), |inf.staged| > 0))
  }

  /** `NextBlock` on a chunk that inflated without error, with the facts the
      file source keeps about its session. */
  lemma NextBlockOnChunk(c: Codec, s: Session, delivered: seq<byte>, inf: Inflated)
    requires Sound(c) && SessionValid(c, s) && !s.eos && Pending(s) == []
    requires Coherent(delivered, s) && |s.ctx.consumed| <= s.cursor
    requires InputFile.Read(s.file, s.cursor, c.inSize) != []
    requires Inflate(c, s.ctx, InputFile.Read(s.file, s.cursor, c.inSize), 0, []) == Success(inf)
    ensures var s' := Session(inf.ctx, s.file, s.cursor + |InputFile.Read(s.file, s.cursor, c.inSize)|, inf.staged, 0, false);
      && NextBlock(c, s) == Success((s', |inf.staged| > 0))
      && SessionValid(c, s') && Coherent(delivered, s') && |s'.ctx.consumed| <= s'.cursor
  {
    BlockKeepsCoherent(c, s, delivered);
    NextBlockFeedsDecoder(c, s);
  }

  /** `NextBlock` on a chunk whose inflation failed. */
  lemma NextBlockFails(c: Codec, s: Session, e: Error)
    requires Sound(c) && SessionValid(c, s) && !s.eos
    requires InputFile.Read(s.file, s.cursor, c.inSize) != []
    requires Inflate(c, s.ctx, InputFile.Read(s.file, s.cursor, c.inSize), 0, []) == Failure(e)
    ensures NextBlock(c, s) == Failure(e)
  {
  }

  /** Puts `bytes` in front of the bytes a successful run delivers. */
  function Prepend(bytes: seq<byte>, r: Result<(seq<byte>, Session)>): Result<(seq<byte>, Session)>
  {
    match r
    case Failure(e) => Failure(e)
    case Success((rest, s)) => Success((bytes + rest, s))
  }

  /** Prepending twice is prepending the concatenation. */
  lemma PrependJoin(a: seq<byte>, b: seq<byte>, r: Result<(seq<byte>, Session)>)
    ensures Prepend(a, Prepend(b, r)) == Prepend(a + b, r)
  {
    if r.Success? {
      assert a + (b + r.value.0) == (a + b) + r.value.0;
    }
  }

  /** Prepending nothing changes nothing. */
  lemma PrependNothing(r: Result<(seq<byte>, Session)>)
    ensures Prepend([], r) == r
  {
    if r.Success? {
      assert [] + r.value.0 == r.value.0;
    }
  }

  /** The zstd branch of `fillTupleBuffer` with `room` bytes of buffer: copy
      staged bytes while there are any, decompress the next block when there
      are none, and stop when the buffer is full or no block was staged. */
  function Fill(c: Codec, s: Session, room: nat): (r: Result<(seq<byte>, Session)>)
    requires Sound(c) && SessionValid(c, s)
    ensures r.Success? ==>
      && SessionValid(c, r.value.1)
      && r.value.1.file == s.file
      && s.cursor <= r.value.1.cursor
      && |r.value.0| <= room
      && (|r.value.0| < room ==> Pending(r.value.1) == [])
    decreases room, |s.file| - s.cursor, 2
  {
    if room == 0 then Success(([], s))
    else if s.offset < |s.staged| then FillPending(c, s, room)
    else FillNextBlock(c, s, room)
  }

  /** `Fill` while bytes are pending: as many as fit are copied, and the fill
      goes on with the rest of the buffer. */
  function FillPending(c: Codec, s: Session, room: nat): (r: Result<(seq<byte>, Session)>)
    requires Sound(c) && SessionValid(c, s) && 0 < room && s.offset < |s.staged|
    ensures r.Success? ==>
      && SessionValid(c, r.value.1)
      && r.value.1.file == s.file
      && s.cursor <= r.value.1.cursor
      && |r.value.0| <= room
      && (|r.value.0| < room ==> Pending(r.value.1) == [])
    decreases room, |s.file| - s.cursor, 1
  {
    var k := Min(|s.staged| - s.offset, room);
    Prepend(s.staged[s.offset..s.offset + k], Fill(c, s.(offset := s.offset + k), room - k))
  }

  /** `Fill` once nothing is pending: the next block is decompressed; if it
      staged bytes the fill goes on, otherwise it ends. */
  function FillNextBlock(c: Codec, s: Session, room: nat): (r: Result<(seq<byte>, Session)>)
    requires Sound(c) && SessionValid(c, s) && 0 < room && s.offset == |s.staged|
    ensures r.Success? ==>
      && SessionValid(c, r.value.1)
      && r.value.1.file == s.file
      && s.cursor <= r.value.1.cursor
      && |r.value.0| <= room
      && (|r.value.0| < room ==> Pending(r.value.1) == [])
    decreases room, |s.file| - s.cursor, 0
  {
    match NextBlock(c, s)
    case Failure(e) => Failure(e)
    case Success((next, more)) => if more then Fill(c, next, room) else Success(([], next))
  }

  /** Successive `fillTupleBuffer` calls with buffers of the given sizes; the
      bytes are those of all the calls, in order. */
  function Drain(c: Codec, s: Session, rooms: seq<nat>): (r: Result<(seq<byte>, Session)>)
    requires Sound(c) && SessionValid(c, s)
    ensures r.Success? ==> SessionValid(c, r.value.1) && r.value.1.file == s.file
    decreases |rooms|
  {
    if rooms == [] then Success(([], s))
    else
      match Fill(c, s, rooms[0])
      case Failure(e) => Failure(e)
      case Success((bytes, s')) => Prepend(bytes, Drain(c, s', rooms[1..]))
  }

  /** What a block staged is exactly what the decoder emitted for it: after
      `decompressNextBlock` on a drained session, the decoder's output so far
      is its earlier output followed by the bytes now pending. */
  lemma NextBlockStagesDecoderOutput(c: Codec, s: Session)
    requires Sound(c) && SessionValid(c, s) && Pending(s) == []
    requires NextBlock(c, s).Success?
    ensures var s' := NextBlock(c, s).value.0;
      s'.ctx.emitted == s.ctx.emitted + Pending(s')
  {
    if !s.eos && InputFile.Read(s.file, s.cursor, c.inSize) != [] {
      var chunk := InputFile.Read(s.file, s.cursor, c.inSize);
      InflateAccounts(c, s.ctx, chunk, 0, []);
      var inf := Inflate(c, s.ctx, chunk, 0, []).value;
      assert inf.staged[0..] == inf.staged;
    }
  }

  /** The decoder is given a prefix of the chunk just read, and a strict prefix
      only when the staging buffer filled up: the rest of that chunk is never
      given to it (the read position has moved past it). */
  lemma NextBlockFeedsDecoder(c: Codec, s: Session)
    requires Sound(c) && SessionValid(c, s)
    requires NextBlock(c, s).Success?
    ensures var s' := NextBlock(c, s).value.0;
      && s.ctx.consumed <= s'.ctx.consumed
      && s'.ctx.consumed[|s.ctx.consumed|..] <= s.file[s.cursor..s'.cursor]
      && (|s'.ctx.consumed| - |s.ctx.consumed| < s'.cursor - s.cursor ==> |s'.staged| == c.outSize)
  {
    if !s.eos && InputFile.Read(s.file, s.cursor, c.inSize) != [] {
      var chunk := InputFile.Read(s.file, s.cursor, c.inSize);
      InflateAccounts(c, s.ctx, chunk, 0, []);
      var inf := Inflate(c, s.ctx, chunk, 0, []).value;
      var s' := NextBlock(c, s).value.0;
      assert s'.ctx.consumed[|s.ctx.consumed|..] == chunk[..inf.pos];
      assert chunk == s.file[s.cursor..s'.cursor];
    }
  }

  /** When a block's output fits the staging buffer, the whole chunk reached the
      decoder: a decoder in sync with the file stays in sync. */
  lemma NextBlockKeepsSync(c: Codec, s: Session)
    requires Sound(c) && SessionValid(c, s) && InSync(s)
    requires NextBlock(c, s).Success?
    requires |NextBlock(c, s).value.0.staged| < c.outSize
    ensures InSync(NextBlock(c, s).value.0)
  {
    var s' := NextBlock(c, s).value.0;
    NextBlockFeedsDecoder(c, s);
    var fed := s'.ctx.consumed[|s.ctx.consumed|..];
    assert s'.ctx.consumed == s.ctx.consumed + fed;
    assert fed == s.file[s.cursor..s'.cursor];
    assert s.file[..s'.cursor] == s.file[..s.cursor] + s.file[s.cursor..s'.cursor];
  }

  /** One fill delivers the pending bytes, in order, continued by what the
      decoder emits for the blocks it decompresses; whatever is not delivered
      stays pending. So if everything delivered before, followed by the
      pending bytes, was the decoder's whole output, that stays so. */
  lemma {:induction false} FillKeepsCoherent(c: Codec, s: Session, room: nat, delivered: seq<byte>)
    requires Sound(c) && SessionValid(c, s)
    requires Coherent(delivered, s)
    requires Fill(c, s, room).Success?
    ensures Coherent(delivered + Fill(c, s, room).value.0, Fill(c, s, room).value.1)
    decreases room, |s.file| - s.cursor, 2
  {
    if room == 0 {
      var none: seq<byte> := [];
      assert delivered + none == delivered;
    } else if s.offset < |s.staged| {
      CopyStepKeepsCoherent(c, s, room, delivered);
    } else {
      BlockStepKeepsCoherent(c, s, room, delivered);
    }
  }

  /** `FillKeepsCoherent` when the fill starts by copying pending bytes. */
  lemma {:induction false} CopyStepKeepsCoherent(c: Codec, s: Session, room: nat, delivered: seq<byte>)
    requires Sound(c) && SessionValid(c, s)
    requires Coherent(delivered, s)
    requires 0 < room && s.offset < |s.staged|
    requires Fill(c, s, room).Success?
    ensures Coherent(delivered + Fill(c, s, room).value.0, Fill(c, s, room).value.1)
    decreases room, |s.file| - s.cursor, 1
  {
    var k := Min(|s.staged| - s.offset, room);
    var t := s.(offset := s.offset + k);
    var head := s.staged[s.offset..s.offset + k];
    assert Fill(c, s, room) == Prepend(head, Fill(c, t, room - k)) by {
      FillCopiesFirst(c, s, room);
    }
    assert Coherent(delivered + head, t) by {
      CopyKeepsCoherent(delivered, s, k);
    }
    FillKeepsCoherent(c, t, room - k, delivered + head);
    var rest := Fill(c, t, room - k).value;
    assert Fill(c, s, room).value == (head + rest.0, rest.1);
    assert delivered + (head + rest.0) == (delivered + head) + rest.0;
  }

  /** One unfolding of `Fill` when bytes are pending. */
  lemma FillCopiesFirst(c: Codec, s: Session, room: nat)
    requires Sound(c) && SessionValid(c, s)
    requires 0 < room && s.offset < |s.staged|
    ensures var k := Min(|s.staged| - s.offset, room);
      Fill(c, s, room) == Prepend(s.staged[s.offset..s.offset + k], Fill(c, s.(offset := s.offset + k), room - k))
  {
  }

  /** The account the loop of the zstd fill keeps: the whole fill, `goal`,
      delivers the bytes `before` already written followed by what filling
      `room` more bytes from the session `s` delivers. */
  predicate FillsAhead(c: Codec, goal: Result<(seq<byte>, Session)>, before: seq<byte>, s: Session, room: nat)
    requires Sound(c)
  {
    SessionValid(c, s) && goal == Prepend(before, Fill(c, s, room))
  }

  /** The loop of the zstd fill after `before` was written and `s` is the
      session: copying the next pending bytes keeps what the whole fill
      delivers. */
  lemma FillLoopCopies(c: Codec, goal: Result<(seq<byte>, Session)>, before: seq<byte>, s: Session, room: nat)
    requires Sound(c) && FillsAhead(c, goal, before, s, room)
    requires 0 < room && s.offset < |s.staged|
    ensures var k := Min(|s.staged| - s.offset, room);
      FillsAhead(c, goal, before + s.staged[s.offset..s.offset + k], s.(offset := s.offset + k), room - k)
  {
    var k := Min(|s.staged| - s.offset, room);
    FillCopiesFirst(c, s, room);
    PrependJoin(before, s.staged[s.offset..s.offset + k], Fill(c, s.(offset := s.offset + k), room - k));
  }

  /** The same loop when nothing is pending: a block is decompressed, and the
      fill goes on with it or, when nothing was staged, ends. */
  lemma FillLoopBlocks(c: Codec, goal: Result<(seq<byte>, Session)>, before: seq<byte>, s: Session, room: nat)
    requires Sound(c) && FillsAhead(c, goal, before, s, room)
    requires 0 < room && s.offset == |s.staged|
    ensures NextBlock(c, s).Failure? ==> goal == Failure(NextBlock(c, s).error)
    ensures NextBlock(c, s).Success? && NextBlock(c, s).value.1 ==>
      FillsAhead(c, goal, before, NextBlock(c, s).value.0, room)
    ensures NextBlock(c, s).Success? && !NextBlock(c, s).value.1 ==>
      goal == Success((before, NextBlock(c, s).value.0))
  {
    assert Fill(c, s, room) == FillNextBlock(c, s, room);
    if NextBlock(c, s).Success? && !NextBlock(c, s).value.1 {
      assert before + [] == before;
    }
  }

  /** `FillKeepsCoherent` when the fill starts by decompressing a block. */
  lemma {:induction false} BlockStepKeepsCoherent(c: Codec, s: Session, room: nat, delivered: seq<byte>)
    requires Sound(c) && SessionValid(c, s)
    requires Coherent(delivered, s)
    requires 0 < room && s.offset == |s.staged|
    requires Fill(c, s, room).Success?
    ensures Coherent(delivered + Fill(c, s, room).value.0, Fill(c, s, room).value.1)
    decreases room, |s.file| - s.cursor, 1
  {
    BlockKeepsCoherent(c, s, delivered);
    var next := NextBlock(c, s).value;
    if next.1 {
      FillKeepsCoherent(c, next.0, room, delivered);
    } else {
      var none: seq<byte> := [];
      assert delivered + none == delivered;
    }
  }

  /** A block decompressed once everything pending was delivered keeps the account. */
  lemma BlockKeepsCoherent(c: Codec, s: Session, delivered: seq<byte>)
    requires Sound(c) && SessionValid(c, s) && Pending(s) == []
    requires Coherent(delivered, s)
    requires NextBlock(c, s).Success?
    ensures Coherent(delivered, NextBlock(c, s).value.0)
  {
    NextBlockStagesDecoderOutput(c, s);
    assert delivered == s.ctx.emitted;
  }

  /** Copying the next `k` pending bytes out keeps the account. */
  lemma CopyKeepsCoherent(delivered: seq<byte>, s: Session, k: nat)
    requires s.offset + k <= |s.staged|
    requires Coherent(delivered, s)
    ensures Coherent(delivered + s.staged[s.offset..s.offset + k], s.(offset := s.offset + k))
  {
    assert Pending(s) == s.staged[s.offset..s.offset + k] + Pending(s.(offset := s.offset + k));
  }

  /** The gap between the compressed bytes read from the file and those given
      to the decoder never shrinks: a dropped byte is never read again. */
  lemma {:induction false} FillNeverCatchesUp(c: Codec, s: Session, room: nat)
    requires Sound(c) && SessionValid(c, s)
    requires |s.ctx.consumed| <= s.cursor
    requires Fill(c, s, room).Success?
    ensures var s' := Fill(c, s, room).value.1;
      && s.ctx.consumed <= s'.ctx.consumed
      && |s'.ctx.consumed| <= s'.cursor
      && s.cursor - |s.ctx.consumed| <= s'.cursor - |s'.ctx.consumed|
    decreases room, |s.file| - s.cursor
  {
    if room == 0 {
    } else if s.offset < |s.staged| {
      var k := Min(|s.staged| - s.offset, room);
      FillNeverCatchesUp(c, s.(offset := s.offset + k), room - k);
    } else {
      var (s', more) := NextBlock(c, s).value;
      NextBlockFeedsDecoder(c, s);
      assert |s'.ctx.consumed[|s.ctx.consumed|..]| <= s'.cursor - s.cursor;
      if more {
        FillNeverCatchesUp(c, s', room);
      }
    }
  }

  /** `FillKeepsCoherent` over a run of fills. */
  lemma {:induction false} DrainKeepsCoherent(c: Codec, s: Session, rooms: seq<nat>, delivered: seq<byte>)
    requires Sound(c) && SessionValid(c, s)
    requires Coherent(delivered, s)
    requires Drain(c, s, rooms).Success?
    ensures Coherent(delivered + Drain(c, s, rooms).value.0, Drain(c, s, rooms).value.1)
    decreases |rooms|
  {
    if rooms != [] {
      var (bytes, s') := Fill(c, s, rooms[0]).value;
      FillKeepsCoherent(c, s, rooms[0], delivered);
      DrainKeepsCoherent(c, s', rooms[1..], delivered + bytes);
      var rest := Drain(c, s', rooms[1..]).value;
      assert Drain(c, s, rooms) == Success((bytes + rest.0, rest.1));
      assert delivered + (bytes + rest.0) == (delivered + bytes) + rest.0;
    }
  }

  /** `FillNeverCatchesUp` over a run of fills. */
  lemma {:induction false} DrainNeverCatchesUp(c: Codec, s: Session, rooms: seq<nat>)
    requires Sound(c) && SessionValid(c, s)
    requires |s.ctx.consumed| <= s.cursor
    requires Drain(c, s, rooms).Success?
    ensures var s' := Drain(c, s, rooms).value.1;
      && s.ctx.consumed <= s'.ctx.consumed
      && |s'.ctx.consumed| <= s'.cursor
      && s.cursor - |s.ctx.consumed| <= s'.cursor - |s'.ctx.consumed|
    decreases |rooms|
  {
    if rooms != [] {
      var s' := Fill(c, s, rooms[0]).value.1;
      FillNeverCatchesUp(c, s, rooms[0]);
      DrainNeverCatchesUp(c, s', rooms[1..]);
    }
  }

  /** Reading a whole compressed file through fills of any sizes: the bytes
      delivered, followed by those still pending, are exactly the decoder's
      output. If the run ends at the end of the stream with nothing pending and
      the decoder in sync (every chunk's output fitted the staging buffer; by
      `DrainNeverCatchesUp` a single dropped byte rules that out for good), the
      decoder was given the whole file exactly once, in order, and every byte
      it emitted was delivered exactly once, in order. */
  lemma DrainRoundTrip(c: Codec, file: seq<byte>, rooms: seq<nat>)
    requires Sound(c)
    requires Drain(c, OpenedSession(file), rooms).Success?
    ensures var (bytes, s') := Drain(c, OpenedSession(file), rooms).value;
      && bytes + Pending(s') == s'.ctx.emitted
      && (s'.eos && Pending(s') == [] && InSync(s') ==> bytes == s'.ctx.emitted && s'.ctx.consumed == file)
  {
    var none: seq<byte> := [];
    DrainKeepsCoherent(c, OpenedSession(file), rooms, none);
    assert none + Drain(c, OpenedSession(file), rooms).value.0 == Drain(c, OpenedSession(file), rooms).value.0;
  }

  /** Once the end of the compressed stream is flagged and nothing is pending,
      every later fill delivers nothing and changes nothing. */
  lemma {:induction false} EndOfStreamIsFinal(c: Codec, s: Session, rooms: seq<nat>)
    requires Sound(c) && SessionValid(c, s)
    requires s.eos && Pending(s) == []
    ensures Drain(c, s, rooms) == Success(([], s))
    decreases |rooms|
  {
    if rooms != [] {
      assert Fill(c, s, rooms[0]) == Success(([], s));
      EndOfStreamIsFinal(c, s, rooms[1..]);
      assert Drain(c, s, rooms) == Prepend([], Success(([], s)));
      var none: seq<byte> := [];
      assert none + none == none;
    }
  }
}
