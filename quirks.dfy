/** Three behaviours of the zstd path of the file source, each shown on a
    small file: the inner decompression loop drops the rest of a chunk once
    the staging buffer is full; a chunk that decompresses to nothing makes
    `fillTupleBuffer` write zero bytes, which it reports as the end of the
    stream although the file has more to give; and output the decoder still
    holds when the file ends is never asked for. */
module Quirks {
  import opened Base
  import opened StreamCodec
  import opened Decompression

  /** A codec whose staging buffer holds one byte while two compressed bytes
      are read at a time. */
  function Narrow(): (c: Codec)
    ensures Sound(c) && c.inSize == 2 && c.outSize == 1
  {
    Passthrough(2, 1)
  }

  /** The file `[7, 9]` read through `Narrow`: the first block reads both
      bytes but stages only `7`; the decoder never sees `9`, and the next
      read finds the end of the file. Two fills deliver `[7]` and the stream
      then reports its end with the decoder one byte short of the file. */
  lemma InputDroppedWhenStagingIsFull()
    ensures Drain(Narrow(), OpenedSession([7, 9]), [2, 2])
         == Success(([7], Session(DCtx([7], [7]), [7, 9], 2, [7], 1, true)))
  {
    var c, file := Narrow(), [7, 9];
    var s0 := OpenedSession(file);
    var s1 := Session(DCtx([7], [7]), file, 2, [7], 0, false);
    var s2 := s1.(offset := 1);
    var s3 := s2.(eos := true);
    NarrowFirstBlock();
    assert InputFile.Read(file, 2, 1) == [];
    assert NextBlock(c, s2) == Success((s3, false));
    assert Fill(c, s2, 1) == Success(([], s3));
    assert s1.staged[0..1] == [7] && [7] + [] == [7];
    assert Fill(c, s1, 2) == FillPending(c, s1, 2) == Prepend([7], Fill(c, s2, 1));
    assert Fill(c, s0, 2) == Success(([7], s3));
    assert NextBlock(c, s3) == Success((s3, false));
    assert Fill(c, s3, 2) == Success(([], s3));
    assert Drain(c, s3, [2]) == Prepend([], Drain(c, s3, [])) == Success(([], s3));
    assert [2, 2][1..] == [2];
    assert Drain(c, s0, [2, 2]) == Prepend([7], Drain(c, s3, [2]));
  }

  /** The first block of `[7, 9]` through `Narrow`: both bytes are read,
      only `7` reaches the decoder and the staging buffer. */
  lemma NarrowFirstBlock()
    ensures NextBlock(Narrow(), OpenedSession([7, 9])) == Success((Session(DCtx([7], [7]), [7, 9], 2, [7], 0, false), true))
  {
    var c: Codec, chunk: seq<byte> := Narrow(), [7, 9];
    assert InputFile.Read(chunk, 0, 2) == chunk;
    assert chunk[0..] == chunk && chunk[..1] == chunk[0..1] == [7];
    assert c.decompress(FreshContext, chunk[0..], 1) == Progress(1, [7]);
    InflateProgress(c, FreshContext, chunk, 0, [], 1, [7]);
    assert Advance(FreshContext, chunk[0..1], [7]) == DCtx([7], [7]);
  }

  /** A codec whose stream starts with a one-byte header that produces no
      output; every later byte decompresses to itself. */
  function WithHeader(): (c: Codec)
    ensures Sound(c) && c.inSize == 1 && c.outSize == 4
  {
    Codec(1, 4, HeaderStep)
  }

  /** The step of `WithHeader`. */
  function HeaderStep(ctx: DCtx, avail: seq<byte>, space: nat): (st: Step)
    ensures StepFits(avail, space, st)
  {
    if ctx.consumed == [] then Progress(Min(|avail|, 1), [])
    else var n := Min(|avail|, space); Progress(n, avail[..n])
  }

  /** The file `[0, 5]` read through `WithHeader`: the first fill reads the
      header, stages nothing and ends with zero bytes written, which the
      source reports as the end of the stream, although neither the end of
      the file nor the end of the compressed stream was reached. A further
      fill would have delivered `5`. */
  lemma EmptyBlockEndsFill()
    ensures var s1 := Session(DCtx([0], []), [0, 5], 1, [], 0, false);
      && Fill(WithHeader(), OpenedSession([0, 5]), 4) == Success(([], s1))
      && !s1.eos && s1.cursor < |s1.file|
      && Fill(WithHeader(), s1, 4).Success? && Fill(WithHeader(), s1, 4).value.0 == [5]
  {
    var c, file := WithHeader(), [0, 5];
    var s1 := Session(DCtx([0], []), file, 1, [], 0, false);
    var s2 := Session(DCtx([0, 5], [5]), file, 2, [5], 0, false);
    var s3 := s2.(offset := 1, eos := true);
    HeaderBlock();
    BodyBlock();
    assert InputFile.Read(file, 2, 1) == [];
    assert NextBlock(c, s2.(offset := 1)) == Success((s3, false));
    assert Fill(c, s2.(offset := 1), 3) == Success(([], s3));
    assert s2.staged[0..1] == [5] && [5] + [] == [5];
    assert Fill(c, s2, 4) == FillPending(c, s2, 4) == Prepend([5], Fill(c, s2.(offset := 1), 3));
  }

  /** The first block of `[0, 5]` through `WithHeader`: the header is read
      and decoded, and nothing is staged. */
  lemma HeaderBlock()
    ensures NextBlock(WithHeader(), OpenedSession([0, 5])) == Success((Session(DCtx([0], []), [0, 5], 1, [], 0, false), false))
  {
    var c: Codec, file: seq<byte>, header: seq<byte> := WithHeader(), [0, 5], [0];
    assert InputFile.Read(file, 0, 1) == header;
    assert header[0..] == header[0..1] == header;
    assert c.decompress(FreshContext, header[0..], 4) == Progress(1, []);
    InflateProgress(c, FreshContext, header, 0, [], 1, []);
    assert Advance(FreshContext, header[0..1], []) == DCtx([0], []);
    assert Inflate(c, DCtx([0], []), header, 1, []) == Success(Inflated(DCtx([0], []), 1, []));
  }

  /** The second block of `[0, 5]` through `WithHeader`: `5` is staged. */
  lemma BodyBlock()
    ensures NextBlock(WithHeader(), Session(DCtx([0], []), [0, 5], 1, [], 0, false))
         == Success((Session(DCtx([0, 5], [5]), [0, 5], 2, [5], 0, false), true))
  {
    var c: Codec, file: seq<byte>, body: seq<byte> := WithHeader(), [0, 5], [5];
    assert InputFile.Read(file, 1, 1) == body;
    assert body[0..] == body[0..1] == body[..1] == body;
    assert c.decompress(DCtx([0], []), body[0..], 4) == Progress(1, [5]);
    InflateProgress(c, DCtx([0], []), body, 0, [], 1, [5]);
    assert Advance(DCtx([0], []), body[0..1], [5]) == DCtx([0, 5], [5]);
    assert Inflate(c, DCtx([0, 5], [5]), body, 1, [5]) == Success(Inflated(DCtx([0, 5], [5]), 1, [5]));
  }

  /** A codec whose decoder holds one byte back: each step takes one byte
      and emits the byte taken before it. */
  function Delayed(): (c: Codec)
    ensures Sound(c) && c.inSize == 2 && c.outSize == 4
  {
    Codec(2, 4, DelayedStep)
  }

  /** The step of `Delayed`. */
  function DelayedStep(ctx: DCtx, avail: seq<byte>, space: nat): (st: Step)
    ensures StepFits(avail, space, st)
  {
    var out := if ctx.consumed == [] || space == 0 then [] else [ctx.consumed[|ctx.consumed| - 1]];
    Progress(Min(|avail|, 1), out)
  }

  /** The file `[1, 2]` read through `Delayed`: one fill gives the decoder the
      whole file, delivers what it emitted, `[1]`, and reaches the end of the
      stream with nothing pending. The `2` the decoder holds is never asked
      for, since the source makes no further call once the file is read. */
  lemma HeldBackOutputLost()
    ensures var s := Session(DCtx([1, 2], [1]), [1, 2], 2, [1], 1, true);
      && Fill(Delayed(), OpenedSession([1, 2]), 8) == Success(([1], s))
      && s.eos && Pending(s) == [] && InSync(s) && s.ctx.consumed == s.file
  {
    var c, file := Delayed(), [1, 2];
    var s1 := Session(DCtx([1, 2], [1]), file, 2, [1], 0, false);
    var s2 := s1.(offset := 1);
    var s3 := s2.(eos := true);
    DelayedBlock();
    assert InputFile.Read(file, 2, 2) == [];
    assert NextBlock(c, s2) == Success((s3, false));
    assert Fill(c, s2, 7) == Success(([], s3));
    assert s1.staged[0..1] == [1] && [1] + [] == [1];
    assert Fill(c, s1, 8) == FillPending(c, s1, 8) == Prepend([1], Fill(c, s2, 7));
    assert file[..2] == file;
  }

  /** The only block of `[1, 2]` through `Delayed`: both bytes are read and
      given to the decoder, which emits only `1`. */
  lemma DelayedBlock()
    ensures NextBlock(Delayed(), OpenedSession([1, 2])) == Success((Session(DCtx([1, 2], [1]), [1, 2], 2, [1], 0, false), true))
  {
    var c: Codec, chunk: seq<byte> := Delayed(), [1, 2];
    assert InputFile.Read(chunk, 0, 2) == chunk;
    assert chunk[0..] == chunk && chunk[0..1] == [1] && chunk[1..] == chunk[1..2] == [2];
    assert c.decompress(FreshContext, chunk[0..], 4) == Progress(1, []);
    InflateProgress(c, FreshContext, chunk, 0, [], 1, []);
    var ctx1 := Advance(FreshContext, chunk[0..1], []);
    assert ctx1 == DCtx([1], []);
    assert c.decompress(ctx1, chunk[1..], 4) == Progress(1, [1]);
    InflateProgress(c, ctx1, chunk, 1, [], 1, [1]);
    assert Advance(ctx1, chunk[1..2], [1]) == DCtx([1, 2], [1]);
    assert Inflate(c, DCtx([1, 2], [1]), chunk, 2, [1]) == Success(Inflated(DCtx([1, 2], [1]), 2, [1]));
  }
}
