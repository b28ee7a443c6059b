/** The streaming decompressor the file source drives (zstd's `ZSTD_DCtx` and
    `ZSTD_decompressStream`), kept abstract: the model knows its recommended
    staging sizes and one step function, nothing of its internals. */
module StreamCodec {
  import opened Base

  /** The decoder's state, described by its history: the compressed bytes it
      has accepted and the decompressed bytes it has emitted, in order. A
      deterministic streaming decoder's state is a function of that history. */
  datatype DCtx = DCtx(consumed: seq<byte>, emitted: seq<byte>)

  /** The state of a context just returned by `ZSTD_createDCtx`. */
  const FreshContext: DCtx := DCtx([], [])

  /** The outcome of one `ZSTD_decompressStream` call: how many of the offered
      compressed bytes it consumed (`input.pos` advance) and the bytes it wrote
      (`output.pos`), or an error code (`ZSTD_isError`) with its name. */
  datatype Step = Progress(consumed: nat, output: seq<byte>) | Fault(name: string)

  /** A codec: `ZSTD_DStreamInSize()`, `ZSTD_DStreamOutSize()` and the step
      function, which sees the context, the unconsumed input and the free
      output space. */
  datatype Codec = Codec(inSize: nat, outSize: nat, decompress: (DCtx, seq<byte>, nat) -> Step)

  /** A step stays within what it was offered, and makes progress whenever it
      has both input and output space. */
  predicate StepFits(avail: seq<byte>, space: nat, st: Step)
  {
    st.Progress? ==>
      && st.consumed <= |avail|
      && |st.output| <= space
      && (0 < |avail| && 0 < space ==> 0 < st.consumed || 0 < |st.output|)
  }

  /** What the file source relies on from the library: positive recommended
      sizes, and steps that fit. The progress half is what makes the inner
      decompression loop terminate. */
  ghost predicate Sound(c: Codec)
  {
    && 0 < c.inSize
    && 0 < c.outSize
    && forall ctx, avail, space {:trigger c.decompress(ctx, avail, space)} :: StepFits(avail, space, c.decompress(ctx, avail, space))
  }

  /** Codecs the file source can be given. */
  type SoundCodec = c: Codec | Sound(c) witness Passthrough(1, 1)

  /** A codec whose "compressed" form is the data itself: each step copies as
      much of the input as fits. */
  function Passthrough(inSize: nat, outSize: nat): (c: Codec)
    requires 0 < inSize && 0 < outSize
    ensures Sound(c)
  {
    Codec(inSize, outSize, (ctx: DCtx, avail: seq<byte>, space: nat) =>
      var n := Min(|avail|, space); Progress(n, avail[..n]))
  }

  /** The context after a step that consumed `input` and emitted `output`. */
  function Advance(ctx: DCtx, input: seq<byte>, output: seq<byte>): DCtx
  {
    DCtx(ctx.consumed + input, ctx.emitted + output)
  }
}
