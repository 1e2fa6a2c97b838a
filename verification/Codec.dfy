/**
  The contract of the compression library. The library itself is not modelled: a codec is any pair of
  streaming machines, given as functions on their states, that keeps the promises of `Lawful`. A machine
  may consume as little of its input and produce as much or as little output per call as it likes.
*/
module Codec {
  import opened Bytes

  datatype Directive = Continue | End

  /** How far a compression session has come: Open until the end directive is first given. */
  datatype Phase = Open | Ending | Ended

  datatype CompressStep<+S> =
    | Compressed(state: S, consumed: nat, out: bytes, remaining: nat)
    | CompressError

  datatype DecompressStep<+D> =
    | Decompressed(state: D, consumed: nat, out: bytes)
    | DecompressError

  /**
    The two machines, the buffer sizes the library recommends, and observers of machine states. The
    observers (from `cValid` on) only serve specifications: what a session was fed and has emitted so far,
    and a bound on the calls it still needs.
  */
  datatype Codec<!S, !D> = Codec(
    inSize: nat, outSize: nat, blockSize: nat,
    newC: S, compress: (S, bytes, Directive) -> CompressStep<S>,
    newD: D, decompress: (D, bytes) -> DecompressStep<D>,
    cValid: S -> bool, fed: S -> bytes, emitted: S -> bytes, phase: S -> Phase, cWork: (S, nat) -> nat,
    dValid: D -> bool, eaten: D -> bytes, produced: D -> bytes, dWork: (D, nat) -> nat)

  /** When the calling loop stops: all input taken, or, at the end, nothing left to flush. */
  predicate Finished<S>(r: CompressStep<S>, input: bytes, dir: Directive)
    requires r.Compressed?
  {
    if dir == End then r.remaining == 0 else r.consumed == |input|
  }

  ghost predicate CompressStepOk<S, D>(c: Codec<S, D>, s: S, input: bytes, dir: Directive, r: CompressStep<S>)
    requires r.Compressed?
  {
    && c.cValid(r.state)
    && r.consumed <= |input| && |r.out| <= c.outSize
    && c.fed(r.state) == c.fed(s) + input[..r.consumed]
    && c.emitted(r.state) == c.emitted(s) + r.out
    && c.phase(r.state) == (if dir == Continue then Open else if r.remaining == 0 then Ended else Ending)
    && (!Finished(r, input, dir) ==> c.cWork(r.state, |input| - r.consumed) < c.cWork(s, |input|))
  }

  /** A session takes the continue directive while open, and the end directive until it has ended. */
  ghost predicate Accepts<S, D>(c: Codec<S, D>, s: S, dir: Directive) {
    c.cValid(s) && (c.phase(s) == Open || (c.phase(s) == Ending && dir == End))
  }

  ghost predicate CompressLaw<S(!new), D>(c: Codec<S, D>) {
    && c.cValid(c.newC) && c.fed(c.newC) == [] && c.emitted(c.newC) == [] && c.phase(c.newC) == Open
    && forall s, input, dir {:trigger c.compress(s, input, dir)} |
         Accepts(c, s, dir) && c.compress(s, input, dir).Compressed? ::
         CompressStepOk(c, s, input, dir, c.compress(s, input, dir))
  }

  ghost predicate DecompressStepOk<S, D>(c: Codec<S, D>, d: D, input: bytes, r: DecompressStep<D>)
    requires r.Decompressed?
  {
    && c.dValid(r.state)
    && r.consumed <= |input| && |r.out| <= c.outSize
    && c.eaten(r.state) == c.eaten(d) + input[..r.consumed]
    && c.produced(r.state) == c.produced(d) + r.out
    && (r.consumed < |input| ==> c.dWork(r.state, |input| - r.consumed) < c.dWork(d, |input|))
  }

  /** Holds on arbitrary input: garbage may be reported as an error, but every call makes progress. */
  ghost predicate DecompressLaw<S, D(!new)>(c: Codec<S, D>) {
    && c.dValid(c.newD) && c.eaten(c.newD) == [] && c.produced(c.newD) == []
    && forall d, input {:trigger c.decompress(d, input)} |
         c.dValid(d) && input != [] && c.decompress(d, input).Decompressed? ::
         DecompressStepOk(c, d, input, c.decompress(d, input))
  }

  /**
    What ties the two machines together. A decompressor that is fed a compressor's output, in any chunks,
    reports no error and never produces anything but a prefix of what was compressed. Having eaten an
    ended frame to its last byte it has produced everything. Before the end directive only whole blocks
    can have come out.
  */
  ghost predicate Inverse<S, D>(c: Codec<S, D>, s: S, d: D)
    requires c.blockSize > 0
  {
    c.cValid(s) && c.dValid(d) && c.eaten(d) <= c.emitted(s) ==>
      && c.produced(d) <= c.fed(s)
      && (c.eaten(d) == c.emitted(s) && c.phase(s) == Ended ==> c.produced(d) == c.fed(s))
      && (c.phase(s) == Open ==> |c.produced(d)| <= |c.fed(s)| - |c.fed(s)| % c.blockSize)
  }

  ghost predicate InverseLaw<S(!new), D(!new)>(c: Codec<S, D>)
    requires c.blockSize > 0
  {
    && (forall s, d {:trigger Inverse(c, s, d)} :: Inverse(c, s, d))
    && (forall s, d, input {:trigger c.emitted(s), c.decompress(d, input)} |
          c.cValid(s) && c.dValid(d) && input != [] && c.eaten(d) + input <= c.emitted(s) ::
          c.decompress(d, input).Decompressed?)
  }

  /** A codec that reports no errors and returns 0 from the end directive only once all input is taken. */
  ghost predicate NeverFails<S(!new), D(!new)>(c: Codec<S, D>) {
    forall s, input, dir {:trigger c.compress(s, input, dir)} | Accepts(c, s, dir) ::
      var r := c.compress(s, input, dir);
      r.Compressed? && (Finished(r, input, dir) ==> r.consumed == |input|)
  }

  ghost predicate Lawful<S(!new), D(!new)>(c: Codec<S, D>) {
    c.inSize > 0 && c.outSize > 0 && c.blockSize > 0 &&
    CompressLaw(c) && DecompressLaw(c) && InverseLaw(c)
  }
}
