/** The chunking loops around the codec (src/client/zstd.cpp) and what they compute. */
module Zstd {
  import opened Bytes
  import opened Streams
  import opened Codec

  /** A compression session, or the error it ended with, and the bytes it has put out until then. */
  datatype Run<+S> = Run(state: S, out: bytes) | Failed(error: Error, out: bytes)

  function Prepend<S>(out: bytes, r: Run<S>): (q: Run<S>) {
    match r
    case Run(s, rest) => Run(s, out + rest)
    case Failed(e, rest) => Failed(e, out + rest)
  }

  lemma PrependTwice<S>(a: bytes, b: bytes, r: Run<S>)
    ensures Prepend(a, Prepend(b, r)) == Prepend(a + b, r)
  {
    Associative(a, b, r.out);
  }

  lemma PrependNothing<S>(r: Run<S>)
    ensures Prepend([], r) == r
  {
    assert [] + r.out == r.out;
  }

  /** What a session that does not fail has been fed and has emitted, and the phase it is left in. */
  ghost predicate Fed<S, D>(c: Codec<S, D>, s: S, input: bytes, phase: Phase, r: Run<S>) {
    r.Run? ==>
      && c.cValid(r.state) && c.fed(r.state) == c.fed(s) + input && c.emitted(r.state) == c.emitted(s) + r.out
      && c.phase(r.state) == phase
  }

  /** The inner loop: one chunk is offered until the codec is done with it. */
  ghost function CompressChunk<S(!new), D(!new)>(c: Codec<S, D>, s: S, chunk: bytes, dir: Directive): (r: Run<S>)
    requires Lawful(c) && Accepts(c, s, dir)
    ensures Fed(c, s, chunk, if dir == End then Ended else Open, r)
    decreases c.cWork(s, |chunk|)
  {
    var step := c.compress(s, chunk, dir);
    if step.CompressError? then Failed(CompressionFailed, [])
    else if !Finished(step, chunk, dir) then
      Prepend(step.out, CompressChunk(c, step.state, chunk[step.consumed..], dir))
    else if step.consumed != |chunk| then Failed(ZstdImpossible, step.out)
    else Run(step.state, step.out)
  }

  /** Whether taking away r at a time leaves nothing, which is how the outer loop meets a length. */
  predicate Multiple(length: nat, r: nat)
    requires r > 0
  {
    if length < r then length == 0 else Multiple(length - r, r)
  }

  lemma {:induction false} MultipleIsMod(length: nat, r: nat)
    requires r > 0
    ensures Multiple(length, r) <==> length % r == 0
  {
    if length >= r {
      MultipleIsMod(length - r, r);
      ModStep(length, r);
    }
  }

  /** The outer loop: the end directive goes with a chunk that comes up short, and with no other. */
  ghost function CompressFrom<S(!new), D(!new)>(c: Codec<S, D>, s: S, content: bytes): (r: Run<S>)
    requires Lawful(c) && c.cValid(s) && (content != [] ==> c.phase(s) == Open)
    ensures content != [] ==> Fed(c, s, content, if Multiple(|content|, c.inSize) then Open else Ended, r)
    ensures content == [] ==> r == Run(s, [])
    decreases |content|
  {
    if content == [] then Run(s, [])
    else
      var n := Min(c.inSize, |content|);
      var run := CompressChunk(c, s, content[..n], if n < c.inSize then End else Continue);
      if run.Failed? then run
      else
        var rest := CompressFrom(c, run.state, content[n..]);
        FedInTwo(c, s, content, n, c.phase(run.state),
                 if n < |content| && rest.Run? then c.phase(rest.state) else Open, run, rest);
        Prepend(run.out, rest)
  }

  /** Two sessions in a row are one. */
  lemma FedInTwo<S, D>(c: Codec<S, D>, s: S, input: bytes, n: nat, phase: Phase, phase': Phase, first: Run<S>,
                       rest: Run<S>)
    requires n <= |input| && first.Run? && Fed(c, s, input[..n], phase, first)
    requires if n < |input| then Fed(c, first.state, input[n..], phase', rest) else rest == Run(first.state, [])
    ensures Fed(c, s, input, if n < |input| then phase' else phase, Prepend(first.out, rest))
  {
    assert input[..n] + input[n..] == input;
    if n < |input| && rest.Run? {
      Associative(c.fed(s), input[..n], input[n..]);
      Associative(c.emitted(s), first.out, rest.out);
    } else {
      assert first.out + [] == first.out;
    }
  }

  /** What compressing a file writes, also when it fails on the way. */
  ghost function CompressedForm<S(!new), D(!new)>(c: Codec<S, D>, content: bytes): (r: Run<S>)
    requires Lawful(c)
  {
    CompressFrom(c, c.newC, content)
  }

  datatype Decoded<+D> = Decoded(state: D, out: bytes) | Broken(out: bytes)

  function After<D>(out: bytes, r: Decoded<D>): (q: Decoded<D>) {
    match r
    case Decoded(d, rest) => Decoded(d, out + rest)
    case Broken(rest) => Broken(out + rest)
  }

  lemma AfterTwice<D>(a: bytes, b: bytes, r: Decoded<D>)
    ensures After(a, After(b, r)) == After(a + b, r)
  {
    assert a + (b + r.out) == a + b + r.out;
  }

  ghost predicate Advanced<S, D>(c: Codec<S, D>, d: D, input: bytes, r: Decoded<D>) {
    r.Decoded? ==>
      && c.dValid(r.state) && c.eaten(r.state) == c.eaten(d) + input
      && c.produced(r.state) == c.produced(d) + r.out
  }

  lemma AdvancedInTwo<S, D>(c: Codec<S, D>, d: D, input: bytes, n: nat, first: Decoded<D>, rest: Decoded<D>)
    requires n <= |input| && first.Decoded?
    requires Advanced(c, d, input[..n], first) && Advanced(c, first.state, input[n..], rest)
    ensures Advanced(c, d, input, After(first.out, rest))
  {
    assert input[..n] + input[n..] == input;
    if rest.Decoded? {
      Associative(c.eaten(d), input[..n], input[n..]);
      Associative(c.produced(d), first.out, rest.out);
    }
  }

  ghost function DecompressChunk<S(!new), D(!new)>(c: Codec<S, D>, d: D, chunk: bytes): (r: Decoded<D>)
    requires Lawful(c) && c.dValid(d)
    ensures Advanced(c, d, chunk, r)
    decreases |chunk| > 0, c.dWork(d, |chunk|)
  {
    if chunk == [] then Decoded(d, [])
    else
      var step := c.decompress(d, chunk);
      if step.DecompressError? then Broken([])
      else
        var rest := DecompressChunk(c, step.state, chunk[step.consumed..]);
        AdvancedInTwo(c, d, chunk, step.consumed, Decoded(step.state, step.out), rest);
        After(step.out, rest)
  }

  /** Everything the decompression loop writes for a payload, also when it fails on the way. */
  ghost function DecompressFrom<S(!new), D(!new)>(c: Codec<S, D>, d: D, payload: bytes): (r: Decoded<D>)
    requires Lawful(c) && c.dValid(d)
    ensures Advanced(c, d, payload, r)
    decreases |payload|
  {
    if payload == [] then Decoded(d, [])
    else
      var n := Min(c.inSize, |payload|);
      var run := DecompressChunk(c, d, payload[..n]);
      if run.Broken? then run
      else
        var rest := DecompressFrom(c, run.state, payload[n..]);
        AdvancedInTwo(c, d, payload, n, run, rest);
        After(run.out, rest)
  }

  /**
    Whatever the codec consumes per call, it has in the end been fed the whole content in order, the file
    holds exactly what it put out, and the frame is ended if and only if the last read came up short.
  */
  lemma {:induction false} CompressFeedsEverything<S(!new), D(!new)>(c: Codec<S, D>, content: bytes)
    requires Lawful(c) && CompressedForm(c, content).Run?
    ensures var Run(s, out) := CompressedForm(c, content);
            && c.fed(s) == content && c.emitted(s) == out
            && (c.phase(s) == Ended <==> |content| % c.inSize != 0)
  {
    MultipleIsMod(|content|, c.inSize);
  }

  lemma {:induction false} ChunkCompresses<S(!new), D(!new)>(c: Codec<S, D>, s: S, chunk: bytes, dir: Directive)
    requires Lawful(c) && NeverFails(c) && Accepts(c, s, dir)
    ensures CompressChunk(c, s, chunk, dir).Run?
    decreases c.cWork(s, |chunk|)
  {
    var step := c.compress(s, chunk, dir);
    if !Finished(step, chunk, dir) {
      ChunkCompresses(c, step.state, chunk[step.consumed..], dir);
    }
  }

  lemma {:induction false} ContentCompresses<S(!new), D(!new)>(c: Codec<S, D>, s: S, content: bytes)
    requires Lawful(c) && NeverFails(c) && c.cValid(s) && (content != [] ==> c.phase(s) == Open)
    ensures CompressFrom(c, s, content).Run?
    decreases |content|
  {
    if content != [] {
      var n := Min(c.inSize, |content|);
      var dir := if n < c.inSize then End else Continue;
      ChunkCompresses(c, s, content[..n], dir);
      ContentCompresses(c, CompressChunk(c, s, content[..n], dir).state, content[n..]);
    }
  }

  // ---------------------------------------------------------------------------------------------------
  // What has been written when the codec fails

  /** A session that was fed a beginning of the input and has put out exactly this since. */
  ghost predicate WentTo<S, D>(c: Codec<S, D>, s: S, input: bytes, out: bytes, s': S) {
    c.cValid(s') && c.fed(s') <= c.fed(s) + input && c.emitted(s') == c.emitted(s) + out
  }

  lemma WentOn<S, D>(c: Codec<S, D>, s: S, input: bytes, k: nat, a: bytes, s1: S, b: bytes, s2: S)
    requires k <= |input| && c.fed(s1) == c.fed(s) + input[..k] && c.emitted(s1) == c.emitted(s) + a
    requires WentTo(c, s1, input[k..], b, s2)
    ensures WentTo(c, s, input, a + b, s2)
  {
    assert input[..k] + input[k..] == input;
    Associative(c.fed(s), input[..k], input[k..]);
    Associative(c.emitted(s), a, b);
  }

  lemma {:induction false} ChunkFailure<S(!new), D(!new)>(c: Codec<S, D>, s: S, chunk: bytes, dir: Directive)
    returns (s': S)
    requires Lawful(c) && Accepts(c, s, dir) && CompressChunk(c, s, chunk, dir).Failed?
    ensures WentTo(c, s, chunk, CompressChunk(c, s, chunk, dir).out, s')
    decreases c.cWork(s, |chunk|)
  {
    var step := c.compress(s, chunk, dir);
    if step.CompressError? {
      s' := s;
      assert c.fed(s) <= c.fed(s) + chunk && c.emitted(s) + [] == c.emitted(s);
    } else {
      assert CompressStepOk(c, s, chunk, dir, step);
      if !Finished(step, chunk, dir) {
        s' := ChunkFailure(c, step.state, chunk[step.consumed..], dir);
        WentOn(c, s, chunk, step.consumed, step.out, step.state,
               CompressChunk(c, step.state, chunk[step.consumed..], dir).out, s');
      } else {
        s' := step.state;
        assert chunk[..step.consumed] <= chunk;
      }
    }
  }

  lemma {:induction false} ContentFailure<S(!new), D(!new)>(c: Codec<S, D>, s: S, content: bytes) returns (s': S)
    requires Lawful(c) && c.cValid(s) && (content != [] ==> c.phase(s) == Open) && CompressFrom(c, s, content).Failed?
    ensures WentTo(c, s, content, CompressFrom(c, s, content).out, s')
    decreases |content|
  {
    var n := Min(c.inSize, |content|);
    var dir := if n < c.inSize then End else Continue;
    var run := CompressChunk(c, s, content[..n], dir);
    if run.Failed? {
      s' := ChunkFailure(c, s, content[..n], dir);
      hide Lawful, CompressChunk;
      assert content[..n] <= content;
    } else {
      s' := ContentFailure(c, run.state, content[n..]);
      hide Lawful;
      WentOn(c, s, content, n, run.out, run.state, CompressFrom(c, run.state, content[n..]).out, s');
    }
  }

  /** When compression fails, the file holds exactly what the codec had put out for a beginning of the content. */
  lemma CompressFailure<S(!new), D(!new)>(c: Codec<S, D>, content: bytes) returns (s: S)
    requires Lawful(c) && CompressedForm(c, content).Failed?
    ensures c.cValid(s) && c.fed(s) <= content && c.emitted(s) == CompressedForm(c, content).out
  {
    s := ContentFailure(c, c.newC, content);
  }

  ghost predicate ReadTo<S, D>(c: Codec<S, D>, d: D, input: bytes, out: bytes, d': D) {
    c.dValid(d') && c.eaten(d') <= c.eaten(d) + input && c.produced(d') == c.produced(d) + out
  }

  lemma ReadOn<S, D>(c: Codec<S, D>, d: D, input: bytes, k: nat, a: bytes, d1: D, b: bytes, d2: D)
    requires k <= |input| && c.eaten(d1) == c.eaten(d) + input[..k] && c.produced(d1) == c.produced(d) + a
    requires ReadTo(c, d1, input[k..], b, d2)
    ensures ReadTo(c, d, input, a + b, d2)
  {
    assert input[..k] + input[k..] == input;
    Associative(c.eaten(d), input[..k], input[k..]);
    Associative(c.produced(d), a, b);
  }

  lemma {:induction false} ChunkBroken<S(!new), D(!new)>(c: Codec<S, D>, d: D, chunk: bytes) returns (d': D)
    requires Lawful(c) && c.dValid(d) && DecompressChunk(c, d, chunk).Broken?
    ensures ReadTo(c, d, chunk, DecompressChunk(c, d, chunk).out, d')
    decreases |chunk| > 0, c.dWork(d, |chunk|)
  {
    var step := c.decompress(d, chunk);
    if step.DecompressError? {
      d' := d;
      assert c.eaten(d) <= c.eaten(d) + chunk && c.produced(d) + [] == c.produced(d);
    } else {
      assert DecompressStepOk(c, d, chunk, step);
      d' := ChunkBroken(c, step.state, chunk[step.consumed..]);
      ReadOn(c, d, chunk, step.consumed, step.out, step.state,
             DecompressChunk(c, step.state, chunk[step.consumed..]).out, d');
    }
  }

  lemma {:induction false} PayloadBroken<S(!new), D(!new)>(c: Codec<S, D>, d: D, payload: bytes) returns (d': D)
    requires Lawful(c) && c.dValid(d) && DecompressFrom(c, d, payload).Broken?
    ensures ReadTo(c, d, payload, DecompressFrom(c, d, payload).out, d')
    decreases |payload|
  {
    var n := Min(c.inSize, |payload|);
    var run := DecompressChunk(c, d, payload[..n]);
    if run.Broken? {
      d' := ChunkBroken(c, d, payload[..n]);
      hide Lawful, DecompressChunk;
      assert payload[..n] <= payload;
    } else {
      d' := PayloadBroken(c, run.state, payload[n..]);
      hide Lawful;
      ReadOn(c, d, payload, n, run.out, run.state, DecompressFrom(c, run.state, payload[n..]).out, d');
    }
  }

  /**
    What decompression has written, whether it fails or not, is exactly what the codec produced for a
    beginning of the payload: for all of it if it does not fail.
  */
  lemma DecompressWrites<S(!new), D(!new)>(c: Codec<S, D>, payload: bytes) returns (d: D)
    requires Lawful(c)
    ensures var run := DecompressFrom(c, c.newD, payload);
            && c.dValid(d) && c.eaten(d) <= payload && c.produced(d) == run.out
            && (run.Decoded? ==> d == run.state && c.eaten(d) == payload)
  {
    var run := DecompressFrom(c, c.newD, payload);
    if run.Broken? {
      d := PayloadBroken(c, c.newD, payload);
    } else {
      d := run.state;
    }
  }

  // ---------------------------------------------------------------------------------------------------
  // What decompression makes of a compressed file

  lemma {:induction false} ChunkAccepted<S(!new), D(!new)>(c: Codec<S, D>, s: S, d: D, chunk: bytes)
    requires Lawful(c) && c.cValid(s) && c.dValid(d) && c.eaten(d) + chunk <= c.emitted(s)
    ensures DecompressChunk(c, d, chunk).Decoded?
    decreases |chunk| > 0, c.dWork(d, |chunk|)
  {
    if chunk != [] {
      var step := c.decompress(d, chunk);
      assert step.Decompressed?;
      assert c.eaten(step.state) + chunk[step.consumed..] == c.eaten(d) + chunk;
      ChunkAccepted(c, s, step.state, chunk[step.consumed..]);
    }
  }

  lemma {:induction false} PayloadAccepted<S(!new), D(!new)>(c: Codec<S, D>, s: S, d: D, payload: bytes)
    requires Lawful(c) && c.cValid(s) && c.dValid(d) && c.eaten(d) + payload <= c.emitted(s)
    ensures DecompressFrom(c, d, payload).Decoded?
    decreases |payload|
  {
    if payload != [] {
      var n := Min(c.inSize, |payload|);
      assert payload[..n] + payload[n..] == payload;
      assert c.eaten(d) + payload[..n] <= c.eaten(d) + payload;
      ChunkAccepted(c, s, d, payload[..n]);
      var run := DecompressChunk(c, d, payload[..n]);
      assert c.eaten(run.state) + payload[n..] == c.eaten(d) + payload;
      PayloadAccepted(c, s, run.state, payload[n..]);
    }
  }

  /** What unpacking restores for a file with this content. */
  ghost function Recovered<S(!new), D(!new)>(c: Codec<S, D>, content: bytes): bytes
    requires Lawful(c)
  {
    var run := CompressedForm(c, content);
    if run.Run? then DecompressFrom(c, c.newD, run.out).out else []
  }

  /** The lengths for which the compression loop gives the end directive, or needs none. */
  predicate Closes(length: nat, inSize: nat)
    requires inSize > 0
  {
    length == 0 || length % inSize != 0
  }

  /**
    Decompressing a compressed file never fails and restores a prefix of it: all of it if the loop closed
    the frame; strictly less if it did not and the length is not a whole number of blocks either.
  */
  lemma RecoveredContent<S(!new), D(!new)>(c: Codec<S, D>, content: bytes)
    requires Lawful(c) && CompressedForm(c, content).Run?
    ensures DecompressFrom(c, c.newD, CompressedForm(c, content).out).Decoded?
    ensures Recovered(c, content) <= content
    ensures Closes(|content|, c.inSize) ==> Recovered(c, content) == content
    ensures !Closes(|content|, c.inSize) && |content| % c.blockSize != 0 ==> |Recovered(c, content)| < |content|
  {
    var run := CompressedForm(c, content);
    PayloadAccepted(c, run.state, c.newD, run.out);
    var d := DecompressFrom(c, c.newD, run.out).state;
    assert c.eaten(d) == c.emitted(run.state) == run.out;
    assert c.fed(run.state) == content;
    assert Inverse(c, run.state, d);
    MultipleIsMod(|content|, c.inSize);
  }

  lemma NewSessions<S(!new), D(!new)>(c: Codec<S, D>)
    requires Lawful(c)
    ensures c.dValid(c.newD) && c.cValid(c.newC) && c.phase(c.newC) == Open && c.inSize > 0
  {
  }

  // ---------------------------------------------------------------------------------------------------
  // The loops

  /** Where the inner loop of zstd::compress stands: `sofar` is written, and of the chunk `left` is not taken yet. */
  ghost predicate Feeding<S(!new), D(!new)>(c: Codec<S, D>, start: S, chunk: bytes, dir: Directive, sofar: bytes,
                                            s: S, left: bytes, finished: bool)
    requires Lawful(c) && Accepts(c, start, dir)
  {
    if finished then
      CompressChunk(c, start, chunk, dir) == if left == [] then Run(s, sofar) else Failed(ZstdImpossible, sofar)
    else Accepts(c, s, dir) && CompressChunk(c, start, chunk, dir) == Prepend(sofar, CompressChunk(c, s, left, dir))
  }

  lemma FeedingStarts<S(!new), D(!new)>(c: Codec<S, D>, s: S, chunk: bytes, dir: Directive)
    requires Lawful(c) && Accepts(c, s, dir)
    ensures Feeding(c, s, chunk, dir, [], s, chunk, false)
  {
    PrependNothing(CompressChunk(c, s, chunk, dir));
  }

  /** One call of the codec. */
  lemma FeedingGoesOn<S(!new), D(!new)>(c: Codec<S, D>, start: S, chunk: bytes, dir: Directive, sofar: bytes,
                                        s: S, left: bytes)
    requires Lawful(c) && Accepts(c, start, dir) && Feeding(c, start, chunk, dir, sofar, s, left, false)
    ensures var step := c.compress(s, left, dir);
            if step.CompressError? then CompressChunk(c, start, chunk, dir) == Failed(CompressionFailed, sofar)
            else
              && step.consumed <= |left|
              && Feeding(c, start, chunk, dir, sofar + step.out, step.state, left[step.consumed..],
                         Finished(step, left, dir))
              && (!Finished(step, left, dir) ==> c.cWork(step.state, |left[step.consumed..]|) < c.cWork(s, |left|))
  {
    var step := c.compress(s, left, dir);
    if step.CompressError? {
      assert sofar + [] == sofar;
    } else {
      assert CompressStepOk(c, s, left, dir, step);
      hide Lawful, CompressStepOk;
      if !Finished(step, left, dir) {
        PrependTwice(sofar, step.out, CompressChunk(c, step.state, left[step.consumed..], dir));
      }
    }
  }

  /** The inner loop of zstd::compress: offers one chunk until the codec is done with it. */
  method FeedChunk<S(!new), D(!new)>(c: Codec<S, D>, start: S, chunk: bytes, dir: Directive, output: OutStream)
    returns (r: Result<S>, written: nat)
    requires Lawful(c) && Accepts(c, start, dir)
    modifies output
    ensures var run := CompressChunk(c, start, chunk, dir);
            && Wrote(old(output.before), old(output.beyond), output.before, output.beyond, run.out)
            && match run
               case Run(s, out) => r == Ok(s) && written == |out|
               case Failed(e, _) => r == Err(e)
  {
    hide Lawful, Accepts, CompressChunk, Feeding, Wrote, Finished;
    var s, left, finished := start, chunk, false;
    written := 0;
    ghost var sofar: bytes := [];
    WriteNothing(output.before, output.beyond);
    FeedingStarts(c, s, left, dir);
    while !finished
      invariant written == |sofar| && Wrote(old(output.before), old(output.beyond), output.before, output.beyond, sofar)
      invariant Feeding(c, start, chunk, dir, sofar, s, left, finished)
      decreases !finished, c.cWork(s, |left|)
    {
      FeedingGoesOn(c, start, chunk, dir, sofar, s, left);
      var step := c.compress(s, left, dir);
      if step.CompressError? {
        return Err(CompressionFailed), written;
      }
      finished := Finished(step, left, dir);
      WroteMore(old(output.before), old(output.beyond), output.before, output.beyond, sofar, step.out);
      output.Write(step.out);
      written := written + |step.out|;
      sofar := sofar + step.out;
      s, left := step.state, left[step.consumed..];
    }
    FeedingEnds(c, start, chunk, dir, sofar, s, left);
    return if left != [] then Err(ZstdImpossible) else Ok(s), written;
  }

  lemma FeedingEnds<S(!new), D(!new)>(c: Codec<S, D>, start: S, chunk: bytes, dir: Directive, sofar: bytes,
                                      s: S, left: bytes)
    requires Lawful(c) && Accepts(c, start, dir) && Feeding(c, start, chunk, dir, sofar, s, left, true)
    ensures CompressChunk(c, start, chunk, dir) == if left == [] then Run(s, sofar) else Failed(ZstdImpossible, sofar)
  {
  }

  lemma WriteNothing(before: bytes, beyond: bytes)
    ensures Wrote(before, beyond, before, beyond, [])
  {
    assert before + [] == before;
  }

  lemma WroteMore(before: bytes, beyond: bytes, before0: bytes, beyond0: bytes, sofar: bytes, piece: bytes)
    requires Wrote(before, beyond, before0, beyond0, sofar)
    ensures Wrote(before, beyond, before0 + piece, Skip(beyond0, |piece|), sofar + piece)
  {
    WriteTwice(before, beyond, sofar, piece);
  }

  lemma WroteBoth(before: bytes, beyond: bytes, before0: bytes, beyond0: bytes, before1: bytes, beyond1: bytes,
                  sofar: bytes, piece: bytes)
    requires Wrote(before, beyond, before0, beyond0, sofar) && Wrote(before0, beyond0, before1, beyond1, piece)
    ensures Wrote(before, beyond, before1, beyond1, sofar + piece)
  {
    WriteTwice(before, beyond, sofar, piece);
  }

  /**
    Where the outer loop of zstd::compress stands: `sofar` is written, and the session s will do the rest of
    the content.
  */
  ghost predicate Compressing<S(!new), D(!new)>(c: Codec<S, D>, content: bytes, sofar: bytes, s: S, rest: bytes)
    requires Lawful(c)
  {
    && c.cValid(s) && (rest != [] ==> c.phase(s) == Open)
    && CompressedForm(c, content) == Prepend(sofar, CompressFrom(c, s, rest))
  }

  lemma CompressingStarts<S(!new), D(!new)>(c: Codec<S, D>, content: bytes)
    requires Lawful(c)
    ensures Compressing(c, content, [], c.newC, content) && c.inSize > 0
  {
    PrependNothing(CompressedForm(c, content));
  }

  /** The end directive goes with the last chunk if that one is short. */
  function DirectiveFor(n: nat, inSize: nat): Directive {
    if n < inSize then End else Continue
  }

  /** One round of the outer loop, as the specification sees it. */
  lemma CompressingGoesOn<S(!new), D(!new)>(c: Codec<S, D>, content: bytes, sofar: bytes, s: S, chunk: bytes,
                                            rest: bytes)
    requires Lawful(c) && Compressing(c, content, sofar, s, chunk + rest)
    requires 0 < |chunk| <= c.inSize && (|chunk| < c.inSize ==> rest == [])
    ensures Accepts(c, s, DirectiveFor(|chunk|, c.inSize))
    ensures var run := CompressChunk(c, s, chunk, DirectiveFor(|chunk|, c.inSize));
            if run.Failed? then CompressedForm(c, content) == Failed(run.error, sofar + run.out)
            else Compressing(c, content, sofar + run.out, run.state, rest)
  {
    var whole := chunk + rest;
    var n := Min(c.inSize, |whole|);
    assert whole[..n] == chunk && whole[n..] == rest;
    var run := CompressChunk(c, s, chunk, DirectiveFor(|chunk|, c.inSize));
    hide Lawful, CompressChunk;
    if run.Run? {
      PrependTwice(sofar, run.out, CompressFrom(c, run.state, rest));
    }
  }

  lemma CompressingEnds<S(!new), D(!new)>(c: Codec<S, D>, content: bytes, sofar: bytes, s: S)
    requires Lawful(c) && Compressing(c, content, sofar, s, [])
    ensures CompressedForm(c, content) == Run(s, sofar)
  {
    assert sofar + [] == sofar;
  }

  /** zstd::compress: returns the number of bytes it wrote. What it wrote is specified also for failures. */
  method Compress<S(!new), D(!new)>(c: Codec<S, D>, input: InStream, output: OutStream)
    returns (r: Result<nat>)
    requires Lawful(c) && input.Valid()
    modifies input, output
    ensures input.Valid()
    ensures var run := CompressedForm(c, old(input.left));
            && Wrote(old(output.before), old(output.beyond), output.before, output.beyond, run.out)
            && r == if run.Run? then Ok(|run.out|) else Err(run.error)
  {
    hide Lawful, Accepts, CompressedForm, CompressChunk, Compressing, Wrote, Take, Skip;
    var s := c.newC;
    var total: nat := 0;
    ghost var content, sofar: bytes := input.left, [];
    ghost var before, beyond := output.before, output.beyond;
    WriteNothing(before, beyond);
    CompressingStarts(c, content);
    var chunk := input.Read(c.inSize);
    while |chunk| > 0
      invariant input.Valid() && |chunk| <= c.inSize && (|chunk| < c.inSize ==> input.left == [])
      invariant total == |sofar| && Wrote(before, beyond, output.before, output.beyond, sofar)
      invariant Compressing(c, content, sofar, s, chunk + input.left)
      decreases |chunk| + |input.left|
    {
      ghost var rest, before0, beyond0 := input.left, output.before, output.beyond;
      CompressingGoesOn(c, content, sofar, s, chunk, rest);
      ghost var piece := CompressChunk(c, s, chunk, DirectiveFor(|chunk|, c.inSize));
      var isLast := |chunk| < c.inSize;
      var fed, written := FeedChunk(c, s, chunk, if isLast then End else Continue, output);
      WroteBoth(before, beyond, before0, beyond0, output.before, output.beyond, sofar, piece.out);
      if fed.Err? {
        return Err(fed.error);
      }
      s, total, sofar := fed.value, total + written, sofar + piece.out;
      chunk := input.Read(c.inSize);
    }
    assert chunk + input.left == [];
    CompressingEnds(c, content, sofar, s);
    return Ok(total);
  }

  /** Where the inner loop of zstd::decompress stands: `sofar` is written, `pending` is not consumed yet. */
  ghost predicate Expanding<S(!new), D(!new)>(c: Codec<S, D>, start: D, chunk: bytes, sofar: bytes, d: D,
                                              pending: bytes)
    requires Lawful(c) && c.dValid(start)
  {
    c.dValid(d) && DecompressChunk(c, start, chunk) == After(sofar, DecompressChunk(c, d, pending))
  }

  lemma ExpandingStarts<S(!new), D(!new)>(c: Codec<S, D>, d: D, chunk: bytes)
    requires Lawful(c) && c.dValid(d)
    ensures Expanding(c, d, chunk, [], d, chunk)
  {
    AfterNothing(DecompressChunk(c, d, chunk));
  }

  /** One call of the codec. */
  lemma ExpandingGoesOn<S(!new), D(!new)>(c: Codec<S, D>, start: D, chunk: bytes, sofar: bytes, d: D, pending: bytes)
    requires Lawful(c) && c.dValid(start) && Expanding(c, start, chunk, sofar, d, pending) && pending != []
    ensures var step := c.decompress(d, pending);
            if step.DecompressError? then DecompressChunk(c, start, chunk) == Broken(sofar)
            else
              && step.consumed <= |pending|
              && Expanding(c, start, chunk, sofar + step.out, step.state, pending[step.consumed..])
              && (step.consumed < |pending| ==> c.dWork(step.state, |pending[step.consumed..]|) < c.dWork(d, |pending|))
  {
    var step := c.decompress(d, pending);
    if step.DecompressError? {
      assert sofar + [] == sofar;
    } else {
      assert DecompressStepOk(c, d, pending, step);
      hide Lawful, DecompressStepOk;
      AfterTwice(sofar, step.out, DecompressChunk(c, step.state, pending[step.consumed..]));
    }
  }

  lemma ExpandingEnds<S(!new), D(!new)>(c: Codec<S, D>, start: D, chunk: bytes, sofar: bytes, d: D)
    requires Lawful(c) && c.dValid(start) && Expanding(c, start, chunk, sofar, d, [])
    ensures DecompressChunk(c, start, chunk) == Decoded(d, sofar)
  {
    assert sofar + [] == sofar;
  }

  /** The inner loop of zstd::decompress: one chunk is decompressed to its last byte. */
  method DrainChunk<S(!new), D(!new)>(c: Codec<S, D>, start: D, chunk: bytes, output: OutStream)
    returns (r: Result<D>, written: nat)
    requires Lawful(c) && c.dValid(start)
    modifies output
    ensures var run := DecompressChunk(c, start, chunk);
            && Wrote(old(output.before), old(output.beyond), output.before, output.beyond, run.out)
            && written == |run.out| && r == if run.Decoded? then Ok(run.state) else Err(DecompressionFailed)
  {
    hide Lawful, DecompressChunk, Expanding, Wrote;
    var d, pending := start, chunk;
    written := 0;
    ghost var sofar: bytes := [];
    WriteNothing(output.before, output.beyond);
    ExpandingStarts(c, d, chunk);
    while |pending| > 0
      invariant written == |sofar| && Wrote(old(output.before), old(output.beyond), output.before, output.beyond, sofar)
      invariant Expanding(c, start, chunk, sofar, d, pending)
      decreases |pending| > 0, c.dWork(d, |pending|)
    {
      ExpandingGoesOn(c, start, chunk, sofar, d, pending);
      var step := c.decompress(d, pending);
      if step.DecompressError? {
        return Err(DecompressionFailed), written;
      }
      WroteMore(old(output.before), old(output.beyond), output.before, output.beyond, sofar, step.out);
      output.Write(step.out);
      written := written + |step.out|;
      sofar := sofar + step.out;
      d, pending := step.state, pending[step.consumed..];
    }
    ExpandingEnds(c, start, chunk, sofar, d);
    return Ok(d), written;
  }

  lemma AfterNothing<D>(r: Decoded<D>)
    ensures After([], r) == r
  {
    assert [] + r.out == r.out;
  }

  /**
    Where the outer loop of zstd::decompress stands: of `all` there is `ahead` left to read, of which up to
    n bytes belong to the payload; `sofar` is written, and the session d will do the rest.
  */
  ghost predicate Draining<S(!new), D(!new)>(c: Codec<S, D>, all: bytes, length: nat, sofar: bytes,
                                             d: D, ahead: bytes, n: nat)
    requires Lawful(c)
  {
    && c.dValid(d) && n <= length && length - n <= |all| && ahead == Skip(all, length - n)
    && DecompressFrom(c, c.newD, Take(all, length)) == After(sofar, DecompressFrom(c, d, Take(ahead, n)))
  }

  lemma DrainingStarts<S(!new), D(!new)>(c: Codec<S, D>, all: bytes, length: nat)
    requires Lawful(c)
    ensures Draining(c, all, length, [], c.newD, all, length)
  {
    AfterNothing(DecompressFrom(c, c.newD, Take(all, length)));
  }

  lemma DrainingEnds<S(!new), D(!new)>(c: Codec<S, D>, all: bytes, length: nat, sofar: bytes,
                                       d: D, ahead: bytes, n: nat)
    requires Lawful(c) && Draining(c, all, length, sofar, d, ahead, n)
    requires Take(ahead, Min(c.inSize, n)) == []
    ensures DecompressFrom(c, c.newD, Take(all, length)) == Decoded(d, sofar)
    ensures |Take(all, length)| == length - n && all == Take(all, length) + ahead
    ensures ahead == Skip(ahead, Min(c.inSize, n)) && c.inSize > 0
  {
    assert Take(ahead, n) == [];
    hide Lawful;
    assert sofar + [] == sofar;
  }

  lemma TakeInTwo(ahead: bytes, n: nat, size: nat)
    ensures var whole, chunk := Take(ahead, n), Take(ahead, Min(size, n));
            && whole[..Min(size, |whole|)] == chunk
            && whole[Min(size, |whole|)..] == Take(Skip(ahead, Min(size, n)), n - |chunk|)
            && Skip(ahead, Min(size, n)) == Skip(ahead, |chunk|)
  {
  }

  lemma {:induction false} DrainFirst<S(!new), D(!new)>(c: Codec<S, D>, d: D, ahead: bytes, n: nat)
    requires Lawful(c) && c.dValid(d) && n > 0 && ahead != []
    ensures var chunk, rest := Take(ahead, Min(c.inSize, n)), Skip(ahead, Min(c.inSize, n));
            var run := DecompressChunk(c, d, chunk);
            DecompressFrom(c, d, Take(ahead, n)) ==
            if run.Broken? then run else After(run.out, DecompressFrom(c, run.state, Take(rest, n - |chunk|)))
  {
    hide Lawful, DecompressChunk, Take, Skip;
    TakeInTwo(ahead, n, c.inSize);
  }

  /** One round of the outer loop, as the specification sees it. */
  lemma OneDrain<S(!new), D(!new)>(c: Codec<S, D>, all: bytes, length: nat, sofar: bytes, d: D,
                                   ahead: bytes, n: nat)
    requires Lawful(c) && Draining(c, all, length, sofar, d, ahead, n) && n > 0 && ahead != []
    ensures var chunk, rest := Take(ahead, Min(c.inSize, n)), Skip(ahead, Min(c.inSize, n));
            var run := DecompressChunk(c, d, chunk);
            if run.Broken? then DecompressFrom(c, c.newD, Take(all, length)) == Broken(sofar + run.out)
            else Draining(c, all, length, sofar + run.out, run.state, rest, n - |chunk|)
  {
    hide Lawful, DecompressFrom, DecompressChunk, Take, Skip;
    var chunk, rest := Take(ahead, Min(c.inSize, n)), Skip(ahead, Min(c.inSize, n));
    TakeInTwo(ahead, n, c.inSize);
    SkipTwice(all, length - n, |chunk|);
    DrainFirst(c, d, ahead, n);
    var run := DecompressChunk(c, d, chunk);
    if run.Decoded? {
      AfterTwice(sofar, run.out, DecompressFrom(c, run.state, Take(rest, n - |chunk|)));
    }
  }

  lemma DrainingIsValid<S(!new), D(!new)>(c: Codec<S, D>, all: bytes, length: nat, sofar: bytes,
                                          d: D, ahead: bytes, n: nat)
    requires Lawful(c) && Draining(c, all, length, sofar, d, ahead, n)
    ensures c.dValid(d)
  {
  }

  /**
    zstd::decompress: reads no byte beyond the given length, and exactly that many if there are that many.
    The specification also says what it has written when it fails.
  */
  method Decompress<S(!new), D(!new)>(c: Codec<S, D>, output: OutStream, input: InStream, length: nat)
    returns (r: Result<nat>)
    requires Lawful(c) && input.Valid()
    modifies input, output
    ensures input.Valid() && input.pos <= old(input.pos) + length
    ensures var payload := Take(old(input.left), length);
            var run := DecompressFrom(c, c.newD, payload);
            && Wrote(old(output.before), old(output.beyond), output.before, output.beyond, run.out)
            && match run
               case Decoded(_, out) =>
                 && r == Ok(|out|) && input.pos == old(input.pos) + |payload|
                 && old(input.left) == payload + input.left
                 && input.failed == (old(input.failed) || |payload| < length)
               case Broken(_) => r == Err(DecompressionFailed)
  {
    hide Lawful, DecompressFrom, DecompressChunk, Draining, Skip, Take, Wrote;
    var d := c.newD;
    var totalRead: nat, total: nat := 0, 0;
    var leftToRead: nat := length;
    var size := Min(c.inSize, leftToRead);
    ghost var all, ahead: bytes, sofar: bytes := input.left, input.left, [];
    ghost var before, beyond, start, failed := output.before, output.beyond, input.pos, input.failed;
    WriteNothing(before, beyond);
    DrainingStarts(c, all, length);
    var chunk := input.Read(size);
    while |chunk| > 0
      invariant input.Valid() && totalRead <= length && leftToRead == length - totalRead
      invariant size == Min(c.inSize, leftToRead) && chunk == Take(ahead, size) && input.left == Skip(ahead, size)
      invariant input.pos == start + totalRead + |chunk| && input.failed == (failed || |chunk| < size)
      invariant total == |sofar| && Wrote(before, beyond, output.before, output.beyond, sofar)
      invariant Draining(c, all, length, sofar, d, ahead, leftToRead)
      decreases |ahead|
    {
      OneDrain(c, all, length, sofar, d, ahead, leftToRead);
      DrainingIsValid(c, all, length, sofar, d, ahead, leftToRead);
      ghost var piece, before0, beyond0 := DecompressChunk(c, d, chunk).out, output.before, output.beyond;
      var drained, written := DrainChunk(c, d, chunk, output);
      WroteBoth(before, beyond, before0, beyond0, output.before, output.beyond, sofar, piece);
      sofar, ahead := sofar + piece, input.left;
      if drained.Err? {
        return Err(drained.error);
      }
      totalRead := totalRead + |chunk|;
      leftToRead := length - totalRead;
      size := Min(c.inSize, leftToRead);
      d, total := drained.value, total + written;
      chunk := input.Read(size);
    }
    DrainingEnds(c, all, length, sofar, d, ahead, leftToRead);
    return Ok(total);
  }
}
