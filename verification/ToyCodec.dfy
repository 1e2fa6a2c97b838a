/**
  A codec that keeps the contract: it holds everything back until the end directive and then puts it out
  as it came. It shows that the contract can be met, and it is the codec with which files get lost.
*/
module ToyCodec {
  import opened Bytes
  import opened Codec
  import opened Zstd

  datatype Session = Session(fed: bytes, emitted: bytes, phase: Phase)

  function Store(outSize: nat): (Session, bytes, Directive) -> CompressStep<Session> {
    (s: Session, input: bytes, dir: Directive) =>
      var fed := s.fed + input;
      if dir == Continue || |s.emitted| > |fed| then
        Compressed(Session(fed, s.emitted, Open), |input|, [], 0)
      else
        var k := Min(outSize, |fed| - |s.emitted|);
        var out := fed[|s.emitted|..|s.emitted| + k];
        var remaining: nat := |fed| - |s.emitted| - k;
        Compressed(Session(fed, s.emitted + out, if remaining == 0 then Ended else Ending), |input|, out, remaining)
  }

  function Echo(outSize: nat): (bytes, bytes) -> DecompressStep<bytes> {
    (d: bytes, input: bytes) =>
      var k := Min(outSize, |input|);
      Decompressed(d + input[..k], k, input[..k])
  }

  function Toy(inSize: nat, outSize: nat, blockSize: nat): Codec<Session, bytes> {
    Codec(inSize, outSize, blockSize,
          Session([], [], Open), Store(outSize), [], Echo(outSize),
          (s: Session) =>
            s.emitted <= s.fed && (s.phase == Open ==> s.emitted == []) && (s.phase == Ended ==> s.emitted == s.fed),
          (s: Session) => s.fed, (s: Session) => s.emitted, (s: Session) => s.phase,
          (s: Session, n: nat) => if |s.emitted| <= |s.fed| then n + |s.fed| - |s.emitted| else n,
          (d: bytes) => true, (d: bytes) => d, (d: bytes) => d, (d: bytes, n: nat) => n)
  }

  lemma {:induction false} ToyCompresses(inSize: nat, outSize: nat, blockSize: nat, s: Session, input: bytes,
                                         dir: Directive)
    requires outSize > 0
    requires var c := Toy(inSize, outSize, blockSize);
             c.cValid(s) && (s.phase == Open || (s.phase == Ending && dir == End))
    ensures var c := Toy(inSize, outSize, blockSize);
            var r := c.compress(s, input, dir);
            r.Compressed? && r.consumed == |input| && CompressStepOk(c, s, input, dir, r)
  {
    var fed := s.fed + input;
    assert fed[..|s.emitted|] == s.emitted && input[..|input|] == input;
    var r := Store(outSize)(s, input, dir);
    if dir == End {
      assert s.emitted + r.out == fed[..|s.emitted| + |r.out|];
    } else {
      assert s.emitted + [] == s.emitted;
    }
  }

  lemma {:induction false} ToyKeepsCompressLaw(inSize: nat, outSize: nat, blockSize: nat)
    requires outSize > 0
    ensures CompressLaw(Toy(inSize, outSize, blockSize)) && NeverFails(Toy(inSize, outSize, blockSize))
  {
    var c := Toy(inSize, outSize, blockSize);
    forall s, input, dir | Accepts(c, s, dir)
      ensures c.compress(s, input, dir).Compressed? && c.compress(s, input, dir).consumed == |input|
      ensures CompressStepOk(c, s, input, dir, c.compress(s, input, dir))
    {
      ToyCompresses(inSize, outSize, blockSize, s, input, dir);
    }
    hide CompressStepOk, Store;
  }

  lemma {:induction false} ToyKeepsDecompressLaw(inSize: nat, outSize: nat, blockSize: nat)
    requires outSize > 0
    ensures DecompressLaw(Toy(inSize, outSize, blockSize))
  {
  }

  lemma {:induction false} ToyInverts(inSize: nat, outSize: nat, blockSize: nat)
    requires blockSize > 0
    ensures InverseLaw(Toy(inSize, outSize, blockSize))
  {
    var c := Toy(inSize, outSize, blockSize);
    forall s, d ensures Inverse(c, s, d) {
      if c.cValid(s) && c.eaten(d) <= c.emitted(s) {
        assert d <= s.emitted <= s.fed;
      }
    }
  }

  lemma {:induction false} ToyIsLawful(inSize: nat, outSize: nat, blockSize: nat)
    requires inSize > 0 && outSize > 0 && blockSize > 0
    ensures Lawful(Toy(inSize, outSize, blockSize)) && NeverFails(Toy(inSize, outSize, blockSize))
  {
    hide CompressLaw, DecompressLaw, InverseLaw, NeverFails;
    ToyKeepsCompressLaw(inSize, outSize, blockSize);
    ToyKeepsDecompressLaw(inSize, outSize, blockSize);
    ToyInverts(inSize, outSize, blockSize);
  }

  /**
    A file survives compression and decompression with every codec that keeps the contract if and only if
    its length is zero or no multiple of the read buffer.
  */
  lemma RoundTripExactly(content: bytes, inSize: nat)
    requires inSize > 0
    ensures (forall c: Codec<Session, bytes> {:trigger Lawful(c)} |
               c.inSize == inSize && Lawful(c) && CompressedForm(c, content).Run? ::
               Recovered(c, content) == content)
            <==> Closes(|content|, inSize)
  {
    if Closes(|content|, inSize) {
      forall c: Codec<Session, bytes> | c.inSize == inSize && Lawful(c) && CompressedForm(c, content).Run?
        ensures Recovered(c, content) == content
      {
        RecoveredContent(c, content);
      }
    } else {
      var c := Toy(inSize, 1, |content| + 1);
      ToyIsLawful(inSize, 1, |content| + 1);
      hide Lawful, NeverFails;
      ContentCompresses(c, c.newC, content);
      RecoveredContent(c, content);
      SmallMod(|content|, |content| + 1);
    }
  }

  lemma SmallMod(n: nat, r: nat)
    requires n < r
    ensures n % r == n
  {
  }
}
