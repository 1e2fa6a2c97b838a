/** The C++ file streams the archive code works on: a byte buffer and a position. */
module Streams {
  import opened Bytes

  /** The first n bytes, or all of them if there are fewer. */
  function Take(data: bytes, n: nat): (r: bytes)
    ensures |r| == Min(n, |data|)
  {
    data[..Min(n, |data|)]
  }

  /** What is left of a sequence when its first n bytes are taken away, or as many as there are. */
  function Skip(data: bytes, n: nat): (r: bytes)
    ensures |r| == |data| - Min(n, |data|)
  {
    data[Min(n, |data|)..]
  }

  lemma TakeSkip(data: bytes, n: nat)
    ensures Take(data, n) + Skip(data, n) == data
  {
  }

  lemma TakeSkipConcat(a: bytes, b: bytes)
    ensures Take(a + b, |a|) == a && Skip(a + b, |a|) == b
  {
  }

  lemma SkipTwice(data: bytes, a: nat, b: nat)
    requires a <= |data|
    ensures Skip(Skip(data, a), b) == Skip(data, a + b)
  {
  }

  /** Two writes in a row are one write of both. */
  lemma WriteTwice(before: bytes, beyond: bytes, a: bytes, b: bytes)
    ensures before + a + b == before + (a + b)
    ensures Skip(Skip(beyond, |a|), |b|) == Skip(beyond, |a + b|)
  {
  }

  /** What writing w at the end of `before` leaves, on both sides of the put position. */
  ghost predicate Wrote(before: bytes, beyond: bytes, before': bytes, beyond': bytes, w: bytes) {
    before' == before + w && beyond' == Skip(beyond, |w|)
  }

  /**
    An output file as the two parts its put position cuts it into. The position is |before|; a write goes
    behind `before` and replaces as much of `beyond` as it covers.
  */
  class OutStream {
    var before: bytes
    var beyond: bytes

    function Contents(): bytes
      reads this
    {
      before + beyond
    }

    constructor ()
      ensures before == [] && beyond == []
    {
      before, beyond := [], [];
    }

    method Write(written: bytes)
      modifies this
      ensures before == old(before) + written && beyond == Skip(old(beyond), |written|)
    {
      before, beyond := before + written, Skip(beyond, |written|);
    }

    method SeekTo(p: nat)
      requires p <= |Contents()|
      modifies this
      ensures Contents() == old(Contents()) && |before| == p
    {
      var all := before + beyond;
      before, beyond := all[..p], all[p..];
    }

    method SeekEnd()
      modifies this
      ensures before == old(Contents()) && beyond == []
    {
      before, beyond := before + beyond, [];
    }
  }

  /**
    An input file: how far it has been read, and what is left. A read that comes up short sets `failed`,
    after which nothing can be read and the position is unknown.
  */
  class InStream {
    var pos: nat
    var left: bytes
    var failed: bool

    ghost predicate Valid()
      reads this
    {
      failed ==> left == []
    }

    constructor (content: bytes)
      ensures Valid() && left == content && pos == 0 && !failed
    {
      pos, left, failed := 0, content, false;
    }

    method Read(n: nat) returns (got: bytes)
      requires Valid()
      modifies this
      ensures Valid()
      ensures got == Take(old(left), n) && left == Skip(old(left), n) && old(left) == got + left
      ensures failed == (old(failed) || |got| < n)
      ensures pos == old(pos) + |got|
    {
      got := Take(left, n);
      TakeSkip(left, n);
      pos, left, failed := pos + |got|, Skip(left, n), failed || |got| < n;
    }

    /** readsome: what happens to be available, which is nothing only at the end. */
    method ReadSome(n: nat) returns (got: bytes)
      requires n > 0 && Valid()
      modifies this
      ensures Valid() && failed == old(failed)
      ensures old(left) == got + left && |got| <= n && (got == [] <==> old(left) == [])
    {
      got := [];
      if left != [] {
        var k :| 1 <= k <= n && k <= |left|;
        got := left[..k];
        pos, left := pos + k, left[k..];
      }
    }
  }
}
