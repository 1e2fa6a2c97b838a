/** The file hash and its comparison (src/Utils.cpp, src/client/DropFileReceiveClient.cpp). */
module Digest {
  import opened Bytes
  import opened Streams

  const HASH_BUFFER_SIZE: nat := 8192

  /** A digest that is fed piece by piece: EVP_DigestInit_ex, EVP_DigestUpdate and EVP_DigestFinal_ex. */
  datatype Digest<!C> = Digest(init: C, update: (C, bytes) -> C, final: C -> bytes)

  /** Feeding two pieces is feeding them as one, and an empty piece changes nothing. */
  ghost predicate Incremental<C(!new)>(d: Digest<C>) {
    && (forall c, a, b :: d.update(d.update(c, a), b) == d.update(c, a + b))
    && (forall c :: d.update(c, []) == c)
  }

  /** The digest of a whole content at once. */
  function Whole<C>(d: Digest<C>, content: bytes): bytes {
    d.final(d.update(d.init, content))
  }

  /** The digest after several pieces, fed one after the other. */
  function Feed<C>(d: Digest<C>, c: C, pieces: seq<bytes>): C
    decreases |pieces|
  {
    if pieces == [] then c else Feed(d, d.update(c, pieces[0]), pieces[1..])
  }

  lemma {:induction false} FeedIsOneUpdate<C(!new)>(d: Digest<C>, c: C, pieces: seq<bytes>)
    requires Incremental(d)
    ensures Feed(d, c, pieces) == d.update(c, Concat(pieces))
    decreases |pieces|
  {
    if pieces != [] {
      FeedIsOneUpdate(d, d.update(c, pieces[0]), pieces[1..]);
    }
  }

  /** However a content is cut into pieces, its digest is what feeding them in order ends with. */
  lemma WholeIsFed<C(!new)>(d: Digest<C>, pieces: seq<bytes>)
    requires Incremental(d)
    ensures Whole(d, Concat(pieces)) == d.final(Feed(d, d.init, pieces))
  {
    FeedIsOneUpdate(d, d.init, pieces);
  }

  function HexDigit(n: nat): (c: char)
    requires n < 16
  {
    if n < 10 then '0' + n as char else 'a' + (n - 10) as char
  }

  /** Two hexadecimal digits for each byte. */
  function Hex(data: bytes): (s: string)
    ensures |s| == 2 * |data|
  {
    if data == [] then [] else [HexDigit(data[0] / 16), HexDigit(data[0] % 16)] + Hex(data[1..])
  }

  lemma HexSnoc(data: bytes, b: byte)
    ensures Hex(data + [b]) == Hex(data) + [HexDigit(b / 16), HexDigit(b % 16)]
  {
    if data == [] {
      assert Hex([b]) == [HexDigit(b / 16), HexDigit(b % 16)] + Hex([]);
    } else {
      HexSnoc(data[1..], b);
      assert (data + [b])[1..] == data[1..] + [b];
    }
  }

  /** The worth of a character as a hexadecimal digit: '0' to '9', then 'a' to 'f', in lower case only. */
  function HexValue(c: char): Option<nat> {
    var v := c as int;
    if 48 <= v <= 57 then Some(v - 48) else if 97 <= v <= 102 then Some(v - 87) else None
  }

  /** Reading two digits at a time, the first of them worth sixteen times as much. */
  function ReadHex(s: string): Option<seq<int>> {
    if s == [] then Some([])
    else if |s| == 1 then None
    else match (HexValue(s[0]), HexValue(s[1]), ReadHex(s[2..]))
      case (Some(hi), Some(lo), Some(rest)) => Some([16 * hi + lo] + rest)
      case _ => None
  }

  /** The hexadecimal form of a byte string is read back as these bytes. */
  lemma {:induction false} HexReads(data: bytes)
    ensures ReadHex(Hex(data)) == Some(data)
  {
    if data != [] {
      HexReads(data[1..]);
      assert Hex(data)[2..] == Hex(data[1..]);
      assert [16 * (data[0] / 16) + data[0] % 16] + data[1..] == data;
    }
  }

  /** Different byte strings, of whatever lengths, have different hexadecimal forms. */
  lemma HexInjective(a: bytes, b: bytes)
    requires Hex(a) == Hex(b)
    ensures a == b
  {
    HexReads(a);
    HexReads(b);
  }

  method BinaryToHumanReadable(data: bytes) returns (s: string)
    ensures s == Hex(data)
  {
    s := [];
    for i := 0 to |data|
      invariant s == Hex(data[..i])
    {
      HexSnoc(data[..i], data[i]);
      assert data[..i + 1] == data[..i] + [data[i]];
      s := s + [HexDigit(data[i] / 16), HexDigit(data[i] % 16)];
    }
    assert data[..|data|] == data;
  }

  /** calculateFileHash: reads until a read comes up short; there is no content if the file cannot be opened. */
  method CalculateFileHash<C(!new)>(d: Digest<C>, content: Option<bytes>) returns (r: Result<string>)
    requires Incremental(d)
    ensures match content
            case None => r == Err(CannotOpenFile)
            case Some(data) => r == Ok(Hex(Whole(d, data)))
    ensures content.Some? ==>
              forall pieces {:trigger Feed(d, d.init, pieces)} ::
                Concat(pieces) == content.value ==> r == Ok(Hex(d.final(Feed(d, d.init, pieces))))
  {
    if content.None? {
      return Err(CannotOpenFile);
    }
    var context := d.init;
    var file := new InStream(content.value);
    ghost var fed: bytes := [];
    while !file.failed
      invariant file.Valid() && fed + file.left == content.value && context == d.update(d.init, fed)
      invariant fresh(file)
      decreases |file.left|, !file.failed
    {
      var got := file.Read(HASH_BUFFER_SIZE);
      if |got| > 0 {
        context := d.update(context, got);
      }
      Associative(fed, got, file.left);
      assert got == [] ==> fed + got == fed;
      fed := fed + got;
    }
    forall pieces | Concat(pieces) == content.value ensures d.update(d.init, fed) == Feed(d, d.init, pieces) {
      FeedIsOneUpdate(d, d.init, pieces);
      assert fed + [] == fed;
    }
    var s := BinaryToHumanReadable(d.final(context));
    return Ok(s);
  }

  /** validateFileHash. */
  method ValidateFileHash<C(!new)>(d: Digest<C>, content: Option<bytes>, expectedHash: string)
    returns (error: Option<Error>)
    requires Incremental(d)
    ensures content.None? ==> error == Some(CannotOpenFile)
    ensures content.Some? ==> error == if Hex(Whole(d, content.value)) == expectedHash then None else Some(HashMismatch)
  {
    var actual := CalculateFileHash(d, content);
    match actual {
      case Err(e) => return Some(e);
      case Ok(hash) => return if hash != expectedHash then Some(HashMismatch) else None;
    }
  }

  /** The receiver accepts a file exactly when its digest is that of the file the sender announced. */
  lemma HashCheckExactly<C(!new)>(d: Digest<C>, sent: bytes, received: bytes)
    ensures Hex(Whole(d, received)) == Hex(Whole(d, sent)) <==> Whole(d, received) == Whole(d, sent)
  {
    if Hex(Whole(d, received)) == Hex(Whole(d, sent)) {
      HexInjective(Whole(d, received), Whole(d, sent));
    }
  }

  /** There are incremental digests: one that keeps the last 32 bytes of its input, with zeros before it. */
  function LastBytes(): Digest<bytes> {
    Digest(seq(32, i => 0), (c: bytes, piece: bytes) => Skip(c + piece, |piece|), (c: bytes) => c)
  }

  lemma LastBytesIsIncremental()
    ensures Incremental(LastBytes())
  {
    var d := LastBytes();
    forall c: bytes, a: bytes, b: bytes ensures d.update(d.update(c, a), b) == d.update(c, a + b) {
      var once := Skip(c + a, |a|) + b;
      assert c + (a + b) == c + a + b;
      assert once == Skip(c + (a + b), |a|);
      SkipTwice(c + (a + b), |a|, |b|);
    }
    forall c: bytes ensures d.update(c, []) == c {
      assert c + [] == c;
    }
  }

  /** That digest tells apart any two different contents of one length of at most 32 bytes. */
  lemma LastBytesTellsApart(a: bytes, b: bytes)
    requires |a| == |b| <= 32 && a != b
    ensures Whole(LastBytes(), a) != Whole(LastBytes(), b)
    ensures Hex(Whole(LastBytes(), a)) != Hex(Whole(LastBytes(), b))
  {
    EndsWith(a);
    EndsWith(b);
    if Hex(Whole(LastBytes(), a)) == Hex(Whole(LastBytes(), b)) {
      HexInjective(Whole(LastBytes(), a), Whole(LastBytes(), b));
    }
  }

  lemma EndsWith(a: bytes)
    requires |a| <= 32
    ensures var w := Whole(LastBytes(), a);
            |w| == 32 && w[32 - |a|..] == a
  {
    var zeros: bytes := seq(32, i => 0);
    assert LastBytes().init == zeros;
    assert (zeros + a)[|a|..] == zeros[|a|..] + a;
  }
}
