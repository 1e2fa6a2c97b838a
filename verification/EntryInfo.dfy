/** Entry headers of the archive (src/client/FSEntryInfo.cpp): printing, parsing, patching the length. */
module EntryInfo {
  import opened Bytes
  import opened Streams

  const PATH_MAX_LEN: nat := 4096

  /** Kind, path and payload length of one archive entry; the length is 0 until it is patched in. */
  datatype Header = Header(isDirectory: bool, path: bytes, compressedLength: nat)

  /** The fixed bytes of a header: one for the kind, eight for each of the two lengths. */
  const FIXED_SIZE: nat := 17

  function HeaderBytes(h: Header): (bs: bytes)
    ensures |bs| == FIXED_SIZE + |h.path|
  {
    [if h.isDirectory then 1 else 0] + Size(|h.path|) + h.path + Size(h.compressedLength)
  }

  /** Where the fields of a header stand: the kind, eight bytes of path length, the path, eight of payload length. */
  lemma HeaderLayout(h: Header)
    requires |h.path| < SIZE_MOD && h.compressedLength < SIZE_MOD
    ensures var bs, n := HeaderBytes(h), |h.path|;
            && |bs| == n + 17 && bs[0] == (if h.isDirectory then 1 else 0) && FromLittleEndian(bs[1..9]) == n
            && bs[9..n + 9] == h.path && FromLittleEndian(bs[n + 9..]) == h.compressedLength
  {
    hide FromLittleEndian, Size;
    var bs, n := HeaderBytes(h), |h.path|;
    SizeInverse(n, Size(n));
    SizeInverse(h.compressedLength, Size(n));
    assert bs[1..9] == Size(n) && bs[9..n + 9] == h.path && bs[n + 9..] == Size(h.compressedLength);
  }

  /** Where in the header the payload length stands. */
  function LengthOffset(h: Header): nat {
    9 + |h.path|
  }

  /** The bytes left behind position pos in a stream of the given total size, in size_t arithmetic. */
  function Remaining(total: nat, pos: nat): (r: nat)
    ensures pos <= total < SIZE_MOD ==> r == total - pos
    ensures total < pos < total + SIZE_MOD ==> r == total + SIZE_MOD - pos
  {
    (total - pos) % SIZE_MOD
  }

  /** What readFromStream makes of the bytes ahead, at position pos of a stream said to be `total` long. */
  function ParseHeader(ahead: bytes, pos: nat, total: nat): Result<Header> {
    var (kind, afterKind) := (Take(ahead, 1), Skip(ahead, 1));
    if |kind| < 1 then Err(KindMissing)
    else if kind[0] > 1 then Err(KindInvalid)
    else
      var (pathSize, afterPathSize) := (Take(afterKind, 8), Skip(afterKind, 8));
      if |pathSize| < 8 then Err(PathLengthMissing)
      else
        var n := FromLittleEndian(pathSize);
        if n > PATH_MAX_LEN then Err(PathTooLong)
        else
          var (path, afterPath) := (Take(afterPathSize, n), Skip(afterPathSize, n));
          if |path| < n then Err(PathIncomplete)
          else if |Take(afterPath, 8)| < 8 then Err(CompressedLengthMissing)
          else
            var length := FromLittleEndian(Take(afterPath, 8));
            if length > Remaining(total, pos + FIXED_SIZE + n) then Err(EntryTooLarge)
            else Ok(Header(kind[0] == 1, path, length))
  }

  /**
    Printing and parsing undo each other, both ways: parsing yields a header exactly when the bytes ahead
    begin with the printed header, its path is short enough and its payload fits into what remains.
  */
  lemma ParseIsInverse(h: Header, ahead: bytes, pos: nat, total: nat)
    ensures ParseHeader(ahead, pos, total) == Ok(h) <==>
            && HeaderBytes(h) <= ahead && |h.path| <= PATH_MAX_LEN && h.compressedLength < SIZE_MOD
            && h.compressedLength <= Remaining(total, pos + FIXED_SIZE + |h.path|)
  {
    if HeaderBytes(h) <= ahead && |h.path| <= PATH_MAX_LEN && h.compressedLength < SIZE_MOD {
      ParsePrinted(h, ahead[|HeaderBytes(h)|..], pos, total);
      assert ahead == HeaderBytes(h) + ahead[|HeaderBytes(h)|..];
    }
    if ParseHeader(ahead, pos, total) == Ok(h) {
      PrintParsed(h, ahead, pos, total);
      var rest :| ahead == HeaderBytes(h) + rest;
    }
  }

  /** Which error a read ends with, by how many bytes there are and what stands at which place. */
  lemma ParseErrors(ahead: bytes, pos: nat, total: nat)
    ensures var r := ParseHeader(ahead, pos, total);
            && (r == Err(KindMissing) <==> ahead == [])
            && (r == Err(KindInvalid) <==> |ahead| > 0 && ahead[0] > 1)
            && (r == Err(PathLengthMissing) <==> 0 < |ahead| < 9 && ahead[0] <= 1)
            && (r == Err(PathTooLong) <==> |ahead| >= 9 && ahead[0] <= 1 && FromLittleEndian(ahead[1..9]) > 4096)
            && (|ahead| >= 9 && ahead[0] <= 1 && FromLittleEndian(ahead[1..9]) <= 4096 ==>
                  var n := FromLittleEndian(ahead[1..9]);
                  && (r == Err(PathIncomplete) <==> |ahead| < n + 9)
                  && (r == Err(CompressedLengthMissing) <==> n + 9 <= |ahead| < n + 17)
                  && (|ahead| >= n + 17 ==>
                        var length := FromLittleEndian(ahead[n + 9..n + 17]);
                        r == if length > Remaining(total, pos + n + 17) then Err(EntryTooLarge)
                             else Ok(Header(ahead[0] == 1, ahead[9..n + 9], length))))
  {
    hide FromLittleEndian, Remaining;
    if |ahead| >= 9 {
      assert Take(Skip(ahead, 1), 8) == ahead[1..9] && Skip(Skip(ahead, 1), 8) == ahead[9..];
      var n := FromLittleEndian(ahead[1..9]);
      if |ahead| >= n + 9 {
        assert Take(ahead[9..], n) == ahead[9..n + 9] && Skip(ahead[9..], n) == ahead[n + 9..];
        if |ahead| >= n + 17 {
          assert Take(ahead[n + 9..], 8) == ahead[n + 9..n + 17];
        }
      }
    }
  }

  lemma ParsePrinted(h: Header, rest: bytes, pos: nat, total: nat)
    requires |h.path| <= PATH_MAX_LEN && h.compressedLength < SIZE_MOD
    ensures ParseHeader(HeaderBytes(h) + rest, pos, total) ==
            if h.compressedLength > Remaining(total, pos + FIXED_SIZE + |h.path|) then Err(EntryTooLarge) else Ok(h)
  {
    hide Take, Skip, FromLittleEndian, Size;
    var kind: bytes := [if h.isDirectory then 1 else 0];
    var pathSize, length := Size(|h.path|), Size(h.compressedLength);
    Regroup(kind, pathSize, h.path, length, rest);
    TakeSkipConcat(kind, pathSize + (h.path + (length + rest)));
    TakeSkipConcat(pathSize, h.path + (length + rest));
    TakeSkipConcat(h.path, length + rest);
    TakeSkipConcat(length, rest);
    SizeInverse(|h.path|, pathSize);
    SizeInverse(h.compressedLength, length);
  }

  lemma PrintParsed(h: Header, ahead: bytes, pos: nat, total: nat)
    requires ParseHeader(ahead, pos, total) == Ok(h)
    ensures |h.path| <= PATH_MAX_LEN && h.compressedLength < SIZE_MOD
    ensures exists rest :: ahead == HeaderBytes(h) + rest
  {
    hide Take, Skip, HeaderBytes, FromLittleEndian;
    var kind, afterKind := Take(ahead, 1), Skip(ahead, 1);
    var pathSize, afterPathSize := Take(afterKind, 8), Skip(afterKind, 8);
    var path, afterPath := Take(afterPathSize, |h.path|), Skip(afterPathSize, |h.path|);
    var length, rest := Take(afterPath, 8), Skip(afterPath, 8);
    TakeSkip(ahead, 1);
    TakeSkip(afterKind, 8);
    TakeSkip(afterPathSize, |h.path|);
    TakeSkip(afterPath, 8);
    SizeInverse(0, length);
    HeaderMade(kind, pathSize, path, length, rest);
    assert ahead == HeaderBytes(h) + rest;
  }

  /** Four fields that were read are the printed header they make. */
  lemma HeaderMade(kind: bytes, pathSize: bytes, path: bytes, length: bytes, rest: bytes)
    requires |kind| == 1 && kind[0] <= 1 && |pathSize| == 8 && |length| == 8 && |path| == FromLittleEndian(pathSize)
    ensures kind + (pathSize + (path + (length + rest))) ==
            HeaderBytes(Header(kind[0] == 1, path, FromLittleEndian(length))) + rest
  {
    hide FromLittleEndian, Size;
    SizeInverse(0, pathSize);
    SizeInverse(0, length);
    assert kind == [if kind[0] == 1 then 1 else 0];
    Regroup(kind, pathSize, path, length, rest);
  }

  lemma Regroup(a: bytes, b: bytes, c: bytes, d: bytes, e: bytes)
    ensures a + (b + (c + (d + e))) == a + b + c + d + e
  {
  }

  /** The constructor: refuses paths longer than the format allows. */
  function NewEntry(isDirectory: bool, path: bytes): Result<Header> {
    if |path| > PATH_MAX_LEN then Err(PathTooLong) else Ok(Header(isDirectory, path, 0))
  }

  /** getRemainingBytes: the position of a failed stream is unknown. */
  method RemainingBytes(stream: InStream, total: nat) returns (r: Result<nat>)
    ensures r == if stream.failed then Err(PositionUnknown) else Ok(Remaining(total, stream.pos))
  {
    if stream.failed {
      return Err(PositionUnknown);
    }
    return Ok((total - stream.pos) % SIZE_MOD);
  }

  /** FSEntryInfo::readFromStream. On success the stream stands at the payload. */
  method ReadFromStream(stream: InStream, total: nat) returns (r: Result<Header>)
    requires stream.Valid()
    modifies stream
    ensures stream.Valid()
    ensures r == ParseHeader(old(stream.left), old(stream.pos), total)
    ensures r.Ok? ==>
              && old(stream.left) == HeaderBytes(r.value) + stream.left
              && stream.pos == old(stream.pos) + |HeaderBytes(r.value)| && stream.failed == old(stream.failed)
  {
    hide Take, Skip, HeaderBytes, FromLittleEndian, Remaining;
    var kind := stream.Read(1);
    if |kind| != 1 {
      return Err(KindMissing);
    }
    if kind[0] > 1 {
      return Err(KindInvalid);
    }
    var sizeField := stream.Read(8);
    if |sizeField| != 8 {
      return Err(PathLengthMissing);
    }
    var pathLength := FromLittleEndian(sizeField);
    if pathLength > PATH_MAX_LEN {
      return Err(PathTooLong);
    }
    var path := stream.Read(pathLength);
    if |path| != pathLength {
      return Err(PathIncomplete);
    }
    var lengthField := stream.Read(8);
    if |lengthField| != 8 {
      return Err(CompressedLengthMissing);
    }
    var length := FromLittleEndian(lengthField);
    var left := RemainingBytes(stream, total);
    if left.Err? {
      assert false;
    }
    if length > left.value {
      return Err(EntryTooLarge);
    }
    HeaderMade(kind, sizeField, path, lengthField, stream.left);
    return Ok(Header(kind[0] == 1, path, length));
  }

  /** FSEntryInfo::writeToStream: returns the position at which the payload length was written. */
  method WriteToStream(h: Header, stream: OutStream) returns (r: Result<nat>)
    modifies stream
    ensures |h.path| <= PATH_MAX_LEN ==>
              && r == Ok(|old(stream.before)| + LengthOffset(h))
              && stream.before == old(stream.before) + HeaderBytes(h)
              && stream.beyond == Skip(old(stream.beyond), |HeaderBytes(h)|)
    ensures |h.path| > PATH_MAX_LEN ==>
              && r == Err(PathTooLong) && stream.before == old(stream.before) + [if h.isDirectory then 1 else 0]
              && stream.beyond == Skip(old(stream.beyond), 1)
  {
    ghost var before, beyond := stream.before, stream.beyond;
    var kind: bytes := [if h.isDirectory then 1 else 0];
    stream.Write(kind);
    if |h.path| > PATH_MAX_LEN {
      return Err(PathTooLong);
    }
    stream.Write(Size(|h.path|));
    WriteTwice(before, beyond, kind, Size(|h.path|));
    stream.Write(h.path);
    WriteTwice(before, beyond, kind + Size(|h.path|), h.path);
    var position := |stream.before|;
    stream.Write(Size(h.compressedLength));
    WriteTwice(before, beyond, kind + Size(|h.path|) + h.path, Size(h.compressedLength));
    return Ok(position);
  }

  /** FSEntryInfo::writeCompressedLength: seek back, overwrite, seek to the end. */
  method WriteCompressedLength(stream: OutStream, position: nat, written: nat)
    requires position <= |stream.Contents()|
    modifies stream
    ensures stream.beyond == []
    ensures var was := old(stream.Contents());
            stream.before == was[..position] + Size(written) + Skip(was[position..], 8)
  {
    stream.SeekTo(position);
    assert stream.Contents()[..position] == stream.before && stream.Contents()[position..] == stream.beyond;
    stream.Write(Size(written));
    stream.SeekEnd();
  }

  /** Patching changes the eight length bytes of its own entry and nothing else. */
  lemma PatchIsOnePass(base: bytes, h: Header, payload: bytes)
    ensures var unpatched := base + HeaderBytes(h.(compressedLength := 0)) + payload;
            var position := |base| + LengthOffset(h);
            unpatched[..position] + Size(|payload|) + Skip(unpatched[position..], 8) ==
            base + HeaderBytes(h.(compressedLength := |payload|)) + payload
  {
    var head: bytes := [if h.isDirectory then 1 else 0] + Size(|h.path|) + h.path;
    assert HeaderBytes(h.(compressedLength := 0)) == head + Size(0) && |head| == LengthOffset(h);
    assert HeaderBytes(h.(compressedLength := |payload|)) == head + Size(|payload|);
    hide HeaderBytes, Size;
    Replaced(base, head, Size(0), payload, Size(|payload|));
  }

  lemma Replaced(base: bytes, head: bytes, was: bytes, payload: bytes, now: bytes)
    requires |was| == 8
    ensures var before, at := base + (head + was) + payload, |base| + |head|;
            before[..at] + now + Skip(before[at..], 8) == base + (head + now) + payload
  {
    var before, at := base + (head + was) + payload, |base| + |head|;
    assert before == (base + head) + (was + payload);
    assert before[..at] == base + head && before[at..] == was + payload;
    assert Skip(was + payload, 8) == payload;
  }
}
