/** Unpacking an archive (src/client/ArchiveManager.cpp), for any bytes and for packed ones. */
module Unpack {
  import opened Bytes
  import opened Streams
  import opened Codec
  import opened Zstd
  import opened EntryInfo
  import opened FileTree

  /** What the unpack loop does to the disk, given the target directory and what is left of the archive. */
  ghost function UnpackFrom<S(!new), D(!new)>(c: Codec<S, D>, target: Path, disk: Disk, rest: bytes): Effect
    requires Lawful(c)
    decreases |rest|
  {
    if rest == [] then Effect(disk, None)
    else match ParseHeader(rest, 0, |rest|)
      case Err(e) => Effect(disk, Some(e))
      case Ok(h) =>
        var payload := Skip(rest, |HeaderBytes(h)|);
        var step := UnpackEntry(c, target, disk, h, payload);
        if step.error.Some? then step
        else UnpackFrom(c, target, step.disk, if h.isDirectory then payload else Skip(payload, h.compressedLength))
  }

  /** One entry: a directory is created, a file is opened and receives what its payload decompresses to. */
  ghost function UnpackEntry<S(!new), D(!new)>(c: Codec<S, D>, target: Path, disk: Disk, h: Header,
                                               payload: bytes): Effect
    requires Lawful(c)
  {
    if h.isDirectory then MakeDirs(disk, [], NamesFrom(target, h.path))
    else match FileAt(disk, target, h.path)
      case None => Effect(disk, Some(CannotOpenFile))
      case Some(file) =>
        var run := DecompressFrom(c, c.newD, Take(payload, h.compressedLength));
        Effect(disk[file := Data(run.out)], if run.Decoded? then None else Some(DecompressionFailed))
  }

  /** Parsing sees positions only through what remains. */
  lemma ParseShift(ahead: bytes, pos: nat)
    ensures ParseHeader(ahead, pos, pos + |ahead|) == ParseHeader(ahead, 0, |ahead|)
  {
  }

  method UnpackFile<S(!new), D(!new)>(c: Codec<S, D>, archive: InStream, fs: Filesystem, target: Path, h: Header)
    returns (error: Option<Error>)
    requires Lawful(c) && archive.Valid() && !archive.failed
    requires !h.isDirectory && h.compressedLength <= |archive.left|
    modifies archive, fs
    ensures Effect(fs.entries, error) == UnpackEntry(c, target, old(fs.entries), h, old(archive.left))
    ensures archive.Valid()
    ensures error.None? ==>
              && !archive.failed && archive.pos == old(archive.pos) + h.compressedLength
              && archive.left == Skip(old(archive.left), h.compressedLength)
    ensures archive.pos <= old(archive.pos) + h.compressedLength
  {
    NewSessions(c);
    hide Lawful, DecompressFrom, FileAt, Wrote;
    ghost var disk, left := fs.entries, archive.left;
    var file := fs.Open(target, h.path);
    if file.None? {
      return Some(CannotOpenFile);
    }
    var decompressed := new OutStream();
    PayloadThere(left, h.compressedLength);
    var r := Decompress(c, decompressed, archive, h.compressedLength);
    ghost var run := DecompressFrom(c, c.newD, Take(left, h.compressedLength));
    hide Take, Skip;
    WroteAll(decompressed.before, decompressed.beyond, run.out);
    fs.Store(file.value, decompressed.Contents());
    assert disk[file.value := Data([])][file.value := Data(run.out)] == disk[file.value := Data(run.out)];
    return if r.Err? then Some(r.error) else None;
  }

  lemma PayloadThere(left: bytes, n: nat)
    requires n <= |left|
    ensures |Take(left, n)| == n
    ensures forall rest {:trigger Take(left, n) + rest} :: left == Take(left, n) + rest ==> rest == Skip(left, n)
  {
  }

  lemma WroteAll(before: bytes, beyond: bytes, w: bytes)
    requires Wrote([], [], before, beyond, w)
    ensures before + beyond == w
  {
  }

  /** Where the unpack loop stands: what is left of the archive, with the disk as it is, gives the same in the end. */
  ghost predicate Unpacking<S(!new), D(!new)>(c: Codec<S, D>, target: Path, before: Disk, all: bytes,
                                              disk: Disk, left: bytes)
    requires Lawful(c)
  {
    UnpackFrom(c, target, before, all) == UnpackFrom(c, target, disk, left)
  }

  /** One round of the unpack loop, at position pos. */
  lemma UnpackingGoesOn<S(!new), D(!new)>(c: Codec<S, D>, target: Path, before: Disk, all: bytes, disk: Disk,
                                          left: bytes, pos: nat)
    requires Lawful(c) && Unpacking(c, target, before, all, disk, left) && left != [] && |left| < SIZE_MOD
    ensures var header := ParseHeader(left, pos, pos + |left|);
            if header.Err? then UnpackFrom(c, target, before, all) == Effect(disk, Some(header.error))
            else
              var payload := Skip(left, |HeaderBytes(header.value)|);
              var step := UnpackEntry(c, target, disk, header.value, payload);
              && HeaderBytes(header.value) + payload == left && header.value.compressedLength <= |payload|
              && if step.error.Some? then UnpackFrom(c, target, before, all) == step
                 else Unpacking(c, target, before, all, step.disk,
                                if header.value.isDirectory then payload
                                else Skip(payload, header.value.compressedLength))
  {
    ParseShift(left, pos);
    hide ParseHeader, UnpackEntry, Lawful;
    var header := ParseHeader(left, 0, |left|);
    if header.Ok? {
      var behind := HeaderAhead(header.value, left);
    }
    hide HeaderBytes, Skip;
  }

  lemma UnpackingEnds<S(!new), D(!new)>(c: Codec<S, D>, target: Path, before: Disk, all: bytes, disk: Disk)
    requires Lawful(c) && Unpacking(c, target, before, all, disk, [])
    ensures UnpackFrom(c, target, before, all) == Effect(disk, None)
  {
  }

  /**
    unpackArchive, on arbitrary bytes: it stops, either with an error or with the read position exactly at
    the end of the archive, and the position never passes the end on the way.
  */
  method UnpackArchive<S(!new), D(!new)>(c: Codec<S, D>, content: Option<bytes>, fs: Filesystem, target: Path)
    returns (error: Option<Error>, ghost stop: nat)
    requires Lawful(c) && (content.Some? ==> |content.value| < SIZE_MOD)
    modifies fs
    ensures var there := target == [] || target in old(fs.entries);
            && (!there ==> error == Some(DirectoryMissing) && fs.entries == old(fs.entries))
            && (there && content.None? ==> error == Some(ArchiveMissing) && fs.entries == old(fs.entries))
            && (there && content.Some? ==>
                  && Effect(fs.entries, error) == UnpackFrom(c, target, old(fs.entries), content.value)
                  && stop <= |content.value| && (error.None? ==> stop == |content.value|))
  {
    hide Lawful, HeaderBytes, Unpacking, UnpackFrom, UnpackEntry, ParseHeader, MakeDirs, NamesFrom;
    stop := 0;
    if target != [] && target !in fs.entries {
      return Some(DirectoryMissing), stop;
    }
    if content.None? {
      return Some(ArchiveMissing), stop;
    }
    var archive := new InStream(content.value);
    var size := |content.value|;
    ghost var before := fs.entries;
    assert Unpacking(c, target, before, content.value, before, archive.left) by {
      UnpackingStarts(c, target, before, content.value);
    }
    var remaining := RemainingBytes(archive, size);
    while remaining != Ok(0)
      invariant archive.Valid() && !archive.failed && archive.pos + |archive.left| == size && archive.pos == stop
      invariant remaining == Ok(|archive.left|)
      invariant Unpacking(c, target, before, content.value, fs.entries, archive.left)
      decreases |archive.left|
    {
      ghost var left := archive.left;
      UnpackingGoesOn(c, target, before, content.value, fs.entries, left, archive.pos);
      var info := ReadFromStream(archive, size);
      if info.Err? {
        return Some(info.error), stop;
      }
      stop := archive.pos;
      var h := info.value;
      TakeSkipConcat(HeaderBytes(h), archive.left);
      hide Skip;
      if h.isDirectory {
        DirectoryEntry(c, target, fs.entries, h, archive.left);
        error := fs.CreateDirectories(NamesFrom(target, h.path));
      } else {
        error := UnpackFile(c, archive, fs, target, h);
      }
      if error.Some? {
        return;
      }
      stop := archive.pos;
      remaining := RemainingBytes(archive, size);
    }
    UnpackingEnds(c, target, before, content.value, fs.entries);
    return None, stop;
  }

  lemma DirectoryEntry<S(!new), D(!new)>(c: Codec<S, D>, target: Path, disk: Disk, h: Header, payload: bytes)
    requires Lawful(c) && h.isDirectory
    ensures UnpackEntry(c, target, disk, h, payload) == MakeDirs(disk, [], NamesFrom(target, h.path))
  {
  }

  lemma UnpackingStarts<S(!new), D(!new)>(c: Codec<S, D>, target: Path, before: Disk, all: bytes)
    requires Lawful(c)
    ensures Unpacking(c, target, before, all, before, all)
  {
  }

  /** An entry as it stands in an archive. Nothing is skipped behind a directory's header. */
  datatype Piece = Piece(header: Header, payload: bytes)

  predicate WellFormed(p: Piece) {
    && |p.header.path| <= PATH_MAX_LEN && p.header.compressedLength < SIZE_MOD
    && |p.payload| == if p.header.isDirectory then 0 else p.header.compressedLength
  }

  function PiecesBytes(ps: seq<Piece>): (bs: bytes)
    ensures |bs| >= FIXED_SIZE * |ps|
  {
    if ps == [] then [] else HeaderBytes(ps[0].header) + (ps[0].payload + PiecesBytes(ps[1..]))
  }

  /**
    What unpacking one entry does. A file's is refused, and changes nothing, if its path opens no file;
    otherwise the file holds exactly what the codec produced for a beginning of the payload, for all of it
    if there is no error, in place of anything it held before. Nothing else changes.
  */
  lemma FileWritten<S(!new), D(!new)>(c: Codec<S, D>, target: Path, disk: Disk, h: Header, payload: bytes)
    returns (d: D)
    requires Lawful(c) && !h.isDirectory && h.compressedLength <= |payload|
    ensures var step := UnpackEntry(c, target, disk, h, payload);
            match FileAt(disk, target, h.path)
            case None => step == Effect(disk, Some(CannotOpenFile))
            case Some(file) =>
              && (forall q :: q != file ==> Lookup(step.disk, q) == Lookup(disk, q))
              && Lookup(step.disk, file) == Some(Data(c.produced(d)))
              && c.dValid(d) && c.eaten(d) <= payload[..h.compressedLength]
              && (step.error.None? ==> c.eaten(d) == payload[..h.compressedLength])
              && (step.error.Some? ==> step.error == Some(DecompressionFailed))
  {
    d := DecompressWrites(c, Take(payload, h.compressedLength));
    hide Lawful, FileAt, DecompressFrom;
    assert Take(payload, h.compressedLength) == payload[..h.compressedLength];
  }

  /**
    Entries are taken one after the other: unpacking a well-formed entry and what is behind it is unpacking
    the entry, and then the rest unless that failed.
  */
  lemma UnpackPiece<S(!new), D(!new)>(c: Codec<S, D>, target: Path, disk: Disk, p: Piece, rest: bytes)
    requires Lawful(c) && WellFormed(p) && p.header.compressedLength <= |p.payload + rest|
    requires |HeaderBytes(p.header) + (p.payload + rest)| < SIZE_MOD
    ensures var step := UnpackEntry(c, target, disk, p.header, p.payload + rest);
            UnpackFrom(c, target, disk, HeaderBytes(p.header) + (p.payload + rest)) ==
            if step.error.Some? then step else UnpackFrom(c, target, step.disk, rest)
  {
    var behind := p.payload + rest;
    var all := HeaderBytes(p.header) + behind;
    ParsePrinted(p.header, behind, 0, |all|);
    TakeSkipConcat(HeaderBytes(p.header), behind);
    TakeSkipConcat(p.payload, rest);
    hide Lawful, ParseHeader, HeaderBytes, UnpackEntry, Skip, Take;
    assert p.header.isDirectory ==> behind == rest;
  }

  /**
    Whatever bytes unpacking accepts are a sequence of well-formed entries and nothing else, printed byte
    for byte; each round of the loop took one of them, so there were at most a 17th as many rounds as bytes.
  */
  lemma {:induction false} AcceptedIsWellFormed<S(!new), D(!new)>(c: Codec<S, D>, target: Path, disk: Disk, rest: bytes)
    returns (ps: seq<Piece>)
    requires Lawful(c) && UnpackFrom(c, target, disk, rest).error.None? && |rest| < SIZE_MOD
    ensures PiecesBytes(ps) == rest && FIXED_SIZE * |ps| <= |rest|
    ensures forall p :: p in ps ==> WellFormed(p)
    decreases |rest|
  {
    if rest == [] {
      return [];
    }
    hide Lawful, UnpackEntry, Skip, Take, HeaderBytes, ParseHeader, PiecesBytes, WellFormed;
    var h := ParseHeader(rest, 0, |rest|).value;
    var behind := HeaderAhead(h, rest);
    var length := if h.isDirectory then 0 else h.compressedLength;
    TakeSkip(behind, length);
    SkipNone(behind);
    var disk' := UnpackEntry(c, target, disk, h, behind).disk;
    var more := AcceptedIsWellFormed(c, target, disk', Skip(behind, length));
    hide UnpackFrom;
    ps := [Piece(h, Take(behind, length))] + more;
    PieceFirst(Piece(h, Take(behind, length)), more);
  }

  lemma PieceFirst(p: Piece, more: seq<Piece>)
    requires |p.header.path| <= PATH_MAX_LEN && p.header.compressedLength < SIZE_MOD
    requires |p.payload| == if p.header.isDirectory then 0 else p.header.compressedLength
    ensures PiecesBytes([p] + more) == HeaderBytes(p.header) + (p.payload + PiecesBytes(more))
    ensures WellFormed(p)
    ensures forall q :: q in [p] + more ==> q == p || q in more
  {
    assert ([p] + more)[1..] == more;
  }

  lemma HeaderAhead(h: Header, ahead: bytes) returns (behind: bytes)
    requires ParseHeader(ahead, 0, |ahead|) == Ok(h) && |ahead| < SIZE_MOD
    ensures ahead == HeaderBytes(h) + behind && behind == Skip(ahead, |HeaderBytes(h)|)
    ensures |h.path| <= PATH_MAX_LEN && h.compressedLength < SIZE_MOD && h.compressedLength <= |behind|
  {
    hide ParseHeader, HeaderBytes;
    ParseIsInverse(h, ahead, 0, |ahead|);
    behind := ahead[|HeaderBytes(h)|..];
  }

  lemma SkipNone(data: bytes)
    ensures Skip(data, 0) == data
  {
  }
}
