/** Packing a directory into an archive (src/client/ArchiveManager.cpp). */
module Archive {
  import opened Bytes
  import opened Streams
  import opened Codec
  import opened Zstd
  import opened EntryInfo
  import opened FileTree

  // ---------------------------------------------------------------------------------------------------
  // What packing writes

  datatype Entry = DirEntry(path: bytes) | FileEntry(path: bytes, content: bytes)

  /** What a writing operation writes, and the error it stops with. */
  datatype Attempt = Attempt(out: bytes, error: Option<Error>)

  /**
    The bytes of one entry, with its payload length known in advance. An entry whose compression fails
    keeps the length 0 and what was written of its payload; a path that is too long is refused before.
  */
  ghost function EntryBytes<S(!new), D(!new)>(c: Codec<S, D>, e: Entry): Attempt
    requires Lawful(c)
  {
    if |e.path| > PATH_MAX_LEN then Attempt([], Some(PathTooLong))
    else match e
      case DirEntry(path) => Attempt(HeaderBytes(Header(true, path, 0)), None)
      case FileEntry(path, content) =>
        match CompressedForm(c, content)
        case Run(_, payload) => Attempt(HeaderBytes(Header(false, path, |payload|)) + payload, None)
        case Failed(e, part) => Attempt(HeaderBytes(Header(false, path, 0)) + part, Some(e))
  }

  function Behind(first: bytes, rest: Attempt): Attempt {
    Attempt(first + rest.out, rest.error)
  }

  /** The archive of a list of entries, written front to back without seeking, up to the first error. */
  ghost function ArchiveBytes<S(!new), D(!new)>(c: Codec<S, D>, es: seq<Entry>): Attempt
    requires Lawful(c)
  {
    if es == [] then Attempt([], None)
    else
      var first := EntryBytes(c, es[0]);
      if first.error.Some? then first else Behind(first.out, ArchiveBytes(c, es[1..]))
  }

  /** The entries below the directory with path rel, each directory directly followed by its contents. */
  function Members(rel: bytes, l: Listing): seq<Entry>
    decreases l
  {
    match l
    case NoMore => []
    case File(name, content, next) => [FileEntry(Join(rel, name), content)] + Members(rel, next)
    case Directory(name, children, next) =>
      [DirEntry(Join(rel, name))] + Members(Join(rel, name), children) + Members(rel, next)
  }

  /** The entries for the first item of a listing. */
  function First(rel: bytes, l: Listing): seq<Entry>
    requires l != NoMore
  {
    match l
    case File(name, content, _) => [FileEntry(Join(rel, name), content)]
    case Directory(name, children, _) => [DirEntry(Join(rel, name))] + Members(Join(rel, name), children)
  }

  lemma MembersFirst(rel: bytes, l: Listing)
    requires l != NoMore
    ensures Members(rel, l) == First(rel, l) + Members(rel, l.next)
  {
  }

  lemma {:induction false} ArchiveAppend<S(!new), D(!new)>(c: Codec<S, D>, a: seq<Entry>, b: seq<Entry>)
    requires Lawful(c)
    ensures ArchiveBytes(c, a + b) ==
            if ArchiveBytes(c, a).error.Some? then ArchiveBytes(c, a)
            else Behind(ArchiveBytes(c, a).out, ArchiveBytes(c, b))
  {
    hide Lawful, EntryBytes;
    if a == [] {
      assert a + b == b;
      BehindNothing(ArchiveBytes(c, b));
    } else {
      var all := a + b;
      assert all[0] == a[0] && all[1..] == a[1..] + b;
      ArchiveAppend(c, a[1..], b);
      BehindTwice(EntryBytes(c, a[0]).out, ArchiveBytes(c, a[1..]).out, ArchiveBytes(c, b));
    }
  }

  lemma BehindNothing(r: Attempt)
    ensures Behind([], r) == r
  {
    assert [] + r.out == r.out;
  }

  lemma BehindTwice(a: bytes, b: bytes, r: Attempt)
    ensures Behind(a, Behind(b, r)) == Behind(a + b, r)
  {
    Associative(a, b, r.out);
  }

  lemma ArchiveOne<S(!new), D(!new)>(c: Codec<S, D>, e: Entry)
    requires Lawful(c)
    ensures ArchiveBytes(c, [e]) == EntryBytes(c, e)
  {
    hide Lawful, EntryBytes;
    var r := EntryBytes(c, e);
    assert [e][1..] == [];
    assert ArchiveBytes(c, []) == Attempt([], None);
    assert r.out + [] == r.out;
  }

  /** Packing succeeds exactly when no path is too long, given a codec that does not fail. */
  lemma {:induction false} PacksExactlyWhen<S(!new), D(!new)>(c: Codec<S, D>, es: seq<Entry>)
    requires Lawful(c) && NeverFails(c)
    ensures ArchiveBytes(c, es).error ==
            if forall e :: e in es ==> |e.path| <= PATH_MAX_LEN then None else Some(PathTooLong)
  {
    if es != [] {
      PacksExactlyWhen(c, es[1..]);
      assert forall e :: e in es <==> e == es[0] || e in es[1..];
      if es[0].FileEntry? {
        ContentCompresses(c, c.newC, es[0].content);
      }
    }
  }

  // ---------------------------------------------------------------------------------------------------
  // Packing: headers are written with length 0 and patched afterwards

  /** Whether an operation on an output file wrote at its end and failed as it should have. */
  ghost predicate Did(before: bytes, archive: OutStream, error: Option<Error>, wanted: Attempt)
    reads archive
  {
    error == wanted.error && archive.before == before + wanted.out && archive.beyond == []
  }

  method AddDirectory<S(!new), D(!new)>(ghost c: Codec<S, D>, archive: OutStream, relativePath: bytes)
    returns (error: Option<Error>)
    requires Lawful(c) && archive.beyond == []
    modifies archive
    ensures Did(old(archive.before), archive, error, EntryBytes(c, DirEntry(relativePath)))
  {
    hide Lawful;
    var info := NewEntry(true, relativePath);
    if info.Err? {
      assert archive.before + [] == archive.before;
      return Some(info.error);
    }
    var position := WriteToStream(info.value, archive);
    return None;
  }

  method AddFile<S(!new), D(!new)>(c: Codec<S, D>, content: bytes, archive: OutStream, relativePath: bytes)
    returns (error: Option<Error>)
    requires Lawful(c) && archive.beyond == []
    modifies archive
    ensures Did(old(archive.before), archive, error, EntryBytes(c, FileEntry(relativePath, content)))
  {
    hide Lawful, CompressedForm, HeaderBytes;
    var info := NewEntry(false, relativePath);
    if info.Err? {
      assert archive.before + [] == archive.before;
      return Some(info.error);
    }
    hide Skip, Wrote;
    var h := info.value;
    ghost var before := archive.before;
    var position := WriteToStream(h, archive);
    NothingBeyond(|HeaderBytes(h)|);
    ghost var start := archive.before;
    var input := new InStream(content);
    var written := Compress(c, input, archive);
    ghost var payload := CompressedForm(c, content).out;
    WroteAtEnd(start, archive.before, archive.beyond, payload);
    if written.Err? {
      Associative(before, HeaderBytes(h), payload);
      return Some(written.error);
    }
    PatchIsOnePass(before, h, payload);
    assert archive.before + [] == archive.before;
    WriteCompressedLength(archive, position.value, written.value);
    Associative(before, HeaderBytes(h.(compressedLength := |payload|)), payload);
    return None;
  }

  lemma NothingBeyond(n: nat)
    ensures Skip([], n) == []
  {
  }

  lemma WroteAtEnd(before: bytes, before': bytes, beyond': bytes, w: bytes)
    requires Wrote(before, [], before', beyond', w)
    ensures before' == before + w && beyond' == []
  {
  }

  /** Where the loop of packDirectory stands: of all entries `done` are written, as `out`, and `rest` is to come. */
  ghost predicate Packing<S(!new), D(!new)>(c: Codec<S, D>, all: seq<Entry>, done: seq<Entry>,
                                            rest: seq<Entry>, out: bytes)
    requires Lawful(c)
  {
    all == done + rest && ArchiveBytes(c, done) == Attempt(out, None)
  }

  lemma PackingStarts<S(!new), D(!new)>(c: Codec<S, D>, all: seq<Entry>)
    requires Lawful(c)
    ensures Packing(c, all, [], all, [])
  {
    assert [] + all == all;
  }

  /** Some entries are written, or writing them fails. */
  lemma PackingGoesOn<S(!new), D(!new)>(c: Codec<S, D>, all: seq<Entry>, done: seq<Entry>, step: seq<Entry>,
                                        rest: seq<Entry>, out: bytes)
    requires Lawful(c) && Packing(c, all, done, step + rest, out)
    ensures var now := ArchiveBytes(c, step);
            if now.error.None? then Packing(c, all, done + step, rest, out + now.out)
            else ArchiveBytes(c, all) == Attempt(out + now.out, now.error)
  {
    hide Lawful, ArchiveBytes;
    Associative(done, step, rest);
    ArchiveAppend(c, done, step);
    ArchiveAppend(c, done + step, rest);
  }

  lemma PackingEnds<S(!new), D(!new)>(c: Codec<S, D>, all: seq<Entry>, done: seq<Entry>, out: bytes)
    requires Lawful(c) && Packing(c, all, done, [], out)
    ensures ArchiveBytes(c, all) == Attempt(out, None)
  {
    assert done + [] == done;
  }

  /** packDirectory: the directory's own entry, then everything in it, depth first. */
  method PackDirectory<S(!new), D(!new)>(c: Codec<S, D>, dir: Listing, archive: OutStream, relativePath: bytes)
    returns (error: Option<Error>)
    requires Lawful(c) && archive.beyond == []
    modifies archive
    ensures Did(old(archive.before), archive, error,
                ArchiveBytes(c, [DirEntry(relativePath)] + Members(relativePath, dir)))
    decreases dir
  {
    hide Lawful, EntryBytes, ArchiveBytes, Packing;
    ghost var before := archive.before;
    ghost var own, out: bytes, done: seq<Entry> := [DirEntry(relativePath)], [], [];
    ghost var all := own + Members(relativePath, dir);
    PackingStarts(c, all);
    ArchiveOne(c, own[0]);
    PackingGoesOn(c, all, done, own, Members(relativePath, dir), out);
    error := AddDirectory(c, archive, relativePath);
    out, done := out + ArchiveBytes(c, own).out, done + own;
    assert [] + ArchiveBytes(c, own).out == ArchiveBytes(c, own).out;
    if error.Some? {
      return;
    }
    var rest := dir;
    while rest != NoMore
      invariant error.None? && archive.beyond == [] && archive.before == before + out
      invariant Packing(c, all, done, Members(relativePath, rest), out)
      invariant rest == dir || rest < dir
      decreases rest
    {
      var path := Join(relativePath, rest.name);
      ghost var step := First(relativePath, rest);
      MembersFirst(relativePath, rest);
      PackingGoesOn(c, all, done, step, Members(relativePath, rest.next), out);
      match rest {
        case File(_, content, next) =>
          ArchiveOne(c, step[0]);
          error := AddFile(c, content, archive, path);
          rest := next;
        case Directory(_, children, next) =>
          error := PackDirectory(c, children, archive, path);
          rest := next;
      }
      Associative(before, out, ArchiveBytes(c, step).out);
      out, done := out + ArchiveBytes(c, step).out, done + step;
      if error.Some? {
        return;
      }
    }
    PackingEnds(c, all, done, out);
  }

  /** createArchive, for a directory with the given name and contents: what the archive holds, and the error. */
  method CreateArchive<S(!new), D(!new)>(c: Codec<S, D>, root: Name, dir: Listing, alreadyExists: bool)
    returns (archive: bytes, error: Option<Error>)
    requires Lawful(c)
    ensures Attempt(archive, error) == if alreadyExists then Attempt([], Some(ArchiveExists))
                                       else ArchiveBytes(c, Members([], Directory(root, dir, NoMore)))
  {
    hide Lawful, ArchiveBytes, EntryBytes;
    if alreadyExists {
      return [], Some(ArchiveExists);
    }
    var file := new OutStream();
    error := PackDirectory(c, dir, file, root);
    assert Members([], Directory(root, dir, NoMore)) == [DirEntry(root)] + Members(root, dir);
    ghost var wanted := ArchiveBytes(c, [DirEntry(root)] + Members(root, dir));
    assert [] + wanted.out == wanted.out && wanted.out + [] == wanted.out;
    archive := file.Contents();
  }
}
