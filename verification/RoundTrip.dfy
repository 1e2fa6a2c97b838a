/** Unpacking a packed directory restores it: what exactly, and when everything. */
module RoundTrip {
  import opened Bytes
  import opened Streams
  import opened Codec
  import opened Zstd
  import opened EntryInfo
  import opened FileTree
  import opened Archive
  import opened Unpack

  // ---------------------------------------------------------------------------------------------------
  // Bytes: unpacking an archive carries out its entries

  ghost function ApplyEntry<S(!new), D(!new)>(c: Codec<S, D>, target: Path, disk: Disk, e: Entry): Effect
    requires Lawful(c)
  {
    match e
    case DirEntry(path) => MakeDirs(disk, [], NamesFrom(target, path))
    case FileEntry(path, content) =>
      match FileAt(disk, target, path)
      case Some(file) => Effect(disk[file := Data(Recovered(c, content))], None)
      case None => Effect(disk, Some(CannotOpenFile))
  }

  ghost function ApplyAll<S(!new), D(!new)>(c: Codec<S, D>, target: Path, disk: Disk, es: seq<Entry>): Effect
    requires Lawful(c)
    decreases |es|
  {
    if es == [] then Effect(disk, None)
    else
      var step := ApplyEntry(c, target, disk, es[0]);
      if step.error.Some? then step else ApplyAll(c, target, step.disk, es[1..])
  }

  lemma {:induction false} UnpackAppliesEntries<S(!new), D(!new)>(c: Codec<S, D>, target: Path, disk: Disk,
                                                                  es: seq<Entry>)
    requires Lawful(c) && ArchiveBytes(c, es).error.None? && |ArchiveBytes(c, es).out| < SIZE_MOD
    ensures UnpackFrom(c, target, disk, ArchiveBytes(c, es).out) == ApplyAll(c, target, disk, es)
    decreases |es|
  {
    if es != [] {
      var rest := ArchiveBytes(c, es[1..]).out;
      UnpackFirst(c, target, disk, es[0], rest);
      var step := ApplyEntry(c, target, disk, es[0]);
      if step.error.None? {
        UnpackAppliesEntries(c, target, step.disk, es[1..]);
      }
    }
  }

  lemma {:induction false} UnpackFirst<S(!new), D(!new)>(c: Codec<S, D>, target: Path, disk: Disk, e: Entry,
                                                         rest: bytes)
    requires Lawful(c) && EntryBytes(c, e).error.None? && |EntryBytes(c, e).out + rest| < SIZE_MOD
    ensures var step := ApplyEntry(c, target, disk, e);
            UnpackFrom(c, target, disk, EntryBytes(c, e).out + rest) ==
            if step.error.Some? then step else UnpackFrom(c, target, step.disk, rest)
  {
    var payload := if e.FileEntry? then CompressedForm(c, e.content).out else [];
    var h := Header(e.DirEntry?, e.path, |payload|);
    if e.FileEntry? {
      RecoveredContent(c, e.content);
    }
    NewSessions(c);
    hide Lawful, ParseHeader, HeaderBytes, NamesFrom, FileAt, CompressedForm, DecompressFrom, Take, Skip, MakeDirs;
    var all := EntryBytes(c, e).out + rest;
    assert all == HeaderBytes(h) + (payload + rest) by {
      PayloadBehind(HeaderBytes(h), payload, rest);
    }
    TakeSkipConcat(HeaderBytes(h), payload + rest);
    TakeSkipConcat(payload, rest);
    ParsePrinted(h, payload + rest, 0, |all|);
    assert e.DirEntry? ==> payload + rest == rest;
  }

  lemma PayloadBehind(header: bytes, payload: bytes, rest: bytes)
    ensures header + payload + rest == header + (payload + rest)
    ensures payload == [] ==> header + rest == header + (payload + rest)
  {
  }

  lemma {:induction false} ApplyAppend<S(!new), D(!new)>(c: Codec<S, D>, target: Path, disk: Disk,
                                                         a: seq<Entry>, b: seq<Entry>)
    requires Lawful(c)
    ensures var first := ApplyAll(c, target, disk, a);
            ApplyAll(c, target, disk, a + b) == if first.error.Some? then first else ApplyAll(c, target, first.disk, b)
    decreases |a|
  {
    hide Lawful, ApplyEntry;
    if a == [] {
      assert a + b == b;
    } else {
      assert (a + b)[1..] == a[1..] + b;
      var step := ApplyEntry(c, target, disk, a[0]);
      if step.error.None? {
        ApplyAppend(c, target, step.disk, a[1..], b);
      }
    }
  }

  // ---------------------------------------------------------------------------------------------------
  // Trees: carrying out the entries of a directory puts it on the disk

  /** The node that a listing placed at path `at` has at path q. */
  function Below(at: Path, l: Listing, q: Path): Option<Node> {
    if at < q then Find(l, q[|at|..]) else None
  }

  /** What becomes of a node: a file holds what decompression recovers of it. */
  ghost function Restored<S(!new), D(!new)>(c: Codec<S, D>, node: Node): Node
    requires Lawful(c)
  {
    match node
    case Dir => Dir
    case Data(content) => Data(Recovered(c, content))
  }

  /** The second disk is the first with the restored listing at path `at`, and nothing else changed. */
  ghost predicate Grown<S(!new), D(!new)>(c: Codec<S, D>, disk: Disk, disk': Disk, at: Path, l: Listing)
    requires Lawful(c)
  {
    forall q: Path :: Lookup(disk', q) == match Below(at, l, q)
                                          case Some(node) => Some(Restored(c, node))
                                          case None => Lookup(disk, q)
  }

  /** Nothing on the disk stands where the listing is to go. */
  ghost predicate Fresh(disk: Disk, at: Path, l: Listing) {
    forall q: Path :: Lookup(disk, q).Some? && at < q ==> !Names(l, q[|at|])
  }

  lemma FirstName(at: Path, name: Name, l: Listing, q: Path)
    requires at < q
    ensures q[|at|..][0] == q[|at|]
    ensures q == at + [name] <==> q[|at|..] == [name]
    ensures q[|at|] == name ==> at + [name] <= q
    ensures at + [name] < q <==> q[|at|] == name && |q[|at|..]| > 1
    ensures at + [name] < q ==> q[|at|..][1..] == q[|at + [name]|..]
  {
    assert q == at + q[|at|..];
    if q[|at|] == name {
      assert at + [name] == q[..|at| + 1];
    }
  }

  lemma {:induction false} ApplyMembers<S(!new), D(!new)>(c: Codec<S, D>, target: Path, disk: Disk, rel: bytes,
                                                          l: Listing)
    returns (disk': Disk)
    requires Lawful(c) && Valid(l) && Relative(rel) && Plain(NamesFrom(target, rel))
    requires Reachable(disk, NamesFrom(target, rel)) && Fresh(disk, NamesFrom(target, rel), l)
    ensures ApplyAll(c, target, disk, Members(rel, l)) == Effect(disk', None)
    ensures Grown(c, disk, disk', NamesFrom(target, rel), l)
    decreases l
  {
    hide Lawful;
    var at := NamesFrom(target, rel);
    match l {
      case NoMore =>
        disk' := disk;
      case File(name, content, next) =>
        NamesOfJoin(target, rel, name);
        var disk1 := disk[at + [name] := Data(Recovered(c, content))];
        FileApplied(c, target, disk, rel, name, content, next);
        disk' := ApplyMembers(c, target, disk1, rel, next);
        ApplyAppend(c, target, disk, [FileEntry(Join(rel, name), content)], Members(rel, next));
        FileGrown(c, disk, disk1, disk', at, name, content, next);
      case Directory(name, children, next) =>
        NamesOfJoin(target, rel, name);
        var own := DirEntry(Join(rel, name));
        var disk1 := disk[at + [name] := Dir];
        DirectoryApplied(c, target, disk, rel, name, children, next);
        var disk2 := ApplyMembers(c, target, disk1, Join(rel, name), children);
        DirectoryFilled(c, disk, disk1, disk2, at, name, children, next);
        disk' := ApplyMembers(c, target, disk2, rel, next);
        ApplyAppend(c, target, disk, [own], Members(Join(rel, name), children));
        ApplyAppend(c, target, disk, [own] + Members(Join(rel, name), children), Members(rel, next));
        DirectoryGrown(c, disk, disk1, disk2, disk', at, name, children, next);
    }
  }

  /** A path string that starts in the directory it is used in. */
  predicate Relative(p: bytes) {
    p == [] || p[0] != SLASH
  }

  lemma NamesOfJoin(target: Path, rel: bytes, name: Name)
    requires Relative(rel) && ValidName(name)
    ensures var p := Join(rel, name);
            p != [] && Relative(p) && p[|p| - 1] != SLASH && NamesFrom(target, p) == NamesFrom(target, rel) + [name]
    ensures Plain(NamesFrom(target, rel)) ==> Plain(NamesFrom(target, rel) + [name])
  {
    ComponentsOfJoin(rel, name);
    assert name[0] in name && name[|name| - 1] in name;
    hide Components;
    Associative(target, Components(rel), [name]);
  }

  lemma OnTheWay(disk: Disk, at: Path, name: Name)
    requires Plain(at) && Reachable(disk, at)
    ensures IsDir(disk, at) && Reach(disk, [], at) == Some(at)
    ensures MakeDirs(disk, [], at + [name]) == MakeDirs(disk, at, [name])
  {
    assert at[..|at|] == at && at[..0] == [] && at[0..] == at && at + [] == at;
    assert |at| > 0 ==> Lookup(disk, at[..|at|]) == Some(Dir);
    WalkThere(disk, at, 0, []);
    WalkThere(disk, at, 0, [name]);
  }

  lemma FilePlaced(disk: Disk, at: Path, name: Name, node: Node, l: Listing, next: Listing)
    requires Plain(at) && Reachable(disk, at) && Fresh(disk, at, l)
    requires Names(l, name) && !Names(next, name) && forall n :: Names(next, n) ==> Names(l, n)
    ensures Reach(disk, [], at) == Some(at) && Lookup(disk, at + [name]).None?
    ensures Reachable(disk[at + [name] := node], at) && Fresh(disk[at + [name] := node], at, next)
  {
    var p := at + [name];
    OnTheWay(disk, at, name);
    assert Lookup(disk, p).None? by {
      assert at < p && p[|at|] == name;
    }
    var disk1 := disk[p := node];
    forall q: Path | Lookup(disk1, q).Some? && at < q ensures !Names(next, q[|at|]) {
      if q != p {
        assert Lookup(disk, q).Some?;
      }
    }
    forall k | 0 < k <= |at| ensures Lookup(disk1, at[..k]) == Some(Dir) {
      assert Lookup(disk, at[..k]) == Some(Dir);
    }
  }

  lemma FileApplied<S(!new), D(!new)>(c: Codec<S, D>, target: Path, disk: Disk, rel: bytes, name: Name,
                                      content: bytes, next: Listing)
    requires Lawful(c) && Valid(File(name, content, next)) && Relative(rel) && Plain(NamesFrom(target, rel))
    requires Reachable(disk, NamesFrom(target, rel))
    requires Fresh(disk, NamesFrom(target, rel), File(name, content, next))
    ensures var disk1 := disk[NamesFrom(target, rel) + [name] := Data(Recovered(c, content))];
            && ApplyAll(c, target, disk, [FileEntry(Join(rel, name), content)]) == Effect(disk1, None)
            && Reachable(disk1, NamesFrom(target, rel)) && Fresh(disk1, NamesFrom(target, rel), next)
  {
    hide Lawful, Recovered;
    var disk1 := disk[NamesFrom(target, rel) + [name] := Data(Recovered(c, content))];
    FilePlaced(disk, NamesFrom(target, rel), name, Data(Recovered(c, content)), File(name, content, next), next);
    NamesOfJoin(target, rel, name);
    var names := NamesFrom(target, rel) + [name];
    assert names[..|names| - 1] == NamesFrom(target, rel);
    hide NamesFrom, Reachable, Fresh, Join, Reach, Plain;
    ApplyOne(c, target, disk, FileEntry(Join(rel, name), content));
  }

  lemma ApplyOne<S(!new), D(!new)>(c: Codec<S, D>, target: Path, disk: Disk, e: Entry)
    requires Lawful(c)
    ensures ApplyAll(c, target, disk, [e]) == ApplyEntry(c, target, disk, e)
  {
    hide Lawful, ApplyEntry;
    assert [e][1..] == [];
    var step := ApplyEntry(c, target, disk, e);
    assert ApplyAll(c, target, step.disk, []) == Effect(step.disk, None);
  }

  lemma FileGrown<S(!new), D(!new)>(c: Codec<S, D>, disk: Disk, disk1: Disk, disk': Disk, at: Path,
                                    name: Name, content: bytes, next: Listing)
    requires Lawful(c) && !Names(next, name) && disk1 == disk[at + [name] := Data(Recovered(c, content))]
    requires Grown(c, disk1, disk', at, next)
    ensures Grown(c, disk, disk', at, File(name, content, next))
  {
    hide Lawful, Recovered;
    var l := File(name, content, next);
    forall q: Path
      ensures Lookup(disk', q) == match Below(at, l, q)
                                  case Some(node) => Some(Restored(c, node))
                                  case None => Lookup(disk, q)
    {
      assert Lookup(disk', q) == match Below(at, next, q)
                                 case Some(node) => Some(Restored(c, node))
                                 case None => Lookup(disk1, q);
      if at < q {
        FirstName(at, name, next, q);
      }
    }
  }

  lemma DirectoryPlaced(disk: Disk, at: Path, name: Name, children: Listing, l: Listing)
    requires Plain(at) && ValidName(name) && Reachable(disk, at) && Fresh(disk, at, l) && Names(l, name)
    ensures MakeDirs(disk, [], at + [name]) == Effect(disk[at + [name] := Dir], None)
    ensures Reachable(disk[at + [name] := Dir], at + [name])
    ensures Fresh(disk[at + [name] := Dir], at + [name], children)
  {
    var p := at + [name];
    OnTheWay(disk, at, name);
    assert Lookup(disk, p).None? by {
      assert at < p && p[|at|] == name;
    }
    assert [name][1..] == [];
    var disk1 := disk[p := Dir];
    forall q: Path | p < q ensures Lookup(disk1, q).None? {
      assert at < q && q[|at|] == name;
    }
    forall k | 0 < k <= |p| ensures Lookup(disk1, p[..k]) == Some(Dir) {
      if k <= |at| {
        assert p[..k] == at[..k];
        assert Lookup(disk, at[..k]) == Some(Dir);
      } else {
        assert p[..k] == p;
      }
    }
  }

  lemma DirectoryApplied<S(!new), D(!new)>(c: Codec<S, D>, target: Path, disk: Disk, rel: bytes, name: Name,
                                           children: Listing, next: Listing)
    requires Lawful(c) && ValidName(name) && Relative(rel) && Plain(NamesFrom(target, rel))
    requires Reachable(disk, NamesFrom(target, rel))
    requires Fresh(disk, NamesFrom(target, rel), Directory(name, children, next))
    ensures var p := NamesFrom(target, rel) + [name];
            var disk1 := disk[p := Dir];
            && ApplyAll(c, target, disk, [DirEntry(Join(rel, name))]) == Effect(disk1, None)
            && Reachable(disk1, p) && Fresh(disk1, p, children)
  {
    hide Lawful;
    DirectoryPlaced(disk, NamesFrom(target, rel), name, children, Directory(name, children, next));
    NamesOfJoin(target, rel, name);
    hide NamesFrom, Reachable, Fresh, MakeDirs;
    ApplyOne(c, target, disk, DirEntry(Join(rel, name)));
  }

  lemma DirectoryFilled<S(!new), D(!new)>(c: Codec<S, D>, disk: Disk, disk1: Disk, disk2: Disk, at: Path,
                                          name: Name, children: Listing, next: Listing)
    requires Lawful(c) && Reachable(disk, at) && Fresh(disk, at, Directory(name, children, next))
    requires !Names(next, name) && disk1 == disk[at + [name] := Dir] && Grown(c, disk1, disk2, at + [name], children)
    ensures Reachable(disk2, at) && Fresh(disk2, at, next)
  {
    hide Lawful;
    var p := at + [name];
    forall k | 0 < k <= |at| ensures Lookup(disk2, at[..k]) == Some(Dir) {
      assert Lookup(disk, at[..k]) == Some(Dir);
      assert Below(p, children, at[..k]).None?;
    }
    forall q: Path | Lookup(disk2, q).Some? && at < q ensures !Names(next, q[|at|]) {
      FirstName(at, name, next, q);
      if q[|at|] != name {
        assert Below(p, children, q).None?;
        assert Lookup(disk, q).Some?;
      }
    }
  }

  lemma DirectoryGrown<S(!new), D(!new)>(c: Codec<S, D>, disk: Disk, disk1: Disk, disk2: Disk, disk': Disk, at: Path,
                                         name: Name, children: Listing, next: Listing)
    requires Lawful(c) && !Names(next, name) && disk1 == disk[at + [name] := Dir]
    requires Grown(c, disk1, disk2, at + [name], children) && Grown(c, disk2, disk', at, next)
    ensures Grown(c, disk, disk', at, Directory(name, children, next))
  {
    hide Lawful;
    var p, l := at + [name], Directory(name, children, next);
    forall q: Path
      ensures Lookup(disk', q) == match Below(at, l, q)
                                  case Some(node) => Some(Restored(c, node))
                                  case None => Lookup(disk, q)
    {
      assert Lookup(disk', q) == match Below(at, next, q)
                                 case Some(node) => Some(Restored(c, node))
                                 case None => Lookup(disk2, q);
      assert Lookup(disk2, q) == match Below(p, children, q)
                                 case Some(node) => Some(Restored(c, node))
                                 case None => Lookup(disk1, q);
      if at < q {
        FirstName(at, name, next, q);
      }
    }
  }

  // ---------------------------------------------------------------------------------------------------
  // The whole way

  /** The archive of a directory, or what was written of it and the first error. */
  ghost function Packed<S(!new), D(!new)>(c: Codec<S, D>, root: Name, dir: Listing): Attempt
    requires Lawful(c)
  {
    ArchiveBytes(c, Members([], Directory(root, dir, NoMore)))
  }

  /** What a path must hold for the tree under `root` to be in the target. */
  function Original(target: Path, root: Name, dir: Listing, q: Path): Option<Node> {
    Below(target, Directory(root, dir, NoMore), q)
  }

  /** The target is a directory that is there, and has nothing at or below the root name. */
  ghost predicate Ready(disk: Disk, target: Path, root: Name) {
    Plain(target) && Reachable(disk, target) && forall q: Path :: q in disk && target < q ==> q[|target|] != root
  }

  /**
    Every archive that packing produces unpacks without error into a target that has nothing at or below the
    root name. Afterwards every path of the tree holds its directory, or what decompression recovers of its
    file, and every other path of the file system holds what it held before.
  */
  lemma {:induction false} UnpackPacked<S(!new), D(!new)>(c: Codec<S, D>, root: Name, dir: Listing,
                                                          target: Path, disk: Disk)
    returns (disk': Disk)
    requires Lawful(c) && ValidName(root) && Valid(dir) && Ready(disk, target, root)
    requires Packed(c, root, dir).error.None? && |Packed(c, root, dir).out| < SIZE_MOD
    ensures UnpackFrom(c, target, disk, Packed(c, root, dir).out) == Effect(disk', None)
    ensures Grown(c, disk, disk', target, Directory(root, dir, NoMore))
  {
    hide Lawful, Grown;
    var l := Directory(root, dir, NoMore);
    assert NamesFrom(target, []) == target;
    forall q: Path | Lookup(disk, q).Some? && target < q ensures !Names(l, q[|target|]) {
    }
    disk' := ApplyMembers(c, target, disk, [], l);
    UnpackAppliesEntries(c, target, disk, Members([], l));
  }

  /** No file in the tree has a length that the compression loop leaves open. */
  predicate AllClose(l: Listing, inSize: nat)
    requires inSize > 0
  {
    match l
    case NoMore => true
    case File(_, content, next) => Closes(|content|, inSize) && AllClose(next, inSize)
    case Directory(_, children, next) => AllClose(children, inSize) && AllClose(next, inSize)
  }

  /** Some file is left open by the loop with a length that is not a whole number of blocks. */
  predicate CutShort(l: Listing, inSize: nat, blockSize: nat)
    requires inSize > 0 && blockSize > 0
  {
    match l
    case NoMore => false
    case File(_, content, next) =>
      (!Closes(|content|, inSize) && |content| % blockSize != 0) || CutShort(next, inSize, blockSize)
    case Directory(_, children, next) => CutShort(children, inSize, blockSize) || CutShort(next, inSize, blockSize)
  }

  /** The tree is in the target as it was packed, and nothing else changed. */
  ghost predicate SameTree(disk: Disk, disk': Disk, target: Path, root: Name, dir: Listing) {
    forall q: Path :: Lookup(disk', q) == match Original(target, root, dir, q)
                                          case Some(node) => Some(node)
                                          case None => Lookup(disk, q)
  }

  lemma {:induction false} ClosedFileRestored<S(!new), D(!new)>(c: Codec<S, D>, rel: bytes, l: Listing, path: Path)
    requires Lawful(c) && AllClose(l, c.inSize) && ArchiveBytes(c, Members(rel, l)).error.None?
    requires path != [] && Find(l, path).Some?
    ensures Restored(c, Find(l, path).value) == Find(l, path).value
    decreases l
  {
    PartsPacked(c, rel, l);
    hide Lawful, ArchiveBytes, Members, Recovered;
    match l {
      case File(name, content, next) =>
        if path == [name] {
          RecoveredContent(c, content);
        } else {
          ClosedFileRestored(c, rel, next, path);
        }
      case Directory(name, children, next) =>
        if path[0] != name {
          ClosedFileRestored(c, rel, next, path);
        } else if |path| > 1 {
          ClosedFileRestored(c, Join(rel, name), children, path[1..]);
        }
    }
  }

  /** If a directory packs, then so does everything in it. */
  lemma {:induction false} PartsPacked<S(!new), D(!new)>(c: Codec<S, D>, rel: bytes, l: Listing)
    requires Lawful(c) && ArchiveBytes(c, Members(rel, l)).error.None?
    ensures l != NoMore ==> ArchiveBytes(c, Members(rel, l.next)).error.None?
    ensures l.File? ==> CompressedForm(c, l.content).Run?
    ensures l.Directory? ==> ArchiveBytes(c, Members(Join(rel, l.name), l.children)).error.None?
  {
    hide Lawful, CompressedForm, ArchiveBytes;
    if l != NoMore {
      MembersFirst(rel, l);
      ArchiveAppend(c, First(rel, l), Members(rel, l.next));
      hide Members;
      match l {
        case File(name, content, _) =>
          ArchiveOne(c, FileEntry(Join(rel, name), content));
        case Directory(name, children, _) =>
          ArchiveAppend(c, [DirEntry(Join(rel, name))], Members(Join(rel, name), children));
      }
    }
  }

  /** A tree with a file that is cut short has a path at which that file comes back shorter. */
  lemma {:induction false} OpenFileLost<S(!new), D(!new)>(c: Codec<S, D>, rel: bytes, l: Listing) returns (path: Path)
    requires Lawful(c) && Valid(l) && ArchiveBytes(c, Members(rel, l)).error.None?
    requires CutShort(l, c.inSize, c.blockSize)
    ensures path != [] && Find(l, path).Some? && Restored(c, Find(l, path).value) != Find(l, path).value
    decreases l
  {
    PartsPacked(c, rel, l);
    hide Lawful, ArchiveBytes, Members, Recovered;
    match l {
      case File(name, content, next) =>
        if CutShort(next, c.inSize, c.blockSize) {
          path := OpenFileLost(c, rel, next);
          assert path[0] != name;
        } else {
          RecoveredContent(c, content);
          path := [name];
        }
      case Directory(name, children, next) =>
        if CutShort(next, c.inSize, c.blockSize) {
          path := OpenFileLost(c, rel, next);
          assert path[0] != name;
        } else {
          var below := OpenFileLost(c, Join(rel, name), children);
          path := [name] + below;
          assert path[1..] == below;
        }
    }
  }

  /**
    The whole-tree round trip. Packing a directory and unpacking the archive gives the directory back,
    all of it and nothing else, whatever the codec, if no file has a length that is a positive multiple
    of the read buffer. The condition is needed: with a codec that only ever lets whole blocks through
    before the end, a tree with such a file does not come back, unless all such lengths are whole blocks.
  */
  lemma {:induction false} TreeRoundTrip<S(!new), D(!new)>(c: Codec<S, D>, root: Name, dir: Listing,
                                                           target: Path, disk: Disk)
    returns (disk': Disk)
    requires Lawful(c) && ValidName(root) && Valid(dir) && Ready(disk, target, root)
    requires Packed(c, root, dir).error.None? && |Packed(c, root, dir).out| < SIZE_MOD
    ensures UnpackFrom(c, target, disk, Packed(c, root, dir).out) == Effect(disk', None)
    ensures AllClose(dir, c.inSize) ==> SameTree(disk, disk', target, root, dir)
    ensures CutShort(dir, c.inSize, c.blockSize) ==> !SameTree(disk, disk', target, root, dir)
  {
    disk' := UnpackPacked(c, root, dir, target, disk);
    if AllClose(dir, c.inSize) {
      AllRestored(c, root, dir, target, disk, disk');
    }
    if CutShort(dir, c.inSize, c.blockSize) {
      SomeLost(c, root, dir, target, disk, disk');
    }
  }

  lemma {:induction false} SomeLost<S(!new), D(!new)>(c: Codec<S, D>, root: Name, dir: Listing, target: Path,
                                                      disk: Disk, disk': Disk)
    requires Lawful(c) && ValidName(root) && Valid(dir) && CutShort(dir, c.inSize, c.blockSize)
    requires Packed(c, root, dir).error.None?
    requires Grown(c, disk, disk', target, Directory(root, dir, NoMore))
    ensures !SameTree(disk, disk', target, root, dir)
  {
    var l := Directory(root, dir, NoMore);
    var path := OpenFileLost(c, [], l);
    hide Lawful, ArchiveBytes, Members, CutShort;
    var q := target + path;
    assert q[|target|..] == path;
    assert Lookup(disk', q) == Some(Restored(c, Find(l, path).value));
    assert Original(target, root, dir, q) == Find(l, path);
  }

  lemma {:induction false} AllRestored<S(!new), D(!new)>(c: Codec<S, D>, root: Name, dir: Listing, target: Path,
                                                         disk: Disk, disk': Disk)
    requires Lawful(c) && AllClose(dir, c.inSize) && Packed(c, root, dir).error.None?
    requires Grown(c, disk, disk', target, Directory(root, dir, NoMore))
    ensures SameTree(disk, disk', target, root, dir)
  {
    var l := Directory(root, dir, NoMore);
    assert AllClose(l, c.inSize);
    hide Lawful, ArchiveBytes, Members;
    forall q: Path
      ensures Lookup(disk', q) == match Original(target, root, dir, q)
                                  case Some(node) => Some(node)
                                  case None => Lookup(disk, q)
    {
      if Original(target, root, dir, q).Some? {
        ClosedFileRestored(c, [], l, q[|target|..]);
      }
      assert Lookup(disk', q) == match Below(target, l, q)
                                 case Some(node) => Some(Restored(c, node))
                                 case None => Lookup(disk, q);
    }
  }
}
