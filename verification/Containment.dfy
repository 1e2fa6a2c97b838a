/** Which entries of an archive stay below the directory it is unpacked into (src/client/ArchiveManager.cpp). */
module Containment {
  import opened Bytes
  import opened Streams
  import opened Codec
  import opened Zstd
  import opened EntryInfo
  import opened FileTree
  import opened Unpack

  /** Something has changed that is not below the target. */
  ghost predicate ChangedOutside(target: Path, disk: Disk, disk': Disk) {
    exists q: Path :: ChangedAt(target, disk, disk', q)
  }

  predicate ChangedAt(target: Path, disk: Disk, disk': Disk, q: Path) {
    !(target < q) && Lookup(disk', q) != Lookup(disk, q)
  }

  /** At the target, above it or below it. */
  predicate Near(target: Path, q: Path) {
    q <= target || target <= q
  }

  // ---------------------------------------------------------------------------------------------------
  // Directories

  /** A walk that keeps near the target. */
  predicate StaysNear(target: Path, at: Path, names: Path)
    decreases |names|
  {
    names == [] || (Near(target, Step(at, names[0])) && StaysNear(target, Step(at, names[0]), names[1..]))
  }

  lemma DotsStayNear(target: Path, at: Path, n: Name)
    requires Near(target, at) && IsDots(n)
    ensures Near(target, Step(at, n))
  {
  }

  lemma AboveIsThere(disk: Disk, target: Path, q: Path)
    requires Reachable(disk, target) && q <= target
    ensures IsDir(disk, q)
  {
    assert q == target[..|q|];
    assert q != [] ==> Lookup(disk, target[..|q|]) == Some(Dir);
  }

  lemma DirectoryBelow(disk: Disk, target: Path, q: Path)
    requires Reachable(disk, target) && Near(target, q) && !IsDir(disk, q)
    ensures target < q && Reachable(disk[q := Dir], target)
  {
    if q <= target {
      AboveIsThere(disk, target, q);
    }
    forall k | 0 < k <= |target| ensures Lookup(disk[q := Dir], target[..k]) == Some(Dir) {
      assert Lookup(disk, target[..k]) == Some(Dir);
    }
  }

  lemma {:induction false} DirectoriesStay(disk: Disk, target: Path, at: Path, names: Path)
    requires Reachable(disk, target) && StaysNear(target, at, names)
    ensures !ChangedOutside(target, disk, MakeDirs(disk, at, names).disk)
    decreases |names|
  {
    if names != [] {
      var next := Step(at, names[0]);
      if IsDots(names[0]) || IsDir(disk, next) {
        DirectoriesStay(disk, target, next, names[1..]);
      } else if next !in disk {
        DirectoryBelow(disk, target, next);
        var disk1 := disk[next := Dir];
        DirectoriesStay(disk1, target, next, names[1..]);
        var disk' := MakeDirs(disk1, next, names[1..]).disk;
        forall q: Path ensures !ChangedAt(target, disk, disk', q) {
          assert !ChangedAt(target, disk1, disk', q);
        }
      }
    }
  }

  /** Only directories, and only near the target. */
  predicate Bare(disk: Disk, target: Path) {
    forall q: Path :: q in disk ==> disk[q].Dir? && Near(target, q)
  }

  lemma {:induction false} MakeDirsKeeps(disk: Disk, at: Path, names: Path, q: Path)
    requires q in disk
    ensures Lookup(MakeDirs(disk, at, names).disk, q) == Lookup(disk, q)
    decreases |names|
  {
    if names != [] {
      var next := Step(at, names[0]);
      if IsDots(names[0]) || IsDir(disk, next) {
        MakeDirsKeeps(disk, next, names[1..], q);
      } else if next !in disk {
        MakeDirsKeeps(disk[next := Dir], next, names[1..], q);
      }
    }
  }

  lemma {:induction false} DirectoryLeaves(disk: Disk, target: Path, at: Path, names: Path) returns (q: Path)
    requires Bare(disk, target) && Near(target, at) && !StaysNear(target, at, names)
    ensures !Near(target, q) && q in MakeDirs(disk, at, names).disk
    decreases |names|
  {
    var next := Step(at, names[0]);
    if Near(target, next) {
      if IsDots(names[0]) || IsDir(disk, next) {
        q := DirectoryLeaves(disk, target, next, names[1..]);
      } else {
        q := DirectoryLeaves(disk[next := Dir], target, next, names[1..]);
      }
    } else {
      if IsDots(names[0]) {
        DotsStayNear(target, at, names[0]);
      }
      assert next !in disk && next != [];
      q := next;
      MakeDirsKeeps(disk[next := Dir], next, names[1..], q);
    }
  }

  // ---------------------------------------------------------------------------------------------------
  // Files

  function Walk(at: Path, names: Path): Path
    decreases |names|
  {
    if names == [] then at else Walk(Step(at, names[0]), names[1..])
  }

  /** The places that a walk comes through after its start. */
  function Visited(at: Path, names: Path): set<Path>
    decreases |names|
  {
    if names == [] then {} else {Step(at, names[0])} + Visited(Step(at, names[0]), names[1..])
  }

  /** A path string that can name an output file, in a place that is not near the target. */
  predicate FileLeaves(target: Path, p: bytes) {
    var names := NamesFrom(target, p);
    && p != [] && p[|p| - 1] != SLASH && names != [] && !IsDots(names[|names| - 1])
    && var (front, last) := (names[..|names| - 1], names[|names| - 1]);
       !Near(target, Walk([], front) + [last]) && Walk([], front) + [last] !in Visited([], front)
  }

  /** Walks go where the names say, through directories only. */
  lemma {:induction false} ReachIsWalk(disk: Disk, at: Path, names: Path)
    requires Reach(disk, at, names).Some? && Reachable(disk, at)
    ensures Reach(disk, at, names) == Some(Walk(at, names))
    ensures forall q :: q in Visited(at, names) ==> IsDir(disk, q)
    decreases |names|
  {
    if names != [] {
      var next := Step(at, names[0]);
      StepReachable(disk, at, names[0]);
      ReachIsWalk(disk, next, names[1..]);
    }
  }

  lemma StepReachable(disk: Disk, at: Path, n: Name)
    requires Reachable(disk, at) && (IsDots(n) || IsDir(disk, Step(at, n)))
    ensures Reachable(disk, Step(at, n)) && IsDir(disk, Step(at, n))
  {
    var next := Step(at, n);
    forall k | 0 < k <= |next| ensures Lookup(disk, next[..k]) == Some(Dir) {
      if k <= |at| {
        assert next[..k] == at[..k];
        assert Lookup(disk, at[..k]) == Some(Dir);
      } else {
        assert next[..k] == next;
      }
    }
    if next != [] {
      assert next[..|next|] == next;
      assert Lookup(disk, next[..|next|]) == Some(Dir);
    }
  }

  lemma FileStays(disk: Disk, target: Path, p: bytes)
    requires Reachable(disk, target) && FileAt(disk, target, p).Some? && !FileLeaves(target, p)
    ensures target < FileAt(disk, target, p).value
  {
    var names, file := NamesFrom(target, p), FileAt(disk, target, p).value;
    ReachIsWalk(disk, [], names[..|names| - 1]);
    hide NamesFrom, Reach, Walk, Visited;
    assert Near(target, file);
    DirectoryBelow(disk, target, file);
  }

  /** A disk with these directories and nothing else. */
  function Directories(places: set<Path>): Disk {
    map q | q in places :: Dir
  }

  lemma {:induction false} ReachThere(disk: Disk, at: Path, names: Path)
    requires forall q :: q in Visited(at, names) ==> IsDir(disk, q)
    ensures Reach(disk, at, names) == Some(Walk(at, names))
    decreases |names|
  {
    if names != [] {
      ReachThere(disk, Step(at, names[0]), names[1..]);
    }
  }

  function Prefixes(target: Path): set<Path> {
    set k: nat | k <= |target| :: target[..k]
  }

  lemma PrefixesReachable(target: Path, places: set<Path>)
    requires Prefixes(target) <= places
    ensures Reachable(Directories(places), target)
  {
    forall k | 0 < k <= |target| ensures Lookup(Directories(places), target[..k]) == Some(Dir) {
      assert target[..k] in Prefixes(target);
    }
  }

  // ---------------------------------------------------------------------------------------------------
  // Entries and archives

  /** The entry's path leads away from the target. */
  predicate Leaves(target: Path, h: Header) {
    if h.isDirectory then !StaysNear(target, [], NamesFrom(target, h.path)) else FileLeaves(target, h.path)
  }

  lemma EntryStays<S(!new), D(!new)>(c: Codec<S, D>, target: Path, disk: Disk, h: Header, payload: bytes)
    requires Lawful(c) && Reachable(disk, target) && !Leaves(target, h)
    ensures !ChangedOutside(target, disk, UnpackEntry(c, target, disk, h, payload).disk)
  {
    hide Lawful, DecompressFrom;
    if h.isDirectory {
      DirectoriesStay(disk, target, [], NamesFrom(target, h.path));
    } else if FileAt(disk, target, h.path).Some? {
      FileStays(disk, target, h.path);
    }
  }

  /** On some disk, unpacking the entry changes what is not below the target. */
  ghost predicate CanChangeOutside<S(!new), D(!new)>(c: Codec<S, D>, target: Path, h: Header, payload: bytes)
    requires Lawful(c)
  {
    exists disk: Disk ::
      Reachable(disk, target) && ChangedOutside(target, disk, UnpackEntry(c, target, disk, h, payload).disk)
  }

  lemma DirectoryCanChange<S(!new), D(!new)>(c: Codec<S, D>, target: Path, h: Header, payload: bytes)
    requires Lawful(c) && h.isDirectory && Leaves(target, h)
    ensures CanChangeOutside(c, target, h, payload)
  {
    hide Lawful;
    var disk := Directories(Prefixes(target));
    PrefixesReachable(target, Prefixes(target));
    var q := DirectoryLeaves(disk, target, [], NamesFrom(target, h.path));
    assert ChangedAt(target, disk, UnpackEntry(c, target, disk, h, payload).disk, q);
  }

  lemma FileCanChange<S(!new), D(!new)>(c: Codec<S, D>, target: Path, h: Header, payload: bytes)
    requires Lawful(c) && !h.isDirectory && Leaves(target, h)
    ensures CanChangeOutside(c, target, h, payload)
  {
    hide Lawful;
    var names := NamesFrom(target, h.path);
    var front, last := names[..|names| - 1], names[|names| - 1];
    var disk := Directories(Prefixes(target) + Visited([], front));
    PrefixesReachable(target, Prefixes(target) + Visited([], front));
    ReachThere(disk, [], front);
    var file := Walk([], front) + [last];
    hide NamesFrom, Reach, Walk, Visited, DecompressFrom;
    assert file !in Prefixes(target) by {
      assert forall q :: q in Prefixes(target) ==> q <= target;
    }
    assert ChangedAt(target, disk, UnpackEntry(c, target, disk, h, payload).disk, file);
  }

  /**
    An entry can change something that is not below the target if and only if its path leads away from it,
    which can be told from the path alone.
  */
  lemma EntryLeavesExactly<S(!new), D(!new)>(c: Codec<S, D>, target: Path, h: Header, payload: bytes)
    requires Lawful(c)
    ensures CanChangeOutside(c, target, h, payload) <==> Leaves(target, h)
  {
    hide Lawful, Leaves, UnpackEntry, ChangedOutside, Reachable;
    if Leaves(target, h) {
      if h.isDirectory {
        DirectoryCanChange(c, target, h, payload);
      } else {
        FileCanChange(c, target, h, payload);
      }
    } else {
      forall disk: Disk | Reachable(disk, target)
        ensures !ChangedOutside(target, disk, UnpackEntry(c, target, disk, h, payload).disk)
      {
        EntryStays(c, target, disk, h, payload);
      }
    }
  }

  /** No entry of the archive has a path that leads away from the target. */
  ghost predicate NoneLeaves(target: Path, rest: bytes)
    decreases |rest|
  {
    if rest == [] then true
    else match ParseHeader(rest, 0, |rest|)
      case Err(_) => true
      case Ok(h) =>
        var payload := Skip(rest, |HeaderBytes(h)|);
        !Leaves(target, h) && NoneLeaves(target, if h.isDirectory then payload else Skip(payload, h.compressedLength))
  }

  /** Unpacking such an archive, whatever else it holds and even if it fails, changes only what is below the target. */
  lemma {:induction false} UnpackStaysBelow<S(!new), D(!new)>(c: Codec<S, D>, target: Path, disk: Disk, rest: bytes)
    requires Lawful(c) && Reachable(disk, target) && NoneLeaves(target, rest)
    ensures !ChangedOutside(target, disk, UnpackFrom(c, target, disk, rest).disk)
    decreases |rest|
  {
    hide Lawful, ParseHeader, HeaderBytes, UnpackEntry, Leaves, Skip, Reachable, ChangedOutside;
    if rest == [] {
      Unchanged(target, disk);
    } else {
      var header := ParseHeader(rest, 0, |rest|);
      if header.Err? {
        Unchanged(target, disk);
      } else {
        var h := header.value;
        var payload := Skip(rest, |HeaderBytes(h)|);
        var step := UnpackEntry(c, target, disk, h, payload);
        EntryStays(c, target, disk, h, payload);
        if step.error.None? {
          var left := if h.isDirectory then payload else Skip(payload, h.compressedLength);
          StillReachable(target, disk, step.disk);
          UnpackStaysBelow(c, target, step.disk, left);
          UnchangedTwice(target, disk, step.disk, UnpackFrom(c, target, step.disk, left).disk);
        }
      }
    }
  }

  lemma Unchanged(target: Path, disk: Disk)
    ensures !ChangedOutside(target, disk, disk)
  {
  }

  lemma UnchangedTwice(target: Path, disk: Disk, disk1: Disk, disk2: Disk)
    requires !ChangedOutside(target, disk, disk1) && !ChangedOutside(target, disk1, disk2)
    ensures !ChangedOutside(target, disk, disk2)
  {
    forall q: Path ensures !ChangedAt(target, disk, disk2, q) {
      assert !ChangedAt(target, disk, disk1, q) && !ChangedAt(target, disk1, disk2, q);
    }
  }

  lemma StillReachable(target: Path, disk: Disk, disk': Disk)
    requires Reachable(disk, target) && !ChangedOutside(target, disk, disk')
    ensures Reachable(disk', target)
  {
    forall k | 0 < k <= |target| ensures Lookup(disk', target[..k]) == Some(Dir) {
      assert Lookup(disk, target[..k]) == Some(Dir);
      assert !ChangedAt(target, disk, disk', target[..k]);
    }
  }

  /** Paths that are relative and have no `..` in them never lead away. */
  lemma ForwardStays(target: Path, h: Header)
    requires Plain(target) && (h.path == [] || h.path[0] != SLASH) && DOTS !in Components(h.path)
    ensures !Leaves(target, h)
  {
    hide Components;
    var names := target + Components(h.path);
    assert NamesFrom(target, h.path) == names;
    ToTarget(target, 0, Components(h.path));
    assert target[..0] == [] && target[0..] == target;
    if !h.isDirectory {
      FileNear(target, h.path);
    }
  }

  /** A walk that keeps near the target does not take a file away from it. */
  lemma FileNear(target: Path, p: bytes)
    requires StaysNear(target, [], NamesFrom(target, p))
    ensures !FileLeaves(target, p)
  {
    var names := NamesFrom(target, p);
    hide NamesFrom, Walk, Visited;
    if names != [] && !IsDots(names[|names| - 1]) {
      assert names[..|names| - 1] + [names[|names| - 1]] == names;
      LastNear(target, [], names[..|names| - 1], names[|names| - 1]);
    }
  }

  /** A walk to the target, and then only further down. */
  lemma {:induction false} ToTarget(target: Path, k: nat, names: Path)
    requires Plain(target) && DOTS !in names && k <= |target|
    ensures StaysNear(target, target[..k], target[k..] + names)
    decreases |target| - k
  {
    if k < |target| {
      var all := target[k..] + names;
      assert all[0] == target[k] && all[1..] == target[k + 1..] + names;
      assert target[k] in target && target[..k] + [target[k]] == target[..k + 1];
      ToTarget(target, k + 1, names);
    } else {
      assert target[..k] == target && target[k..] + names == names;
      FurtherDown(target, target, names);
    }
  }

  lemma {:induction false} FurtherDown(target: Path, at: Path, names: Path)
    requires DOTS !in names && target <= at
    ensures StaysNear(target, at, names)
    decreases |names|
  {
    if names != [] {
      assert names[0] in names;
      FurtherDown(target, Step(at, names[0]), names[1..]);
    }
  }

  lemma {:induction false} LastNear(target: Path, at: Path, front: Path, last: Name)
    requires StaysNear(target, at, front + [last]) && !IsDots(last)
    ensures Near(target, Walk(at, front) + [last])
    decreases |front|
  {
    var names := front + [last];
    if front != [] {
      assert names[0] == front[0] && names[1..] == front[1..] + [last];
      LastNear(target, Step(at, front[0]), front[1..], last);
    }
  }
}
