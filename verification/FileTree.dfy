/** Directory trees, path strings, and the directory that an archive is unpacked into. */
module FileTree {
  import opened Bytes

  const SLASH: byte := 47

  type Name = bytes

  type Path = seq<Name>

  /** The two names that do not stand for an entry of a directory. */
  const DOT: Name := [46]

  const DOTS: Name := [46, 46]

  predicate IsDots(n: Name) {
    n == DOT || n == DOTS
  }

  /** The names that a directory can contain. */
  predicate ValidName(n: Name) {
    n != [] && SLASH !in n && !IsDots(n)
  }

  predicate Plain(p: Path) {
    forall n :: n in p ==> ValidName(n)
  }

  /** The contents of a directory, in the order in which a directory iterator yields them. */
  datatype Listing =
    | NoMore
    | File(name: Name, content: bytes, next: Listing)
    | Directory(name: Name, children: Listing, next: Listing)

  predicate Names(l: Listing, n: Name) {
    match l
    case NoMore => false
    case File(name, _, next) => n == name || Names(next, n)
    case Directory(name, _, next) => n == name || Names(next, n)
  }

  /** Siblings have distinct names without slashes. */
  predicate Valid(l: Listing) {
    match l
    case NoMore => true
    case File(name, _, next) => ValidName(name) && !Names(next, name) && Valid(next)
    case Directory(name, children, next) => ValidName(name) && !Names(next, name) && Valid(children) && Valid(next)
  }

  datatype Node = Dir | Data(content: bytes)

  /** What stands at a path, going from the listing down by names. */
  function Find(l: Listing, path: Path): (r: Option<Node>)
    requires path != []
    ensures r.Some? ==> Names(l, path[0])
  {
    match l
    case NoMore => None
    case File(name, content, next) =>
      if path == [name] then Some(Data(content)) else Find(next, path)
    case Directory(name, children, next) =>
      if path[0] != name then Find(next, path)
      else if |path| == 1 then Some(Dir)
      else Find(children, path[1..])
  }

  // ---------------------------------------------------------------------------------------------------
  // Path strings

  /** The `/` operator of std::filesystem::path on a relative path and a file name. */
  function Join(rel: bytes, name: Name): bytes {
    if rel == [] then name else rel + [SLASH] + name
  }

  function FirstSlash(p: bytes): (k: nat)
    ensures k <= |p| && SLASH !in p[..k] && (k < |p| ==> p[k] == SLASH)
  {
    if p == [] || p[0] == SLASH then 0 else 1 + FirstSlash(p[1..])
  }

  /** The names a path string is made of. */
  function Components(p: bytes): Path
    decreases |p|
  {
    if p == [] then []
    else
      var k := FirstSlash(p);
      (if k == 0 then [] else [p[..k]]) + Components(if k == |p| then [] else p[k + 1..])
  }

  lemma {:induction false} FirstSlashIs(p: bytes, k: nat)
    requires k <= |p| && SLASH !in p[..k] && (k < |p| ==> p[k] == SLASH)
    ensures FirstSlash(p) == k
  {
    if k > 0 {
      assert p[0] == p[..k][0] && p[1..][..k - 1] == p[..k][1..];
      FirstSlashIs(p[1..], k - 1);
    }
  }

  /** What lies behind the first name of a path string and its slash. */
  function BehindFirst(p: bytes): (r: bytes)
    ensures p != [] ==> |r| < |p|
  {
    var k := FirstSlash(p);
    if k == |p| then [] else p[k + 1..]
  }

  lemma ComponentsStep(p: bytes)
    requires p != []
    ensures Components(p) ==
            (if FirstSlash(p) == 0 then [] else [p[..FirstSlash(p)]]) + Components(BehindFirst(p))
  {
  }

  lemma ComponentsOfName(name: Name)
    requires name != [] && SLASH !in name
    ensures Components(name) == [name]
  {
    FirstSlashIs(name, |name|);
    assert name[..|name|] == name;
    ComponentsStep(name);
  }

  lemma {:induction false} SlashFoundAgain(p: bytes, q: bytes)
    ensures var all, k := p + [SLASH] + q, FirstSlash(p);
            && FirstSlash(all) == k && all[..k] == p[..k] && k < |all|
            && all[k + 1..] == if k < |p| then p[k + 1..] + [SLASH] + q else q
  {
    var all, k := p + [SLASH] + q, FirstSlash(p);
    assert all[..k] == p[..k];
    FirstSlashIs(all, k);
  }

  /**
    A slash parts the names of a path string. With ComponentsOfName this says what the names of every path
    string are; slashes in a row part nothing from nothing.
  */
  lemma {:induction false} ComponentsSplit(p: bytes, q: bytes)
    ensures Components(p + [47] + q) == Components(p) + Components(q)
    decreases |p|
  {
    var all, k := p + [SLASH] + q, FirstSlash(p);
    SlashFoundAgain(p, q);
    ComponentsStep(all);
    NoComponents();
    hide FirstSlash, Components;
    if p == [] {
      assert [] + Components(q) == Components(q);
    } else {
      ComponentsStep(p);
      var first := if k == 0 then [] else [p[..k]];
      if k < |p| {
        var behind := p[k + 1..];
        assert BehindFirst(all) == behind + [SLASH] + q && BehindFirst(p) == behind;
        ComponentsSplit(behind, q);
        Associative(first, Components(behind), Components(q));
      } else {
        assert BehindFirst(all) == q && BehindFirst(p) == [];
        assert first + [] == first;
      }
    }
  }

  lemma NoComponents()
    ensures Components([]) == []
  {
  }

  /** Joining a path and a name adds exactly that name: distinct names give distinct paths at every level. */
  lemma ComponentsOfJoin(rel: bytes, name: Name)
    requires ValidName(name)
    ensures Components(Join(rel, name)) == Components(rel) + [name]
  {
    ComponentsOfName(name);
    if rel != [] {
      ComponentsSplit(rel, name);
    }
  }

  /** The names with one slash between neighbours, and none before or behind them. */
  function Slashed(names: Path): bytes {
    if names == [] then []
    else if |names| == 1 then names[0]
    else names[0] + [47] + Slashed(names[1..])
  }

  function NameLengths(names: Path): nat {
    if names == [] then 0 else |names[0]| + NameLengths(names[1..])
  }

  /** The names can be read back, and there is a single byte between neighbours. */
  lemma {:induction false} SlashedReads(names: Path)
    requires Plain(names) && names != []
    ensures Components(Slashed(names)) == names && |Slashed(names)| == NameLengths(names) + |names| - 1
  {
    assert names[0] in names;
    ComponentsOfName(names[0]);
    if |names| == 1 {
      assert names == [names[0]] && NameLengths(names[1..]) == 0;
    } else {
      var rest := names[1..];
      assert forall n :: n in rest ==> n in names;
      SlashedReads(rest);
      ComponentsSplit(names[0], Slashed(rest));
      assert names == [names[0]] + rest;
    }
  }

  lemma {:induction false} JoinSlashed(names: Path, name: Name)
    requires Plain(names)
    ensures Join(Slashed(names), name) == Slashed(names + [name])
  {
    var all := names + [name];
    if names == [] {
      assert all == [name];
    } else {
      assert names[0] in names && names[0] != [];
      assert all[0] == names[0] && all[1..] == names[1..] + [name];
      if |names| == 1 {
        assert names[1..] == [] && all[1..] == [name];
      } else {
        assert forall n :: n in names[1..] ==> n in names;
        JoinSlashed(names[1..], name);
        SlashedNotEmpty(names[1..]);
        assert Slashed(names) + [47] + name == names[0] + [47] + (Slashed(names[1..]) + [47] + name);
      }
    }
  }

  lemma SlashedNotEmpty(names: Path)
    requires Plain(names) && names != []
    ensures Slashed(names) != []
  {
    assert names[0] in names;
  }

  // ---------------------------------------------------------------------------------------------------
  // The file system

  /** A file system, by absolute paths. The root, which is the empty path, is always there. */
  type Disk = map<Path, Node>

  function Lookup(disk: Disk, q: Path): Option<Node> {
    if q in disk then Some(disk[q]) else None
  }

  predicate IsDir(disk: Disk, p: Path) {
    p == [] || (p in disk && disk[p].Dir?)
  }

  /** The names that lead from the root to a path string in a directory; an absolute one does not start there. */
  function NamesFrom(directory: Path, p: bytes): Path {
    if p != [] && p[0] == SLASH then Components(p) else directory + Components(p)
  }

  /** One name further on a walk. */
  function Step(at: Path, n: Name): Path {
    if n == DOT then at else if n != DOTS then at + [n] else if at == [] then [] else at[..|at| - 1]
  }

  /** A disk after an operation, and the error it stopped with. */
  datatype Effect = Effect(disk: Disk, error: Option<Error>)

  /** create_directories: every missing directory on the walk is created. */
  function MakeDirs(disk: Disk, at: Path, names: Path): Effect
    decreases |names|
  {
    if names == [] then Effect(disk, None)
    else
      var next := Step(at, names[0]);
      if IsDots(names[0]) || IsDir(disk, next) then MakeDirs(disk, next, names[1..])
      else if next in disk then Effect(disk, Some(NotADirectory))
      else MakeDirs(disk[next := Dir], next, names[1..])
  }

  /** The directory that a walk through existing directories leads to. */
  function Reach(disk: Disk, at: Path, names: Path): Option<Path>
    decreases |names|
  {
    if names == [] then Some(at)
    else
      var next := Step(at, names[0]);
      if IsDots(names[0]) || IsDir(disk, next) then Reach(disk, next, names[1..]) else None
  }

  /** Where an output file is opened, if it can be: in a directory that is there, and not in place of one. */
  function FileAt(disk: Disk, directory: Path, p: bytes): (r: Option<Path>)
    ensures r.Some? ==> r.value != [] && !IsDir(disk, r.value)
  {
    var names := NamesFrom(directory, p);
    if p == [] || p[|p| - 1] == SLASH || names == [] || IsDots(names[|names| - 1]) then None
    else match Reach(disk, [], names[..|names| - 1])
      case None => None
      case Some(at) =>
        var file := at + [names[|names| - 1]];
        if IsDir(disk, file) then None else Some(file)
  }

  /** All directories on the way to a path are there. */
  ghost predicate Reachable(disk: Disk, at: Path) {
    forall k :: 0 < k <= |at| ==> Lookup(disk, at[..k]) == Some(Dir)
  }

  /** A walk along directories that are there gets to the last of them and changes nothing. */
  lemma {:induction false} WalkThere(disk: Disk, p: Path, k: nat, names: Path)
    requires Plain(p) && Reachable(disk, p) && k <= |p|
    ensures MakeDirs(disk, p[..k], p[k..] + names) == MakeDirs(disk, p, names)
    ensures Reach(disk, p[..k], p[k..] + names) == Reach(disk, p, names)
    decreases |p| - k
  {
    if k == |p| {
      assert p[..k] == p && p[k..] + names == names;
    } else {
      var all := p[k..] + names;
      assert all[0] == p[k] && all[1..] == p[k + 1..] + names;
      assert p[k] in p && p[..k] + [p[k]] == p[..k + 1];
      assert Step(p[..k], p[k]) == p[..k + 1] && Lookup(disk, p[..k + 1]) == Some(Dir);
      WalkThere(disk, p, k + 1, names);
    }
  }

  class Filesystem {
    var entries: Disk

    constructor (disk: Disk)
      ensures entries == disk
    {
      entries := disk;
    }

    /** create_directories, by the names from the root. */
    method CreateDirectories(names: Path) returns (error: Option<Error>)
      modifies this
      ensures Effect(entries, error) == MakeDirs(old(entries), [], names)
    {
      var at: Path, i: nat := [], 0;
      assert names[0..] == names;
      while i < |names|
        invariant i <= |names|
        invariant MakeDirs(old(entries), [], names) == MakeDirs(entries, at, names[i..])
      {
        assert names[i..][0] == names[i] && names[i..][1..] == names[i + 1..];
        at := Step(at, names[i]);
        if !IsDots(names[i]) && !IsDir(entries, at) {
          if at in entries {
            return Some(NotADirectory);
          }
          entries := entries[at := Dir];
        }
        i := i + 1;
      }
      return None;
    }

    /** Opening an output file, which truncates it. */
    method Open(directory: Path, p: bytes) returns (at: Option<Path>)
      modifies this
      ensures at == FileAt(old(entries), directory, p)
      ensures entries == if at.Some? then old(entries)[at.value := Data([])] else old(entries)
    {
      at := FileAt(entries, directory, p);
      if at.Some? {
        entries := entries[at.value := Data([])];
      }
    }

    method Store(p: Path, content: bytes)
      modifies this
      ensures entries == old(entries)[p := Data(content)]
    {
      entries := entries[p := Data(content)];
    }
  }
}
