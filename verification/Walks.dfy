/** What the names in a path string mean for the file that is opened and the directories that are created. */
module Walks {
  import opened Bytes
  import opened EntryInfo
  import opened FileTree
  import opened Containment

  // ---------------------------------------------------------------------------------------------------
  // Walks

  lemma {:induction false} WalkSplit(at: Path, a: Path, b: Path)
    ensures Walk(at, a + b) == Walk(Walk(at, a), b)
    decreases |a|
  {
    if a == [] {
      assert a + b == b;
    } else {
      var all := a + b;
      assert all[0] == a[0] && all[1..] == a[1..] + b;
      WalkSplit(Step(at, a[0]), a[1..], b);
    }
  }

  lemma {:induction false} WalkDown(at: Path, names: Path)
    requires Plain(names)
    ensures Walk(at, names) == at + names
    decreases |names|
  {
    if names == [] {
      assert at + names == at;
    } else {
      assert names[0] in names && forall n :: n in names[1..] ==> n in names;
      WalkDown(at + [names[0]], names[1..]);
      assert at + [names[0]] + names[1..] == at + names;
    }
  }

  /**
    Anywhere in a walk, a name and a `..` behind it cancel, and a `.` counts for nothing; at its start in the
    root, a `..` counts for nothing either. With WalkDown this says where every walk leads.
  */
  lemma WalkLaws(at: Path, a: Path, n: Name, b: Path)
    requires ValidName(n)
    ensures Walk(at, a + [n, [46, 46]] + b) == Walk(at, a + b)
    ensures Walk(at, a + [[46]] + b) == Walk(at, a + b)
    ensures Walk([], [[46, 46]] + b) == Walk([], b)
  {
    var here := Walk(at, a);
    WalkSplit(at, a, b);
    WalkSplit(at, a + [n, [46, 46]], b);
    WalkSplit(at, a, [n, [46, 46]]);
    WalkSplit(at, a + [[46]], b);
    WalkSplit(at, a, [[46]]);
    WalkSplit([], [[46, 46]], b);
    assert [n, [46, 46]][1..] == [[46, 46]] && [[46, 46]][1..] == [] && [[46]][1..] == [];
    assert Walk(here, [n, [46, 46]]) == Walk(Step(here, n), [[46, 46]]) == Step(here + [n], [46, 46]);
    assert Step(here + [n], [46, 46]) == here;
  }

  // ---------------------------------------------------------------------------------------------------
  // Opening a file

  /** Existing directories are walked through one by one, `..` included, and nothing else is. */
  lemma ReachLaws(disk: Disk, at: Path, n: Name, rest: Path)
    requires ValidName(n)
    ensures Reach(disk, at, [n] + rest) == if IsDir(disk, at + [n]) then Reach(disk, at + [n], rest) else None
    ensures Reach(disk, at, [n, [46, 46]] + rest) == if IsDir(disk, at + [n]) then Reach(disk, at, rest) else None
    ensures Reach(disk, at, [[46]] + rest) == Reach(disk, at, rest)
    ensures Reach(disk, [], [[46, 46]] + rest) == Reach(disk, [], rest)
  {
    assert ([n] + rest)[1..] == rest && ([[46]] + rest)[1..] == rest && ([[46, 46]] + rest)[1..] == rest;
    assert ([n, [46, 46]] + rest)[1..] == [[46, 46]] + rest;
    assert Step(at + [n], [46, 46]) == at;
  }

  predicate AllDirs(disk: Disk, at: Path, names: Path) {
    forall k :: 0 < k <= |names| ==> IsDir(disk, at + names[..k])
  }

  lemma {:induction false} ReachPlain(disk: Disk, at: Path, names: Path)
    requires Plain(names)
    ensures Reach(disk, at, names) == if AllDirs(disk, at, names) then Some(at + names) else None
    decreases |names|
  {
    if names == [] {
      assert at + names == at;
    } else {
      var next, rest := at + [names[0]], names[1..];
      assert names[0] in names && forall n :: n in rest ==> n in names;
      assert next + rest == at + names && at + names[..1] == next;
      ReachPlain(disk, next, rest);
      forall k | 0 < k <= |rest| ensures next + rest[..k] == at + names[..k + 1] {
      }
      if AllDirs(disk, at, names) {
        forall k | 0 < k <= |rest| ensures IsDir(disk, next + rest[..k]) {
          assert IsDir(disk, at + names[..k + 1]);
        }
      } else if IsDir(disk, next) && AllDirs(disk, next, rest) {
        forall k | 0 < k <= |names| ensures IsDir(disk, at + names[..k]) {
          assert k > 1 ==> IsDir(disk, next + rest[..k - 1]);
        }
      }
    }
  }

  /** Opening a file is walking to the directory that the last name stands in. */
  lemma Opens(disk: Disk, directory: Path, p: bytes, front: Path, last: Name)
    requires p != [] && NamesFrom(directory, p) == front + [last]
    ensures FileAt(disk, directory, p) ==
            if p[|p| - 1] == 47 || IsDots(last) || Reach(disk, [], front).None? then None
            else if IsDir(disk, Reach(disk, [], front).value + [last]) then None
            else Some(Reach(disk, [], front).value + [last])
  {
    hide NamesFrom, Reach;
    var names := NamesFrom(directory, p);
    assert names[..|names| - 1] == front && names[|names| - 1] == last;
  }

  /**
    A relative path of proper names opens the file that they name below the directory, exactly if every
    directory on the way is there and no directory has its name.
  */
  lemma FilePlain(disk: Disk, directory: Path, dirs: Path, name: Name)
    requires Plain(directory) && Plain(dirs) && ValidName(name)
    ensures var at := directory + dirs;
            FileAt(disk, directory, Slashed(dirs + [name])) ==
            if AllDirs(disk, [], at) && !IsDir(disk, at + [name]) then Some(at + [name]) else None
  {
    var p, at := Slashed(dirs + [name]), directory + dirs;
    SlashedEnds(dirs, name);
    RelativeNames(directory, dirs + [name]);
    Associative(directory, dirs, [name]);
    ReachPlain(disk, [], at);
    hide NamesFrom, Slashed, Reach, AllDirs, FileAt, IsDir;
    assert [] + at == at;
    Opens(disk, directory, p, at, name);
  }

  lemma RelativeNames(directory: Path, names: Path)
    requires Plain(names) && names != [] && Slashed(names) != [] && Slashed(names)[0] != 47
    ensures NamesFrom(directory, Slashed(names)) == directory + names
  {
    SlashedReads(names);
    hide Components, Slashed;
  }

  lemma SlashedEnds(dirs: Path, name: Name)
    requires Plain(dirs) && ValidName(name)
    ensures var p := Slashed(dirs + [name]);
            p != [] && p[0] != 47 && p[|p| - 1] != 47
  {
    JoinSlashed(dirs, name);
    assert name[0] in name && name[|name| - 1] in name;
    if dirs != [] {
      SlashedNotEmpty(dirs);
      assert dirs[0] in dirs && dirs[0][0] in dirs[0];
      assert Slashed(dirs)[0] == dirs[0][0];
    }
  }

  /** An absolute path leads from the root, whatever the directory. */
  lemma AbsolutePaths(disk: Disk, directory: Path, other: Path, p: bytes, name: Name)
    requires ValidName(name)
    ensures NamesFrom(directory, [47] + p) == Components(p)
    ensures FileAt(disk, directory, [47] + p) == FileAt(disk, other, [47] + p)
    ensures FileAt(disk, directory, [47] + name) == if IsDir(disk, [name]) then None else Some([name])
  {
    AbsoluteNames(directory, p);
    AbsoluteNames(other, p);
    AbsoluteNames(directory, name);
    ComponentsOfName(name);
    SameNames(disk, directory, other, [47] + p);
    hide Components, NamesFrom, FileAt;
    assert name[|name| - 1] in name && ([47] + name)[|name|] == name[|name| - 1];
    assert Reach(disk, [], []) == Some([]) && [] + [name] == [name];
    hide Reach;
    Opens(disk, directory, [47] + name, [], name);
  }

  lemma SameNames(disk: Disk, directory: Path, other: Path, p: bytes)
    requires NamesFrom(directory, p) == NamesFrom(other, p)
    ensures FileAt(disk, directory, p) == FileAt(disk, other, p)
  {
    hide NamesFrom, Reach;
  }

  lemma AbsoluteNames(directory: Path, p: bytes)
    ensures NamesFrom(directory, [47] + p) == Components(p)
  {
    hide Components, FirstSlash, NamesFrom;
    var none: bytes := [];
    var all := none + [47] + p;
    NoComponents();
    ComponentsSplit(none, p);
    assert all == [47] + p && all[0] == 47;
    SlashFirst(directory, all);
    assert Components(none) + Components(p) == Components(p);
  }

  lemma SlashFirst(directory: Path, p: bytes)
    requires p != [] && p[0] == 47
    ensures NamesFrom(directory, p) == Components(p)
  {
    hide Components;
  }

  /** Paths that can only be those of directories are not opened. */
  lemma NeverOpened(disk: Disk, directory: Path, p: bytes)
    ensures FileAt(disk, directory, []) == None
    ensures FileAt(disk, directory, p + [47]) == None
    ensures FileAt(disk, directory, p + [47, 46]) == None && FileAt(disk, directory, p + [47, 46, 46]) == None
    ensures FileAt(disk, directory, [46]) == None && FileAt(disk, directory, [46, 46]) == None
  {
    assert p + [47, 46] == p + [47] + [46] && p + [47, 46, 46] == p + [47] + [46, 46];
    DotsLast(disk, directory, p, [46]);
    DotsLast(disk, directory, p, [46, 46]);
    hide NamesFrom, Reach;
  }

  lemma DotsLast(disk: Disk, directory: Path, p: bytes, dots: Name)
    requires dots == [46] || dots == [46, 46]
    ensures FileAt(disk, directory, p + [47] + dots) == None && FileAt(disk, directory, dots) == None
  {
    hide Components, FirstSlash, FileAt;
    var all := p + [47] + dots;
    ComponentsSplit(p, dots);
    ComponentsOfName(dots);
    var front := if all[0] == 47 then Components(p) else directory + Components(p);
    Associative(directory, Components(p), [dots]);
    assert NamesFrom(directory, all) == front + [dots];
    Opens(disk, directory, all, front, dots);
    Opens(disk, directory, dots, directory, dots);
  }

  /**
    `../` and a name opens a file beside the target: in the directory that the target stands in, if that
    name is not a directory's. Such an entry leads away from the target, and so does a directory's, unless
    it is the target itself.
  */
  lemma UpAndOver(disk: Disk, target: Path, name: Name)
    requires Plain(target) && target != [] && Reachable(disk, target) && ValidName(name)
    ensures var beside := target[..|target| - 1] + [name];
            && FileAt(disk, target, [46, 46, 47] + name) == (if IsDir(disk, beside) then None else Some(beside))
            && (Leaves(target, Header(true, [46, 46, 47] + name, 0)) <==> beside != target)
            && (Leaves(target, Header(false, [46, 46, 47] + name, 0)) <==> beside != target)
  {
    hide FileAt, Leaves, Reachable;
    UpOpens(disk, target, name);
    UpLeaves(target, name);
  }

  lemma UpOpens(disk: Disk, target: Path, name: Name)
    requires Plain(target) && target != [] && Reachable(disk, target) && ValidName(name)
    ensures var beside := target[..|target| - 1] + [name];
            FileAt(disk, target, [46, 46, 47] + name) == if IsDir(disk, beside) then None else Some(beside)
  {
    var p := [46, 46, 47] + name;
    UpNames(target, name);
    UpReach(disk, target);
    UpEnds(name);
    Opens(disk, target, p, target + [[46, 46]], name);
    hide NamesFrom, Reach, Reachable, FileAt, IsDir;
  }

  lemma UpLeaves(target: Path, name: Name)
    requires Plain(target) && target != [] && ValidName(name)
    ensures var beside, p := target[..|target| - 1] + [name], [46, 46, 47] + name;
            && (Leaves(target, Header(true, p, 0)) <==> beside != target)
            && (Leaves(target, Header(false, p, 0)) <==> beside != target)
  {
    var p := [46, 46, 47] + name;
    UpNames(target, name);
    UpWalk(target, name);
    UpEnds(name);
    FileLeavesBy(target, p, target + [[46, 46]], name);
    hide NamesFrom, Walk, Visited, StaysNear, Near, FileLeaves;
    assert target + [[46, 46]] + [name] == target + [[46, 46], name];
  }

  lemma UpEnds(name: Name)
    requires ValidName(name)
    ensures var p := [46, 46, 47] + name;
            p != [] && p[|p| - 1] != 47
  {
    var p := [46, 46, 47] + name;
    assert name[|name| - 1] in name && p[|p| - 1] == name[|name| - 1];
  }

  lemma UpReach(disk: Disk, target: Path)
    requires Plain(target) && target != [] && Reachable(disk, target)
    ensures Reach(disk, [], target + [[46, 46]]) == Some(target[..|target| - 1])
  {
    WalkThere(disk, target, 0, [[46, 46]]);
    hide Reachable;
    assert target[..0] == [] && target[0..] == target && [[46, 46]][1..] == [];
    assert Reach(disk, target, [[46, 46]]) == Reach(disk, target[..|target| - 1], []);
  }

  lemma FileLeavesBy(target: Path, p: bytes, front: Path, last: Name)
    requires p != [] && NamesFrom(target, p) == front + [last] && p[|p| - 1] != 47 && ValidName(last)
    ensures FileLeaves(target, p) <==>
            !Near(target, Walk([], front) + [last]) && Walk([], front) + [last] !in Visited([], front)
  {
    hide NamesFrom, Near, Walk, Visited;
    var names := NamesFrom(target, p);
    assert names[..|names| - 1] == front && names[|names| - 1] == last;
  }

  lemma UpNames(target: Path, name: Name)
    requires ValidName(name)
    ensures NamesFrom(target, [46, 46, 47] + name) == target + [[46, 46], name] == target + [[46, 46]] + [name]
  {
    ComponentsSplit([46, 46], name);
    ComponentsOfName([46, 46]);
    ComponentsOfName(name);
    assert [46, 46] + [47] + name == [46, 46, 47] + name;
    assert [[46, 46]] + [name] == [[46, 46], name];
    hide Components;
  }

  lemma UpWalk(target: Path, name: Name)
    requires Plain(target) && target != [] && ValidName(name)
    ensures var up, front := target[..|target| - 1], target + [[46, 46]];
            && Walk([], front) == up
            && (StaysNear(target, [], target + [[46, 46], name]) <==> up + [name] == target)
            && (up + [name] in Visited([], front) <==> up + [name] == target)
            && (Near(target, up + [name]) <==> up + [name] == target)
  {
    hide Walk, Visited, StaysNear;
    TargetThenUp(target);
    UpNear(target, name);
    var beside := target[..|target| - 1] + [name];
    assert |beside| == |target|;
    VisitedPlain([], target, beside);
    assert [] + target == target;
  }

  lemma TargetThenUp(target: Path)
    requires Plain(target) && target != []
    ensures var up, front := target[..|target| - 1], target + [[46, 46]];
            Walk([], front) == up && Visited([], front) == Visited([], target) + {up}
  {
    var up := target[..|target| - 1];
    WalkSplit([], target, [[46, 46]]);
    WalkDown([], target);
    VisitedSplit([], target, [[46, 46]]);
    OneStep(target, [46, 46]);
    hide Walk, Visited;
    assert [] + target == target && Step(target, [46, 46]) == up;
  }

  lemma OneStep(at: Path, n: Name)
    ensures Walk(at, [n]) == Step(at, n) && Visited(at, [n]) == {Step(at, n)}
  {
    assert [n][1..] == [];
    assert Walk(Step(at, n), []) == Step(at, n) && Visited(Step(at, n), []) == {};
    hide Step;
  }

  lemma UpNear(target: Path, name: Name)
    requires Plain(target) && target != [] && ValidName(name)
    ensures var beside := target[..|target| - 1] + [name];
            && (StaysNear(target, [], target + [[46, 46], name]) <==> beside == target)
            && (Near(target, beside) <==> beside == target)
  {
    hide Walk, StaysNear, Near, Plain, Step;
    StepsUp(target, name);
    NearFromTarget(target, [[46, 46], name]);
    TwoSteps(target, target, [46, 46], name);
    NearBeside(target, name);
  }

  lemma StepsUp(target: Path, name: Name)
    requires target != [] && ValidName(name)
    ensures var up := target[..|target| - 1];
            Step(target, [46, 46]) == up && Step(up, name) == up + [name]
  {
  }

  lemma NearFromTarget(target: Path, names: Path)
    requires Plain(target)
    ensures StaysNear(target, [], target + names) <==> StaysNear(target, target, names)
  {
    WalkDown([], target);
    ToTarget(target, 0, []);
    NearSplit(target, [], target, names);
    hide Walk, StaysNear, Near;
    assert [] + target == target && target[..0] == [] && target[0..] == target && target + [] == target;
  }

  lemma NearBeside(target: Path, name: Name)
    requires target != []
    ensures var beside := target[..|target| - 1] + [name];
            Near(target, target[..|target| - 1]) && (Near(target, beside) <==> beside == target)
  {
    assert |target[..|target| - 1] + [name]| == |target|;
  }

  lemma TwoSteps(target: Path, at: Path, a: Name, b: Name)
    ensures StaysNear(target, at, [a, b]) <==> Near(target, Step(at, a)) && Near(target, Step(Step(at, a), b))
  {
    assert [a, b][1..] == [b] && [b][1..] == [];
    hide Near, Step;
    assert StaysNear(target, Step(at, a), [b]) <==> Near(target, Step(Step(at, a), b));
  }

  lemma {:induction false} VisitedSplit(at: Path, a: Path, b: Path)
    ensures Visited(at, a + b) == Visited(at, a) + Visited(Walk(at, a), b)
    decreases |a|
  {
    if a == [] {
      assert a + b == b;
    } else {
      var all := a + b;
      assert all[0] == a[0] && all[1..] == a[1..] + b;
      VisitedSplit(Step(at, a[0]), a[1..], b);
    }
  }

  lemma {:induction false} VisitedPlain(at: Path, names: Path, q: Path)
    requires Plain(names)
    ensures q in Visited(at, names) <==> at < q && q <= at + names
    decreases |names|
  {
    if names == [] {
      assert at + names == at;
    } else {
      var next, rest := at + [names[0]], names[1..];
      assert names[0] in names && forall n :: n in rest ==> n in names;
      assert next + rest == at + names;
      VisitedPlain(next, rest, q);
      if at < q && q <= at + names {
        assert q == (at + names)[..|q|] && (at + names)[..|next|] == next;
        assert q[..|next|] == next;
        assert |q| == |next| ==> q == next;
      }
    }
  }

  lemma {:induction false} NearSplit(target: Path, at: Path, a: Path, b: Path)
    ensures StaysNear(target, at, a + b) <==> StaysNear(target, at, a) && StaysNear(target, Walk(at, a), b)
    decreases |a|
  {
    if a == [] {
      assert a + b == b;
    } else {
      var all := a + b;
      assert all[0] == a[0] && all[1..] == a[1..] + b;
      NearSplit(target, Step(at, a[0]), a[1..], b);
    }
  }

  // ---------------------------------------------------------------------------------------------------
  // Creating directories

  lemma {:induction false} MakeDirsSplit(disk: Disk, at: Path, a: Path, b: Path)
    ensures var first := MakeDirs(disk, at, a);
            MakeDirs(disk, at, a + b) == if first.error.Some? then first else MakeDirs(first.disk, Walk(at, a), b)
    decreases |a|
  {
    if a == [] {
      assert a + b == b;
    } else {
      var all, next := a + b, Step(at, a[0]);
      assert all[0] == a[0] && all[1..] == a[1..] + b;
      if IsDots(a[0]) || IsDir(disk, next) {
        MakeDirsSplit(disk, next, a[1..], b);
      } else if next !in disk {
        MakeDirsSplit(disk[next := Dir], next, a[1..], b);
      }
    }
  }

  /** `.` and `..` create nothing and lead where they lead in a walk. */
  lemma MakeDirsDots(disk: Disk, at: Path, n: Name, rest: Path)
    requires ValidName(n)
    ensures MakeDirs(disk, at + [n], [[46, 46]] + rest) == MakeDirs(disk, at, rest)
    ensures MakeDirs(disk, [], [[46, 46]] + rest) == MakeDirs(disk, [], rest)
    ensures MakeDirs(disk, at, [[46]] + rest) == MakeDirs(disk, at, rest)
  {
    assert ([[46, 46]] + rest)[1..] == rest && ([[46]] + rest)[1..] == rest;
    assert Step(at + [n], [46, 46]) == at;
  }

  /** The names up to the k-th are those of directories that are there afterwards, and nothing else has changed. */
  ghost predicate DirsMade(disk: Disk, disk': Disk, at: Path, names: Path, k: nat)
    requires k <= |names|
  {
    forall q: Path ::
      Lookup(disk', q) == if at < q && q <= at + names[..k] then Some(Dir) else Lookup(disk, q)
  }

  predicate Blocked(disk: Disk, at: Path, names: Path, k: nat)
    requires k < |names|
  {
    Lookup(disk, at + names[..k + 1]).Some? && Lookup(disk, at + names[..k + 1]) != Some(Dir)
  }

  /**
    create_directories with proper names: it succeeds exactly if none of them is that of a file. Then all of
    them are directories, which are all that has changed; otherwise those before the first file are.
  */
  lemma {:induction false} MakeDirsExactly(disk: Disk, at: Path, names: Path) returns (k: nat)
    requires Plain(names)
    ensures k <= |names| && DirsMade(disk, MakeDirs(disk, at, names).disk, at, names, k)
    ensures forall j :: 0 <= j < k ==> !Blocked(disk, at, names, j)
    ensures MakeDirs(disk, at, names).error == if k == |names| then None else Some(NotADirectory)
    ensures k < |names| ==> Blocked(disk, at, names, k)
    decreases |names|
  {
    if names == [] {
      k := 0;
    } else {
      var next, rest := at + [names[0]], names[1..];
      assert names[0] in names && forall n :: n in rest ==> n in names;
      assert at + names[..1] == next;
      if next in disk && !IsDir(disk, next) {
        k := 0;
        assert at + names[..0] == at;
      } else {
        var disk1 := if next in disk then disk else disk[next := Dir];
        k := MakeDirsExactly(disk1, next, rest);
        OneMade(disk, disk1, MakeDirs(disk, at, names).disk, at, names, k);
        forall j | 0 <= j < k + 1 ensures !Blocked(disk, at, names, j) {
          assert j > 0 ==> !Blocked(disk1, next, rest, j - 1);
        }
        k := k + 1;
      }
    }
  }

  lemma OneMade(disk: Disk, disk1: Disk, disk': Disk, at: Path, names: Path, k: nat)
    requires names != [] && k <= |names| - 1
    requires disk1 == disk[at + [names[0]] := Dir] && DirsMade(disk1, disk', at + [names[0]], names[1..], k)
    ensures DirsMade(disk, disk', at, names, k + 1)
    ensures forall j :: 0 <= j < |names| - 1 ==>
              (Blocked(disk1, at + [names[0]], names[1..], j) <==> Blocked(disk, at, names, j + 1))
  {
    var next, rest := at + [names[0]], names[1..];
    forall j | 0 <= j <= |rest| ensures next + rest[..j] == at + names[..j + 1] {
    }
    forall q: Path
      ensures Lookup(disk', q) == if at < q && q <= at + names[..k + 1] then Some(Dir) else Lookup(disk, q)
    {
      assert Lookup(disk', q) == if next < q && q <= next + rest[..k] then Some(Dir) else Lookup(disk1, q);
      if at < q && q <= at + names[..k + 1] && !(next < q) {
        assert q == (at + names[..k + 1])[..|q|];
        assert q == next;
      }
    }
    forall j | 0 <= j < |rest| ensures Blocked(disk1, next, rest, j) <==> Blocked(disk, at, names, j + 1) {
      assert |next + rest[..j + 1]| > |next|;
    }
  }
}
