/** The order of the entries of an archive (src/client/ArchiveManager.cpp). */
module WellOrdered {
  import opened Bytes
  import opened FileTree
  import opened Archive

  predicate DistinctPaths(es: seq<Entry>) {
    forall i, j :: 0 <= i < j < |es| ==> es[i].path != es[j].path
  }

  /** Entry i is for the file or directory called n in the directory with path rel. */
  predicate ChildOf(es: seq<Entry>, i: nat, rel: bytes, n: Name)
    requires i < |es|
  {
    ValidName(n) && es[i].path == Join(rel, n)
  }

  ghost predicate StandsIn(es: seq<Entry>, i: nat, rel: bytes)
    requires i < |es|
  {
    exists n :: ChildOf(es, i, rel, n)
  }

  /** An entry before entry i is for the directory that entry i stands in. */
  ghost predicate ParentBefore(es: seq<Entry>, i: nat)
    requires i < |es|
  {
    exists j: nat, n :: j < i && es[j].DirEntry? && ChildOf(es, i, es[j].path, n)
  }

  /** The entry is for, or somewhere below, one of the names in the listing of the directory rel. */
  ghost predicate Under(rel: bytes, l: Listing, e: Entry) {
    exists n :: Names(l, n) && Components(rel) + [n] <= Components(e.path)
  }

  lemma {:induction false} EntriesUnder(rel: bytes, l: Listing)
    requires Valid(l)
    ensures forall e :: e in Members(rel, l) ==> Under(rel, l, e)
    decreases l
  {
    hide Components, Join;
    if l != NoMore {
      ComponentsOfJoin(rel, l.name);
      EntriesUnder(rel, l.next);
      if l.Directory? {
        EntriesUnder(Join(rel, l.name), l.children);
      }
      forall e | e in Members(rel, l) ensures Under(rel, l, e) {
        if e in Members(rel, l.next) {
          var n :| Names(l.next, n) && Components(rel) + [n] <= Components(e.path);
          assert Names(l, n);
        } else if l.Directory? && e in Members(Join(rel, l.name), l.children) {
          BelowChild(rel, l, e);
        } else {
          assert Names(l, l.name);
        }
      }
    }
  }

  lemma {:induction false} BelowChild(rel: bytes, l: Listing, e: Entry)
    requires l.Directory? && ValidName(l.name) && Under(Join(rel, l.name), l.children, e)
    ensures Under(rel, l, e)
    ensures Components(rel) + [l.name] < Components(e.path)
  {
    ComponentsOfJoin(rel, l.name);
    hide Components, Join;
    var n :| Names(l.children, n) && Components(Join(rel, l.name)) + [n] <= Components(e.path);
    assert Names(l, l.name);
  }

  lemma Together(a: seq<Entry>, b: seq<Entry>)
    requires DistinctPaths(a) && DistinctPaths(b)
    requires forall x, y :: x in a && y in b ==> x.path != y.path
    ensures DistinctPaths(a + b)
  {
    var c := a + b;
    forall i, j | 0 <= i < j < |c| ensures c[i].path != c[j].path {
      if i < |a| <= j {
        assert c[i] in a && c[j] in b;
      }
    }
  }

  /** No two entries of an archive are for the same path: joining names with slashes keeps them apart. */
  lemma {:induction false} PathsDistinct(rel: bytes, l: Listing)
    requires Valid(l)
    ensures DistinctPaths(Members(rel, l))
    decreases l
  {
    if l != NoMore {
      PathsDistinct(rel, l.next);
      EntriesUnder(rel, l.next);
      ComponentsOfJoin(rel, l.name);
      hide Components, Join;
      var path := Components(rel) + [l.name];
      match l {
        case File(name, content, next) =>
          var own := [FileEntry(Join(rel, name), content)];
          NextApart(rel, l, own);
          Together(own, Members(rel, next));
        case Directory(name, children, next) =>
          PathsDistinct(Join(rel, name), children);
          EntriesUnder(Join(rel, name), children);
          var own, inside := [DirEntry(Join(rel, name))], Members(Join(rel, name), children);
          forall e | e in inside ensures path < Components(e.path) {
            BelowChild(rel, l, e);
          }
          Together(own, inside);
          NextApart(rel, l, own + inside);
          Together(own + inside, Members(rel, next));
      }
    }
  }

  /** What comes before the later siblings is for other paths. */
  lemma {:induction false} NextApart(rel: bytes, l: Listing, es: seq<Entry>)
    requires l != NoMore && Valid(l) && forall e :: e in Members(rel, l.next) ==> Under(rel, l.next, e)
    requires forall e :: e in es ==> Components(rel) + [l.name] <= Components(e.path)
    ensures forall x, y :: x in es && y in Members(rel, l.next) ==> x.path != y.path
  {
    hide Components, Members;
    forall x, y | x in es && y in Members(rel, l.next) ensures x.path != y.path {
      assert Under(rel, l.next, y);
      var n :| Names(l.next, n) && Components(rel) + [n] <= Components(y.path);
      assert Components(x.path)[|Components(rel)|] == l.name && Components(y.path)[|Components(rel)|] == n;
    }
  }

  /** Each entry below the directory rel stands in rel itself, or in a directory that comes earlier. */
  lemma {:induction false} ParentsFirst(rel: bytes, l: Listing, i: nat)
    requires Valid(l) && i < |Members(rel, l)|
    ensures StandsIn(Members(rel, l), i, rel) || ParentBefore(Members(rel, l), i)
    decreases l
  {
    hide Join, ValidName, ParentBefore, StandsIn;
    var es := Members(rel, l);
    match l {
      case File(name, content, next) =>
        if i == 0 {
          FirstStandsIn(es, rel, name);
        } else {
          ParentsFirst(rel, next, i - 1);
          Shifted(es, [es[0]], Members(rel, next), i - 1, rel);
        }
      case Directory(name, children, next) =>
        var inside := Members(Join(rel, name), children);
        var own := DirEntry(Join(rel, name));
        if i == 0 {
          FirstStandsIn(es, rel, name);
        } else if i <= |inside| {
          ParentsFirst(Join(rel, name), children, i - 1);
          assert es == [own] + inside + Members(rel, next);
          InDirectory(es, own, inside, i - 1);
        } else {
          ParentsFirst(rel, next, i - 1 - |inside|);
          Shifted(es, [own] + inside, Members(rel, next), i - 1 - |inside|, rel);
        }
    }
  }

  lemma FirstStandsIn(es: seq<Entry>, rel: bytes, name: Name)
    requires es != [] && ValidName(name) && es[0].path == Join(rel, name)
    ensures StandsIn(es, 0, rel)
  {
    assert ChildOf(es, 0, rel, name);
  }

  lemma Shifted(es: seq<Entry>, before: seq<Entry>, after: seq<Entry>, i: nat, rel: bytes)
    requires es == before + after && i < |after|
    requires StandsIn(after, i, rel) || ParentBefore(after, i)
    ensures StandsIn(es, |before| + i, rel) || ParentBefore(es, |before| + i)
  {
    var k := |before| + i;
    if n :| ChildOf(after, i, rel, n) {
      assert ChildOf(es, k, rel, n);
    } else {
      var j: nat, n :| j < i && after[j].DirEntry? && ChildOf(after, i, after[j].path, n);
      assert es[|before| + j] == after[j] && ChildOf(es, k, es[|before| + j].path, n);
    }
  }

  lemma InDirectory(es: seq<Entry>, own: Entry, inside: seq<Entry>, i: nat)
    requires own.DirEntry? && i < |inside| && [own] + inside <= es
    requires StandsIn(inside, i, own.path) || ParentBefore(inside, i)
    ensures ParentBefore(es, i + 1)
  {
    assert forall k :: 0 <= k < |inside| ==> es[k + 1] == inside[k];
    if n :| ChildOf(inside, i, own.path, n) {
      assert es[0] == own && ChildOf(es, i + 1, es[0].path, n);
    } else {
      var j: nat, n :| j < i && inside[j].DirEntry? && ChildOf(inside, i, inside[j].path, n);
      assert es[j + 1] == inside[j] && ChildOf(es, i + 1, es[j + 1].path, n);
    }
  }

  /**
    An archive starts with its root; its paths are pairwise distinct; and every other entry comes after
    the entry for the directory it stands in.
  */
  lemma ArchiveWellOrdered(root: Name, dir: Listing)
    requires ValidName(root) && Valid(dir)
    ensures var es := Members([], Directory(root, dir, NoMore));
            && es != [] && es[0] == DirEntry(root) && DistinctPaths(es)
            && forall i :: 0 < i < |es| ==> ParentBefore(es, i)
  {
    var l := Directory(root, dir, NoMore);
    var es := Members([], l);
    assert Valid(l);
    PathsDistinct([], l);
    assert es == [DirEntry(root)] + Members(root, dir);
    forall i | 0 < i < |es| ensures ParentBefore(es, i) {
      ParentsFirst(root, dir, i - 1);
      InDirectory(es, DirEntry(root), Members(root, dir), i - 1);
    }
  }
}
