/** The entries of an archive, said in terms of the tree alone (src/client/ArchiveManager.cpp). */
module Listed {
  import opened Bytes
  import opened Codec
  import opened EntryInfo
  import opened FileTree
  import opened Archive

  /** The entry for what stands at the end of these names. */
  function EntryAt(names: Path, node: Node): Entry {
    match node
    case Dir => DirEntry(Slashed(names))
    case Data(content) => FileEntry(Slashed(names), content)
  }

  /** The entry is for something in the listing of the directory that these names lead to. */
  ghost predicate Stands(above: Path, l: Listing, e: Entry) {
    exists q: Path :: StandsAt(above, l, e, q)
  }

  predicate StandsAt(above: Path, l: Listing, e: Entry, q: Path) {
    q != [] && Find(l, q).Some? && e == EntryAt(above + q, Find(l, q).value)
  }

  lemma {:induction false} NamesOfFound(l: Listing, q: Path)
    requires Valid(l) && q != [] && Find(l, q).Some?
    ensures Plain(q)
    decreases l
  {
    match l {
      case File(name, _, next) =>
        if q == [name] {
        } else {
          NamesOfFound(next, q);
        }
      case Directory(name, children, next) =>
        if q[0] != name {
          NamesOfFound(next, q);
        } else if |q| > 1 {
          NamesOfFound(children, q[1..]);
          assert q == [name] + q[1..];
        }
    }
  }

  /** Only what stands in the tree has an entry. */
  lemma {:induction false} EntriesStand(above: Path, l: Listing, e: Entry)
    requires Valid(l) && Plain(above) && e in Members(Slashed(above), l)
    ensures Stands(above, l, e)
    decreases l
  {
    var rel := Slashed(above);
    MembersFirst(rel, l);
    if l != NoMore {
      var name := l.name;
      JoinSlashed(above, name);
      if e in Members(rel, l.next) {
        EntriesStand(above, l.next, e);
        NextStands(above, l, e);
      } else if l.Directory? && e in Members(Join(rel, name), l.children) {
        EntriesStand(above + [name], l.children, e);
        InsideStands(above, l, e);
      } else {
        hide Slashed, Join;
        assert StandsAt(above, l, e, [name]);
      }
    }
  }

  lemma NextStands(above: Path, l: Listing, e: Entry)
    requires l != NoMore && Valid(l) && Stands(above, l.next, e)
    ensures Stands(above, l, e)
  {
    hide Slashed;
    var q :| StandsAt(above, l.next, e, q);
    assert Names(l.next, q[0]) && q[0] != l.name;
    assert StandsAt(above, l, e, q);
  }

  lemma InsideStands(above: Path, l: Listing, e: Entry)
    requires l.Directory? && Valid(l) && Stands(above + [l.name], l.children, e)
    ensures Stands(above, l, e)
  {
    hide Slashed;
    var q :| StandsAt(above + [l.name], l.children, e, q);
    var longer := [l.name] + q;
    assert longer[1..] == q && above + longer == above + [l.name] + q;
    assert StandsAt(above, l, e, longer);
  }

  /** Everything that stands in the tree has an entry. */
  lemma {:induction false} AllHaveEntries(above: Path, l: Listing, q: Path)
    requires Valid(l) && Plain(above) && q != [] && Find(l, q).Some?
    ensures EntryAt(above + q, Find(l, q).value) in Members(Slashed(above), l)
    decreases l
  {
    var rel, name := Slashed(above), l.name;
    MembersFirst(rel, l);
    JoinSlashed(above, name);
    if q == [name] {
      hide Slashed, Join;
    } else if l.Directory? && q[0] == name {
      AllHaveEntries(above + [name], l.children, q[1..]);
      assert above + [name] + q[1..] == above + q;
    } else {
      AllHaveEntries(above, l.next, q);
    }
  }

  /**
    The entries of an archive are exactly those for the directories and files of the tree, each with its
    content, and each under the names on its way from the root with one slash between neighbours.
  */
  lemma ArchiveListsTree(root: Name, dir: Listing, e: Entry)
    requires ValidName(root) && Valid(dir)
    ensures e in Members([], Directory(root, dir, NoMore)) <==> Stands([], Directory(root, dir, NoMore), e)
    ensures e in Members([], Directory(root, dir, NoMore)) ==>
              var names := Components(e.path);
              names != [] && names[0] == root && |e.path| == NameLengths(names) + |names| - 1
  {
    var l := Directory(root, dir, NoMore);
    assert Valid(l);
    NoNames();
    if e in Members([], l) {
      EntriesStand([], l, e);
    }
    if Stands([], l, e) {
      var q :| StandsAt([], l, e, q);
      Reached(root, dir, q);
      NamesOfFound(l, q);
      assert [] + q == q;
      SlashedReads(q);
    }
  }

  lemma NoNames()
    ensures Slashed([]) == []
  {
  }

  /** The names to everything in the tree fit into a header, with the slashes between them. */
  ghost predicate Fits(l: Listing) {
    forall q: Path {:trigger Find(l, q)} :: q != [] && Find(l, q).Some? ==> NameLengths(q) + |q| - 1 <= 4096
  }

  /** Packing succeeds if and only if the names to everything in the tree fit. */
  lemma TreePacksExactly<S(!new), D(!new)>(c: Codec<S, D>, root: Name, dir: Listing)
    requires Lawful(c) && NeverFails(c) && ValidName(root) && Valid(dir)
    ensures var l := Directory(root, dir, NoMore);
            ArchiveBytes(c, Members([], l)).error == if Fits(l) then None else Some(PathTooLong)
  {
    var l := Directory(root, dir, NoMore);
    PacksExactlyWhen(c, Members([], l));
    hide Lawful, NeverFails, ArchiveBytes, Members, Find, Valid, Fits;
    if Fits(l) {
      forall e | e in Members([], l) ensures |e.path| <= PATH_MAX_LEN {
        EntryFits(root, dir, e);
      }
    } else {
      var e := EntryTooLong(root, dir);
    }
  }

  lemma EntryFits(root: Name, dir: Listing, e: Entry)
    requires ValidName(root) && Valid(dir)
    requires Fits(Directory(root, dir, NoMore)) && e in Members([], Directory(root, dir, NoMore))
    ensures |e.path| <= PATH_MAX_LEN
  {
    ArchiveListsTree(root, dir, e);
    hide Members, Find, Valid, Slashed;
    var l := Directory(root, dir, NoMore);
    var q :| StandsAt([], l, e, q);
    assert [] + q == q;
    Reached(root, dir, q);
  }

  lemma EntryTooLong(root: Name, dir: Listing) returns (e: Entry)
    requires ValidName(root) && Valid(dir) && !Fits(Directory(root, dir, NoMore))
    ensures e in Members([], Directory(root, dir, NoMore)) && |e.path| > PATH_MAX_LEN
  {
    hide Members, Find, Valid, Slashed;
    var l := Directory(root, dir, NoMore);
    var q: Path :| q != [] && Find(l, q).Some? && NameLengths(q) + |q| - 1 > 4096;
    Reached(root, dir, q);
    e := EntryAt(q, Find(l, q).value);
  }

  lemma Reached(root: Name, dir: Listing, q: Path)
    requires ValidName(root) && Valid(dir) && q != [] && Find(Directory(root, dir, NoMore), q).Some?
    ensures var l := Directory(root, dir, NoMore);
            && EntryAt(q, Find(l, q).value) in Members([], l)
            && |EntryAt(q, Find(l, q).value).path| == NameLengths(q) + |q| - 1
  {
    var l := Directory(root, dir, NoMore);
    NoNames();
    assert Valid(l) && [] + q == q;
    AllHaveEntries([], l, q);
    NamesOfFound(l, q);
    SlashedReads(q);
  }
}
