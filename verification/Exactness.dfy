/** The exact condition under which directories survive packing and unpacking, whatever the codec. */
module Exactness {
  import opened Bytes
  import opened Codec
  import opened Zstd
  import opened EntryInfo
  import opened FileTree
  import opened Archive
  import opened Unpack
  import opened RoundTrip
  import opened ToyCodec

  /** The size of an archive in which files are stored as they are. */
  function StoredSize(es: seq<Entry>): nat {
    if es == [] then 0
    else FIXED_SIZE + |es[0].path| + (if es[0].FileEntry? then |es[0].content| else 0) + StoredSize(es[1..])
  }

  function MaxLength(l: Listing): nat {
    match l
    case NoMore => 0
    case File(_, content, next) => if |content| > MaxLength(next) then |content| else MaxLength(next)
    case Directory(_, children, next) =>
      if MaxLength(children) > MaxLength(next) then MaxLength(children) else MaxLength(next)
  }

  /** Blocks that are longer than every file cut short every file that is left open. */
  lemma {:induction false} LongBlocks(l: Listing, inSize: nat, blockSize: nat)
    requires inSize > 0 && MaxLength(l) < blockSize
    ensures CutShort(l, inSize, blockSize) <==> !AllClose(l, inSize)
    decreases l
  {
    match l {
      case NoMore =>
      case File(_, content, next) =>
        SmallMod(|content|, blockSize);
        LongBlocks(next, inSize, blockSize);
      case Directory(_, children, next) =>
        LongBlocks(children, inSize, blockSize);
        LongBlocks(next, inSize, blockSize);
    }
  }

  /** The toy codec never makes anything longer. */
  lemma {:induction false} ToyStores(inSize: nat, blockSize: nat, es: seq<Entry>)
    requires inSize > 0 && blockSize > 0 && Lawful(Toy(inSize, 1, blockSize))
    ensures var r := ArchiveBytes(Toy(inSize, 1, blockSize), es);
            r.error.None? ==> |r.out| <= StoredSize(es)
    decreases |es|
  {
    var c := Toy(inSize, 1, blockSize);
    if es != [] && ArchiveBytes(c, es).error.None? {
      ToyStores(inSize, blockSize, es[1..]);
      hide ArchiveBytes;
      if es[0].FileEntry? {
        var run := CompressedForm(c, es[0].content);
        CompressFeedsEverything(c, es[0].content);
        assert c.cValid(run.state);
      }
    }
  }

  /** Unpacking what packing wrote gives the directory back. */
  ghost predicate ComesBack<S(!new), D(!new)>(c: Codec<S, D>, root: Name, dir: Listing, target: Path, disk: Disk)
    requires Lawful(c)
  {
    var effect := UnpackFrom(c, target, disk, Packed(c, root, dir).out);
    effect.error == None && SameTree(disk, effect.disk, target, root, dir)
  }

  /** Packing succeeds, with an archive that is not too large. */
  ghost predicate Packs<S(!new), D(!new)>(c: Codec<S, D>, root: Name, dir: Listing)
    requires Lawful(c)
  {
    Packed(c, root, dir).error.None? && |Packed(c, root, dir).out| < SIZE_MOD
  }

  /**
    A directory survives packing and unpacking with every codec that keeps the contract if and only if
    none of its files has a length that is a positive multiple of the read buffer.
  */
  lemma {:induction false} TreeSurvivesExactly(root: Name, dir: Listing, target: Path, disk: Disk, inSize: nat)
    requires inSize > 0 && ValidName(root) && Valid(dir) && Ready(disk, target, root)
    requires var es := Members([], Directory(root, dir, NoMore));
             StoredSize(es) < SIZE_MOD && forall e :: e in es ==> |e.path| <= PATH_MAX_LEN
    ensures (forall c: Codec<Session, bytes> {:trigger Lawful(c)} |
               c.inSize == inSize && Lawful(c) && Packs(c, root, dir) ::
               ComesBack(c, root, dir, target, disk))
            <==> AllClose(dir, inSize)
  {
    hide ArchiveBytes, UnpackFrom, Members, StoredSize, SameTree, AllClose, CutShort, Ready;
    if AllClose(dir, inSize) {
      forall c: Codec<Session, bytes> | c.inSize == inSize && Lawful(c) && Packs(c, root, dir)
        ensures ComesBack(c, root, dir, target, disk)
      {
        hide Lawful;
        var disk' := TreeRoundTrip(c, root, dir, target, disk);
      }
    } else {
      var blockSize := MaxLength(dir) + 1;
      var es := Members([], Directory(root, dir, NoMore));
      var c := Toy(inSize, 1, blockSize);
      ToyIsLawful(inSize, 1, blockSize);
      hide Lawful, NeverFails;
      PacksExactlyWhen(c, es);
      ToyStores(inSize, blockSize, es);
      LongBlocks(dir, inSize, blockSize);
      var disk' := TreeRoundTrip(c, root, dir, target, disk);
      assert Packs(c, root, dir) && !ComesBack(c, root, dir, target, disk);
    }
  }
}
