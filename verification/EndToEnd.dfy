/**
  A directory from one machine to the other: packed, hashed and announced by the sender, relayed in any
  interleaving, checked and unpacked by the receiver.
*/
module EndToEnd {
  import opened Bytes
  import opened Codec
  import opened Digest
  import opened FileTree
  import Archive
  import Relay
  import RelayProgress
  import RoundTrip
  import Unpack

  /** The transfer has come to an end: no party can take another step. */
  ghost predicate Ended(cfg: Relay.Config, s: Relay.State) {
    forall s' :: !Relay.Next(cfg, s, s')
  }

  /**
    The end of receiveFile: the hash is compared, and only then is an archive unpacked. `received` is what
    was written to the file.
  */
  method FinishReceiving<S(!new), D(!new), C(!new)>(c: Codec<S, D>, d: Digest<C>, received: bytes, announced: string,
                                                    isCompressed: bool, fs: Filesystem, directory: Path)
    returns (error: Option<Error>)
    requires Lawful(c) && Incremental(d) && |received| < SIZE_MOD
    modifies fs
    ensures Hex(Whole(d, received)) != announced ==> error == Some(HashMismatch) && fs.entries == old(fs.entries)
    ensures Hex(Whole(d, received)) == announced ==>
              if !isCompressed then error == None && fs.entries == old(fs.entries)
              else if directory != [] && directory !in old(fs.entries) then
                error == Some(DirectoryMissing) && fs.entries == old(fs.entries)
              else Effect(fs.entries, error) == Unpack.UnpackFrom(c, directory, old(fs.entries), received)
  {
    hide Lawful, Incremental;
    error := ValidateFileHash(d, Some(received), announced);
    if error.Some? {
      return;
    }
    if isCompressed {
      ghost var stop;
      error, stop := Unpack.UnpackArchive(c, Some(received), fs, directory);
    }
  }

  /**
    Every transfer of a packed directory that the receiving user confirms comes to an end, with all three
    parties finished; the hash of what arrived is the announced one; and unpacking it gives the directory.
  */
  lemma DirectoryArrives<S(!new), D(!new), C(!new)>(c: Codec<S, D>, d: Digest<C>, root: Name, dir: Listing,
                                                    target: Path, disk: Disk, cfg: Relay.Config, run: seq<Relay.State>)
    returns (disk': Disk)
    requires Lawful(c) && ValidName(root) && Valid(dir) && RoundTrip.AllClose(dir, c.inSize)
    requires RoundTrip.Ready(disk, target, root)
    requires RoundTrip.Packed(c, root, dir) == Archive.Attempt(cfg.file, None) && |cfg.file| < SIZE_MOD
    requires RelayProgress.Honest(cfg) && cfg.confirms && Relay.IsRun(cfg, run, false)
    ensures |run| <= 4 * |cfg.file| + 36
    ensures Ended(cfg, run[|run| - 1]) ==>
              var s := run[|run| - 1];
              && s.sender.SenderDone? && s.server.ServerDone? && s.receiver.ReceiverDone?
              && Hex(Whole(d, s.written)) == Hex(Whole(d, cfg.file))
              && Unpack.UnpackFrom(c, target, disk, s.written) == Effect(disk', None)
              && RoundTrip.SameTree(disk, disk', target, root, dir)
  {
    hide Lawful;
    RelayProgress.EveryRunDelivers(cfg, run);
    disk' := RoundTrip.TreeRoundTrip(c, root, dir, target, disk);
  }
}
