/** searchStoreCommit: the new snapshot replaces the committed one by renames. Any call may fail
    without effect, and power may be cut after any call. */
module StoreCommit {
  import opened Bytes

  datatype Path = Temporary | Current | Backup

  type Disk = map<Path, seq<byte>>

  /** The committed data can still be found: the old snapshot at current or backup, or the new one
      at current. */
  predicate Recoverable(disk: Disk, old_: seq<byte>, new_: seq<byte>) {
    || (Current in disk && disk[Current] in {old_, new_})
    || (Backup in disk && disk[Backup] == old_)
  }

  class Directory {
    var disk: Disk
    ghost var history: seq<Disk>
    /** Some call has failed that the disk allowed. */
    ghost var faulted: bool

    constructor (disk: Disk)
      ensures this.disk == disk && history == [disk] && !faulted
    {
      this.disk := disk;
      history, faulted := [disk], false;
    }

    method Remove(path: Path) returns (ok: bool)
      modifies this
      ensures disk == (if ok then old(disk) - {path} else old(disk))
      ensures ok ==> path in old(disk)
      ensures faulted == (old(faulted) || (!ok && path in old(disk)))
      ensures history == old(history) + [disk]
    {
      ok := *;
      faulted := faulted || (path in disk && !ok);
      ok := ok && path in disk;
      if ok {
        disk := disk - {path};
      }
      history := history + [disk];
    }

    /** The console's rename does not replace an existing file. */
    method Rename(from: Path, target: Path) returns (ok: bool)
      requires from != target
      modifies this
      ensures ok ==>
        from in old(disk) && target !in old(disk) && disk == (old(disk) - {from})[target := old(disk)[from]]
      ensures !ok ==> disk == old(disk)
      ensures faulted == (old(faulted) || (!ok && from in old(disk) && target !in old(disk)))
      ensures history == old(history) + [disk]
    {
      ok := *;
      faulted := faulted || (from in disk && target !in disk && !ok);
      ok := ok && from in disk && target !in disk;
      if ok {
        disk := (disk - {from})[target := disk[from]];
      }
      history := history + [disk];
    }

    method Commit(currentExists: bool) returns (ok: bool)
      modifies this
      ensures ok ==> Temporary in old(disk) && Temporary !in disk
      ensures ok ==> Current in disk && disk[Current] == old(disk)[Temporary]
      ensures !ok && currentExists && Current in old(disk) ==>
        || (Current in disk && disk[Current] == old(disk)[Current])
        || (Current !in disk && Backup in disk && disk[Backup] == old(disk)[Current])
      ensures !ok ==> disk - {Current, Backup} == old(disk) - {Current, Backup}
      ensures !ok && !(currentExists && Current in old(disk)) ==> disk - {Backup} == old(disk) - {Backup}
      // without a failing call, exactly a missing new snapshot or a wrong announcement of the old one stops it, and
      // no backup stays behind
      ensures !old(faulted) && !faulted ==>
        && (ok <==> Temporary in old(disk) && (currentExists <==> Current in old(disk)))
        && Backup !in disk
        && (!ok && currentExists ==> disk == old(disk) - {Backup})
      // at every instant, whatever fails
      ensures old(history) <= history
      ensures currentExists && Current in old(disk) ==>
        forall i :: |old(history)| <= i < |history| ==>
          Recoverable(history[i], old(disk)[Current],
                      if Temporary in old(disk) then old(disk)[Temporary] else old(disk)[Current])
    {
      var removed := Remove(Backup);
      if currentExists {
        var kept := Rename(Current, Backup);
        if !kept {
          return false;
        }
      }
      var promoted := Rename(Temporary, Current);
      if !promoted {
        if currentExists {
          var restored := Rename(Backup, Current);
        }
        return false;
      }
      if currentExists {
        removed := Remove(Backup);
      }
      ok := true;
    }
  }
}
