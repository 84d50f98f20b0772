/** The upload side of ftp_vfs_sd.c: a plain file that becomes a concatenation file in the middle of
    a transfer. */
module FtpVfs {
  import opened Bytes
  import opened Files

  const WRITE_CHUNK: int := 1024 * 1024
  const PLAIN_FILE_MAX: int := 0xFFFF_FFFF
  /** No card holds more; it keeps every signed 64-bit sum below from wrapping. */
  const CARD_MAX: int := 0x4000_0000_0000_0000

  // ----- the card -----

  /** `id` tells one upload's bytes from equal bytes elsewhere. A concatenation file is a directory
      that every program reads as the concatenation of its parts. */
  datatype Node =
    | Plain(id: nat, data: seq<byte>)
    | Directory
    | Concatenation(id: nat, parts: seq<seq<byte>>)

  type Disk = map<string, Node>

  function Flatten(parts: seq<seq<byte>>): seq<byte> {
    if parts == [] then [] else parts[0] + Flatten(parts[1..])
  }

  /** The logical content of a node that reads as a file. */
  function Content(node: Node): seq<byte> {
    match node
    case Plain(_, data) => data
    case Directory => []
    case Concatenation(_, parts) => Flatten(parts)
  }

  predicate HasId(node: Node, id: nat) {
    !node.Directory? && node.id == id
  }

  function Resize(data: seq<byte>, size: nat): (r: seq<byte>)
    ensures |r| == size
  {
    if size <= |data| then data[..size] else data + seq(size - |data|, _ => 0)
  }

  function TempName(path: string): string {
    path + ".bigfiletmp"
  }

  function PartName(path: string): string {
    path + "/00"
  }

  function Children(disk: Disk, path: string): set<string> {
    set q | q in disk && path + "/" <= q
  }

  /** Only a directory has entries. */
  predicate Nested(disk: Disk, path: string) {
    Children(disk, path) == {} || (path in disk && disk[path].Directory?)
  }

  /** A directory whose one entry is the plain first part. */
  predicate Convertible(disk: Disk, path: string) {
    var part := PartName(path);
    && path in disk && disk[path].Directory? && part in disk && disk[part].Plain?
    && Children(disk, path) == {part}
  }

  predicate HasFirstPart(disk: Disk, path: string) {
    || (path in disk && disk[path].Concatenation?)
    || (PartName(path) in disk && !disk[PartName(path)].Directory?)
  }

  lemma NamesDiffer(path: string)
    ensures path != TempName(path) && path != PartName(path) && TempName(path) != PartName(path)
    ensures !(path + "/" <= path) && !(path + "/" <= TempName(path)) && path + "/" <= PartName(path)
  {
    assert |TempName(path)| == |path| + 11 && |PartName(path)| == |path| + 3;
    assert TempName(path)[|path|] == '.';
  }

  // ----- filesystem calls: each may fail, and then changes nothing -----

  class FileSystem {
    var disk: Disk
    ghost var history: seq<Disk>
    /** How many calls have failed that could have succeeded. */
    ghost var refusals: nat

    constructor (disk: Disk)
      ensures this.disk == disk && history == [disk]
    {
      this.disk := disk;
      history, refusals := [disk], 0;
    }

    /** The console refuses an existing destination. */
    method RenameFile(from: string, to: string) returns (ok: bool)
      modifies this
      ensures ok ==> from in old(disk) && !old(disk)[from].Directory? && to !in old(disk)
      ensures ok ==> disk == (old(disk) - {from})[to := old(disk)[from]]
      ensures !ok ==> disk == old(disk)
      ensures refusals == old(refusals) + if !ok && from in old(disk) && !old(disk)[from].Directory? && to !in old(disk) then 1 else 0
      ensures history == old(history) + [disk]
    {
      ok := *;
      var possible := from in disk && !disk[from].Directory? && to !in disk;
      refusals := refusals + if possible && !ok then 1 else 0;
      ok := ok && possible;
      if ok {
        disk := (disk - {from})[to := disk[from]];
      }
      history := history + [disk];
    }

    method DeleteFile(path: string) returns (ok: bool)
      modifies this
      ensures ok ==> path in old(disk) && !old(disk)[path].Directory?
      ensures disk == (if ok then old(disk) - {path} else old(disk))
      ensures refusals == old(refusals) + if !ok && path in old(disk) && !old(disk)[path].Directory? then 1 else 0
      ensures history == old(history) + [disk]
    {
      ok := *;
      var possible := path in disk && !disk[path].Directory?;
      refusals := refusals + if possible && !ok then 1 else 0;
      ok := ok && possible;
      if ok {
        disk := disk - {path};
      }
      history := history + [disk];
    }

    /** An existing file is left as it is. */
    method CreateFile(path: string, id: nat) returns (ok: bool, existed: bool)
      modifies this
      ensures existed <==> path in old(disk)
      ensures disk == (if ok then old(disk)[path := Plain(id, [])] else old(disk))
      ensures ok ==> !existed
      ensures refusals == old(refusals) + if !ok && !existed then 1 else 0
      ensures history == old(history) + [disk]
    {
      existed := path in disk;
      ok := *;
      refusals := refusals + if !existed && !ok then 1 else 0;
      ok := ok && !existed;
      if ok {
        disk := disk[path := Plain(id, [])];
      }
      history := history + [disk];
    }

    method CreateDirectory(path: string) returns (ok: bool)
      modifies this
      ensures ok ==> path !in old(disk)
      ensures disk == (if ok then old(disk)[path := Directory] else old(disk))
      ensures refusals == old(refusals) + if !ok && path !in old(disk) then 1 else 0
      ensures history == old(history) + [disk]
    {
      ok := *;
      refusals := refusals + if path !in disk && !ok then 1 else 0;
      ok := ok && path !in disk;
      if ok {
        disk := disk[path := Directory];
      }
      history := history + [disk];
    }

    /** Only an empty directory can be deleted. */
    method DeleteDirectory(path: string) returns (ok: bool)
      modifies this
      ensures ok ==> path in old(disk) && old(disk)[path].Directory? && Children(old(disk), path) == {}
      ensures disk == (if ok then old(disk) - {path} else old(disk))
      ensures refusals == old(refusals)
        + if !ok && path in old(disk) && old(disk)[path].Directory? && Children(old(disk), path) == {} then 1 else 0
      ensures history == old(history) + [disk]
    {
      ok := *;
      var possible := path in disk && disk[path].Directory? && Children(disk, path) == {};
      refusals := refusals + if possible && !ok then 1 else 0;
      ok := ok && possible;
      if ok {
        disk := disk - {path};
      }
      history := history + [disk];
    }

    /** The directory and its one part become a single entry. */
    method SetConcatenationAttribute(path: string) returns (ok: bool)
      modifies this
      ensures ok ==> PartName(path) in old(disk) && old(disk)[PartName(path)].Plain?
      ensures ok ==> path in old(disk) && old(disk)[path].Directory?
      ensures ok ==> disk == (old(disk) - {PartName(path)})
                             [path := Concatenation(old(disk)[PartName(path)].id, [old(disk)[PartName(path)].data])]
      ensures !ok ==> disk == old(disk)
      ensures refusals == old(refusals) + if !ok && Convertible(old(disk), path) then 1 else 0
      ensures history == old(history) + [disk]
    {
      var part := PartName(path);
      ok := *;
      refusals := refusals + if Convertible(disk, path) && !ok then 1 else 0;
      ok := ok && Convertible(disk, path);
      if ok {
        disk := (disk - {part})[path := Concatenation(disk[part].id, [disk[part].data])];
      }
      history := history + [disk];
    }

    /** Opening a file: its first part can be opened exactly when the path is in parts. */
    method OpenFile(path: string) returns (ok: bool)
      modifies this`refusals
      ensures ok ==> path in disk && !disk[path].Directory?
      ensures refusals == old(refusals) + if !ok && path in disk && !disk[path].Directory? then 1 else 0
    {
      ok := *;
      var possible := path in disk && !disk[path].Directory?;
      refusals := refusals + if possible && !ok then 1 else 0;
      ok := ok && possible;
    }

    method OpenFirstPart(path: string) returns (ok: bool)
      modifies this`refusals
      ensures ok ==> HasFirstPart(disk, path)
      ensures refusals == old(refusals) + if !ok && HasFirstPart(disk, path) then 1 else 0
    {
      ok := *;
      refusals := refusals + if HasFirstPart(disk, path) && !ok then 1 else 0;
      ok := ok && HasFirstPart(disk, path);
    }

    method GetSize(path: string) returns (ok: bool, size: nat)
      requires path in disk
      modifies this`refusals
      ensures ok ==> size == |Content(disk[path])|
      ensures refusals == old(refusals) + if ok then 0 else 1
    {
      ok := *;
      refusals := refusals + if ok then 0 else 1;
      size := |Content(disk[path])|;
    }

    predicate IsPlain(path: string)
      reads this
    {
      path in disk && disk[path].Plain?
    }

    /** FAT32 cannot describe a plain file of 4 GiB; a concatenation file grows by adding parts, and
        where it splits is the platform's choice. */
    method SetSize(path: string, size: nat) returns (ok: bool)
      requires path in disk && !disk[path].Directory?
      modifies this
      ensures ok ==> Replaced(old(disk), disk, path, Resize(Content(old(disk)[path]), size)) && size <= CARD_MAX
      ensures !ok ==> disk == old(disk)
      ensures refusals == old(refusals)
        + if !ok && size <= CARD_MAX && (old(disk)[path].Plain? ==> size <= PLAIN_FILE_MAX) then 1 else 0
      ensures history == old(history) + [disk]
    {
      ok := *;
      var possible := size <= CARD_MAX && (disk[path].Plain? ==> size <= PLAIN_FILE_MAX);
      refusals := refusals + if possible && !ok then 1 else 0;
      ok := ok && possible;
      if ok {
        Replace(path, Resize(Content(disk[path]), size));
      }
      history := history + [disk];
    }

    method WriteFile(path: string, offset: nat, data: seq<byte>) returns (ok: bool)
      requires path in disk && !disk[path].Directory?
      modifies this
      ensures ok ==> offset + |data| <= |Content(old(disk)[path])|
      ensures ok ==> Replaced(old(disk), disk, path, Overwrite(Content(old(disk)[path]), offset, data))
      ensures !ok ==> disk == old(disk)
      ensures refusals == old(refusals) + if !ok && offset + |data| <= |Content(old(disk)[path])| then 1 else 0
      ensures history == old(history) + [disk]
    {
      ok := *;
      var possible := offset + |data| <= |Content(disk[path])|;
      refusals := refusals + if possible && !ok then 1 else 0;
      ok := ok && possible;
      if ok {
        Replace(path, Overwrite(Content(disk[path]), offset, data));
      }
      history := history + [disk];
    }

    method Replace(path: string, content: seq<byte>)
      requires path in disk && !disk[path].Directory?
      modifies this`disk
      ensures Replaced(old(disk), disk, path, content)
    {
      if disk[path].Plain? {
        disk := disk[path := Plain(disk[path].id, content)];
      } else {
        assert Flatten([content]) == content;
        var parts :| |parts| > 0 && Flatten(parts) == content;
        disk := disk[path := Concatenation(disk[path].id, parts)];
      }
    }
  }

  /** Only the content of `path` changed. */
  ghost predicate Replaced(before: Disk, after: Disk, path: string, content: seq<byte>)
    requires path in before && !before[path].Directory?
  {
    && path in after
    && after == before[path := after[path]]
    && Content(after[path]) == content
    && HasId(after[path], before[path].id)
    && (before[path].Plain? <==> after[path].Plain?)
  }

  // ----- where the upload is -----

  ghost predicate StoredAt(disk: Disk, place: string, id: nat, data: seq<byte>) {
    place in disk && HasId(disk[place], id) && Content(disk[place]) == data
  }

  /** The upload's bytes sit whole at exactly one of the three names, and nowhere else. */
  ghost predicate WholeAtOnePlace(disk: Disk, path: string, id: nat, data: seq<byte>) {
    exists place | place in {path, TempName(path), PartName(path)} ::
      StoredAt(disk, place, id, data) && forall q | q in disk && HasId(disk[q], id) :: q == place
  }

  /** The bytes received so far sit whole at exactly one of the three names, whatever follows them there. */
  ghost predicate Keeps(disk: Disk, path: string, id: nat, log: seq<byte>) {
    exists place | place in {path, TempName(path), PartName(path)} ::
      && place in disk && HasId(disk[place], id) && log <= Content(disk[place])
      && forall q | q in disk && HasId(disk[q], id) :: q == place
  }

  lemma WholeKeeps(disk: Disk, path: string, id: nat, data: seq<byte>, log: seq<byte>)
    requires WholeAtOnePlace(disk, path, id, data) && log <= data
    ensures Keeps(disk, path, id, log)
  {
  }

  lemma KeepsBeginning(disk: Disk, path: string, id: nat, log: seq<byte>, part: seq<byte>)
    requires Keeps(disk, path, id, log) && part <= log
    ensures Keeps(disk, path, id, part)
  {
  }

  /** A plain file that is its name's only entry. */
  ghost predicate PlainUpload(disk: Disk, path: string, id: nat, data: seq<byte>) {
    && path in disk && disk[path] == Plain(id, data)
    && Children(disk, path) == {}
    && forall q | q in disk && HasId(disk[q], id) :: q == path
  }

  ghost predicate UniqueIds(disk: Disk) {
    forall p, q | p in disk && q in disk && !disk[p].Directory? && !disk[q].Directory? && disk[p].id == disk[q].id :: p == q
  }

  // ----- the stages of a conversion -----

  /** Everything but the upload, which `rest` leaves out, stays put; the upload is in one of the five
      places a conversion moves it through. */
  ghost predicate Stage(disk: Disk, rest: Disk, path: string, file: Node) {
    || disk == rest[path := file]
    || disk == rest[TempName(path) := file]
    || disk == rest[path := Directory][TempName(path) := file]
    || disk == rest[path := Directory][PartName(path) := file]
    || (file.Plain? && disk == rest[path := Concatenation(file.id, [file.data])])
  }

  ghost predicate LeftOut(rest: Disk, path: string, id: nat) {
    && path !in rest && TempName(path) !in rest && Children(rest, path) == {}
    && forall q | q in rest :: !HasId(rest[q], id)
  }

  lemma OnePart(data: seq<byte>)
    ensures Flatten([data]) == data
  {
    assert Flatten([data]) == data + Flatten([data][1..]);
  }

  lemma NoPart(rest: Disk, path: string, id: nat)
    requires LeftOut(rest, path, id)
    ensures PartName(path) !in rest
  {
    NamesDiffer(path);
    assert PartName(path) in rest ==> PartName(path) in Children(rest, path);
  }

  /** What each call of a conversion, or of its undoing, makes of the disk. */
  lemma Moves(rest: Disk, path: string, file: Node)
    requires file.Plain? && LeftOut(rest, path, file.id)
    ensures var temp, part := TempName(path), PartName(path);
            && (rest[path := Directory][part := file] - {part})[temp := file] == rest[path := Directory][temp := file]
            && (rest[path := Directory][temp := file] - {temp})[part := file] == rest[path := Directory][part := file]
            && rest[path := Directory][temp := file] - {path} == rest[temp := file]
            && rest[temp := file][path := Directory] == rest[path := Directory][temp := file]
            && (rest[temp := file] - {temp})[path := file] == rest[path := file]
            && var whole := Concatenation(file.id, [file.data]);
               (rest[path := Directory][part := file] - {part})[path := whole] == rest[path := whole]
  {
    NamesDiffer(path);
    NoPart(rest, path, file.id);
  }

  lemma StageIsWhole(disk: Disk, rest: Disk, path: string, file: Node)
    requires file.Plain? && LeftOut(rest, path, file.id) && Stage(disk, rest, path, file)
    ensures WholeAtOnePlace(disk, path, file.id, file.data)
  {
    NamesDiffer(path);
    OnePart(file.data);
    NoPart(rest, path, file.id);
    var place :=
      if path in disk && !disk[path].Directory? then path
      else if TempName(path) in disk then TempName(path) else PartName(path);
    assert StoredAt(disk, place, file.id, file.data);
    assert forall q | q in disk && HasId(disk[q], file.id) :: q == place;
  }

  function RoundUp(position: nat): (r: int)
    ensures position <= r < position + WRITE_CHUNK && r % WRITE_CHUNK == 0
  {
    (position + WRITE_CHUNK - 1) / WRITE_CHUNK * WRITE_CHUNK
  }

  predicate AtPlainLimit(position: int) {
    position < 0 || RoundUp(position) > PLAIN_FILE_MAX
  }

  lemma LimitIsRounded(position: nat)
    ensures AtPlainLimit(position) <==> RoundUp(position) > PLAIN_FILE_MAX
  {
  }

  // ----- one upload -----

  /** struct FtpVfsFile together with its slot of g_vfsState, for a file opened by STOR. */
  class Upload {
    const fs: FileSystem
    const path: string
    var offset: nat
    var allocatedSize: nat
    var open: bool
    var concatenation: bool
    ghost var id: nat
    ghost var log: seq<byte>
    ghost var plainAllocations: seq<nat>

    constructor (fs: FileSystem, path: string)
      ensures this.fs == fs && this.path == path && !open
    {
      this.fs := fs;
      this.path := path;
      offset, allocatedSize, open, concatenation := 0, 0, false, false;
      id, log, plainAllocations := 0, [], [];
    }

    /** A directory at the temporary name is in the way of every conversion. */
    predicate TempIsDirectory()
      reads fs
    {
      TempName(path) in fs.disk && fs.disk[TempName(path)].Directory?
    }

    /** The file holds the log, followed by what has been allocated ahead. */
    ghost predicate Valid()
      reads this, fs
    {
      && path in fs.disk
      && StoredAt(fs.disk, path, id, Content(fs.disk[path]))
      && (forall q | q in fs.disk && HasId(fs.disk[q], id) :: q == path)
      && |Content(fs.disk[path])| == allocatedSize <= CARD_MAX
      && offset == |log| <= allocatedSize
      && Content(fs.disk[path])[..offset] == log
      && (!concatenation ==>
            PlainUpload(fs.disk, path, id, Content(fs.disk[path])) && allocatedSize <= PLAIN_FILE_MAX)
      && (concatenation ==> fs.disk[path].Concatenation?)
      && (forall i :: 0 <= i < |plainAllocations| ==>
            plainAllocations[i] % WRITE_CHUNK == 0 && plainAllocations[i] <= PLAIN_FILE_MAX)
    }

    /** The file is there, and it is no concatenation file if the card lets it be deleted. */
    method Create(newId: nat) returns (ok: bool)
      requires UniqueIds(fs.disk) && Nested(fs.disk, path)
      requires forall q | q in fs.disk :: !HasId(fs.disk[q], newId)
      modifies fs
      ensures UniqueIds(fs.disk) && Nested(fs.disk, path)
      ensures ok ==> path in fs.disk && (fs.disk[path].Concatenation? ==> fs.refusals > old(fs.refusals))
      ensures !ok ==> fs.refusals > old(fs.refusals)
      ensures path in fs.disk && fs.disk[path].Directory? ==> path in old(fs.disk) && old(fs.disk)[path].Directory?
      ensures fs.refusals >= old(fs.refusals)
      ensures forall q | q != path :: (q in fs.disk <==> q in old(fs.disk)) && (q in fs.disk ==> fs.disk[q] == old(fs.disk)[q])
    {
      NamesDiffer(path);
      ghost var before := fs.disk;
      var partial := fs.OpenFirstPart(path);
      assert !HasFirstPart(fs.disk, path) ==> path !in fs.disk || !fs.disk[path].Concatenation?;
      if partial {
        var deleted := fs.DeleteFile(path);
        assert Children(fs.disk, path) == Children(before, path);
      }
      var created, existed := fs.CreateFile(path, newId);
      assert Children(fs.disk, path) == Children(before, path);
      ok := created || existed;
    }

    /** ftp_vfs_open in WRITE mode, after the path has been translated; `newId` ids a new file. */
    method Open(newId: nat) returns (ok: bool)
      requires !open && UniqueIds(fs.disk) && Nested(fs.disk, path)
      requires forall q | q in fs.disk :: !HasId(fs.disk[q], newId)
      modifies this, fs
      ensures ok ==> open && !concatenation && log == [] && plainAllocations == [] && path in fs.disk
      // a concatenation file that could not be deleted stays one, emptied
      ensures ok ==> Valid() || (fs.disk[path].Concatenation? && fs.refusals > old(fs.refusals))
      ensures ok ==> fs.IsPlain(path) || fs.refusals > old(fs.refusals)
      ensures !ok ==> fs.refusals > old(fs.refusals) || (path in old(fs.disk) && old(fs.disk)[path].Directory?)
      ensures fs.refusals >= old(fs.refusals)
      ensures TempIsDirectory() == old(TempIsDirectory())
    {
      hide UniqueIds, Children, PlainUpload, TempName, Upload.Valid;
      TempStays(path);
      ok := Create(newId);
      if !ok {
        return;
      }
      ok := fs.OpenFile(path);
      if !ok {
        return;
      }
      ghost var before := fs.disk;
      ok := fs.SetSize(path, 0);
      if !ok {
        return;
      }
      EmptiedUpload(before, fs.disk, path);
      Begin();
    }

    /** The fields for a file that was just emptied. */
    method Begin()
      requires path in fs.disk && !fs.disk[path].Directory? && Content(fs.disk[path]) == []
      requires fs.disk[path].Plain? ==> PlainUpload(fs.disk, path, fs.disk[path].id, [])
      modifies this
      ensures open && !concatenation && log == [] && plainAllocations == []
      ensures Valid() || fs.disk[path].Concatenation?
    {
      open, offset, allocatedSize, concatenation := true, 0, 0, false;
      id, log, plainAllocations := fs.disk[path].id, [], [];
    }

    /** ftpVfsUndoConversion. */
    method Undo(partMoved: bool, ghost rest: Disk, ghost file: Node) returns (undone: bool)
      requires file.Plain? && LeftOut(rest, path, file.id)
      requires !partMoved ==> fs.disk == rest[path := Directory][TempName(path) := file]
      requires partMoved ==> fs.disk == rest[path := Directory][PartName(path) := file]
      modifies fs
      ensures Stage(fs.disk, rest, path, file)
      ensures old(fs.history) <= fs.history
      ensures forall i :: |old(fs.history)| <= i < |fs.history| ==> Stage(fs.history[i], rest, path, file)
      ensures undone ==> fs.disk == rest[path := file]
      ensures undone <==> fs.refusals == old(fs.refusals)
      ensures fs.refusals >= old(fs.refusals)
    {
      NamesDiffer(path);
      NoPart(rest, path, file.id);
      Moves(rest, path, file);
      undone := true;
      if partMoved {
        undone := fs.RenameFile(PartName(path), TempName(path));
        assert undone ==> fs.disk == rest[path := Directory][TempName(path) := file];
      }
      assert !undone ==> PartName(path) in Children(fs.disk, path);
      var removed := fs.DeleteDirectory(path);
      assert removed ==> fs.disk == rest[TempName(path) := file];
      var restored := fs.RenameFile(TempName(path), path);
      assert restored ==> fs.disk == rest[path := file];
      undone := undone && removed && restored;
    }

    /** ftpVfsReopenForWrite: the offset stays, the allocation is read back if the card says. */
    method Reopen() returns (ok: bool)
      modifies this, fs`refusals
      ensures !ok ==> fs.refusals > old(fs.refusals) || path !in fs.disk || fs.disk[path].Directory?
      ensures fs.refusals >= old(fs.refusals)
      ensures offset == old(offset) && concatenation == old(concatenation)
      ensures id == old(id) && log == old(log) && plainAllocations == old(plainAllocations)
      ensures ok ==> open && path in fs.disk && !fs.disk[path].Directory?
      ensures ok ==> allocatedSize in {old(allocatedSize), |Content(fs.disk[path])|}
      ensures ok && fs.refusals == old(fs.refusals) ==> allocatedSize == |Content(fs.disk[path])|
      ensures !ok ==> open == old(open) && allocatedSize == old(allocatedSize)
    {
      ok := fs.OpenFile(path);
      if ok {
        open := true;
        var sized, size := fs.GetSize(path);
        if sized {
          allocatedSize := size;
        }
      }
    }

    /** Step 1: the file moves aside; a leftover of an interrupted conversion is cleared once. */
    method MoveAside(ghost file: Node) returns (ok: bool)
      requires file.Plain? && PlainUpload(fs.disk, path, file.id, file.data)
      modifies fs
      ensures old(fs.history) <= fs.history
      ensures var rest := old(fs.disk) - {path, TempName(path)};
              LeftOut(rest, path, file.id) && (ok ==> fs.disk == rest[TempName(path) := file])
      ensures !ok ==> fs.disk == old(fs.disk) || fs.disk == old(fs.disk) - {TempName(path)}
      ensures !ok ==> PlainUpload(fs.disk, path, file.id, file.data)
      ensures !ok ==> fs.refusals > old(fs.refusals) || old(TempIsDirectory())
      ensures fs.refusals >= old(fs.refusals)
      ensures forall i :: |old(fs.history)| <= i < |fs.history| ==>
                WholeAtOnePlace(fs.history[i], path, file.id, file.data)
    {
      NamesDiffer(path);
      ghost var rest := fs.disk - {path, TempName(path)};
      StillWhole(fs.disk, path, file);
      ok := fs.RenameFile(path, TempName(path));
      if ok {
        assert fs.disk == rest[TempName(path) := file];
        StageIsWhole(fs.disk, rest, path, file);
      } else {
        var removed := fs.DeleteFile(TempName(path));
        StillWhole(fs.disk, path, file);
        if removed {
          ok := fs.RenameFile(path, TempName(path));
          if ok {
            assert fs.disk == rest[TempName(path) := file];
            StageIsWhole(fs.disk, rest, path, file);
          }
        }
      }
    }

    /** Steps 2 to 4: the directory, the part, the attribute, with the way back for each failure. */
    method BuildConcatenation(ghost rest: Disk, ghost file: Node) returns (ok: bool, undone: bool)
      requires file.Plain? && LeftOut(rest, path, file.id) && fs.disk == rest[TempName(path) := file]
      modifies fs
      ensures old(fs.history) <= fs.history
      ensures forall i :: |old(fs.history)| <= i < |fs.history| ==> Stage(fs.history[i], rest, path, file)
      ensures Stage(fs.disk, rest, path, file)
      ensures ok ==> fs.disk == rest[path := Concatenation(file.id, [file.data])]
      ensures !ok && undone ==> fs.disk == rest[path := file]
      ensures !ok || !undone ==> fs.refusals > old(fs.refusals)
      // a single refused call is undone, whichever it is
      ensures !ok && fs.refusals <= old(fs.refusals) + 1 ==> fs.disk == rest[path := file]
      ensures fs.refusals >= old(fs.refusals)
    {
      NamesDiffer(path);
      NoPart(rest, path, file.id);
      Moves(rest, path, file);
      undone := true;
      ok := fs.CreateDirectory(path);
      if !ok {
        undone := fs.RenameFile(TempName(path), path);
        assert undone ==> fs.disk == rest[path := file];
        return;
      }
      ok := fs.RenameFile(TempName(path), PartName(path));
      if !ok {
        undone := Undo(false, rest, file);
        return;
      }
      assert fs.disk == rest[path := Directory][PartName(path) := file];
      ok := fs.SetConcatenationAttribute(path);
      if !ok {
        undone := Undo(true, rest, file);
        return;
      }
      assert fs.disk == rest[path := Concatenation(file.id, [file.data])];
    }

    /** ftpVfsConvertToConcatenationFile. `undone` tells that every undo call succeeded. */
    method Convert() returns (ok: bool, undone: bool)
      requires Valid() && !concatenation
      modifies this, fs
      ensures ok ==> Valid() && concatenation && open && offset == old(offset)
      ensures log == old(log) && id == old(id)
      ensures open ==> path in fs.disk && !fs.disk[path].Directory?
      ensures ok ==> Content(fs.disk[path]) == Content(old(fs.disk)[path])
      // whatever fails, and wherever power is cut, the bytes are whole in one place
      ensures old(fs.history) <= fs.history
      ensures forall i :: |old(fs.history)| <= i < |fs.history| ==>
                WholeAtOnePlace(fs.history[i], path, old(id), Content(old(fs.disk)[path]))
      ensures WholeAtOnePlace(fs.disk, path, old(id), Content(old(fs.disk)[path]))
      // a failure that could be undone leaves the plain file and no leftover
      ensures !ok && !concatenation && undone ==>
                || fs.disk == old(fs.disk)
                || fs.disk == old(fs.disk) - {TempName(path)}
      ensures concatenation ==> path in fs.disk && fs.disk[path] == Concatenation(old(id), [Content(old(fs.disk)[path])])
      // a single refused call, whichever it is, leaves the plain file, open again, or the finished concatenation file
      ensures !ok && fs.refusals <= old(fs.refusals) + 1 && !concatenation ==>
                || fs.disk == old(fs.disk)
                || fs.disk == old(fs.disk) - {TempName(path)}
      ensures !ok && fs.refusals <= old(fs.refusals) + 1 && !concatenation ==>
                open || (old(TempIsDirectory()) && fs.refusals > old(fs.refusals))
      // it fails only when a call does, or when a directory has the temporary name
      ensures !ok ==> fs.refusals > old(fs.refusals) || old(TempIsDirectory())
      ensures ok ==> !TempIsDirectory()
      ensures !undone ==> fs.refusals > old(fs.refusals)
      ensures fs.refusals >= old(fs.refusals)
    {
      hide Stage, WholeAtOnePlace;
      ghost var file := fs.disk[path];
      ghost var rest := fs.disk - {path, TempName(path)};
      NamesDiffer(path);
      OnePart(file.data);
      StillWhole(fs.disk, path, file);
      open := false;
      undone := true;
      ok := MoveAside(file);
      if ok {
        ghost var before := |fs.history|;
        ok, undone := BuildConcatenation(rest, file);
        forall i | before <= i < |fs.history|
          ensures WholeAtOnePlace(fs.history[i], path, file.id, file.data)
        {
          StageIsWhole(fs.history[i], rest, path, file);
        }
        StageIsWhole(fs.disk, rest, path, file);
      } else {
        StillWhole(fs.disk, path, file);
      }
      if ok {
        concatenation := true;
        ok := Reopen();
      } else {
        var reopened := Reopen();
      }
    }

    /** Allocates ahead, to the next multiple of 1 MiB. */
    method Allocate(required: nat) returns (ok: bool)
      requires Valid() && required > allocatedSize
      requires concatenation || !AtPlainLimit(required)
      modifies this`allocatedSize, this`plainAllocations, fs
      ensures Valid() && (ok ==> required <= allocatedSize)
      ensures ok ==> allocatedSize % WRITE_CHUNK == 0 && allocatedSize - required < WRITE_CHUNK
      ensures ok && !concatenation ==> plainAllocations == old(plainAllocations) + [allocatedSize]
      ensures fs.history == old(fs.history) + [fs.disk]
      ensures !ok ==> fs.refusals > old(fs.refusals) || RoundUp(required) > CARD_MAX
      ensures fs.refusals >= old(fs.refusals)
      ensures TempIsDirectory() == old(TempIsDirectory())
    {
      NamesDiffer(path);
      ghost var before := fs.disk;
      var allocation := RoundUp(required);
      ok := fs.SetSize(path, allocation);
      if !ok {
        return;
      }
      if !concatenation {
        plainAllocations := plainAllocations + [allocation];
      }
      allocatedSize := allocation;
      assert Children(fs.disk, path) == Children(before, path);
      assert Content(fs.disk[path])[..offset] == Content(before[path])[..offset];
    }

    /** ftpVfsWriteChunk: allocate ahead, write, advance. */
    method WriteChunk(buffer: seq<byte>) returns (ok: bool)
      requires Valid() && |buffer| <= 0x7FFF_FFFF
      requires concatenation || !AtPlainLimit(offset + |buffer|)
      modifies this, fs
      ensures Valid() && id == old(id) && concatenation == old(concatenation) && open == old(open)
      ensures log == if ok then old(log) + buffer else old(log)
      ensures old(fs.history) <= fs.history
      ensures forall i :: |old(fs.history)| <= i < |fs.history| ==> Keeps(fs.history[i], path, id, old(log))
      ensures !ok ==> fs.refusals > old(fs.refusals) || RoundUp(old(offset) + |buffer|) > CARD_MAX
      ensures fs.refusals >= old(fs.refusals)
      ensures TempIsDirectory() == old(TempIsDirectory())
    {
      hide Keeps, Upload.Valid, TempName, RoundUp, AtPlainLimit;
      OffsetIsLength();
      ghost var before := log;
      var required := offset + |buffer|;
      ok := true;
      if required > allocatedSize {
        ok := Allocate(required);
      }
      ValidKeeps();
      if ok {
        ok := WriteAllocated(buffer);
        ValidKeeps();
        KeepsBeginning(fs.disk, path, id, log, before);
      }
    }

    /** The write itself, once the space is there. */
    method WriteAllocated(buffer: seq<byte>) returns (ok: bool)
      requires Valid() && offset + |buffer| <= allocatedSize
      modifies this`offset, this`log, fs
      ensures Valid() && fs.history == old(fs.history) + [fs.disk]
      ensures log == if ok then old(log) + buffer else old(log)
      ensures !ok ==> fs.refusals > old(fs.refusals)
      ensures fs.refusals >= old(fs.refusals)
      ensures TempIsDirectory() == old(TempIsDirectory())
    {
      NamesDiffer(path);
      ghost var before := fs.disk;
      ok := fs.WriteFile(path, offset, buffer);
      if !ok {
        return;
      }
      assert Children(fs.disk, path) == Children(before, path);
      offset := offset + |buffer|;
      log := log + buffer;
      assert Content(fs.disk[path])[..offset] == log;
    }

    lemma ValidKeeps()
      requires Valid()
      ensures Keeps(fs.disk, path, id, log)
    {
    }

    /** What ftp_vfs_write does before the write that would pass the plain limit. */
    method PassPlainLimit() returns (ok: bool)
      requires Valid() && !concatenation
      modifies this, fs
      ensures ok ==> Valid() && open && concatenation && offset == old(offset)
      ensures log == old(log) && id == old(id)
      ensures old(fs.history) <= fs.history && Keeps(fs.disk, path, id, log)
      ensures forall i :: |old(fs.history)| <= i < |fs.history| ==> Keeps(fs.history[i], path, id, log)
      ensures ok ==> !TempIsDirectory()
      ensures !ok ==> fs.refusals > old(fs.refusals) || old(TempIsDirectory())
      ensures fs.refusals >= old(fs.refusals)
    {
      hide PlainUpload, WholeAtOnePlace, Children, HasFirstPart;
      concatenation := fs.OpenFirstPart(path);
      // a plain file has no parts to open
      assert !concatenation by { NoFirstPart(fs.disk, path, id, Content(fs.disk[path])); }
      ghost var data, received := Content(fs.disk[path]), |fs.history|;
      ok := true;
      if !concatenation {
        var undone;
        ok, undone := Convert();
        WholeKeeps(fs.disk, path, id, data, log);
        forall i | received <= i < |fs.history| ensures Keeps(fs.history[i], path, id, log) {
          WholeKeeps(fs.history[i], path, id, data, log);
        }
      }
    }

    lemma OffsetIsLength()
      requires Valid()
      ensures offset == |log|
    {
    }

    /** ftp_vfs_write. */
    method Write(buffer: seq<byte>) returns (ok: bool)
      requires Valid() && open && |buffer| <= 0x7FFF_FFFF
      modifies this, fs
      ensures ok ==> Valid() && open && log == old(log) + buffer
      ensures id == old(id) && (!ok ==> log == old(log))
      // the file is converted exactly when its size, rounded up, would pass the plain limit
      ensures ok ==>
        (concatenation <==> old(concatenation) || (|buffer| > 0 && RoundUp(old(offset) + |buffer|) > PLAIN_FILE_MAX))
      // whatever fails, and wherever power is cut, the bytes received before are whole in one place
      ensures old(fs.history) <= fs.history && Keeps(fs.disk, path, id, log)
      ensures forall i :: |old(fs.history)| <= i < |fs.history| ==> Keeps(fs.history[i], path, id, old(log))
      ensures ok && TempIsDirectory() ==> old(TempIsDirectory())
      ensures !ok ==> fs.refusals > old(fs.refusals) || old(TempIsDirectory()) || RoundUp(old(offset) + |buffer|) > CARD_MAX
      ensures fs.refusals >= old(fs.refusals)
    {
      hide RoundUp, AtPlainLimit, TempName, Upload.Valid, Keeps;
      OffsetIsLength();
      ValidKeeps();
      LimitIsRounded(offset + |buffer|);
      var required := offset + |buffer|;
      if !concatenation && !AtPlainLimit(required) {
        ok := WriteChunk(buffer);
        ValidKeeps();
        return;
      }
      var done := 0;
      while done < |buffer|
        invariant Valid() && open && done <= |buffer|
        invariant log == old(log) + buffer[..done] && id == old(id) && offset == old(offset) + done
        invariant done == 0 || done == |buffer|
        invariant old(concatenation) ==> concatenation
        invariant concatenation && !old(concatenation) ==> |buffer| > 0 && AtPlainLimit(old(offset) + |buffer|)
        invariant done > 0 && AtPlainLimit(old(offset) + |buffer|) ==> concatenation
        invariant old(fs.history) <= fs.history
        invariant forall i :: |old(fs.history)| <= i < |fs.history| ==> Keeps(fs.history[i], path, id, old(log))
        invariant TempIsDirectory() ==> old(TempIsDirectory())
        invariant fs.refusals >= old(fs.refusals)
        decreases |buffer| - done, !concatenation
      {
        var want := offset + (|buffer| - done);
        if !concatenation && AtPlainLimit(want) {
          ok := PassPlainLimit();
          if !ok {
            return;
          }
          continue;
        }
        assert buffer[..done] == [] && log == old(log) + [] == old(log);
        ok := WriteChunk(buffer[done..]);
        ValidKeeps();
        if !ok {
          // so the second attempt to convert, after a refused allocation, is never reached
          assert concatenation || !AtPlainLimit(want);
          return;
        }
        assert buffer[..done] + buffer[done..] == buffer == buffer[..|buffer|];
        done := |buffer|;
        OffsetIsLength();
      }
      assert buffer[..done] == buffer;
      ValidKeeps();
      ok := true;
    }

    /** ftp_vfs_close: the result of the final trim is not looked at. */
    method Close() returns (trimmed: bool)
      requires Valid() && open
      modifies this, fs
      ensures !open && path in fs.disk && log == old(log) && allocatedSize == old(allocatedSize)
      ensures log <= Content(fs.disk[path]) && id == old(id)
      ensures concatenation == old(concatenation) && (fs.disk[path].Concatenation? <==> concatenation)
      ensures fs.history == old(fs.history) + [fs.disk] && Keeps(fs.disk, path, id, log)
      ensures Content(fs.disk[path]) == log <==> trimmed || old(allocatedSize) == |log|
      ensures !trimmed ==> fs.refusals > old(fs.refusals)
      ensures fs.refusals >= old(fs.refusals)
    {
      ValidKeeps();
      trimmed := fs.SetSize(path, offset);
      assert StoredAt(fs.disk, path, id, Content(fs.disk[path]));
      open := false;
    }
  }

  lemma TempStays(path: string)
    ensures TempName(path) != path
  {
    NamesDiffer(path);
  }

  lemma EmptiedUpload(before: Disk, after: Disk, path: string)
    requires UniqueIds(before) && Children(before, path) == {} && path in before && !before[path].Directory?
    requires Replaced(before, after, path, [])
    ensures after[path].Plain? ==> PlainUpload(after, path, after[path].id, [])
  {
    assert Children(after, path) == Children(before, path);
  }

  lemma NoFirstPart(disk: Disk, path: string, id: nat, data: seq<byte>)
    requires PlainUpload(disk, path, id, data)
    ensures !HasFirstPart(disk, path)
  {
    NamesDiffer(path);
    assert PartName(path) in disk ==> PartName(path) in Children(disk, path);
  }

  lemma StillWhole(disk: Disk, path: string, file: Node)
    requires file.Plain? && PlainUpload(disk, path, file.id, file.data)
    ensures WholeAtOnePlace(disk, path, file.id, file.data)
  {
    assert StoredAt(disk, path, file.id, file.data);
  }

  // ----- a whole STOR -----

  function Joined(buffers: seq<seq<byte>>, n: nat): seq<byte>
    requires n <= |buffers|
  {
    if n == 0 then [] else Joined(buffers, n - 1) + buffers[n - 1]
  }

  lemma {:induction false} JoinedGrows(buffers: seq<seq<byte>>, m: nat, n: nat)
    requires m <= n <= |buffers|
    ensures |Joined(buffers, m)| <= |Joined(buffers, n)|
    ensures RoundUp(|Joined(buffers, m)|) <= RoundUp(|Joined(buffers, n)|)
    decreases n - m
  {
    hide RoundUp;
    if m == n {
    } else {
      JoinedGrows(buffers, m + 1, n);
      RoundUpGrows(|Joined(buffers, m)|, |Joined(buffers, m + 1)|);
    }
  }

  lemma RoundUpZero()
    ensures RoundUp(0) == 0
  {
  }

  lemma RoundUpGrows(a: nat, b: nat)
    requires a <= b
    ensures RoundUp(a) <= RoundUp(b)
  {
  }

  /** Open, write every buffer, close: wherever the conversion fell, the path reads as the buffers one after the other,
      followed by what was allocated ahead if the final trim failed, which close does not report. When it fails, the
      `written` buffers that were accepted are still whole in one place. */
  method Store(upload: Upload, newId: nat, buffers: seq<seq<byte>>) returns (ok: bool, trimmed: bool, ghost written: nat)
    requires !upload.open && UniqueIds(upload.fs.disk) && Nested(upload.fs.disk, upload.path)
    requires forall q | q in upload.fs.disk :: !HasId(upload.fs.disk[q], newId)
    requires forall i :: 0 <= i < |buffers| ==> |buffers[i]| <= 0x7FFF_FFFF
    modifies upload, upload.fs
    ensures ok ==> upload.path in upload.fs.disk && Joined(buffers, |buffers|) <= Content(upload.fs.disk[upload.path])
    ensures ok ==> (Content(upload.fs.disk[upload.path]) == Joined(buffers, |buffers|)
                    <==> trimmed || upload.allocatedSize == |Joined(buffers, |buffers|)|)
    ensures ok && !trimmed ==> upload.fs.refusals > old(upload.fs.refusals)
    ensures ok ==>
      (upload.fs.disk[upload.path].Concatenation? <==> RoundUp(|Joined(buffers, |buffers|)|) > PLAIN_FILE_MAX)
    // what was accepted is kept, whether the transfer succeeds or not
    ensures written <= |buffers| && (ok ==> written == |buffers|)
    ensures written > 0 ==> Keeps(upload.fs.disk, upload.path, upload.id, Joined(buffers, written))
    // it fails only when a call does, when a directory is in the way, or when the card is full
    ensures !ok ==>
      || upload.fs.refusals > old(upload.fs.refusals) || old(upload.TempIsDirectory())
      || (upload.path in old(upload.fs.disk) && old(upload.fs.disk)[upload.path].Directory?)
      || RoundUp(|Joined(buffers, |buffers|)|) > CARD_MAX
  {
    hide RoundUp, Keeps, TempName, Upload.Valid, UniqueIds, Nested;
    trimmed, written := false, 0;
    ok := upload.Open(newId);
    if !ok || !upload.fs.IsPlain(upload.path) {
      return false, false, 0;
    }
    RoundUpZero();
    for i := 0 to |buffers|
      invariant upload.Valid() && upload.open && upload.log == Joined(buffers, i) && written == i
      invariant upload.concatenation <==> RoundUp(|Joined(buffers, i)|) > PLAIN_FILE_MAX
      invariant i > 0 ==> Keeps(upload.fs.disk, upload.path, upload.id, Joined(buffers, i))
      invariant upload.TempIsDirectory() ==> old(upload.TempIsDirectory())
      invariant upload.fs.refusals >= old(upload.fs.refusals)
    {
      JoinedGrows(buffers, i, i + 1);
      JoinedGrows(buffers, i + 1, |buffers|);
      upload.OffsetIsLength();
      ok := upload.Write(buffers[i]);
      if !ok {
        return;
      }
      written := written + 1;
    }
    trimmed := upload.Close();
    ok := true;
  }
}
