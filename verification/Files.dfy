/** A stdio file whose calls may fail, and memcpy. */
module Files {
  import opened Bytes

  function Overwrite(content: seq<byte>, at: nat, data: seq<byte>): seq<byte>
    requires at <= |content|
  {
    content[..at] + data + (if at + |data| <= |content| then content[at + |data|..] else [])
  }

  /** `faulted` records that some call failed although the file could have served it. */
  class File {
    var content: seq<byte>
    var pos: nat
    var faulted: bool

    constructor ()
      ensures content == [] && pos == 0 && !faulted
    {
      content := [];
      pos := 0;
      faulted := false;
    }

    method Seek(to: nat) returns (ok: bool)
      modifies this`pos, this`faulted
      ensures ok ==> pos == to && faulted == old(faulted)
      ensures !ok ==> faulted && pos == old(pos)
    {
      ok := *;
      if ok {
        pos := to;
      } else {
        faulted := true;
      }
    }

    method Read(size: nat) returns (ok: bool, data: seq<byte>)
      modifies this`pos, this`faulted
      ensures ok ==> old(pos) + size <= |content| && data == content[old(pos)..old(pos) + size]
      ensures ok ==> pos == old(pos) + size && faulted == old(faulted)
      ensures !ok ==> old(pos) + size > |content| || faulted
      ensures old(faulted) ==> faulted
    {
      var served: bool := *;
      ok := served && pos + size <= |content|;
      if ok {
        data := content[pos..pos + size];
        pos := pos + size;
      } else {
        data := [];
        faulted := faulted || !served;
      }
    }

    /** A failed write may leave any part of the data behind. */
    method Write(data: seq<byte>) returns (ok: bool)
      requires pos <= |content|
      modifies this
      ensures ok ==> content == Overwrite(old(content), old(pos), data) && pos == old(pos) + |data|
      ensures ok ==> |content| <= LONG_MAX && faulted == old(faulted)
      ensures !ok ==> faulted && pos <= |content|
      ensures !ok ==> exists part | 0 <= part <= |data| :: content == Overwrite(old(content), old(pos), data[..part])
    {
      ok := *;
      var written := Overwrite(content, pos, data);
      if ok && |written| <= LONG_MAX {
        content := written;
        pos := pos + |data|;
      } else {
        ok := false;
        var part: nat :| part <= |data|;
        content := Overwrite(content, pos, data[..part]);
        faulted := true;
      }
    }
  }

  /** memcpy(target + at, data, |data|) */
  method CopyInto(target: array<byte>, at: nat, data: seq<byte>)
    requires at + |data| <= target.Length
    modifies target
    ensures target[..] == old(target[..at]) + data + old(target[at + |data|..])
  {
    forall i | 0 <= i < |data| {
      target[at + i] := data[i];
    }
  }
}
