/** spillStore: row bytes in a file behind a buffered writer, read through a mapping that is refreshed when it is too short. */
module Spill {
  import opened Words

  class SpillStore {
    var file: Bytes     // what the file holds
    var pending: Bytes  // written, but still in the buffered writer
    var size: nat       // bytes appended so far, including pending ones
    var mapped: Bytes   // the current mapping; a file that grows is seen through it only after a remap

    ghost predicate Valid()
      reads this
    {
      size == |file| + |pending| && |mapped| <= |file| && mapped == file[..|mapped|]
    }

    /** Everything appended so far. */
    ghost function Contents(): (c: Bytes)
      reads this
    {
      file + pending
    }

    constructor ()
      ensures Valid() && Contents() == []
    {
      file, pending, size, mapped := [], [], 0, [];
    }

    /** The buffered writer passes on as much as it likes. */
    method Drain(n: nat)
      requires Valid() && n <= |pending|
      modifies this`file, this`pending
      ensures Valid() && Contents() == old(Contents()) && |pending| == old(|pending|) - n
    {
      file, pending := file + pending[..n], pending[n..];
    }

    /** append; `passed` is how much of the buffer reaches the file on this occasion */
    method Append(key: Bytes, value: Bytes, passed: nat) returns (off: nat)
      requires Valid()
      modifies this
      ensures Valid() && off == |old(Contents())| && Contents() == old(Contents()) + (key + value)
    {
      off := size;
      pending := pending + key + value;
      size := size + |key| + |value|;
      assert file + pending == old(file + pending) + (key + value);
      Drain(if passed <= |pending| then passed else |pending|);
    }

    /** remap */
    method Remap()
      requires Valid()
      modifies this
      ensures Valid() && Contents() == old(Contents()) && size == old(size) && |mapped| == size
    {
      Drain(|pending|);
      mapped := [];
      if size == 0 {
        return;
      }
      mapped := file;
    }

    /** view: n bytes at off, whatever part of them has reached the file or the mapping */
    method View(off: nat, n: nat) returns (v: Bytes)
      requires Valid() && off + n <= size
      modifies this
      ensures Valid() && Contents() == old(Contents()) && size == old(size)
      ensures v == Contents()[off..off + n]
    {
      if off + n > |mapped| {
        Remap();
      }
      v := mapped[off..off + n];
      assert Contents()[..|mapped|] == mapped;
    }

    /** truncate */
    method Truncate(to: nat)
      requires Valid() && to <= size
      modifies this
      ensures Valid() && Contents() == old(Contents())[..to] && size == to
    {
      Drain(|pending|);
      mapped := [];
      file := file[..to];
      pending := [];
      size := to;
    }
  }
}
