/** The log follower as the program runs it (tail.c). */
module Follower {
  import opened Common
  import opened LogFollowing
  import opened Pacing

  /** linecount. */
  method LineCount(buff: array<char>, len: nat) returns (ctr: nat)
    requires len <= buff.Length
    ensures ctr == NewlineCount(buff[..len])
    ensures ctr == multiset(buff[..len])['\n']
  {
    ctr := 0;
    for i := 0 to len
      invariant ctr == NewlineCount(buff[..i])
    {
      assert buff[..i + 1][..i] == buff[..i];
      if buff[i] == '\n' {
        ctr := ctr + 1;
      }
    }
    NewlinesCounted(buff[..len]);
  }

  class Tail {
    var handle: Option<Handle>
    var last: int
    var paws: nat
    var buff: array<char>
    var bufflen: nat

    ghost function Now(): State
      reads this
    {
      State(handle, last, paws)
    }

    /** The buffer has room for the text and the NUL after it, and the delay is between a microsecond and a second. */
    ghost predicate Valid()
      reads this
    {
      bufflen < buff.Length && InRange(paws)
    }

    /** tail_open, when the log is there: the program follows it from its end. */
    constructor (disk: Disk, now: int)
      requires disk.WellFormed() && disk.path.Some?
      ensures Valid() && fresh(buff)
      ensures Now() == State(Some(Handle(disk.path.value, |disk.text[disk.path.value]|)), now, 1000000)
    {
      handle := Some(Handle(disk.path.value, |disk.text[disk.path.value]|));
      last, paws := now, PAWS_MAX;
      buff := new char[1024];
      bufflen := 0;
    }

    /**
     * tail_reopen, with the position in the file that was open. Nothing is open afterwards exactly if the name
     * names no file. The position never lies past the end; it is kept exactly if the file is long enough to
     * hold it, and a file that is not is taken to be new. So a file that is still the one followed keeps its
     * place.
     */
    method TailReopen(disk: Disk, current: nat)
      requires disk.WellFormed()
      modifies this`handle
      ensures handle.None? <==> disk.path.None?
      ensures handle.Some? ==> disk.path == Some(handle.value.file)
      ensures handle.Some? ==> handle.value.offset <= |disk.text[handle.value.file]|
      ensures handle.Some? ==> (handle.value.offset == current <==> current <= |disk.text[handle.value.file]|)
      ensures handle.Some? && handle.value.offset != current ==> handle.value.offset == 0
      ensures old(handle.Some?) && Fits(old(Now()), disk) && current == old(handle.value.offset) ==>
        (handle == old(handle) <==> disk.path == Some(old(handle.value.file)))
    {
      if disk.path.None? {
        handle := None;
        return;
      }
      var file := disk.path.value;
      var end := |disk.text[file]|;
      if end < current {
        handle := Some(Handle(file, 0));
      } else {
        handle := Some(Handle(file, current));
      }
    }

    /** tail_read: the buffer holds what the pass hands on. */
    method TailRead(p: Pass)
      requires Valid() && Fits(Now(), p.disk)
      modifies this, buff
      ensures Valid() && Now() == After(old(Now()), p)
      ensures buff[..bufflen] == Chunk(old(Now()), p)
      ensures !Reopens(old(Now()), p) ==> buff[bufflen] == '\0'
      ensures buff == old(buff) || fresh(buff)
    {
      hide NewlineCount;
      if handle.None? {
        TailReopen(p.disk, 0);
        last := p.now;
        bufflen := 0;
        return;
      }
      var file, current := handle.value.file, handle.value.offset;
      var end := |p.disk.text[file]|;
      if end > current {
        last := p.now;
      }
      if p.now - last > p.suspicious {
        TailReopen(p.disk, current);
        last := p.now;
        bufflen := 0;
        return;
      }
      bufflen := end - current;
      ghost var chunk := p.disk.text[file][current..];
      PaceInRange(paws, NewlineCount(chunk));
      if bufflen > 0 {
        buff := new char[bufflen + 1];
      }
      forall i | 0 <= i < bufflen {
        buff[i] := p.disk.text[file][current + i];
      }
      buff[bufflen] := '\0';
      assert buff[..bufflen] == chunk;
      handle := Some(Handle(file, end));
      var lines := LineCount(buff, bufflen);
      assert lines == NewlineCount(chunk);
      if lines > 0 {
        paws := paws / lines;
        if paws == 0 {
          paws := 1;
        }
      } else {
        paws := paws * 2;
        paws := if paws > PAWS_MAX then PAWS_MAX else paws;
      }
    }
  }
}
