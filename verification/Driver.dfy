/** The character driver's file operations (aesd-char-driver/main.c) over the ring and the
    allocator. The device's meaning is the fold of its write history. */
module Driver {
  import opened Contents
  import opened Ring
  import opened Segmentation
  import opened KernelMemory
  import opened Ownership

  const ENOMEM := 12
  const EFAULT := 14
  const EINVAL := 22
  const ENOTTY := 25
  const ERESTARTSYS := 512

  /** An `unsigned int` argument. */
  type uint32 = x: nat | x < 0x1_0000_0000

  /** What can go wrong in one call: a signal while the device's mutex is awaited, krealloc without
      memory, a bad user address. */
  datatype Faults = Faults(interrupted: bool, noMemory: bool, faulty: bool)

  /** struct file: only its position matters here. */
  class OpenFile {
    var fPos: nat

    constructor ()
      ensures fPos == 0
    {
      fPos := 0;
    }
  }

  /** How a write call that returned `retval` is remembered. */
  function CallOf(buf: seq<Byte>, retval: int): WriteCall {
    if retval == -ENOMEM then NoMemory(buf)
    else if retval == -EFAULT then Fault(buf)
    else if retval == -ERESTARTSYS then Interrupted(buf)
    else Stored(buf)
  }

  /** The position llseek would set; None when it answers -EINVAL. */
  function SeekTarget(off: int, whence: int, pos: nat, size: nat): Option<nat> {
    var newPos :=
      if whence == 0 then off
      else if whence == 1 then pos + off
      else if whence == 2 then size + off
      else -1;
    if newPos < 0 then None else Some(newPos)
  }

  /** The three origins are one law: from the beginning exactly the non-negative offsets are
      positions; from the current position and from the end, it is the offset from the beginning
      that the sum names; and there is no other origin. */
  lemma {:induction false} SeekLaws(off: int, whence: int, pos: nat, size: nat)
    ensures SeekTarget(off, 0, pos, size) == if off >= 0 then Some(off) else None
    ensures SeekTarget(off, 1, pos, size) == SeekTarget(pos + off, 0, pos, size)
    ensures SeekTarget(off, 2, pos, size) == SeekTarget(size + off, 0, pos, size)
    ensures whence !in {0, 1, 2} ==> SeekTarget(off, whence, pos, size) == None
  {
  }

  /** SEEK_END with offset 0 is the least position at which a read returns nothing. */
  lemma {:induction false} SeekEndIsWhereReadsStop(es: seq<seq<Byte>>, pos: nat, p: nat, count: nat)
    requires count > 0
    ensures var end := SeekTarget(0, 2, pos, |Flatten(es)|);
            end.Some? && (ReadPiece(es, p, count) == [] <==> p >= end.value)
  {
    ReadPieceIsNext(es, p, count);
  }

  class Device {
    const buffer: CircularBuffer
    const memory: Slab
    var entry: Entry
    /** Every write call ever made on the device and how it ended. */
    ghost var calls: seq<WriteCall>

    ghost predicate Valid()
      reads this, buffer, buffer.entry, memory
    {
      buffer.Valid() && Represents(Replay(calls), buffer.log, entry, memory.blocks)
    }

    ghost function State(): DeviceState
      reads this
    {
      Replay(calls)
    }

    /** The entries a reader sees, oldest first. */
    ghost function Entries(): seq<seq<Byte>>
      reads this
    {
      Window(Replay(calls).commits)
    }

    constructor ()
      ensures Valid() && calls == []
      ensures fresh(buffer) && fresh(buffer.entry) && fresh(memory)
    {
      buffer := new CircularBuffer();
      memory := new Slab();
      entry := EMPTY_ENTRY;
      calls := [];
    }

    lemma EntriesHeld()
      requires Valid()
      ensures EntrySizes(Window(buffer.log)) == Sizes(Entries())
      ensures forall i :: 0 <= i < |Entries()| ==> Holds(memory.blocks, Window(buffer.log)[i], Entries()[i])
    {
      var k := |buffer.log| - |Entries()|;
      forall i | 0 <= i < |Entries()|
        ensures Holds(memory.blocks, Window(buffer.log)[i], Entries()[i])
      {
        assert Holds(memory.blocks, buffer.log[k + i], Replay(calls).commits[k + i]);
      }
    }

    /** The bytes one read hands out: the rest of the entry that holds the position, at most
        `count` of them, or none at all. */
    method PieceAt(pos: nat, count: nat) returns (bytes: seq<Byte>)
      requires Valid()
      ensures bytes == ReadPiece(Entries(), pos, count)
    {
      EntriesHeld();
      var found := buffer.FindEntryOffsetForFpos(pos);
      match found
      case None => bytes := [];
      case Some(f) =>
        var e := buffer.entry[f.slot];
        PieceInBlock(Entries(), Window(buffer.log), memory.blocks, pos, count);
        var entryRemainingBytes := e.size - f.offset;
        var bytesToRead := if entryRemainingBytes >= count then count else entryRemainingBytes;
        bytes := memory.blocks[e.buffptr][f.offset..f.offset + bytesToRead];
    }

    /** aesd_read */
    method Read(file: OpenFile, count: nat, interrupted: bool, faulty: bool)
      returns (retval: int, out: seq<Byte>)
      requires Valid()
      modifies file
      ensures var piece := ReadPiece(Entries(), old(file.fPos), count);
              if interrupted then retval == -ERESTARTSYS && out == [] && file.fPos == old(file.fPos)
              else if faulty && piece != [] then retval == -EFAULT && out == [] && file.fPos == old(file.fPos)
              else retval == |piece| && out == piece && file.fPos == old(file.fPos) + |piece|
    {
      if interrupted {
        return -ERESTARTSYS, [];
      }
      var bytes := PieceAt(file.fPos, count);
      if faulty && bytes != [] {
        return -EFAULT, [];
      }
      file.fPos := file.fPos + |bytes|;
      return |bytes|, bytes;
    }

    /** aesd_write */
    method Write(file: OpenFile, buf: seq<Byte>, faults: Faults) returns (retval: int)
      requires Valid()
      modifies this, buffer, buffer.entry, memory, file
      ensures Valid()
      ensures retval == if faults.interrupted then -ERESTARTSYS
                        else if faults.noMemory then -ENOMEM
                        else if faults.faulty && buf != [] then -EFAULT
                        else |buf|
      ensures calls == old(calls) + [CallOf(buf, retval)]
      ensures State() == Apply(old(State()), CallOf(buf, retval))
      ensures file.fPos == old(file.fPos) + (if retval == |buf| then |buf| else 0)
      // no block the ring references, or ever referenced, is freed, resized or rewritten
      ensures forall p :: p in old(Pointers(buffer.log)) ==>
                p in memory.blocks && memory.blocks[p] == old(memory.blocks)[p]
    {
      if faults.interrupted {
        Remember(Interrupted(buf));
        return -ERESTARTSYS;
      }
      ghost var d, log, blocks := State(), buffer.log, memory.blocks;
      retval := Accumulate(buf, faults.noMemory, faults.faulty, d);
      if retval == 0 {
        CommitIfComplete(d.(pending := d.pending + buf));
        retval := |buf|;
        file.fPos := file.fPos + |buf|;
      }
      Remember(CallOf(buf, retval));
      CommittedKept(d, log, blocks, State(), buffer.log, entry, memory.blocks);
    }

    /** The first half of aesd_write under the lock: the pending entry grows by `buf`, stays as
        it was (-ENOMEM), or is dropped (-EFAULT). */
    method Accumulate(buf: seq<Byte>, noMemory: bool, faulty: bool, ghost d: DeviceState) returns (retval: int)
      requires Represents(d, buffer.log, entry, memory.blocks)
      modifies this`entry, memory
      ensures retval == if noMemory then -ENOMEM else if faulty && buf != [] then -EFAULT else 0
      ensures retval == 0 ==> Represents(d.(pending := d.pending + buf), buffer.log, entry, memory.blocks)
      ensures retval == -ENOMEM ==> entry == old(entry) && memory.blocks == old(memory.blocks)
      ensures retval == -EFAULT ==> Represents(d.(pending := []), buffer.log, entry, memory.blocks)
    {
      ghost var log, e, blocks := buffer.log, entry, memory.blocks;
      var currentSize := entry.size;
      var newSize := currentSize + |buf|;
      var tmp := memory.Krealloc(entry.buffptr, newSize, noMemory);
      if tmp == NULL {
        return -ENOMEM;
      }
      entry := entry.(buffptr := tmp);
      ghost var resized := memory.blocks;
      assert tmp in resized ==> resized[tmp][..currentSize] == d.pending;
      var failed := memory.CopyIn(tmp, currentSize, buf, faulty);
      if failed {
        ResizedThenFreed(blocks, e.buffptr, tmp, resized, memory.blocks);
        memory.Kfree(tmp);
        entry := EMPTY_ENTRY;
        RepresentsDropped(d, log, e, blocks);
        return -EFAULT;
      }
      entry := entry.(size := newSize);
      if newSize > 0 {
        CopiedBehind(resized[tmp], d.pending, buf, memory.blocks[tmp]);
      }
      RepresentsGrown(d, log, e, blocks, entry, d.pending + buf, memory.blocks);
      retval := 0;
    }

    /** The second half: a pending entry that holds a newline moves into the ring. */
    method CommitIfComplete(ghost d: DeviceState)
      requires buffer.Valid() && Represents(d, buffer.log, entry, memory.blocks)
      modifies this`entry, buffer, buffer.entry
      ensures buffer.Valid() && old(buffer.log) <= buffer.log
      ensures Represents(if '\n' in d.pending then DeviceState(d.commits + [d.pending], []) else d,
                         buffer.log, entry, memory.blocks)
    {
      var bytes := if entry.size > 0 then memory.blocks[entry.buffptr] else [];
      if '\n' in bytes {
        RepresentsCommitted(d, buffer.log, entry, memory.blocks);
        buffer.AddEntry(entry);
        entry := EMPTY_ENTRY;
      }
    }

    /** Extends the history; no executable effect. */
    ghost method Remember(call: WriteCall)
      modifies this`calls
      ensures calls == old(calls) + [call]
      ensures State() == Apply(old(State()), call)
    {
      calls := calls + [call];
      assert calls[..|calls| - 1] == old(calls);
    }

    /** aesd_seek */
    method Seek(file: OpenFile, off: int, whence: int, interrupted: bool) returns (retval: int)
      requires Valid()
      modifies file
      ensures var target := SeekTarget(off, whence, old(file.fPos), |Flatten(Entries())|);
              if interrupted then retval == -ERESTARTSYS && file.fPos == old(file.fPos)
              else match target
                   case None => retval == -EINVAL && file.fPos == old(file.fPos)
                   case Some(pos) => retval == pos && file.fPos == pos
      // the same without SeekTarget
      ensures !interrupted && whence == 0 ==> retval == if off >= 0 then off else -EINVAL
      ensures !interrupted && whence == 1 ==>
                var p := old(file.fPos) + off; retval == if p >= 0 then p else -EINVAL
      ensures !interrupted && whence == 2 ==>
                var p := |Flatten(Entries())| + off; retval == if p >= 0 then p else -EINVAL
      ensures !interrupted && whence !in {0, 1, 2} ==> retval == -EINVAL
      ensures file.fPos == if retval >= 0 then retval else old(file.fPos)
    {
      if interrupted {
        return -ERESTARTSYS;
      }
      var newPos: int;
      if whence == 0 {
        newPos := off;
      } else if whence == 1 {
        newPos := file.fPos + off;
      } else if whence == 2 {
        EntriesHeld();
        FlattenLength(Entries());
        var size := buffer.CalculateSize();
        newPos := size + off;
      } else {
        return -EINVAL;
      }
      if newPos < 0 {
        return -EINVAL;
      }
      file.fPos := newPos;
      retval := newPos;
    }

    /** aesd_adjust_file_offset */
    method AdjustFileOffset(file: OpenFile, writeCmd: uint32, writeCmdOffset: uint32, interrupted: bool)
      returns (retval: int)
      requires Valid()
      modifies file
      ensures var at := Place(writeCmd, writeCmdOffset);
              if interrupted then retval == -ERESTARTSYS && file.fPos == old(file.fPos)
              else if ValidPlace(Sizes(Entries()), at)
              then retval == 0 && file.fPos == PositionOf(Sizes(Entries()), at)
              else retval == -EINVAL && file.fPos == old(file.fPos)
    {
      if interrupted {
        return -ERESTARTSYS;
      }
      EntriesHeld();
      var target := PositionOfCommand(buffer, writeCmd, writeCmdOffset);
      match target
      case None =>
        retval := -EINVAL;
      case Some(pos) =>
        file.fPos := pos;
        retval := 0;
    }

    /** aesd_ioctl; `isSeekTo` says whether the command number is AESDCHAR_IOCSEEKTO. */
    method Ioctl(file: OpenFile, isSeekTo: bool, writeCmd: uint32, writeCmdOffset: uint32,
                 interrupted: bool, faulty: bool)
      returns (retval: int)
      requires Valid()
      modifies file
      ensures var at := Place(writeCmd, writeCmdOffset);
              retval == (if !isSeekTo then -ENOTTY else if faulty then -EFAULT
                         else if interrupted then -ERESTARTSYS
                         else if ValidPlace(Sizes(Entries()), at) then 0 else -EINVAL)
              && file.fPos == (if retval == 0 then PositionOf(Sizes(Entries()), at) else old(file.fPos))
    {
      if !isSeekTo {
        return -ENOTTY;
      }
      if faulty {
        return -EFAULT;
      }
      retval := AdjustFileOffset(file, writeCmd, writeCmdOffset, interrupted);
    }

    /** The freeing part of aesd_cleanup_module: the pending block and the ten slots' blocks are
        each freed once; what stays live is exactly the blocks of evicted entries. */
    method Cleanup()
      requires Valid()
      modifies memory
      ensures var k := |buffer.log| - |Window(buffer.log)|;
              memory.blocks.Keys == Pointers(buffer.log[..k])
      ensures memory.blocks.Keys == old(memory.blocks).Keys - Pointers(Window(buffer.log)) - PendingPointers(entry)
    {
      memory.Kfree(entry.buffptr);
      FreeSlots(buffer, memory);
    }
  }

  /** The piece lies in the block of the entry found. */
  lemma {:induction false} PieceInBlock(es: seq<seq<Byte>>, entries: seq<Entry>, blocks: map<nat, seq<Byte>>,
                                        pos: nat, count: nat)
    requires |entries| == |es| && forall i :: 0 <= i < |es| ==> Holds(blocks, entries[i], es[i])
    requires EntrySizes(entries) == Sizes(es) && Locate(Sizes(es), pos).Some?
    ensures var at := Locate(EntrySizes(entries), pos).value;
            var e := entries[at.index];
            && e.buffptr in blocks && e.size == |blocks[e.buffptr]| && at.offset < e.size
            && var n := if e.size - at.offset >= count then count else e.size - at.offset;
               ReadPiece(es, pos, count) == blocks[e.buffptr][at.offset..at.offset + n]
  {
    var at := Locate(Sizes(es), pos).value;
    assert Holds(blocks, entries[at.index], es[at.index]);
    ReadPieceAt(es, pos, count);
  }

  lemma {:induction false} ResizedThenFreed(blocks: map<nat, seq<Byte>>, p: nat, q: nat,
                                            resized: map<nat, seq<Byte>>, copied: map<nat, seq<Byte>>)
    requires q == p || q !in blocks
    requires q in resized && resized == (blocks - {p})[q := resized[q]]
    requires q in copied && copied == resized[q := copied[q]]
    ensures copied - {q} == blocks - {p}
  {
  }

  lemma {:induction false} CopiedBehind(resized: seq<Byte>, before: seq<Byte>, buf: seq<Byte>, now: seq<Byte>)
    requires |resized| == |before| + |buf| && resized[..|before|] == before
    requires now == resized[..|before|] + buf + resized[|before| + |buf|..]
    ensures now == before + buf
  {
    assert resized[|before| + |buf|..] == [];
  }

  /** SEEK_SET and then SEEK_CUR is one SEEK_SET to the sum, when both are positions. */
  method SetThenMove(dev: Device, file: OpenFile, off: nat, step: int) returns (retval: int)
    requires dev.Valid()
    modifies file
    ensures if off + step >= 0 then retval == file.fPos == off + step else retval == -EINVAL && file.fPos == off
  {
    retval := dev.Seek(file, off, 0, false);
    retval := dev.Seek(file, step, 1, false);
  }

  /** A read after SEEK_SET returns the content from there on. */
  method SetThenRead(dev: Device, file: OpenFile, off: nat, count: nat) returns (out: seq<Byte>)
    requires dev.Valid() && count > 0
    modifies file
    ensures IsNext(Flatten(dev.Entries()), off, out) && |out| <= count
  {
    var pos := dev.Seek(file, off, 0, false);
    ReadPieceIsNext(dev.Entries(), off, count);
    var n;
    n, out := dev.Read(file, count, false, false);
  }

  /** The walk of aesd_adjust_file_offset: where the command's byte sits in the concatenation
      of the ring, or None when the command or the offset does not exist. */
  method PositionOfCommand(buffer: CircularBuffer, writeCmd: nat, writeCmdOffset: nat) returns (r: Option<nat>)
    requires buffer.Valid()
    ensures var ns := EntrySizes(Window(buffer.log));
            var at := Place(writeCmd, writeCmdOffset);
            r == if ValidPlace(ns, at) then Some(PositionOf(ns, at)) else None
  {
    ghost var ns := EntrySizes(Window(buffer.log));
    var count := buffer.Count();
    if writeCmd >= count {
      return None;
    }
    var _, e := buffer.EntryAt(writeCmd);
    if writeCmdOffset >= e.size {
      return None;
    }
    var cmdOffset: nat := 0;
    for index := 0 to writeCmd
      invariant cmdOffset == Sum(ns[..index])
    {
      SumStep(ns, index);
      var _, stepped := buffer.EntryAt(index);
      cmdOffset := cmdOffset + stepped.size;
    }
    r := Some(cmdOffset + writeCmdOffset);
  }

  /** AESD_CIRCULAR_BUFFER_FOREACH with kfree: all ten slots, used or not. */
  method FreeSlots(buffer: CircularBuffer, memory: Slab)
    requires buffer.Valid() && DistinctPointers(buffer.log)
    requires NULL !in memory.blocks && ZERO_SIZE_PTR !in memory.blocks
    requires memory.blocks.Keys == Pointers(buffer.log)
    modifies memory
    ensures memory.blocks.Keys == Pointers(buffer.log[..|buffer.log| - |Window(buffer.log)|])
  {
    ghost var log := buffer.log;
    for index := 0 to CAPACITY
      invariant NULL !in memory.blocks && ZERO_SIZE_PTR !in memory.blocks
      invariant memory.blocks.Keys <= Pointers(log)
      invariant forall j :: 0 <= j < |log| ==>
                  (log[j].buffptr in memory.blocks <==> j + CAPACITY < |log| || j % CAPACITY >= index)
    {
      ghost var before := memory.blocks;
      memory.Kfree(buffer.entry[index].buffptr);
      if index < |log| {
        SlotFreed(log, index, before);
      }
    }
    SlotsFreed(log, memory.blocks);
  }

  /** Freeing slot `i` takes away the block of one log entry and of no other. */
  lemma {:induction false} SlotFreed(log: seq<Entry>, i: nat, blocks: map<nat, seq<Byte>>)
    requires DistinctPointers(log) && i < CAPACITY && i < |log|
    requires forall j :: 0 <= j < |log| ==>
               (log[j].buffptr in blocks <==> j + CAPACITY < |log| || j % CAPACITY >= i)
    ensures var p := LatestAt(log, i).buffptr;
            p in blocks &&
            forall j :: 0 <= j < |log| ==>
              (log[j].buffptr in blocks - {p} <==> j + CAPACITY < |log| || j % CAPACITY >= i + 1)
  {
    var latest := LatestIndex(|log|, i);
    forall j | 0 <= j < |log|
      ensures log[j].buffptr == log[latest].buffptr <==> j == latest
      ensures j + CAPACITY >= |log| && j % CAPACITY == i ==> j == latest
    {
      if j + CAPACITY > |log| - 1 && j % CAPACITY == i {
        SameSlot(j, latest);
      }
    }
  }

  lemma {:induction false} SameSlot(i: nat, j: nat)
    requires i % CAPACITY == j % CAPACITY && i < j + CAPACITY && j < i + CAPACITY
    ensures i == j
  {
  }

  lemma {:induction false} SlotsFreed(log: seq<Entry>, blocks: map<nat, seq<Byte>>)
    requires blocks.Keys <= Pointers(log)
    requires forall j :: 0 <= j < |log| ==> (log[j].buffptr in blocks <==> j + CAPACITY < |log|)
    ensures blocks.Keys == Pointers(log[..|log| - |Window(log)|])
  {
    var evicted := log[..|log| - |Window(log)|];
    forall p | p in blocks
      ensures p in Pointers(evicted)
    {
      var e :| e in log && e.buffptr == p;
      var j :| 0 <= j < |log| && log[j] == e;
      assert e == evicted[j];
    }
    forall e | e in evicted
      ensures e.buffptr in blocks
    {
      var j :| 0 <= j < |evicted| && evicted[j] == e;
      assert log[j] == e;
    }
  }
}
