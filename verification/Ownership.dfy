/** Who owns which kernel block: the memory invariant of the driver, on values. */
module Ownership {
  import opened Contents
  import opened Ring
  import opened Segmentation
  import opened KernelMemory

  /** `e` points at a live block that holds exactly `bytes`. */
  ghost predicate Holds(blocks: map<nat, seq<Byte>>, e: Entry, bytes: seq<Byte>) {
    e.buffptr in blocks && blocks[e.buffptr] == bytes && e.size == |bytes|
  }

  ghost function Pointers(es: seq<Entry>): set<nat> {
    set e | e in es :: e.buffptr
  }

  ghost predicate DistinctPointers(es: seq<Entry>) {
    forall i, j :: 0 <= i < j < |es| ==> es[i].buffptr != es[j].buffptr
  }

  /** The block of a pending entry; a pending entry of no bytes has none. */
  ghost function PendingPointers(e: Entry): set<nat> {
    if e.size == 0 then {} else {e.buffptr}
  }

  /** How memory represents a device: each entry ever committed, evicted ones included, owns
      its own live block with the committed bytes; a non-empty pending entry owns one more;
      there are no other blocks. */
  ghost predicate Represents(d: DeviceState, log: seq<Entry>, entry: Entry, blocks: map<nat, seq<Byte>>) {
    match d
    case DeviceState(commits, pending) =>
      && NULL !in blocks && ZERO_SIZE_PTR !in blocks
      && |log| == |commits|
      && (forall i :: 0 <= i < |log| ==> Holds(blocks, log[i], commits[i]))
      && DistinctPointers(log)
      && (if entry.size == 0 then pending == [] && ZeroOrNull(entry.buffptr)
          else Holds(blocks, entry, pending) && entry.buffptr !in Pointers(log))
      && blocks.Keys == Pointers(log) + PendingPointers(entry)
  }

  lemma {:induction false} PointersSnoc(es: seq<Entry>, e: Entry)
    ensures Pointers(es + [e]) == Pointers(es) + {e.buffptr}
  {
    assert e in es + [e];
    forall x | x in es
      ensures x in es + [e]
    {
    }
  }

  /** After a fault freed the pending block, resized or not. */
  lemma {:induction false} RepresentsDropped(d: DeviceState, log: seq<Entry>, e: Entry, blocks: map<nat, seq<Byte>>)
    requires Represents(d, log, e, blocks)
    ensures Represents(d.(pending := []), log, EMPTY_ENTRY, blocks - {e.buffptr})
  {
    forall i | 0 <= i < |log|
      ensures Holds(blocks - {e.buffptr}, log[i], d.commits[i])
    {
      assert log[i].buffptr in Pointers(log);
    }
  }

  /** After the pending block was resized to hold `all`, possibly under a new address. */
  lemma {:induction false} RepresentsGrown(d: DeviceState, log: seq<Entry>, e: Entry, blocks: map<nat, seq<Byte>>,
                                           e': Entry, all: seq<Byte>, blocks': map<nat, seq<Byte>>)
    requires Represents(d, log, e, blocks)
    requires e'.size == |all| && !(e'.buffptr == NULL)
    requires all == [] ==> e'.buffptr == ZERO_SIZE_PTR && blocks' == blocks - {e.buffptr}
    requires all != [] ==> && e'.buffptr != ZERO_SIZE_PTR && (e'.buffptr == e.buffptr || e'.buffptr !in blocks)
                           && blocks' == (blocks - {e.buffptr})[e'.buffptr := all]
    ensures Represents(d.(pending := all), log, e', blocks')
  {
    forall i | 0 <= i < |log|
      ensures Holds(blocks', log[i], d.commits[i])
    {
      assert log[i].buffptr in Pointers(log);
    }
  }

  /** After the pending entry moved into the ring. */
  lemma {:induction false} RepresentsCommitted(d: DeviceState, log: seq<Entry>, e: Entry, blocks: map<nat, seq<Byte>>)
    requires Represents(d, log, e, blocks) && e.size > 0
    ensures Represents(DeviceState(d.commits + [d.pending], []), log + [e], EMPTY_ENTRY, blocks)
  {
    PointersSnoc(log, e);
    forall i | 0 <= i < |log|
      ensures log[i].buffptr != e.buffptr
    {
      assert log[i].buffptr in Pointers(log);
    }
  }

  /** No block the ring references, or ever referenced, was freed, moved or rewritten between
      two states of one device. */
  lemma {:induction false} CommittedKept(
      d: DeviceState, log: seq<Entry>, blocks: map<nat, seq<Byte>>,
      d': DeviceState, log': seq<Entry>, e': Entry, blocks': map<nat, seq<Byte>>)
    requires |log| == |d.commits| && forall i :: 0 <= i < |log| ==> Holds(blocks, log[i], d.commits[i])
    requires Represents(d', log', e', blocks')
    requires log <= log' && d.commits <= d'.commits
    ensures forall p :: p in Pointers(log) ==> p in blocks && p in blocks' && blocks'[p] == blocks[p]
  {
    forall p | p in Pointers(log)
      ensures p in blocks && p in blocks' && blocks'[p] == blocks[p]
    {
      var x :| x in log && x.buffptr == p;
      var i :| 0 <= i < |log| && log[i] == x;
      assert Holds(blocks, log[i], d.commits[i]) && Holds(blocks', log'[i], d'.commits[i]);
    }
  }
}
