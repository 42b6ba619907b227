/** The ten-slot ring of completed write commands (aesd-circular-buffer.c). */
module Ring {
  import opened Contents

  /** struct aesd_buffer_entry: an address and the number of bytes stored there. Address 0 is NULL. */
  datatype Entry = Entry(buffptr: nat, size: nat)

  const EMPTY_ENTRY := Entry(0, 0)

  function EntrySizes(es: seq<Entry>): seq<nat> {
    seq(|es|, i requires 0 <= i < |es| => es[i].size)
  }

  /** What find_entry_offset_for_fpos returns: a slot of the array and a byte inside it. */
  datatype Found = Found(slot: nat, offset: nat)

  class CircularBuffer {
    const entry: array<Entry>
    var inOffs: nat
    var outOffs: nat
    var full: bool
    /** Every entry ever added since initialisation, oldest first. */
    ghost var log: seq<Entry>

    /** The ring's closed form after |log| adds. Taking `inOffs` as the number of entries when
        the ring is not full is right only because `outOffs` stays 0 until it first fills. */
    ghost predicate Valid()
      reads this, entry
    {
      var k := |log|;
      && entry.Length == CAPACITY
      && inOffs == k % CAPACITY
      && full == (k >= CAPACITY)
      && outOffs == (if k < CAPACITY then 0 else k % CAPACITY)
      && (forall i :: 0 <= i < CAPACITY ==> entry[i] == LatestAt(log, i))
    }

    constructor ()
      ensures Valid() && fresh(entry) && log == []
    {
      entry := new Entry[CAPACITY](_ => EMPTY_ENTRY);
      inOffs, outOffs, full := 0, 0, false;
      log := [];
    }

    /** aesd_circular_buffer_init */
    method Init()
      requires entry.Length == CAPACITY
      modifies this, entry
      ensures Valid() && log == []
    {
      forall i | 0 <= i < entry.Length {
        entry[i] := EMPTY_ENTRY;
      }
      inOffs, outOffs, full := 0, 0, false;
      log := [];
    }

    /** aesd_circular_buffer_add_entry */
    method AddEntry(e: Entry)
      requires Valid()
      modifies this, entry
      ensures Valid() && log == old(log) + [e]
    {
      var index := inOffs;
      if full {
        outOffs := (index + 1) % CAPACITY;
      }
      entry[index] := e;
      inOffs := (index + 1) % CAPACITY;
      if !full && inOffs == outOffs {
        full := true;
      }
      ghost var was := log;
      log := log + [e];
      NextOffset(|was|);
      forall i | 0 <= i < CAPACITY
        ensures entry[i] == LatestAt(log, i)
      {
        LatestAfterAdd(was, e, i);
      }
    }

    function Count(): nat
      reads this
    {
      if full then CAPACITY else inOffs
    }

    /** The `i`-th entry of the walk from `outOffs`, and the slot it is in. */
    method EntryAt(i: nat) returns (slot: nat, e: Entry)
      requires Valid() && i < |Window(log)|
      ensures slot == (outOffs + i) % CAPACITY && entry[slot] == e == Window(log)[i]
    {
      WalkVisitsWindow(log, i);
      slot := (outOffs + i) % CAPACITY;
      e := entry[slot];
    }

    /** aesd_circular_buffer_calculate_size */
    method CalculateSize() returns (totalSize: nat)
      requires Valid()
      ensures totalSize == Sum(EntrySizes(Window(log)))
    {
      totalSize := 0;
      ghost var ns := EntrySizes(Window(log));
      for i := 0 to Count()
        invariant Count() == |ns|
        invariant totalSize == Sum(ns[..i])
      {
        SumStep(ns, i);
        var _, e := EntryAt(i);
        totalSize := totalSize + e.size;
      }
      assert ns[..|ns|] == ns;
    }

    /** aesd_circular_buffer_find_entry_offset_for_fpos */
    method FindEntryOffsetForFpos(charOffset: nat) returns (r: Option<Found>)
      requires Valid()
      ensures var at := Locate(EntrySizes(Window(log)), charOffset);
              && (r.None? <==> at.None?)
              && (r.Some? ==> && r.value.slot == (outOffs + at.value.index) % CAPACITY
                              && entry[r.value.slot] == Window(log)[at.value.index]
                              && r.value.offset == at.value.offset)
    {
      var remaining: nat := charOffset;
      ghost var ns := EntrySizes(Window(log));
      for i := 0 to Count()
        invariant Count() == |ns|
        invariant LocateFrom(ns, i, remaining) == Locate(ns, charOffset)
      {
        LocateStep(ns, i, remaining);
        var entryPos, e := EntryAt(i);
        if remaining < e.size {
          return Some(Found(entryPos, remaining));
        }
        remaining := remaining - e.size;
      }
      r := None;
    }
  }

  lemma {:induction false} LocateStep(ns: seq<nat>, i: nat, remaining: nat)
    requires i < |ns|
    ensures LocateFrom(ns, i, remaining)
            == if remaining < ns[i] then Some(Place(i, remaining)) else LocateFrom(ns, i + 1, remaining - ns[i])
  {
  }

  lemma {:induction false} NextOffset(k: nat)
    ensures (k % CAPACITY + 1) % CAPACITY == (k + 1) % CAPACITY
    ensures k < CAPACITY ==> ((k % CAPACITY + 1) % CAPACITY == 0 <==> k == CAPACITY - 1)
  {
  }

  /** The largest index below `k` that is `i` modulo CAPACITY. */
  function LatestIndex(k: nat, i: nat): (j: nat)
    requires i < CAPACITY && i < k
    ensures j < k <= j + CAPACITY && j % CAPACITY == i
  {
    if i < k % CAPACITY then k - k % CAPACITY + i else k - k % CAPACITY - CAPACITY + i
  }

  /** What slot `i` holds after `log` was added: the latest entry whose log index is `i` modulo
      CAPACITY, or EMPTY_ENTRY when there is none. */
  ghost function LatestAt(log: seq<Entry>, i: nat): Entry
    requires i < CAPACITY
  {
    if i >= |log| then EMPTY_ENTRY else log[LatestIndex(|log|, i)]
  }

  lemma {:induction false} LatestAfterAdd(log: seq<Entry>, e: Entry, i: nat)
    requires i < CAPACITY
    ensures LatestAt(log + [e], i) == if i == |log| % CAPACITY then e else LatestAt(log, i)
  {
    if i <= |log| {
      LatestIndexAfterAdd(|log|, i);
    }
  }

  lemma {:induction false} LatestIndexAfterAdd(k: nat, i: nat)
    requires i < CAPACITY && i <= k
    ensures LatestIndex(k + 1, i) == if i == k % CAPACITY then k else LatestIndex(k, i)
  {
  }

  /** Walking from `outOffs` visits exactly the last min(k, 10) entries, oldest first. */
  lemma {:induction false} WalkVisitsWindow(log: seq<Entry>, i: nat)
    requires i < |Window(log)|
    ensures var outOffs := if |log| < CAPACITY then 0 else |log| % CAPACITY;
            LatestAt(log, (outOffs + i) % CAPACITY) == Window(log)[i]
  {
    var k := |log|;
    if k < CAPACITY {
      assert LatestIndex(k, i) == i;
    } else {
      assert LatestIndex(k, (k % CAPACITY + i) % CAPACITY) == k - CAPACITY + i;
    }
  }
}
