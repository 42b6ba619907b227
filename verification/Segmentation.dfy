/** What a history of write calls means, said twice: call by call as the driver works, and
    as a segmentation of the whole history. The two agree on every history. */
module Segmentation {
  import opened Contents

  /** One call of the write handler and how it ended: stored, -ENOMEM, -EFAULT or -ERESTARTSYS. */
  datatype WriteCall =
    | Stored(chunk: seq<Byte>)
    | NoMemory(chunk: seq<Byte>)
    | Fault(chunk: seq<Byte>)
    | Interrupted(chunk: seq<Byte>)

  /** The device a reader cannot tell apart from the real one: every committed entry, and the
      bytes written since that await their newline. */
  datatype DeviceState = DeviceState(commits: seq<seq<Byte>>, pending: seq<Byte>)

  const EMPTY_DEVICE := DeviceState([], [])

  /** One write call: the test for a newline looks at everything accumulated, as memchr does. */
  function Apply(d: DeviceState, call: WriteCall): DeviceState {
    match call
    case Stored(chunk) =>
      var all := d.pending + chunk;
      if '\n' in all then DeviceState(d.commits + [all], []) else d.(pending := all)
    case Fault(_) => d.(pending := [])
    case NoMemory(_) => d
    case Interrupted(_) => d
  }

  function Replay(calls: seq<WriteCall>): DeviceState {
    if calls == [] then EMPTY_DEVICE else Apply(Replay(calls[..|calls| - 1]), calls[|calls| - 1])
  }

  // ----- The segmentation -----

  /** A call after which nothing is carried over. */
  predicate Closes(call: WriteCall) {
    call.Fault? || (call.Stored? && '\n' in call.chunk)
  }

  /** The chunks stored since the last call that carried nothing over. */
  function Open(calls: seq<WriteCall>): seq<seq<Byte>> {
    if calls == [] then []
    else
      var call := calls[|calls| - 1];
      if Closes(call) then []
      else Open(calls[..|calls| - 1]) + (if call.Stored? then [call.chunk] else [])
  }

  /** The commits in order, each as the chunks it was joined from. */
  function Segments(calls: seq<WriteCall>): seq<seq<seq<Byte>>> {
    if calls == [] then []
    else
      var before := calls[..|calls| - 1];
      var call := calls[|calls| - 1];
      Segments(before) + (if call.Stored? && '\n' in call.chunk then [Open(before) + [call.chunk]] else [])
  }

  /** Every newline of the segment is in its last chunk. */
  predicate NewlinesLast(segment: seq<seq<Byte>>) {
    && segment != []
    && '\n' in segment[|segment| - 1]
    && forall i :: 0 <= i < |segment| - 1 ==> '\n' !in segment[i]
  }

  lemma {:induction false} OpenHasNoNewline(calls: seq<WriteCall>)
    ensures forall i :: 0 <= i < |Open(calls)| ==> '\n' !in Open(calls)[i]
    ensures '\n' !in Flatten(Open(calls))
  {
    if calls != [] {
      var before := calls[..|calls| - 1];
      var call := calls[|calls| - 1];
      OpenHasNoNewline(before);
      FlattenSnoc(Open(before), call.chunk);
      assert Open(before) + [] == Open(before);
    }
  }

  lemma {:induction false} PendingIsOpen(calls: seq<WriteCall>)
    ensures Replay(calls).pending == Flatten(Open(calls))
    ensures '\n' !in Replay(calls).pending
    ensures |Replay(calls).commits| == |Segments(calls)|
  {
    OpenHasNoNewline(calls);
    if calls != [] {
      var before := calls[..|calls| - 1];
      var call := calls[|calls| - 1];
      PendingIsOpen(before);
      FlattenSnoc(Open(before), call.chunk);
      assert Open(before) + [] == Open(before);
      assert '\n' in Replay(before).pending + call.chunk <==> '\n' in call.chunk;
    }
  }

  lemma {:induction false} CommitIsSegment(calls: seq<WriteCall>, i: nat)
    requires i < |Replay(calls).commits|
    ensures i < |Segments(calls)|
    ensures Replay(calls).commits[i] == Flatten(Segments(calls)[i]) && NewlinesLast(Segments(calls)[i])
  {
    PendingIsOpen(calls);
    if calls != [] {
      var before := calls[..|calls| - 1];
      var call := calls[|calls| - 1];
      PendingIsOpen(before);
      if i < |Replay(before).commits| {
        CommitIsSegment(before, i);
      } else {
        OpenHasNoNewline(before);
        FlattenSnoc(Open(before), call.chunk);
      }
    }
  }

  /** Driver writes refine the segmentation: the pending bytes are the open chunks joined and
      never hold a newline; commit i is segment i joined, with all its newlines in the last chunk. */
  lemma {:induction false} ReplayIsSegmentation(calls: seq<WriteCall>)
    ensures var d := Replay(calls);
            && d.pending == Flatten(Open(calls))
            && '\n' !in d.pending
            && |d.commits| == |Segments(calls)|
            && forall i :: 0 <= i < |d.commits| ==>
                 d.commits[i] == Flatten(Segments(calls)[i]) && NewlinesLast(Segments(calls)[i])
  {
    PendingIsOpen(calls);
    forall i | 0 <= i < |Replay(calls).commits|
      ensures Replay(calls).commits[i] == Flatten(Segments(calls)[i]) && NewlinesLast(Segments(calls)[i])
    {
      CommitIsSegment(calls, i);
    }
  }

  /** The bytes of all stored chunks in call order. */
  function StoredBytes(calls: seq<WriteCall>): seq<Byte> {
    if calls == [] then []
    else
      var call := calls[|calls| - 1];
      StoredBytes(calls[..|calls| - 1]) + (if call.Stored? then call.chunk else [])
  }

  /** How many stored bytes faults threw away: a fault discards whatever was open. */
  function Lost(calls: seq<WriteCall>): nat {
    if calls == [] then 0
    else
      var before := calls[..|calls| - 1];
      Lost(before) + (if calls[|calls| - 1].Fault? then |Flatten(Open(before))| else 0)
  }

  /** Conservation: every stored byte is committed, pending or lost to a fault; and the device
      holds the stored bytes unbroken and in order exactly when no fault discarded any. */
  lemma {:induction false} StoredBytesConserved(calls: seq<WriteCall>)
    ensures var d := Replay(calls);
            && |Flatten(d.commits) + d.pending| + Lost(calls) == |StoredBytes(calls)|
            && (Lost(calls) == 0 <==> Flatten(d.commits) + d.pending == StoredBytes(calls))
  {
    if calls != [] {
      var before := calls[..|calls| - 1];
      var call := calls[|calls| - 1];
      StoredBytesConserved(before);
      PendingIsOpen(before);
      var d := Replay(before);
      FlattenSnoc(d.commits, d.pending + call.chunk);
      if call.Stored? {
        assert Flatten(d.commits) + (d.pending + call.chunk) == (Flatten(d.commits) + d.pending) + call.chunk;
      }
    }
  }

  /** No fault ever found anything to throw away: the pending bytes were empty before each. */
  predicate FaultsFindNothing(calls: seq<WriteCall>) {
    forall i :: 0 <= i < |calls| && calls[i].Fault? ==> Replay(calls[..i]).pending == []
  }

  lemma {:induction false} NothingLostIff(calls: seq<WriteCall>)
    ensures Lost(calls) == 0 <==> FaultsFindNothing(calls)
  {
    if calls != [] {
      var n := |calls| - 1;
      NothingLostIff(calls[..n]);
      PendingIsOpen(calls[..n]);
      FaultsSnoc(calls);
    }
  }

  lemma {:induction false} FaultsSnoc(calls: seq<WriteCall>)
    requires calls != []
    ensures var n := |calls| - 1;
            FaultsFindNothing(calls) <==>
            FaultsFindNothing(calls[..n]) && (calls[n].Fault? ==> Replay(calls[..n]).pending == [])
  {
    var n := |calls| - 1;
    assert forall i {:trigger calls[..i]} :: 0 <= i < n ==> calls[..n][..i] == calls[..i];
    if FaultsFindNothing(calls) {
      forall i | 0 <= i < n && calls[..n][i].Fault?
        ensures Replay(calls[..n][..i]).pending == []
      {
        assert calls[..n][..i] == calls[..i] && calls[i].Fault?;
      }
    }
  }

  /** The device holds the stored bytes unbroken and in order if and only if no write call that
      faulted was made while bytes were pending. */
  lemma {:induction false} StoredBytesUnbrokenIff(calls: seq<WriteCall>)
    ensures var d := Replay(calls);
            Flatten(d.commits) + d.pending == StoredBytes(calls) <==> FaultsFindNothing(calls)
  {
    StoredBytesConserved(calls);
    NothingLostIff(calls);
  }

  /** A history that loses a stored byte. */
  lemma {:induction false} FaultLosesBytes() returns (calls: seq<WriteCall>)
    ensures Lost(calls) == 1
    ensures StoredBytes(calls) == "a" && Replay(calls) == EMPTY_DEVICE
  {
    calls := [Stored("a"), Fault("b")];
    var before := [Stored("a")];
    assert calls[..1] == before && before[..0] == [];
    assert Open(before) == [] + ["a"] == ["a"];
    assert ["a"][..0] == [];
    assert Flatten(["a"]) == "a";
    assert Replay(before) == DeviceState([], "a");
  }

  /** No commit is ever empty, so every commit occupies positions. */
  lemma {:induction false} CommitsHoldNewline(calls: seq<WriteCall>)
    ensures forall i :: 0 <= i < |Replay(calls).commits| ==> '\n' in Replay(calls).commits[i]
  {
    if calls != [] {
      CommitsHoldNewline(calls[..|calls| - 1]);
    }
  }
}
