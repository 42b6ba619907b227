/** What holds of the server over every interleaving of any number of clients. */
module ProtocolSafety {
  import opened Contents
  import opened Segmentation
  import opened Framing
  import opened SeekCommand
  import opened Requests
  import opened Protocol
  import opened ProtocolInvariant
  import opened CommandGrammar

  type Trace = seq<(ClientId, Event)>

  // ----- What the trace says of a client, read off its events alone -----

  /** The bytes delivered to client `id`: those of its receive events, one behind the other. */
  function Delivered(trace: Trace, id: ClientId): seq<Byte> {
    if trace == [] then []
    else
      var (who, e) := trace[|trace| - 1];
      var s := Exec(trace[..|trace| - 1]);
      Delivered(trace[..|trace| - 1], id)
        + (if who == id && e.Receive? && id in s.clients && Takes(s.clients[id], e.chunk) then e.chunk else [])
  }

  /** The clients that took the mutex to store, in the order in which they took it. */
  function LockOrder(trace: Trace): seq<ClientId> {
    if trace == [] then []
    else
      var (who, e) := trace[|trace| - 1];
      var s := Exec(trace[..|trace| - 1]);
      LockOrder(trace[..|trace| - 1])
        + (if e.Lock? && s.holder.None? && who in s.clients && s.clients[who].pc.WantStore? then [who] else [])
  }

  lemma {:induction false} LocalKeepsGot(commits: seq<seq<Byte>>, c: Client, e: Event)
    ensures Local(commits, c, e).got == c.got + if e.Receive? && Takes(c, e.chunk) then e.chunk else []
  {
  }

  lemma {:induction false} StepDelivers(s: System, id: ClientId, who: ClientId, e: Event)
    ensures id in s.clients ==>
              && id in Step(s, who, e).clients
              && Step(s, who, e).clients[id].got
                 == s.clients[id].got + if who == id && e.Receive? && Takes(s.clients[id], e.chunk) then e.chunk else []
    ensures id !in s.clients && id in Step(s, who, e).clients ==> Step(s, who, e).clients[id].got == []
  {
    OthersUntouched(s, id, who, e);
    if who == id && id in s.clients {
      StepIs(s, id, e);
      LocalKeepsGot(s.dev.commits, s.clients[id], e);
      assert s.clients[id].got + [] == s.clients[id].got;
    }
  }

  /** What a client holds is all that was delivered to it, in order. */
  lemma {:induction false} GotIsDelivered(trace: Trace, id: ClientId)
    ensures if id in Exec(trace).clients then Exec(trace).clients[id].got == Delivered(trace, id)
            else Delivered(trace, id) == []
  {
    if trace != [] {
      var before := trace[..|trace| - 1];
      var (who, e) := trace[|trace| - 1];
      GotIsDelivered(before, id);
      StepDelivers(Exec(before), id, who, e);
    }
  }

  lemma {:induction false} StepAcquires(s: System, who: ClientId, e: Event)
    ensures Step(s, who, e).acquired
            == s.acquired
               + if e.Lock? && s.holder.None? && who in s.clients && s.clients[who].pc.WantStore? then [who] else []
  {
    assert s.acquired + [] == s.acquired;
    if who in s.clients {
      StepIs(s, who, e);
    }
  }

  lemma {:induction false} AcquiredIsLockOrder(trace: Trace)
    ensures Exec(trace).acquired == LockOrder(trace)
  {
    if trace != [] {
      var before := trace[..|trace| - 1];
      var (who, e) := trace[|trace| - 1];
      AcquiredIsLockOrder(before);
      StepAcquires(Exec(before), who, e);
    }
  }

  /** Packets never mix: at every moment nothing is pending and commit i is, whole, the first
      packet of the bytes delivered to the i-th of the clients whose write succeeded, in the order
      these clients took the mutex; so the ring holds the last ten of them. Failed writes leave no
      trace. */
  lemma {:induction false} DeviceHoldsWinners(trace: Trace)
    ensures var s := Exec(trace);
            var winners := Winners(LockOrder(trace), s.clients);
            && s.dev.pending == []
            && |s.dev.commits| == |winners|
            && (forall i :: 0 <= i < |winners| ==>
                  && winners[i] in s.clients && s.clients[winners[i]].commit == Some(i)
                  && FirstPacket(Delivered(trace, winners[i])) == Some(s.dev.commits[i])
                  && IsPacket(s.dev.commits[i]))
            && (forall i, j :: 0 <= i < j < |winners| ==> winners[i] != winners[j])
  {
    AlwaysInv(trace);
    AcquiredIsLockOrder(trace);
    var s := Exec(trace);
    var winners := Winners(s.acquired, s.clients);
    forall i | 0 <= i < |winners|
      ensures FirstPacket(Delivered(trace, winners[i])) == Some(s.dev.commits[i])
    {
      var c := s.clients[winners[i]];
      assert HistoryOk(c, s.dev.commits) && c.commit == Some(i);
      DecideStore(c.got);
      GotIsDelivered(trace, winners[i]);
    }
  }

  lemma {:induction false} DecideStore(got: seq<Byte>)
    ensures Decide(got).Store? ==> FirstPacket(got) == Some(Decide(got).packet)
  {
  }

  /** At most one client is between taking and releasing file_mutex. */
  lemma {:induction false} MutualExclusion(trace: Trace, a: ClientId, b: ClientId)
    requires var s := Exec(trace);
             a in s.clients && b in s.clients && HoldsMutex(s.clients[a].pc) && HoldsMutex(s.clients[b].pc)
    ensures a == b
  {
    AlwaysInv(trace);
  }

  lemma {:induction false} ExecSnoc(trace: Trace, id: ClientId, e: Event)
    ensures Exec(trace + [(id, e)]) == Step(Exec(trace), id, e)
  {
    assert (trace + [(id, e)])[..|trace|] == trace;
  }

  /** No commit is ever undone or changed. */
  lemma {:induction false} CommitsOnlyGrow(trace: Trace, n: nat)
    requires n <= |trace|
    ensures Exec(trace[..n]).dev.commits <= Exec(trace).dev.commits
    decreases |trace|
  {
    if n == |trace| {
      assert trace[..n] == trace;
    } else {
      var before := trace[..|trace| - 1];
      CommitsOnlyGrow(before, n);
      assert before[..n] == trace[..n];
    }
  }

  // ----- Responses -----

  /** Event `n` of the trace is client `id` taking the mutex to send, in state `Exec(trace[..n])`. */
  ghost predicate StartsSending(trace: Trace, n: nat, id: ClientId) {
    && n < |trace| && trace[n] == (id, Lock)
    && var s := Exec(trace[..n]);
       s.holder.None? && id in s.clients && s.clients[id].pc.WantSend?
  }

  /** The history fields of a sending client record the state in which it took the mutex. */
  ghost predicate Snapshot(trace: Trace, n: nat, id: ClientId, c: Client) {
    && StartsSending(trace, n, id)
    && var s := Exec(trace[..n]);
       && c.view == Content(s) && c.start == s.clients[id].pos
       && c.seen == Some(|s.dev.commits|)
  }

  lemma {:induction false} SnapshotExists(trace: Trace, id: ClientId) returns (n: nat)
    requires id in Exec(trace).clients && Exec(trace).clients[id].seen.Some?
    ensures Snapshot(trace, n, id, Exec(trace).clients[id])
  {
    var before := trace[..|trace| - 1];
    var (who, e) := trace[|trace| - 1];
    var s := Exec(before);
    if id in s.clients && s.clients[id].seen.Some? {
      ClientFacts(before, id);
      SeenIsSetOnce(s, id, who, e);
      n := SnapshotExists(before, id);
      assert before[..n] == trace[..n];
    } else {
      n := |before|;
      SeenIsSetByLock(s, id, who, e);
      assert trace[..n] == before;
    }
  }

  lemma {:induction false} ClientFacts(trace: Trace, id: ClientId)
    requires id in Exec(trace).clients
    ensures ClientOk(Exec(trace).clients[id])
    ensures HistoryOk(Exec(trace).clients[id], Exec(trace).dev.commits)
  {
    AlwaysInv(trace);
  }

  lemma {:induction false} OthersUntouched(s: System, id: ClientId, who: ClientId, e: Event)
    ensures id in s.clients ==> id in Step(s, who, e).clients
    ensures who != id ==> (id in Step(s, who, e).clients <==> id in s.clients)
    ensures who != id && id in s.clients ==> Step(s, who, e).clients[id] == s.clients[id]
  {
    if who in s.clients {
      StepIs(s, who, e);
    }
  }

  lemma {:induction false} LocalKeepsSeen(commits: seq<seq<Byte>>, c: Client, e: Event)
    ensures var c' := Local(commits, c, e);
            c'.seen == c.seen && c'.view == c.view && c'.start == c.start
  {
  }

  lemma {:induction false} SeenIsSetOnce(s: System, id: ClientId, who: ClientId, e: Event)
    requires id in s.clients && s.clients[id].seen.Some? && ClientOk(s.clients[id])
    ensures id in Step(s, who, e).clients
    ensures var c := Step(s, who, e).clients[id];
            c.seen == s.clients[id].seen && c.view == s.clients[id].view && c.start == s.clients[id].start
  {
    OthersUntouched(s, id, who, e);
    if who == id {
      assert !s.clients[id].pc.WantSend?;
      StepIs(s, id, e);
      LocalKeepsSeen(s.dev.commits, s.clients[id], e);
    }
  }

  lemma {:induction false} SeenIsSetByLock(s: System, id: ClientId, who: ClientId, e: Event)
    requires var s' := Step(s, who, e); id in s'.clients && s'.clients[id].seen.Some?
    requires id in s.clients ==> s.clients[id].seen.None?
    ensures who == id && e == Lock && s.holder.None? && id in s.clients && s.clients[id].pc.WantSend?
    ensures var c := Step(s, who, e).clients[id];
            c.view == Content(s) && c.start == s.clients[id].pos && c.seen == Some(|s.dev.commits|)
  {
    OthersUntouched(s, id, who, e);
    if who == id && id in s.clients {
      StepIs(s, id, e);
      LocalKeepsSeen(s.dev.commits, s.clients[id], e);
    }
  }

  /** Event `n` of the trace is client `id`'s successful seek: the history fields record how many
      commits there were and the position it set. */
  ghost predicate SeeksAt(trace: Trace, n: nat, id: ClientId, c: Client) {
    && n < |trace| && trace[n] == (id, Ioctl(false))
    && var s := Exec(trace[..n]);
       && id in s.clients && s.clients[id].pc.Seeking?
       && c.sought == Some(|s.dev.commits|)
       && c.due == Sought(s.dev.commits, s.clients[id], s.clients[id].pc.to, false).pos
  }

  lemma {:induction false} SeekExists(trace: Trace, id: ClientId) returns (n: nat)
    requires id in Exec(trace).clients && Exec(trace).clients[id].sought.Some?
    ensures SeeksAt(trace, n, id, Exec(trace).clients[id])
  {
    var before := trace[..|trace| - 1];
    var (who, e) := trace[|trace| - 1];
    var s := Exec(before);
    if id in s.clients && s.clients[id].sought.Some? {
      ClientFacts(before, id);
      SoughtIsSetOnce(s, id, who, e);
      n := SeekExists(before, id);
      assert before[..n] == trace[..n];
    } else {
      n := |before|;
      SoughtIsSetByIoctl(s, id, who, e);
      assert trace[..n] == before;
    }
  }

  lemma {:induction false} SoughtIsSetOnce(s: System, id: ClientId, who: ClientId, e: Event)
    requires id in s.clients && s.clients[id].sought.Some? && ClientOk(s.clients[id])
    ensures id in Step(s, who, e).clients
    ensures var c := Step(s, who, e).clients[id];
            c.sought == s.clients[id].sought && c.due == s.clients[id].due
  {
    OthersUntouched(s, id, who, e);
    if who == id {
      assert !s.clients[id].pc.Seeking? && !s.clients[id].pc.Receiving?;
      StepIs(s, id, e);
    }
  }

  lemma {:induction false} SoughtIsSetByIoctl(s: System, id: ClientId, who: ClientId, e: Event)
    requires var s' := Step(s, who, e); id in s'.clients && s'.clients[id].sought.Some?
    requires id in s.clients ==> s.clients[id].sought.None?
    ensures who == id && e == Ioctl(false) && id in s.clients && s.clients[id].pc.Seeking?
    ensures var c := Step(s, who, e).clients[id];
            && c.sought == Some(|s.dev.commits|)
            && c.due == Sought(s.dev.commits, s.clients[id], s.clients[id].pc.to, false).pos
  {
    OthersUntouched(s, id, who, e);
    if who == id && id in s.clients {
      StepIs(s, id, e);
    }
  }

  /** Event `n` of the trace is client `id`'s successful write, which made its packet a commit. */
  ghost predicate StoresAt(trace: Trace, n: nat, id: ClientId, c: Client) {
    && n < |trace| && trace[n] == (id, Write(Success))
    && var s := Exec(trace[..n]);
       && id in s.clients && s.clients[id].pc.Storing?
       && c.commit == Some(|s.dev.commits|)
  }

  lemma {:induction false} StoreExists(trace: Trace, id: ClientId) returns (n: nat)
    requires id in Exec(trace).clients && Exec(trace).clients[id].commit.Some?
    ensures StoresAt(trace, n, id, Exec(trace).clients[id])
  {
    var before := trace[..|trace| - 1];
    var (who, e) := trace[|trace| - 1];
    var s := Exec(before);
    if id in s.clients && s.clients[id].commit.Some? {
      ClientFacts(before, id);
      CommitIsSetOnce(s, id, who, e);
      n := StoreExists(before, id);
      assert before[..n] == trace[..n];
    } else {
      n := |before|;
      CommitIsSetByWrite(s, id, who, e);
      assert trace[..n] == before;
    }
  }

  lemma {:induction false} CommitIsSetOnce(s: System, id: ClientId, who: ClientId, e: Event)
    requires id in s.clients && s.clients[id].commit.Some? && ClientOk(s.clients[id])
    ensures id in Step(s, who, e).clients
    ensures Step(s, who, e).clients[id].commit == s.clients[id].commit
  {
    OthersUntouched(s, id, who, e);
    if who == id {
      assert !s.clients[id].pc.Storing?;
      StepIs(s, id, e);
    }
  }

  lemma {:induction false} CommitIsSetByWrite(s: System, id: ClientId, who: ClientId, e: Event)
    requires var s' := Step(s, who, e); id in s'.clients && s'.clients[id].commit.Some?
    requires id in s.clients ==> s.clients[id].commit.None?
    ensures who == id && e == Write(Success) && id in s.clients && s.clients[id].pc.Storing?
    ensures Step(s, who, e).clients[id].commit == Some(|s.dev.commits|)
  {
    OthersUntouched(s, id, who, e);
    if who == id && id in s.clients {
      StepIs(s, id, e);
    }
  }

  /** Every response is the device's content at the moment its client took the mutex to send,
      from that client's position on: all of it when the client ended well, a prefix of it at
      any earlier moment and after any failure. */
  lemma {:induction false} ResponseIsSnapshot(trace: Trace, id: ClientId)
    requires id in Exec(trace).clients
    ensures var c := Exec(trace).clients[id];
            (c.pc == Done(true) || c.out != []) ==>
              exists n: nat :: && StartsSending(trace, n, id)
                          && var s := Exec(trace[..n]);
                             var response := Remaining(Content(s), s.clients[id].pos);
                             && c.out <= response
                             && (c.pc == Done(true) ==> c.out == response)
  {
    var c := Exec(trace).clients[id];
    ClientFacts(trace, id);
    if c.pc == Done(true) || c.out != [] {
      var n := SnapshotExists(trace, id);
      var s := Exec(trace[..n]);
      assert Remaining(Content(s), s.clients[id].pos) == Remaining(c.view, c.start);
    }
  }

  /** A client whose delivered bytes are not a seek is answered from the beginning, one whose
      bytes are from the place they name, in the ring as it was when its seek succeeded. */
  lemma {:induction false} ResponseBegins(trace: Trace, id: ClientId)
    requires id in Exec(trace).clients && Exec(trace).clients[id].seen.Some?
    ensures var s := Exec(trace);
            var c := s.clients[id];
            match Decide(Delivered(trace, id))
            case Seek(to) =>
              && c.sought.Some? && c.sought.value <= c.seen.value <= |s.dev.commits|
              && var ns := Sizes(Window(s.dev.commits[..c.sought.value]));
                 var at := Place(to.writeCmd, to.writeCmdOffset);
                 ValidPlace(ns, at) && c.start == PositionOf(ns, at)
            case _ => c.start == 0
  {
    ClientFacts(trace, id);
    GotIsDelivered(trace, id);
  }

  /** A client that sent the canonical command for byte `offset` of entry `cmd` is answered from
      just that byte, in the ring as it was when its seek succeeded. */
  lemma {:induction false} CommandIsAnswered(trace: Trace, id: ClientId, cmd: nat, offset: nat)
    requires id in Exec(trace).clients && Exec(trace).clients[id].seen.Some?
    requires SendsCommand(Delivered(trace, id), cmd, offset)
    ensures var s := Exec(trace);
            var c := s.clients[id];
            && c.sought.Some? && c.sought.value <= c.seen.value <= |s.dev.commits|
            && var ns := Sizes(Window(s.dev.commits[..c.sought.value]));
               ValidPlace(ns, Place(cmd, offset)) && c.start == PositionOf(ns, Place(cmd, offset))
  {
    CommandIsSeek(Delivered(trace, id), cmd, offset);
    ResponseBegins(trace, id);
  }

  // ----- Read your own write -----

  lemma {:induction false} EntryOfWindow(log: seq<seq<Byte>>, j: nat)
    requires j < |log| <= j + CAPACITY
    ensures var w := Window(log);
            var k := j - (|log| - |w|);
            && 0 <= k < |w| && w[k] == log[j]
            && Flatten(w) == Flatten(w[..k]) + log[j] + Flatten(w[k + 1..])
  {
    var w := Window(log);
    var k := j - (|log| - |w|);
    assert w[k] == log[j];
    FlattenAround(w, k);
  }

  /** Packet `j` of the commits `now`, seen by a client: with fewer than ten packets after it all
      of it is readable, and it stands in the response between the older and the newer entries;
      with ten or more none of its bytes is readable. */
  ghost predicate SeesPacket(now: seq<seq<Byte>>, j: nat, packet: seq<Byte>, done: bool, response: seq<Byte>) {
    && j < |now| && now[j] == packet
    && var later := |now| - j - 1;
       && (later < CAPACITY <==> Base(now) <= |Flatten(now[..j])|)
       && (later >= CAPACITY <==> |Flatten(now[..j + 1])| <= Base(now))
       && (later < CAPACITY ==>
             var w := Window(now);
             var k := j - (|now| - |w|);
             && 0 <= k < |w| && w[k] == packet
             && (done ==> response == Flatten(w[..k]) + packet + Flatten(w[k + 1..])))
  }

  /** `delivered` begins with a packet, and the client stored just that and sees it so. */
  ghost predicate ReadsOwnWrite(c: Client, delivered: seq<Byte>, commits: seq<seq<Byte>>) {
    && c.commit.Some? && c.seen.Some? && c.commit.value < c.seen.value <= |commits|
    && FirstPacket(delivered).Some?
    && SeesPacket(commits[..c.seen.value], c.commit.value, FirstPacket(delivered).value, c.pc == Done(true), c.out)
  }

  /** When a client that stored a packet takes the mutex to send, its own packet is in the ring,
      every byte of it readable, exactly when fewer than ten packets were committed after it, and
      then in its response; with ten or more no byte of it is left. */
  lemma {:induction false} ReadYourOwnWrite(trace: Trace, id: ClientId) returns (stored: nat, sending: nat)
    requires id in Exec(trace).clients && Exec(trace).clients[id].seen.Some?
    requires Decide(Delivered(trace, id)).Store?
    ensures StoresAt(trace, stored, id, Exec(trace).clients[id])
    ensures Snapshot(trace, sending, id, Exec(trace).clients[id])
    ensures ReadsOwnWrite(Exec(trace).clients[id], Delivered(trace, id), Exec(trace).dev.commits)
  {
    ClientFacts(trace, id);
    GotIsDelivered(trace, id);
    OwnWriteFacts(Exec(trace).clients[id], Exec(trace).dev.commits);
    stored := StoreExists(trace, id);
    sending := SnapshotExists(trace, id);
  }

  lemma {:induction false} OwnWriteFacts(c: Client, commits: seq<seq<Byte>>)
    requires ClientOk(c) && HistoryOk(c, commits) && c.seen.Some? && c.request.Store?
    ensures ReadsOwnWrite(c, c.got, commits)
  {
    DecideStore(c.got);
    assert c.due == 0 && c.start == 0;
    assert c.pc == Done(true) ==> c.out == Remaining(c.view, 0) == c.view;
    PacketSeen(commits[..c.seen.value], c.commit.value, FirstPacket(c.got).value, c.pc == Done(true), c.out);
  }

  lemma {:induction false} PacketSeen(now: seq<seq<Byte>>, j: nat, packet: seq<Byte>, done: bool, response: seq<Byte>)
    requires j < |now| && now[j] == packet && packet != []
    requires done ==> response == Flatten(Window(now))
    ensures SeesPacket(now, j, packet, done, response)
  {
    ReadableIff(now, j);
    if |now| <= j + CAPACITY {
      EntryOfWindow(now, j);
    }
  }

  // ----- Seek clients and eviction -----

  /** The index, in everything ever committed, of position `p` when `log` was committed. */
  function Absolute(log: seq<seq<Byte>>, p: nat): nat {
    Base(log) + p
  }

  ghost predicate AnswersSeek(c: Client, commits: seq<seq<Byte>>) {
    && c.sought.Some? && c.seen.Some? && c.sought.value <= c.seen.value <= |commits|
    && var past := commits[..c.sought.value];
       var now := commits[..c.seen.value];
       var nothingEvicted := |now| <= CAPACITY || |now| == |past|;
       && (Absolute(now, c.start) == Absolute(past, c.due) <==> nothingEvicted)
       && c.due < |Flatten(Window(past))|
       && (nothingEvicted ==>
             Remaining(c.view, c.start) == Flatten(Window(past))[c.due..] + Flatten(now[|past|..]))
  }

  /** A seek client's response begins at the very byte it asked for exactly when nothing was
      evicted between its seek and its taking the mutex to send; it then is the rest of the
      content it sought in, followed by everything committed since. */
  lemma {:induction false} SeekResponse(trace: Trace, id: ClientId) returns (sought: nat, sending: nat)
    requires id in Exec(trace).clients && Exec(trace).clients[id].seen.Some?
    requires Decide(Delivered(trace, id)).Seek?
    ensures SeeksAt(trace, sought, id, Exec(trace).clients[id])
    ensures Snapshot(trace, sending, id, Exec(trace).clients[id])
    ensures AnswersSeek(Exec(trace).clients[id], Exec(trace).dev.commits)
  {
    ClientFacts(trace, id);
    GotIsDelivered(trace, id);
    DeviceHoldsWinners(trace);
    SeekFacts(Exec(trace).clients[id], Exec(trace).dev.commits);
    sought := SeekExists(trace, id);
    sending := SnapshotExists(trace, id);
  }

  lemma {:induction false} SeekFacts(c: Client, commits: seq<seq<Byte>>)
    requires ClientOk(c) && HistoryOk(c, commits) && c.seen.Some? && c.request.Seek?
    requires forall i :: 0 <= i < |commits| ==> commits[i] != []
    ensures AnswersSeek(c, commits)
  {
    var past, now := commits[..c.sought.value], commits[..c.seen.value];
    assert c.start == c.due && c.view == Flatten(Window(now));
    SoughtInside(past, Place(c.request.to.writeCmd, c.request.to.writeCmdOffset));
    EvictionMoves(past, now, c.due);
  }

  lemma {:induction false} SoughtInside(log: seq<seq<Byte>>, at: Place)
    requires ValidPlace(Sizes(Window(log)), at)
    ensures PositionOf(Sizes(Window(log)), at) < |Flatten(Window(log))|
  {
    SeekLookupInverse(Sizes(Window(log)), at, 0);
    FlattenLength(Window(log));
  }

  lemma {:induction false} EvictionMoves(past: seq<seq<Byte>>, now: seq<seq<Byte>>, p: nat)
    requires past <= now && p < |Flatten(Window(past))|
    requires forall i :: 0 <= i < |now| ==> now[i] != []
    ensures var nothingEvicted := |now| <= CAPACITY || |now| == |past|;
            && (Absolute(now, p) == Absolute(past, p) <==> nothingEvicted)
            && (nothingEvicted ==>
                  Remaining(Flatten(Window(now)), p) == Flatten(Window(past))[p..] + Flatten(now[|past|..]))
  {
    assert now[..|past|] == past;
    BaseMonotone(now, |past|);
    if |now| <= CAPACITY || |now| == |past| {
      Extended(past, now);
    }
  }

  /** Without eviction the content only grows at its end. */
  lemma {:induction false} Extended(before: seq<seq<Byte>>, after: seq<seq<Byte>>)
    requires before <= after && (|after| <= CAPACITY || |after| == |before|)
    ensures Flatten(Window(after)) == Flatten(Window(before)) + Flatten(after[|before|..])
  {
    if |after| == |before| {
      assert after == before && after[|before|..] == [];
    } else {
      FlattenPrefix(after, |before|);
      assert after[..|before|] == before;
    }
  }
}
