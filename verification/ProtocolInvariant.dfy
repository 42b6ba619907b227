/** Every interleaving keeps the protocol invariant. */
module ProtocolInvariant {
  import opened Contents
  import opened Segmentation
  import opened Framing
  import opened SeekCommand
  import opened Requests
  import opened Protocol

  /** Commits only ever grow, and what a client not sending knows of them stays true. */
  lemma {:induction false} HistoryStays(c: Client, commits: seq<seq<Byte>>, commits': seq<seq<Byte>>)
    requires HistoryOk(c, commits) && commits <= commits' && !c.pc.Sending?
    ensures HistoryOk(c, commits')
  {
    if c.seen.Some? {
      assert commits[..c.seen.value] == commits'[..c.seen.value];
    }
    if c.sought.Some? {
      assert commits[..c.sought.value] == commits'[..c.sought.value];
    }
  }

  lemma {:induction false} WinnersUnchanged(acquired: seq<ClientId>, clients: map<ClientId, Client>,
                                            clients': map<ClientId, Client>)
    requires forall id :: id in acquired ==> id in clients && id in clients'
    requires forall id :: id in acquired ==> (clients[id].commit.Some? <==> clients'[id].commit.Some?)
    ensures Winners(acquired, clients) == Winners(acquired, clients')
  {
    if acquired != [] {
      WinnersUnchanged(acquired[..|acquired| - 1], clients, clients');
    }
  }

  /** Client `id` may become `c`, and the mutex pass to `holder`. */
  ghost predicate MayBecome(s: System, id: ClientId, c: Client, holder: Option<ClientId>) {
    && (HoldsMutex(c.pc) <==> holder == Some(id))
    && (holder == s.holder || s.holder.None? || s.holder == Some(id))
    && (holder == s.holder || holder.None? || holder == Some(id))
    && id in s.clients
    && KeepsOrder(s.clients[id], c)
  }

  ghost predicate KeepsOrder(c: Client, c': Client) {
    && c'.commit == c.commit
    && (c'.pc.Storing? ==> c.pc.Storing?)
    && (c'.pc.Receiving? || c'.pc.WantStore? ==> c.pc.Receiving? || c'.pc == c.pc)
  }

  lemma {:induction false} MutexKept(s: System, id: ClientId, c: Client, holder: Option<ClientId>)
    requires MutexOk(s) && MayBecome(s, id, c, holder)
    ensures MutexOk(Put(s, id, c).(holder := holder))
  {
  }

  lemma {:induction false} AcquiredKept(s: System, id: ClientId, c: Client, holder: Option<ClientId>)
    requires AcquiredOk(s) && MayBecome(s, id, c, holder)
    ensures AcquiredOk(Put(s, id, c).(holder := holder))
  {
  }

  lemma {:induction false} InOrderKept(s: System, id: ClientId, c: Client, holder: Option<ClientId>)
    requires AcquiredOk(s) && InOrder(s) && MayBecome(s, id, c, holder)
    ensures InOrder(Put(s, id, c).(holder := holder))
  {
    WinnersUnchanged(s.acquired, s.clients, s.clients[id := c]);
  }

  lemma {:induction false} OrderKept(s: System, id: ClientId, c: Client, holder: Option<ClientId>)
    requires OrderOk(s) && MayBecome(s, id, c, holder)
    ensures OrderOk(Put(s, id, c).(holder := holder))
  {
    AcquiredKept(s, id, c, holder);
    InOrderKept(s, id, c, holder);
  }

  /** The per-client invariants after client `id` became `c`. */
  lemma {:induction false} ClientsKept(s: System, id: ClientId, c: Client, commits: seq<seq<Byte>>, s': System)
    requires ClientsOk(s) && ClientOk(c) && HistoryOk(c, commits)
    requires forall other :: other in s.clients && other != id ==> HistoryOk(s.clients[other], commits)
    requires s'.clients == s.clients[id := c] && s'.dev.commits == commits
    ensures ClientsOk(s') && HistoriesOk(s')
  {
  }

  /** A step of one client that leaves the device, the order of acquisitions and its own commit
      as they were. */
  lemma {:induction false} OwnStepKeeps(s: System, id: ClientId, c: Client, holder: Option<ClientId>)
    requires Inv(s) && MayBecome(s, id, c, holder)
    requires ClientOk(c) && HistoryOk(c, s.dev.commits)
    ensures Inv(Put(s, id, c).(holder := holder))
  {
    var s' := Put(s, id, c).(holder := holder);
    MutexKept(s, id, c, holder);
    OrderKept(s, id, c, holder);
    ClientsKept(s, id, c, s.dev.commits, s');
    assert DeviceOk(s');
  }

  lemma {:induction false} NewClientOk(commits: seq<seq<Byte>>)
    ensures ClientOk(NEW_CLIENT) && HistoryOk(NEW_CLIENT, commits)
  {
    assert StrChr([]) == None;
  }

  lemma {:induction false} ConnectKeeps(s: System, id: ClientId)
    requires Inv(s) && id !in s.clients
    ensures Inv(Put(s, id, NEW_CLIENT))
  {
    var s' := Put(s, id, NEW_CLIENT);
    NewClientOk(s.dev.commits);
    ClientsKept(s, id, NEW_CLIENT, s.dev.commits, s');
    ConnectKeepsOrder(s, id);
    assert MutexOk(s') && DeviceOk(s');
  }

  lemma {:induction false} ConnectKeepsOrder(s: System, id: ClientId)
    requires OrderOk(s) && id !in s.clients
    ensures OrderOk(Put(s, id, NEW_CLIENT))
  {
    WinnersUnchanged(s.acquired, s.clients, s.clients[id := NEW_CLIENT]);
  }

  // ----- Events that change one client only -----

  /** What a local event must leave true. */
  ghost predicate LocalOk(c: Client, c': Client, commits: seq<seq<Byte>>) {
    && ClientOk(c') && HistoryOk(c', commits)
    && (HoldsMutex(c'.pc) <==> HoldsMutex(c.pc))
    && KeepsOrder(c, c')
  }

  /** The history is about fields that most events leave alone. */
  lemma {:induction false} SameHistory(c: Client, c': Client, commits: seq<seq<Byte>>)
    requires HistoryOk(c, commits)
    requires c' == c.(pc := c'.pc, pos := c'.pos, out := c'.out)
    requires c'.pc.Sending? ==> c.pc.Sending?
    ensures HistoryOk(c', commits)
  {
  }

  lemma {:induction false} ReceiveOk(c: Client, commits: seq<seq<Byte>>, chunk: seq<Byte>)
    requires ClientOk(c) && HistoryOk(c, commits) && c.pc.Receiving?
    ensures LocalOk(c, Received(c, chunk), commits)
  {
  }

  lemma {:induction false} IoctlOk(c: Client, commits: seq<seq<Byte>>, fails: bool)
    requires ClientOk(c) && HistoryOk(c, commits) && c.pc.Seeking?
    ensures LocalOk(c, Sought(commits, c, c.pc.to, fails), commits)
  {
    assert commits[..|commits|] == commits;
    SoughtOk(c, commits, c.pc.to, fails);
    SoughtHistory(c, commits, c.pc.to, fails);
  }

  lemma {:induction false} SoughtOk(c: Client, commits: seq<seq<Byte>>, to: SeekTo, fails: bool)
    requires ClientOk(c) && c.pc == Seeking(to)
    ensures var c' := Sought(commits, c, to, fails);
            ClientOk(c') && c'.pc.Releasing? && KeepsOrder(c, c')
    ensures c.seen.None? && c.request == Seek(to)
  {
  }

  lemma {:induction false} SoughtHistory(c: Client, commits: seq<seq<Byte>>, to: SeekTo, fails: bool)
    requires HistoryOk(c, commits) && c.seen.None? && c.request == Seek(to) && commits[..|commits|] == commits
    ensures HistoryOk(Sought(commits, c, to, fails), commits)
  {
  }

  lemma {:induction false} StreamedIsPrefix(c: Client, unsent: seq<Byte>)
    requires Streamed(c, unsent)
    ensures c.out <= Remaining(c.view, c.start)
    ensures unsent == [] && c.pos >= |c.view| ==> c.out == Remaining(c.view, c.start)
  {
    assert c.out + [] == c.out;
  }

  lemma {:induction false} SendOk(c: Client, commits: seq<seq<Byte>>, n: nat)
    requires ClientOk(c) && HistoryOk(c, commits) && c.pc.Sending? && c.pc.sent + n <= |c.pc.chunk|
    ensures LocalOk(c, HasSent(c, n), commits)
  {
    SameHistory(c, HasSent(c, n), commits);
    HasSentOk(c, n);
  }

  lemma {:induction false} HasSentOk(c: Client, n: nat)
    requires ClientOk(c) && c.pc.Sending? && c.pc.sent + n <= |c.pc.chunk|
    ensures ClientOk(HasSent(c, n))
  {
    var Sending(chunk, sent) := c.pc;
    var c' := HasSent(c, n);
    assert c.out + chunk[sent..] == c'.out + chunk[sent + n..];
    StreamedIsPrefix(c', chunk[sent + n..]);
  }

  lemma {:induction false} ReadOk(c: Client, commits: seq<seq<Byte>>, fails: bool)
    requires ClientOk(c) && HistoryOk(c, commits) && c.pc.Sending? && c.pc.sent == |c.pc.chunk|
    ensures LocalOk(c, HasRead(commits, c, fails), commits)
  {
    SameHistory(c, HasRead(commits, c, fails), commits);
    assert commits[..|commits|] == commits;
    assert c.view == Flatten(Window(commits));
    HasReadOk(c, commits, fails);
  }

  lemma {:induction false} HasReadOk(c: Client, commits: seq<seq<Byte>>, fails: bool)
    requires ClientOk(c) && c.view == Flatten(Window(commits)) && c.pc.Sending? && c.pc.sent == |c.pc.chunk|
    ensures ClientOk(HasRead(commits, c, fails))
  {
    var piece := ReadPiece(Window(commits), c.pos, BUFFER_SIZE);
    ReadPieceIsNext(Window(commits), c.pos, BUFFER_SIZE);
    StreamedNext(c, piece);
  }

  lemma {:induction false} StreamedNext(c: Client, piece: seq<Byte>)
    requires ClientOk(c) && c.pc.Sending? && c.pc.sent == |c.pc.chunk|
    requires IsNext(c.view, c.pos, piece)
    ensures ClientOk(if piece == [] then c.(pc := Releasing(Done(true)))
                     else c.(pc := Sending(piece, 0), pos := c.pos + |piece|))
  {
    assert c.pc.chunk[c.pc.sent..] == [];
    StreamedIsPrefix(c, []);
    if piece != [] {
      assert c.view[c.start..c.pos] + piece == c.view[c.start..c.pos + |piece|];
      assert c.out + [] == c.out;
      assert piece[0..] == piece;
    }
  }

  lemma {:induction false} LeaveOk(c: Client, commits: seq<seq<Byte>>, pc: Pc)
    requires ClientOk(c) && HistoryOk(c, commits)
    requires || (pc == Rewinding && c.pc.Receiving?)
             || (pc == Done(false) && (c.pc.Receiving? || c.pc.Rewinding? || c.pc.WantSend?))
             || (pc == Releasing(Done(false)) && c.pc.Sending?)
    ensures LocalOk(c, c.(pc := pc), commits)
  {
    SameHistory(c, c.(pc := pc), commits);
    assert ClientOk(c.(pc := pc));
  }

  lemma {:induction false} RewindOk(c: Client, commits: seq<seq<Byte>>)
    requires ClientOk(c) && HistoryOk(c, commits) && c.pc.Rewinding?
    ensures LocalOk(c, c.(pc := WantSend, pos := 0), commits)
  {
    SameHistory(c, c.(pc := WantSend, pos := 0), commits);
    assert ClientOk(c.(pc := WantSend, pos := 0));
  }

  lemma {:induction false} LocalStepOk(c: Client, commits: seq<seq<Byte>>, e: Event)
    requires ClientOk(c) && HistoryOk(c, commits)
    ensures LocalOk(c, Local(commits, c, e), commits)
  {
    if Local(commits, c, e) != c {
      match e
      case Receive(chunk) => ReceiveOk(c, commits, chunk);
      case EndReceive => LeaveOk(c, commits, Rewinding);
      case Fail => LeaveOk(c, commits, Done(false));
      case Rewind => RewindOk(c, commits);
      case Ioctl(fails) => IoctlOk(c, commits, fails);
      case Read(fails) => ReadOk(c, commits, fails);
      case Send(n) => SendOk(c, commits, n);
      case SendFail => LeaveOk(c, commits, Releasing(Done(false)));
      case _ =>
    }
  }

  // ----- Events that change what clients share -----

  lemma {:induction false} LockToSendOk(s: System, c: Client)
    requires ClientOk(c) && HistoryOk(c, s.dev.commits) && c.pc.WantSend?
    ensures var c' := c.(pc := Sending([], 0), seen := Some(|s.dev.commits|), view := Content(s), start := c.pos);
            ClientOk(c') && HistoryOk(c', s.dev.commits)
  {
    assert s.dev.commits[..|s.dev.commits|] == s.dev.commits;
  }

  lemma {:induction false} LockKeeps(s: System, id: ClientId)
    requires Inv(s) && id in s.clients && s.holder.None?
    ensures Inv(Locked(s, id, s.clients[id]))
  {
    var c := s.clients[id];
    match c.pc
    case WantStore(packet) => LockToStoreKeeps(s, id);
    case WantSeek(to) =>
      OwnStepKeeps(s, id, c.(pc := Seeking(to)), Some(id));
    case WantSend =>
      LockToSendOk(s, c);
      var c' := c.(pc := Sending([], 0), seen := Some(|s.dev.commits|), view := Content(s), start := c.pos);
      OwnStepKeeps(s, id, c', Some(id));
    case _ =>
  }

  lemma {:induction false} LockToStoreOk(c: Client, commits: seq<seq<Byte>>)
    requires ClientOk(c) && HistoryOk(c, commits) && c.pc.WantStore?
    ensures ClientOk(c.(pc := Storing(c.pc.packet))) && HistoryOk(c.(pc := Storing(c.pc.packet)), commits)
    ensures c.commit.None?
  {
    SameHistory(c, c.(pc := Storing(c.pc.packet)), commits);
  }

  lemma {:induction false} LockToStoreKeeps(s: System, id: ClientId)
    requires Inv(s) && id in s.clients && s.clients[id].pc.WantStore? && s.holder.None?
    ensures Inv(Locked(s, id, s.clients[id]))
  {
    var c := s.clients[id];
    var s' := Locked(s, id, c);
    LockToStoreOk(c, s.dev.commits);
    ClientsKept(s, id, c.(pc := Storing(c.pc.packet)), s.dev.commits, s');
    LockToStoreKeepsOrder(s, id);
    LockToStoreKeepsMutex(s, id);
    assert DeviceOk(s');
  }

  lemma {:induction false} LockToStoreKeepsMutex(s: System, id: ClientId)
    requires MutexOk(s) && id in s.clients && s.clients[id].pc.WantStore? && s.holder.None?
    ensures MutexOk(Locked(s, id, s.clients[id]))
  {
  }

  lemma {:induction false} LockToStoreKeepsOrder(s: System, id: ClientId)
    requires OrderOk(s) && id in s.clients && s.clients[id].pc.WantStore? && s.clients[id].commit.None?
    requires forall other :: other in s.clients ==> !s.clients[other].pc.Storing?
    ensures OrderOk(Locked(s, id, s.clients[id]))
  {
    var s' := Locked(s, id, s.clients[id]);
    WinnersUnchanged(s.acquired, s.clients, s'.clients);
    WinnersLoserAdded(s.acquired, id, s'.clients);
    assert InOrder(s');
  }

  lemma {:induction false} WinnersLoserAdded(acquired: seq<ClientId>, id: ClientId, clients: map<ClientId, Client>)
    requires id in clients && clients[id].commit.None?
    ensures Winners(acquired + [id], clients) == Winners(acquired, clients)
  {
    assert (acquired + [id])[..|acquired|] == acquired;
    assert Winners(acquired, clients) + [] == Winners(acquired, clients);
  }

  lemma {:induction false} WriteKeeps(s: System, id: ClientId, outcome: Outcome)
    requires Inv(s) && id in s.clients && s.clients[id].pc.Storing?
    ensures Inv(Written(s, id, s.clients[id], s.clients[id].pc.packet, outcome))
  {
    var c := s.clients[id];
    if outcome.Success? {
      WriteSucceeds(s, id);
    } else {
      assert Apply(s.dev, CallFor(outcome, c.pc.packet)) == s.dev;
      OwnStepKeeps(s, id, c.(pc := Releasing(Done(false))), s.holder);
    }
  }

  lemma {:induction false} CommitOk(c: Client, commits: seq<seq<Byte>>)
    requires ClientOk(c) && HistoryOk(c, commits) && c.pc.Storing?
    ensures var packet := c.pc.packet;
            var c' := c.(pc := Releasing(Rewinding), pos := c.pos + |packet|, commit := Some(|commits|));
            ClientOk(c') && HistoryOk(c', commits + [packet]) && IsPacket(packet) && c.commit.None?
  {
  }

  lemma {:induction false} WriteSucceeds(s: System, id: ClientId)
    requires Inv(s) && id in s.clients && s.clients[id].pc.Storing?
    ensures Inv(Written(s, id, s.clients[id], s.clients[id].pc.packet, Success))
  {
    var c := s.clients[id];
    var packet := c.pc.packet;
    var s' := Written(s, id, c, packet, Success);
    CommitOk(c, s.dev.commits);
    PacketCommits(s.dev, packet);
    HistoriesStay(s, id, s'.dev.commits);
    ClientsKept(s, id, s'.clients[id], s'.dev.commits, s');
    WriteKeepsOrder(s, id);
    WriteKeepsMutex(s, id);
    WriteKeepsDevice(s, s', packet);
  }

  /** While one client stores, no other is sending, so a commit leaves their histories true. */
  lemma {:induction false} HistoriesStay(s: System, id: ClientId, commits: seq<seq<Byte>>)
    requires HistoriesOk(s) && MutexOk(s) && s.holder == Some(id) && s.dev.commits <= commits
    ensures forall other :: other in s.clients && other != id ==> HistoryOk(s.clients[other], commits)
  {
    forall other | other in s.clients && other != id
      ensures HistoryOk(s.clients[other], commits)
    {
      HistoryStays(s.clients[other], s.dev.commits, commits);
    }
  }

  lemma {:induction false} WriteKeepsDevice(s: System, s': System, packet: seq<Byte>)
    requires DeviceOk(s) && IsPacket(packet) && s'.dev == DeviceState(s.dev.commits + [packet], [])
    ensures DeviceOk(s')
  {
  }

  lemma {:induction false} WriteKeepsMutex(s: System, id: ClientId)
    requires MutexOk(s) && id in s.clients && s.clients[id].pc.Storing?
    ensures MutexOk(Written(s, id, s.clients[id], s.clients[id].pc.packet, Success))
  {
  }

  /** A whole packet written to a device with nothing pending becomes one commit. */
  lemma {:induction false} PacketCommits(dev: DeviceState, packet: seq<Byte>)
    requires dev.pending == [] && IsPacket(packet)
    ensures Apply(dev, Stored(packet)) == DeviceState(dev.commits + [packet], [])
  {
    assert packet[|packet| - 1] == '\n' && dev.pending + packet == packet;
  }

  lemma {:induction false} WriteKeepsOrder(s: System, id: ClientId)
    requires OrderOk(s) && id in s.clients && s.clients[id].pc.Storing? && s.clients[id].commit.None?
    requires var s' := Written(s, id, s.clients[id], s.clients[id].pc.packet, Success);
             |s'.dev.commits| == |s.dev.commits| + 1
    ensures OrderOk(Written(s, id, s.clients[id], s.clients[id].pc.packet, Success))
  {
    var s' := Written(s, id, s.clients[id], s.clients[id].pc.packet, Success);
    WinnersExtended(s.acquired, s.clients, id, s'.clients[id]);
    var winners := Winners(s.acquired, s.clients);
    assert forall i :: 0 <= i < |winners| ==> winners[i] != id;
    WriteKeepsAcquired(s, id, s'.clients[id], s');
  }

  lemma {:induction false} WriteKeepsAcquired(s: System, id: ClientId, c: Client, s': System)
    requires AcquiredOk(s) && id in s.clients && s.clients[id].pc.Storing? && c.pc.Releasing?
    requires s'.clients == s.clients[id := c] && s'.acquired == s.acquired
    ensures AcquiredOk(s')
  {
  }

  /** The last to take the mutex becomes the last winner. */
  lemma {:induction false} WinnersExtended(acquired: seq<ClientId>, clients: map<ClientId, Client>,
                                           id: ClientId, c: Client)
    requires acquired != [] && acquired[|acquired| - 1] == id && id in clients
    requires clients[id].commit.None? && c.commit.Some?
    requires forall other :: other in acquired ==> other in clients
    requires forall i, j :: 0 <= i < j < |acquired| ==> acquired[i] != acquired[j]
    ensures Winners(acquired, clients[id := c]) == Winners(acquired, clients) + [id]
  {
    var before := acquired[..|acquired| - 1];
    WinnersUnchanged(before, clients, clients[id := c]);
    assert Winners(before, clients) + [] == Winners(before, clients);
  }

  lemma {:induction false} UnlockOk(c: Client, commits: seq<seq<Byte>>)
    requires ClientOk(c) && HistoryOk(c, commits) && c.pc.Releasing?
    ensures ClientOk(c.(pc := c.pc.next)) && HistoryOk(c.(pc := c.pc.next), commits)
    ensures !HoldsMutex(c.pc.next) && KeepsOrder(c, c.(pc := c.pc.next))
  {
  }

  lemma {:induction false} LocalKeeps(s: System, id: ClientId, e: Event)
    requires Inv(s) && id in s.clients
    ensures Inv(Put(s, id, Local(s.dev.commits, s.clients[id], e)))
  {
    var c' := Local(s.dev.commits, s.clients[id], e);
    LocalStepOk(s.clients[id], s.dev.commits, e);
    OwnStepKeeps(s, id, c', s.holder);
    assert Put(s, id, c').(holder := s.holder) == Put(s, id, c');
  }

  lemma {:induction false} UnlockKeeps(s: System, id: ClientId)
    requires Inv(s) && id in s.clients && s.clients[id].pc.Releasing?
    ensures Inv(Put(s, id, s.clients[id].(pc := s.clients[id].pc.next)).(holder := None))
  {
    var c := s.clients[id];
    UnlockOk(c, s.dev.commits);
    OwnStepKeeps(s, id, c.(pc := c.pc.next), None);
  }

  /** What a step is, case by case. */
  lemma {:induction false} StepIs(s: System, id: ClientId, e: Event)
    requires id in s.clients
    ensures var c := s.clients[id];
            Step(s, id, e) ==
            if e.Lock? then (if s.holder.None? then Locked(s, id, c) else s)
            else if e.Write? then (if c.pc.Storing? then Written(s, id, c, c.pc.packet, e.outcome) else s)
            else if e.Unlock? then (if c.pc.Releasing? then Put(s, id, c.(pc := c.pc.next)).(holder := None) else s)
            else Put(s, id, Local(s.dev.commits, c, e))
  {
  }

  lemma {:induction false} StepKeeps(s: System, id: ClientId, e: Event)
    requires Inv(s)
    ensures Inv(Step(s, id, e))
  {
    if id !in s.clients {
      if e.Connect? {
        ConnectKeeps(s, id);
      }
    } else {
      StepIs(s, id, e);
      var c := s.clients[id];
      if e.Lock? {
        if s.holder.None? { LockKeeps(s, id); }
      } else if e.Write? {
        if c.pc.Storing? { WriteKeeps(s, id, e.outcome); }
      } else if e.Unlock? {
        if c.pc.Releasing? { UnlockKeeps(s, id); }
      } else {
        LocalKeeps(s, id, e);
      }
    }
  }

  lemma {:induction false} AlwaysInv(trace: seq<(ClientId, Event)>)
    ensures Inv(Exec(trace))
  {
    if trace != [] {
      AlwaysInv(trace[..|trace| - 1]);
      var (id, e) := trace[|trace| - 1];
      StepKeeps(Exec(trace[..|trace| - 1]), id, e);
    }
  }
}
