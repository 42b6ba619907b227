/** All clients of the server at once, as a machine whose steps are the system calls between
    mutex operations. A system is what any list of (client, event) pairs leads to; an event
    that the client's program does not allow at that moment changes nothing. */
module Protocol {
  import opened Contents
  import opened Segmentation
  import opened Framing
  import opened SeekCommand
  import opened Requests
  import opened Chunking

  type ClientId = nat

  /** Where a client thread is. Between taking the mutex and `Releasing` it holds file_mutex. */
  datatype Pc =
    | Receiving
    | WantStore(packet: seq<Byte>)
    | Storing(packet: seq<Byte>)
    | WantSeek(to: SeekTo)
    | Seeking(to: SeekTo)
    | Rewinding
    | WantSend
    | Sending(chunk: seq<Byte>, sent: nat)
    | Releasing(next: Pc)
    | Done(ok: bool)

  /** A client thread. From `request` on the fields are history: no step depends on them. */
  datatype Client = Client(
    pc: Pc,
    got: seq<Byte>,           // bytes received
    pos: nat,                 // position of its open file
    out: seq<Byte>,           // response bytes its socket accepted
    request: Decision,        // what the bytes received call for
    commit: Option<nat>,      // index of its packet among the commits
    sought: Option<nat>,      // how many commits there were when its seek succeeded
    due: nat,                 // where its response has to begin
    seen: Option<nat>,        // how many commits there were when it took the mutex to send
    view: seq<Byte>,          // the device's content at that moment
    start: nat)               // its position at that moment

  datatype System = System(
    dev: DeviceState,
    holder: Option<ClientId>,         // who holds file_mutex
    clients: map<ClientId, Client>,
    acquired: seq<ClientId>)          // history: who took the mutex to store, in order

  /** How a write on a working descriptor can end. */
  datatype Outcome = Success | OutOfMemory | BadAddress | Signalled

  datatype Event =
    | Connect                          // a new client thread with its own open file
    | Receive(chunk: seq<Byte>)        // recv returned these bytes
    | EndReceive                       // end of stream, or the server was told to stop
    | Fail                             // open, malloc, recv, realloc or lseek failed
    | Lock
    | Write(outcome: Outcome)
    | Ioctl(fails: bool)               // `fails`: bad address or interrupted
    | Rewind
    | Read(fails: bool)
    | Send(n: nat)                     // send accepted this many bytes
    | SendFail
    | Unlock

  const INITIAL := System(EMPTY_DEVICE, None, map[], [])

  const NEW_CLIENT := Client(Receiving, [], 0, [], Incomplete, None, None, 0, None, [], 0)

  function CallFor(outcome: Outcome, packet: seq<Byte>): WriteCall {
    match outcome
    case Success => Stored(packet)
    case OutOfMemory => NoMemory(packet)
    case BadAddress => Fault(packet)
    case Signalled => Interrupted(packet)
  }

  /** What a reader sees from beginning to end. */
  function Content(s: System): seq<Byte> {
    Flatten(Window(s.dev.commits))
  }

  function Put(s: System, id: ClientId, c: Client): System {
    s.(clients := s.clients[id := c])
  }

  /** A receive that can happen: the client is still in its receive loop, and recv returned no
      more than its buffer has room for. */
  predicate Takes(c: Client, chunk: seq<Byte>) {
    c.pc.Receiving? && 1 <= |chunk| <= Room(|c.got|)
  }

  function Received(c: Client, chunk: seq<Byte>): Client {
    var request := Decide(c.got + chunk);
    var pc := match request
              case Incomplete => Receiving
              case Seek(to) => WantSeek(to)
              case Store(packet) => WantStore(packet);
    c.(got := c.got + chunk, request := request, pc := pc)
  }

  /** Taking the free mutex, for whichever purpose the client wants it. */
  function Locked(s: System, id: ClientId, c: Client): System {
    match c.pc
    case WantStore(packet) =>
      Put(s, id, c.(pc := Storing(packet))).(holder := Some(id), acquired := s.acquired + [id])
    case WantSeek(to) =>
      Put(s, id, c.(pc := Seeking(to))).(holder := Some(id))
    case WantSend =>
      var c' := c.(pc := Sending([], 0), seen := Some(|s.dev.commits|), view := Content(s), start := c.pos);
      Put(s, id, c').(holder := Some(id))
    case _ => s
  }

  function Written(s: System, id: ClientId, c: Client, packet: seq<Byte>, outcome: Outcome): System {
    var dev := Apply(s.dev, CallFor(outcome, packet));
    if outcome.Success?
    then
      var c' := c.(pc := Releasing(Rewinding), pos := c.pos + |packet|, commit := Some(|s.dev.commits|));
      Put(s, id, c').(dev := dev)
    else Put(s, id, c.(pc := Releasing(Done(false)))).(dev := dev)
  }

  function Sought(commits: seq<seq<Byte>>, c: Client, to: SeekTo, fails: bool): Client {
    var ns := Sizes(Window(commits));
    var at := Place(to.writeCmd, to.writeCmdOffset);
    if !fails && ValidPlace(ns, at)
    then
      var pos := PositionOf(ns, at);
      c.(pc := Releasing(WantSend), pos := pos, sought := Some(|commits|), due := pos)
    else c.(pc := Releasing(Done(false)))
  }

  function HasRead(commits: seq<seq<Byte>>, c: Client, fails: bool): Client {
    var piece := ReadPiece(Window(commits), c.pos, BUFFER_SIZE);
    if fails then c.(pc := Releasing(Done(false)))
    else if piece == [] then c.(pc := Releasing(Done(true)))
    else c.(pc := Sending(piece, 0), pos := c.pos + |piece|)
  }

  function HasSent(c: Client, n: nat): Client
    requires c.pc.Sending? && c.pc.sent + n <= |c.pc.chunk|
  {
    var Sending(chunk, sent) := c.pc;
    c.(pc := Sending(chunk, sent + n), out := c.out + chunk[sent..sent + n])
  }

  /** The events that change nothing but the client itself. */
  function Local(commits: seq<seq<Byte>>, c: Client, e: Event): Client {
    match e
    case Receive(chunk) => if Takes(c, chunk) then Received(c, chunk) else c
    case EndReceive => if c.pc.Receiving? then c.(pc := Rewinding) else c
    case Fail => if c.pc.Receiving? || c.pc.Rewinding? || c.pc.WantSend? then c.(pc := Done(false)) else c
    case Rewind => if c.pc.Rewinding? then c.(pc := WantSend, pos := 0) else c
    case Ioctl(fails) => if c.pc.Seeking? then Sought(commits, c, c.pc.to, fails) else c
    case Read(fails) => if c.pc.Sending? && c.pc.sent >= |c.pc.chunk| then HasRead(commits, c, fails) else c
    case Send(n) => if c.pc.Sending? && 1 <= n && c.pc.sent + n <= |c.pc.chunk| then HasSent(c, n) else c
    case SendFail =>
      if c.pc.Sending? && c.pc.sent < |c.pc.chunk| then c.(pc := Releasing(Done(false))) else c
    case _ => c
  }

  function Step(s: System, id: ClientId, e: Event): System {
    if id !in s.clients then (if e.Connect? then Put(s, id, NEW_CLIENT) else s)
    else
      var c := s.clients[id];
      match e
      case Lock => if s.holder.None? then Locked(s, id, c) else s
      case Write(outcome) => if c.pc.Storing? then Written(s, id, c, c.pc.packet, outcome) else s
      case Unlock => if c.pc.Releasing? then Put(s, id, c.(pc := c.pc.next)).(holder := None) else s
      case _ => Put(s, id, Local(s.dev.commits, c, e))
  }

  /** The system after any interleaving. */
  function Exec(trace: seq<(ClientId, Event)>): System {
    if trace == [] then INITIAL
    else
      var (id, e) := trace[|trace| - 1];
      Step(Exec(trace[..|trace| - 1]), id, e)
  }

  // ----- What every step keeps -----

  predicate HoldsMutex(pc: Pc) {
    pc.Storing? || pc.Seeking? || pc.Sending? || pc.Releasing?
  }

  /** Where the client will be once it has let go of the mutex. */
  function Stage(pc: Pc): Pc {
    if pc.Releasing? then pc.next else pc
  }

  /** What was sent, and what of the last read is still to be sent, run from where the
      response began up to the file position. */
  ghost predicate Streamed(c: Client, unsent: seq<Byte>) {
    && c.start <= c.pos
    && if c.start <= |c.view|
       then c.pos <= |c.view| && c.out + unsent == c.view[c.start..c.pos]
       else c.out + unsent == []
  }

  /** The client's request has had its effect. */
  predicate Served(c: Client) {
    (c.request.Store? ==> c.commit.Some?) && (c.request.Seek? ==> c.sought.Some?)
  }

  ghost predicate StageOk(c: Client) {
    match Stage(c.pc)
    case Receiving => c.request.Incomplete? && c.commit.None? && c.sought.None?
    case WantStore(packet) => c.request == Store(packet) && c.commit.None?
    case Storing(packet) => c.request == Store(packet) && c.commit.None?
    case WantSeek(to) => c.request == Seek(to) && c.commit.None? && c.sought.None?
    case Seeking(to) => c.request == Seek(to) && c.commit.None? && c.sought.None?
    case Rewinding => !c.request.Seek? && Served(c)
    case WantSend => Served(c) && c.pos == c.due
    case Sending(chunk, sent) => sent <= |chunk| && c.seen.Some? && Streamed(c, chunk[sent..])
    case Done(ok) => ok ==> c.seen.Some? && c.out == Remaining(c.view, c.start)
    case Releasing(_) => false
  }

  /** What holds of each client on its own. */
  ghost predicate ClientOk(c: Client) {
    && (!c.request.Seek? ==> c.due == 0)
    && (c.seen.None? ==> c.out == [])
    && (c.seen.Some? ==> && (Stage(c.pc).Sending? || Stage(c.pc).Done?)
                         && Served(c) && c.start == c.due && c.out <= Remaining(c.view, c.start))
    && (c.pc.Releasing? ==> c.pc.next.Rewinding? || c.pc.next.WantSend? || c.pc.next.Done?)
    && StageOk(c)
  }

  /** What a client's history says about the device. */
  ghost predicate HistoryOk(c: Client, commits: seq<seq<Byte>>) {
    && c.request == Decide(c.got)
    && (c.commit.Some? ==> c.commit.value < |commits| && c.request == Store(commits[c.commit.value]))
    && (c.sought.Some? ==>
          && c.request.Seek? && c.sought.value <= |commits|
          && var ns := Sizes(Window(commits[..c.sought.value]));
             var at := Place(c.request.to.writeCmd, c.request.to.writeCmdOffset);
             ValidPlace(ns, at) && c.due == PositionOf(ns, at))
    && (c.seen.Some? ==>
          && c.seen.value <= |commits| && c.view == Flatten(Window(commits[..c.seen.value]))
          && (c.commit.Some? ==> c.commit.value < c.seen.value)
          && (c.sought.Some? ==> c.sought.value <= c.seen.value))
    && (c.pc.Sending? ==> c.seen == Some(|commits|))
  }

  /** The clients whose packets were stored, in the order they took the mutex. */
  function Winners(acquired: seq<ClientId>, clients: map<ClientId, Client>): seq<ClientId> {
    if acquired == [] then []
    else
      var last := acquired[|acquired| - 1];
      Winners(acquired[..|acquired| - 1], clients)
        + (if last in clients && clients[last].commit.Some? then [last] else [])
  }

  /** Commit `i` is the packet of the `i`-th winner. */
  ghost predicate InOrder(s: System) {
    var winners := Winners(s.acquired, s.clients);
    && |winners| == |s.dev.commits|
    && forall i :: 0 <= i < |winners| ==> winners[i] in s.clients && s.clients[winners[i]].commit == Some(i)
  }

  /** Nobody takes the mutex to store twice; whoever is storing is the last to have taken it. */
  ghost predicate AcquiredOk(s: System) {
    && (forall i, j :: 0 <= i < j < |s.acquired| ==> s.acquired[i] != s.acquired[j])
    && (forall id :: id in s.acquired ==>
          id in s.clients && !s.clients[id].pc.Receiving? && !s.clients[id].pc.WantStore?)
    && (forall id :: id in s.clients && s.clients[id].commit.Some? ==> id in s.acquired)
    && (forall id :: id in s.clients && s.clients[id].pc.Storing? ==>
          s.acquired != [] && s.acquired[|s.acquired| - 1] == id)
  }

  ghost predicate OrderOk(s: System) {
    AcquiredOk(s) && InOrder(s)
  }

  ghost predicate MutexOk(s: System) {
    && (s.holder.Some? ==> s.holder.value in s.clients)
    && forall id :: id in s.clients ==> (HoldsMutex(s.clients[id].pc) <==> s.holder == Some(id))
  }

  ghost predicate DeviceOk(s: System) {
    s.dev.pending == [] && forall i :: 0 <= i < |s.dev.commits| ==> IsPacket(s.dev.commits[i])
  }

  ghost predicate ClientsOk(s: System) {
    forall id :: id in s.clients ==> ClientOk(s.clients[id])
  }

  ghost predicate HistoriesOk(s: System) {
    forall id :: id in s.clients ==> HistoryOk(s.clients[id], s.dev.commits)
  }

  ghost predicate Inv(s: System) {
    DeviceOk(s) && MutexOk(s) && ClientsOk(s) && HistoriesOk(s) && OrderOk(s)
  }
}
