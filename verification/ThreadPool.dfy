/** The accept, reap and shutdown loops of main in server/aesdsocket.c together with the
    lifecycle of every worker thread, as a machine. A system is what any list of events leads
    to; an event that is not possible at that moment changes nothing. */
module ThreadPool {
  import opened Contents

  /** A thread record; an address handed out again by malloc counts as a new record. */
  type Id = nat

  /** Where a worker thread is in client_handler. */
  datatype WorkerPc =
    | Unborn         // record allocated, thread not created
    | Created        // thread created, record not read yet
    | Serving        // has read its descriptor from the record
    | Closed         // has closed it; wants list_mutex
    | Publishing     // holds list_mutex
    | Published      // has set thread_complete, still holds list_mutex
    | Leaving        // has released list_mutex
    | Exited

  datatype Worker = Worker(conn: nat, pc: WorkerPc, complete: bool, live: bool, joins: nat)

  /** One accepted connection: its descriptor, whose it is (None: main's), how often it was closed. */
  datatype Conn = Conn(fd: nat, owner: Option<Id>, closes: nat)

  /** Where main is. From LockReap to EndReap and from LockDrain to EndDrain it holds list_mutex. */
  datatype MainPc =
    | Accepting
    | Accepted(conn: nat)
    | Allocated(conn: nat, id: Id)
    | Started(id: Id)
    | WantReap
    | Reaping(i: nat)               // about to examine list[i]
    | Joining(i: nat)               // list[i] is complete
    | Joined(i: nat)
    | Unlinked(id: Id, i: nat)
    | WantDrain
    | Draining
    | DrainJoined
    | DrainUnlinked(id: Id)
    | Finished

  datatype Holder = Nobody | Main | Thread(id: Id)

  datatype Pool = Pool(
    main: MainPc,
    workers: map<Id, Worker>,
    list: seq<Id>,
    holder: Holder,                // of list_mutex
    conns: seq<Conn>,
    open: map<nat, nat>,           // open client descriptors, to their connections
    active: bool,
    touchedFreed: bool,            // somebody used a record after its free
    strayClose: bool)              // somebody closed a descriptor that was not its own

  datatype Event =
    | Signal                       // SIGINT or SIGTERM
    | Accept(fd: nat) | AcceptFails | Stop
    | Malloc(id: Id) | MallocFails
    | Create | CreateFails
    | Insert | LockReap | Examine | Join | Unlink | Free | EndReap
    | LockDrain | EndDrain
    | Begin(id: Id) | Close(id: Id) | Lock(id: Id) | Publish(id: Id) | Unlock(id: Id) | Exit(id: Id)

  const INITIAL := Pool(Accepting, map[], [], Nobody, [], map[], true, false, false)

  // ----- Small steps -----

  function PutWorker(s: Pool, id: Id, w: Worker): Pool {
    s.(workers := s.workers[id := w])
  }

  /** A use of record `id`. */
  function Touch(s: Pool, id: Id): Pool
    requires id in s.workers
  {
    s.(touchedFreed := s.touchedFreed || !s.workers[id].live)
  }

  /** A use of every record in `ids`. */
  function TouchAll(s: Pool, ids: seq<Id>): Pool {
    s.(touchedFreed := s.touchedFreed || exists id :: id in ids && id in s.workers && !s.workers[id].live)
  }

  /** close() of connection `c`'s descriptor by `who`. */
  function CloseConn(s: Pool, c: nat, who: Option<Id>): Pool
    requires c < |s.conns|
  {
    var conn := s.conns[c];
    if conn.fd in s.open && s.open[conn.fd] == c && conn.owner == who
    then s.(open := s.open - {conn.fd}, conns := s.conns[c := conn.(closes := conn.closes + 1)])
    else s.(strayClose := true, conns := s.conns[c := conn.(closes := conn.closes + 1)])
  }

  function AcceptStep(s: Pool, fd: nat): Pool {
    if s.main.Accepting? && fd !in s.open
    then s.(main := Accepted(|s.conns|), conns := s.conns + [Conn(fd, None, 0)], open := s.open[fd := |s.conns|])
    else s
  }

  function MallocStep(s: Pool, id: Id): Pool {
    if s.main.Accepted? && id !in s.workers
    then PutWorker(s, id, Worker(s.main.conn, Unborn, false, true, 0)).(main := Allocated(s.main.conn, id))
    else s
  }

  function MallocFailsStep(s: Pool): Pool {
    if s.main.Accepted? && s.main.conn < |s.conns|
    then CloseConn(s, s.main.conn, None).(main := Accepting)
    else s
  }

  function CreateStep(s: Pool): Pool {
    if s.main.Allocated? && s.main.id in s.workers && s.main.conn < |s.conns|
    then
      var Allocated(c, id) := s.main;
      PutWorker(s, id, s.workers[id].(pc := Created)).(
        main := Started(id), conns := s.conns[c := s.conns[c].(owner := Some(id))])
    else s
  }

  function CreateFailsStep(s: Pool): Pool {
    if s.main.Allocated? && s.main.id in s.workers && s.main.conn < |s.conns|
    then
      var Allocated(c, id) := s.main;
      PutWorker(CloseConn(s, c, None), id, s.workers[id].(live := false)).(main := Accepting)
    else s
  }

  function InsertStep(s: Pool): Pool {
    if s.main.Started? && s.main.id in s.workers
    then Touch(s, s.main.id).(main := WantReap, list := [s.main.id] + s.list)
    else s
  }

  function LockMain(s: Pool, next: MainPc): Pool {
    if s.holder.Nobody? then s.(main := next, holder := Main) else s
  }

  /** The test of thread_complete on the current record. */
  function ExamineStep(s: Pool): Pool {
    if s.main.Reaping? && s.main.i < |s.list| && s.list[s.main.i] in s.workers
    then
      var i := s.main.i;
      Touch(s, s.list[i]).(main := if s.workers[s.list[i]].complete then Joining(i) else Reaping(i + 1))
    else s
  }

  /** pthread_join of record `id`: returns only once that thread has exited. */
  function JoinRecord(s: Pool, id: Id, next: MainPc): Pool {
    if id in s.workers && s.workers[id].pc.Exited?
    then PutWorker(Touch(s, id), id, s.workers[id].(joins := s.workers[id].joins + 1)).(main := next)
    else s
  }

  function JoinStep(s: Pool): Pool {
    if s.main.Joining? && s.main.i < |s.list| then JoinRecord(s, s.list[s.main.i], Joined(s.main.i))
    else if s.main.Draining? && s.list != [] then JoinRecord(s, s.list[0], DrainJoined)
    else s
  }

  /** SLIST_REMOVE searches from the head and so uses every record up to the one it removes;
      SLIST_REMOVE_HEAD uses the first one only. */
  function UnlinkStep(s: Pool): Pool {
    if s.main.Joined? && s.main.i < |s.list|
    then
      var i := s.main.i;
      TouchAll(s, s.list[..i + 1]).(main := Unlinked(s.list[i], i), list := s.list[..i] + s.list[i + 1..])
    else if s.main.DrainJoined? && s.list != []
    then TouchAll(s, s.list[..1]).(main := DrainUnlinked(s.list[0]), list := s.list[1..])
    else s
  }

  function FreeRecord(s: Pool, id: Id, next: MainPc): Pool {
    if id in s.workers
    then PutWorker(Touch(s, id), id, s.workers[id].(live := false)).(main := next)
    else s
  }

  function FreeStep(s: Pool): Pool {
    if s.main.Unlinked? then FreeRecord(s, s.main.id, Reaping(s.main.i))
    else if s.main.DrainUnlinked? then FreeRecord(s, s.main.id, Draining)
    else s
  }

  /** One step of worker `id` from `from` to `to`. */
  function Move(s: Pool, id: Id, from: WorkerPc, to: WorkerPc): Pool {
    if id in s.workers && s.workers[id].pc == from then PutWorker(s, id, s.workers[id].(pc := to)) else s
  }

  function BeginStep(s: Pool, id: Id): Pool {
    if id in s.workers && s.workers[id].pc.Created? then Move(Touch(s, id), id, Created, Serving) else s
  }

  function CloseStep(s: Pool, id: Id): Pool {
    if id in s.workers && s.workers[id].pc.Serving? && s.workers[id].conn < |s.conns|
    then Move(CloseConn(s, s.workers[id].conn, Some(id)), id, Serving, Closed)
    else s
  }

  function LockStep(s: Pool, id: Id): Pool {
    if id in s.workers && s.workers[id].pc.Closed? && s.holder.Nobody?
    then Move(s, id, Closed, Publishing).(holder := Thread(id))
    else s
  }

  function PublishStep(s: Pool, id: Id): Pool {
    if id in s.workers && s.workers[id].pc.Publishing?
    then PutWorker(Touch(s, id), id, s.workers[id].(pc := Published, complete := true))
    else s
  }

  function UnlockStep(s: Pool, id: Id): Pool {
    if id in s.workers && s.workers[id].pc.Published?
    then Move(s, id, Published, Leaving).(holder := Nobody)
    else s
  }

  function Step(s: Pool, e: Event): Pool {
    match e
    case Signal => s.(active := false)
    case Accept(fd) => AcceptStep(s, fd)
    case AcceptFails => s
    case Stop => if s.main.Accepting? && !s.active then s.(main := WantDrain) else s
    case Malloc(id) => MallocStep(s, id)
    case MallocFails => MallocFailsStep(s)
    case Create => CreateStep(s)
    case CreateFails => CreateFailsStep(s)
    case Insert => InsertStep(s)
    case LockReap => if s.main.WantReap? then LockMain(s, Reaping(0)) else s
    case Examine => ExamineStep(s)
    case Join => JoinStep(s)
    case Unlink => UnlinkStep(s)
    case Free => FreeStep(s)
    case EndReap =>
      if s.main.Reaping? && s.main.i >= |s.list| then s.(main := Accepting, holder := Nobody) else s
    case LockDrain => if s.main.WantDrain? then LockMain(s, Draining) else s
    case EndDrain => if s.main.Draining? && s.list == [] then s.(main := Finished, holder := Nobody) else s
    case Begin(id) => BeginStep(s, id)
    case Close(id) => CloseStep(s, id)
    case Lock(id) => LockStep(s, id)
    case Publish(id) => PublishStep(s, id)
    case Unlock(id) => UnlockStep(s, id)
    case Exit(id) => Move(s, id, Leaving, Exited)
  }

  /** The pool after `events`, starting from `s`. */
  function RunFrom(s: Pool, events: seq<Event>): Pool {
    if events == [] then s else Step(RunFrom(s, events[..|events| - 1]), events[|events| - 1])
  }

  function Exec(events: seq<Event>): Pool {
    RunFrom(INITIAL, events)
  }

  // ----- Invariants -----

  /** The record main has taken out of the list but not freed yet. */
  function InHand(main: MainPc): Option<Id> {
    match main
    case Started(id) => Some(id)
    case Unlinked(id, _) => Some(id)
    case DrainUnlinked(id) => Some(id)
    case _ => None
  }

  /** The record main has joined but not freed yet. */
  function JoinedNow(s: Pool): Option<Id> {
    match s.main
    case Joined(i) => if i < |s.list| then Some(s.list[i]) else None
    case DrainJoined => if s.list != [] then Some(s.list[0]) else None
    case Unlinked(id, _) => Some(id)
    case DrainUnlinked(id) => Some(id)
    case _ => None
  }

  predicate MainHolds(main: MainPc) {
    main.Reaping? || main.Joining? || main.Joined? || main.Unlinked?
    || main.Draining? || main.DrainJoined? || main.DrainUnlinked?
  }

  predicate HasPublished(pc: WorkerPc) {
    pc.Published? || pc.Leaving? || pc.Exited?
  }

  ghost predicate LockOk(s: Pool) {
    && (s.holder.Main? <==> MainHolds(s.main))
    && (s.holder.Thread? ==> s.holder.id in s.workers)
    && (forall id :: id in s.workers ==>
          (s.workers[id].pc.Publishing? || s.workers[id].pc.Published? <==> s.holder == Thread(id)))
  }

  /** The list is where main's program says it is. */
  ghost predicate ListOk(s: Pool) {
    && (forall i, j :: 0 <= i < j < |s.list| ==> s.list[i] != s.list[j])
    && (forall id :: id in s.list ==> id in s.workers && InHand(s.main) != Some(id))
    && (InHand(s.main).Some? ==> InHand(s.main).value in s.workers)
    && (s.main.Reaping? ==> s.main.i <= |s.list|)
    && (s.main.Joining? ==> s.main.i < |s.list| && s.workers[s.list[s.main.i]].complete)
    && (s.main.Joined? ==> s.main.i < |s.list|)
    && (s.main.DrainJoined? ==> s.list != [])
    && (s.main.Unlinked? ==> s.main.i <= |s.list|)
    && (s.main.Finished? ==> s.list == [])
  }

  ghost predicate RecordOk(s: Pool, id: Id, w: Worker) {
    && w.complete == HasPublished(w.pc)
    && (w.pc.Unborn? ==> && id !in s.list && InHand(s.main) != Some(id) && w.joins == 0
                         && (w.live <==> s.main == Allocated(w.conn, id)))
    && (!w.pc.Unborn? ==> && (w.live <==> id in s.list || InHand(s.main) == Some(id))
                          && w.joins == (if !w.live || JoinedNow(s) == Some(id) then 1 else 0)
                          && (w.joins == 1 ==> w.pc.Exited?))
  }

  ghost predicate RecordsOk(s: Pool) {
    && !s.touchedFreed
    && (s.main.Allocated? ==> s.main.id in s.workers && s.workers[s.main.id].pc.Unborn?
                              && s.workers[s.main.id].conn == s.main.conn)
    && forall id :: id in s.workers ==> RecordOk(s, id, s.workers[id])
  }

  /** The connection main has accepted and not handed over or closed yet. */
  function MainConn(main: MainPc): Option<nat> {
    match main
    case Accepted(c) => Some(c)
    case Allocated(c, _) => Some(c)
    case _ => None
  }

  /** Connection `c` is still somebody's to close. */
  ghost predicate Owed(s: Pool, c: nat)
    requires c < |s.conns|
  {
    match s.conns[c].owner
    case None => MainConn(s.main) == Some(c)
    case Some(id) => id in s.workers && s.workers[id].conn == c
                     && (s.workers[id].pc.Created? || s.workers[id].pc.Serving?)
  }

  /** Descriptor by descriptor and connection by connection: open exactly while owed. */
  ghost predicate OpenOk(s: Pool) {
    && (forall fd :: fd in s.open ==> s.open[fd] < |s.conns| && s.conns[s.open[fd]].fd == fd
                                      && s.conns[s.open[fd]].closes == 0)
    && (forall c :: 0 <= c < |s.conns| ==>
          && s.conns[c].closes == (if Owed(s, c) then 0 else 1)
          && (s.conns[c].closes == 0 ==> s.conns[c].fd in s.open && s.open[s.conns[c].fd] == c))
  }

  /** A connection is main's until a worker is created for it. */
  ghost predicate OwnersOk(s: Pool) {
    && (MainConn(s.main).Some? ==> MainConn(s.main).value < |s.conns| && s.conns[MainConn(s.main).value].owner.None?)
    && (forall id :: id in s.workers && !s.workers[id].pc.Unborn? ==>
          s.workers[id].conn < |s.conns| && s.conns[s.workers[id].conn].owner == Some(id))
    && (forall c :: 0 <= c < |s.conns| && s.conns[c].owner.Some? ==>
          s.conns[c].owner.value in s.workers && !s.workers[s.conns[c].owner.value].pc.Unborn?)
    && (s.main.Allocated? ==> s.main.id in s.workers && s.workers[s.main.id].pc.Unborn?
                              && s.workers[s.main.id].conn == s.main.conn)
  }

  ghost predicate ConnsOk(s: Pool) {
    !s.strayClose && OpenOk(s) && OwnersOk(s)
  }

  ghost predicate ControlOk(s: Pool) {
    LockOk(s) && ListOk(s) && RecordsOk(s)
  }

  ghost predicate Inv(s: Pool) {
    ControlOk(s) && ConnsOk(s)
  }
}
