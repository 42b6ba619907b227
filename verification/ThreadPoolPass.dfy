/** What main's loop does, pass by pass: the reap pass reaps exactly the complete records, every
    failure and every worker comes to its end, and only a signal starts the shutdown. */
module ThreadPoolPass {
  import opened Contents
  import opened ThreadPool
  import opened ThreadPoolInvariant
  import opened ThreadPoolSafety

  // ----- The reap pass -----

  /** The records of `ids` that are not complete, in their order. */
  function Incomplete(workers: map<Id, Worker>, ids: seq<Id>): seq<Id> {
    if ids == [] then []
    else
      var n := |ids| - 1;
      Incomplete(workers, ids[..n]) + (if ids[n] in workers && !workers[ids[n]].complete then [ids[n]] else [])
  }

  predicate InPass(main: MainPc) {
    main.Reaping? || main.Joining? || main.Joined? || main.Unlinked?
  }

  /** How many of the records listed in `s0` the pass has dealt with in `s`. */
  function Dealt(s0: Pool, s: Pool): int
    requires InPass(s.main)
  {
    |s0.list| - (|s.list| - s.main.i)
  }

  /** The pass that began in `s0` has come to `s`: the records dealt with that were complete are
      out of the list, the others stand in front of main in their order, those to come behind. */
  ghost predicate Passing(s0: Pool, s: Pool) {
    && InPass(s.main) && s.main.i <= |s.list|
    && (forall id :: id in s0.list ==>
          id in s0.workers && id in s.workers && s.workers[id].complete == s0.workers[id].complete)
    && var m := Dealt(s0, s);
       && 0 <= m && s.list[s.main.i..] == s0.list[m..]
       && s.list[..s.main.i] == Incomplete(s0.workers, s0.list[..m])
  }

  /** Nobody publishes while main is in the pass: it holds list_mutex. */
  lemma {:induction false} NobodyPublishes(s: Pool, id: Id)
    requires Inv(s) && InPass(s.main)
    ensures LockStep(s, id) == s && PublishStep(s, id) == s && UnlockStep(s, id) == s
  {
    assert s.holder.Main?;
  }

  /** Main, the list and every record's flag stand where they stood. */
  ghost predicate Stands(s: Pool, s': Pool) {
    && InPass(s.main) && InPass(s'.main) && s'.main.i == s.main.i && s'.list == s.list
    && forall id :: id in s.workers ==> id in s'.workers && s'.workers[id].complete == s.workers[id].complete
  }

  lemma {:induction false} PassingKept(s0: Pool, s: Pool, s': Pool)
    requires Passing(s0, s) && Stands(s, s')
    ensures Passing(s0, s')
  {
  }

  lemma {:induction false} IncompleteSnoc(workers: map<Id, Worker>, ids: seq<Id>, m: nat)
    requires m < |ids|
    ensures Incomplete(workers, ids[..m + 1])
            == Incomplete(workers, ids[..m]) + (if ids[m] in workers && !workers[ids[m]].complete then [ids[m]] else [])
  {
    assert ids[..m + 1][..m] == ids[..m];
  }

  /** The record main stands before is the next of those listed at the start. */
  lemma {:induction false} NextRecord(s0: Pool, s: Pool)
    requires Passing(s0, s) && s.main.i < |s.list|
    ensures var i, m := s.main.i, Dealt(s0, s);
            && m < |s0.list| && s.list[i] == s0.list[m] && s.list[i + 1..] == s0.list[m + 1..]
            && Incomplete(s0.workers, s0.list[..m + 1])
               == s.list[..i] + if s.workers[s.list[i]].complete then [] else [s.list[i]]
  {
    var i, m := s.main.i, Dealt(s0, s);
    assert s.list[i] == s.list[i..][0] == s0.list[m];
    assert s.list[i + 1..] == s.list[i..][1..] == s0.list[m..][1..] == s0.list[m + 1..];
    IncompleteSnoc(s0.workers, s0.list, m);
  }

  lemma {:induction false} ExamineKeepsPassing(s0: Pool, s: Pool)
    requires Inv(s) && Passing(s0, s)
    ensures Passing(s0, ExamineStep(s))
  {
    if s.main.Reaping? && s.main.i < |s.list| {
      NextRecord(s0, s);
      var s' := ExamineStep(s);
      assert s'.list == s.list && s'.workers == s.workers;
      assert s.list[..s.main.i + 1] == s.list[..s.main.i] + [s.list[s.main.i]];
    }
  }

  /** A joined record is complete. */
  lemma {:induction false} JoinedIsComplete(s: Pool)
    requires Inv(s) && s.main.Joined?
    ensures s.main.i < |s.list| && s.list[s.main.i] in s.workers && s.workers[s.list[s.main.i]].complete
  {
    var id := s.list[s.main.i];
    assert RecordOk(s, id, s.workers[id]);
  }

  lemma {:induction false} UnlinkKeepsPassing(s0: Pool, s: Pool)
    requires Inv(s) && Passing(s0, s)
    ensures Passing(s0, UnlinkStep(s))
  {
    if s.main.Joined? {
      JoinedIsComplete(s);
      NextRecord(s0, s);
      var i, s' := s.main.i, UnlinkStep(s);
      assert s'.workers == s.workers && s'.list == s.list[..i] + s.list[i + 1..];
      assert s'.list[..i] == s.list[..i] && s'.list[i..] == s.list[i + 1..];
    }
  }

  lemma {:induction false} JoinStands(s: Pool)
    requires InPass(s.main)
    ensures Stands(s, JoinStep(s))
  {
  }

  lemma {:induction false} FreeStands(s: Pool)
    requires InPass(s.main)
    ensures Stands(s, FreeStep(s))
  {
  }

  lemma {:induction false} BeginStands(s: Pool, id: Id)
    requires InPass(s.main)
    ensures Stands(s, BeginStep(s, id))
  {
  }

  lemma {:induction false} CloseStands(s: Pool, id: Id)
    requires InPass(s.main)
    ensures Stands(s, CloseStep(s, id))
  {
  }

  lemma {:induction false} ExitStands(s: Pool, id: Id)
    requires InPass(s.main)
    ensures Stands(s, Move(s, id, Leaving, Exited))
  {
  }

  lemma {:induction false} StepStands(s: Pool, e: Event)
    requires InPass(s.main) && (e in {Signal, Join, Free} || e.Begin? || e.Close? || e.Exit?)
    ensures Stands(s, Step(s, e))
  {
    match e
    case Join => JoinStands(s);
    case Free => FreeStands(s);
    case Begin(id) => BeginStands(s, id);
    case Close(id) => CloseStands(s, id);
    case Exit(id) => ExitStands(s, id);
    case _ =>
  }

  /** In the pass no other step of main is possible. */
  lemma {:induction false} OthersWait(s: Pool, e: Event)
    requires InPass(s.main) && e != EndReap && e != Signal
    requires OnlyMoves(e) || e.Accept? || e.Malloc? || e in {MallocFails, Create, CreateFails, Insert}
    ensures Step(s, e) == s
  {
  }

  lemma {:induction false} PassStep(s0: Pool, s: Pool, e: Event)
    requires Inv(s) && Passing(s0, s) && e != EndReap
    ensures Passing(s0, Step(s, e))
  {
    match e
    case Examine => ExamineKeepsPassing(s0, s);
    case Unlink => UnlinkKeepsPassing(s0, s);
    case Lock(id) => NobodyPublishes(s, id);
    case Publish(id) => NobodyPublishes(s, id);
    case Unlock(id) => NobodyPublishes(s, id);
    case _ =>
      if e in {Signal, Join, Free} || e.Begin? || e.Close? || e.Exit? {
        StepStands(s, e);
        PassingKept(s0, s, Step(s, e));
      } else {
        OthersWait(s, e);
      }
  }

  lemma {:induction false} PassingThroughout(s0: Pool, during: seq<Event>)
    requires Inv(s0) && s0.main == Reaping(0) && EndReap !in during
    ensures Passing(s0, RunFrom(s0, during))
  {
    if during == [] {
      assert s0.list[0..] == s0.list && s0.list[..0] == [];
    } else {
      var before := during[..|during| - 1];
      PassingThroughout(s0, before);
      RunKeeps(s0, before);
      PassStep(s0, RunFrom(s0, before), during[|during| - 1]);
    }
  }

  /** While main stands before record i of the list, no record in front of it is complete. */
  lemma {:induction false} NoneLeftBehind(s0: Pool, during: seq<Event>, j: nat)
    requires Inv(s0) && s0.main == Reaping(0) && EndReap !in during
    requires var s := RunFrom(s0, during); s.main.Reaping? && j < s.main.i
    ensures var s := RunFrom(s0, during);
            j < |s.list| && s.list[j] in s.workers && !s.workers[s.list[j]].complete
  {
    PassingThroughout(s0, during);
    var s := RunFrom(s0, during);
    var m := Dealt(s0, s);
    IncompleteAre(s0.workers, s0.list[..m]);
    assert s.list[j] == s.list[..s.main.i][j];
    assert s.list[j] in s0.list[..m];
  }

  lemma {:induction false} IncompleteAre(workers: map<Id, Worker>, ids: seq<Id>)
    ensures forall id :: id in Incomplete(workers, ids) <==> id in ids && id in workers && !workers[id].complete
  {
    if ids != [] {
      IncompleteAre(workers, ids[..|ids| - 1]);
      assert ids == ids[..|ids| - 1] + [ids[|ids| - 1]];
    }
  }

  /** Whatever the workers do meanwhile, a pass from taking list_mutex to releasing it leaves exactly
      the records that were not complete, in their order; every complete one has exited, was joined
      once and is freed. */
  lemma {:induction false} ReapPass(before: seq<Event>, during: seq<Event>)
    requires Exec(before).main == Reaping(0) && EndReap !in during
    requires Step(RunFrom(Exec(before), during), EndReap).main.Accepting?
    ensures var s, s' := Exec(before), Step(RunFrom(Exec(before), during), EndReap);
            && s'.holder.Nobody? && s'.list == Incomplete(s.workers, s.list)
            && forall id :: id in s.list ==>
                 && id in s.workers && id in s'.workers
                 && if s.workers[id].complete
                    then && s'.workers[id].pc.Exited? && s'.workers[id].joins == 1
                         && !s'.workers[id].live && id !in s'.list
                    else s'.workers[id].joins == 0 && s'.workers[id].live && id in s'.list
  {
    AlwaysInv(before);
    var s0 := Exec(before);
    var s := RunFrom(s0, during);
    PassingThroughout(s0, during);
    RunKeeps(s0, during);
    StepKeeps(s, EndReap);
    var s' := Step(s, EndReap);
    assert s.main.Reaping? && s.main.i == |s.list|;
    assert s0.list[..|s0.list|] == s0.list && s.list[..|s.list|] == s.list;
    IncompleteAre(s0.workers, s0.list);
    ReapedRecords(s0, s');
  }

  lemma {:induction false} ReapedRecords(s0: Pool, s': Pool)
    requires Inv(s0) && Inv(s') && s'.main.Accepting?
    requires forall id :: id in s0.list ==>
               && id in s0.workers && id in s'.workers && s'.workers[id].complete == s0.workers[id].complete
               && !s'.workers[id].pc.Unborn?
    requires forall id :: id in s'.list <==> id in s0.list && id in s0.workers && !s0.workers[id].complete
    ensures forall id :: id in s0.list ==>
              if s0.workers[id].complete
              then s'.workers[id].pc.Exited? && s'.workers[id].joins == 1 && !s'.workers[id].live
              else s'.workers[id].joins == 0 && s'.workers[id].live
  {
    forall id | id in s0.list
      ensures RecordOk(s', id, s'.workers[id])
    {
    }
  }

  // ----- The pass comes to its end -----

  lemma {:induction false} ReapFirst(s: Pool) returns (events: seq<Event>)
    requires Inv(s) && s.main.Reaping? && s.main.i < |s.list|
    ensures EndReap !in events
    ensures var s' := RunFrom(s, events);
            s'.main.Reaping? && s'.main.i <= |s'.list| && |s'.list| - s'.main.i == |s.list| - s.main.i - 1
  {
    var i := s.main.i;
    var id := s.list[i];
    assert RecordOk(s, id, s.workers[id]);
    RunOne(s, Examine);
    if !s.workers[id].complete {
      events := [Examine];
    } else {
      var s1 := Step(s, Examine);
      ReapComplete(s1, i, id);
      RunConcat(s, [Examine], [Exit(id), Join] + [Unlink, Free]);
      events := [Examine] + ([Exit(id), Join] + [Unlink, Free]);
    }
  }

  lemma {:induction false} ReapComplete(s: Pool, i: nat, id: Id)
    requires s.main == Joining(i) && i < |s.list| && s.list[i] == id && id in s.workers
    requires s.workers[id].pc.Leaving? || s.workers[id].pc.Exited?
    ensures var s' := RunFrom(s, [Exit(id), Join] + [Unlink, Free]);
            s'.main == Reaping(i) && s'.list == s.list[..i] + s.list[i + 1..]
  {
    RunConcat(s, [Exit(id), Join], [Unlink, Free]);
    RunTwo(s, Exit(id), Join);
    var s2 := RunFrom(s, [Exit(id), Join]);
    ExitThenJoin(s, i, id);
    RunTwo(s2, Unlink, Free);
    UnlinkThenFree(s2);
    UnlinkFreeJoined(s2, i);
  }

  lemma {:induction false} ExitThenJoin(s: Pool, i: nat, id: Id)
    requires s.main == Joining(i) && i < |s.list| && s.list[i] == id && id in s.workers
    requires s.workers[id].pc.Leaving? || s.workers[id].pc.Exited?
    ensures var s' := Step(Step(s, Exit(id)), Join);
            s'.main == Joined(i) && s'.list == s.list && id in s'.workers
  {
    var s1 := Step(s, Exit(id));
    assert s1.main == s.main && s1.list == s.list && id in s1.workers && s1.workers[id].pc.Exited?;
  }

  lemma {:induction false} UnlinkFreeJoined(s: Pool, i: nat)
    requires s.main == Joined(i) && i < |s.list| && s.list[i] in s.workers
    ensures var s' := FreeStep(UnlinkStep(s));
            s'.main == Reaping(i) && s'.list == s.list[..i] + s.list[i + 1..]
  {
  }

  /** From any point of a pass at which main is about to examine a record, the pass can end. */
  lemma {:induction false} PassCanEnd(s: Pool) returns (events: seq<Event>)
    requires Inv(s) && s.main.Reaping?
    ensures EndReap !in events && Step(RunFrom(s, events), EndReap).main.Accepting?
    decreases |s.list| - s.main.i
  {
    if s.main.i >= |s.list| {
      events := [];
    } else {
      var first := ReapFirst(s);
      RunKeeps(s, first);
      var rest := PassCanEnd(RunFrom(s, first));
      RunConcat(s, first, rest);
      events := first + rest;
    }
  }

  // ----- The rest of main's loop -----

  /** A new record goes in front of those listed. */
  lemma {:induction false} NewcomerFirst(s: Pool)
    requires Inv(s) && s.main.Started?
    ensures Step(s, Insert).list == [s.main.id] + s.list && Step(s, Insert).main.WantReap?
  {
  }

  /** When malloc or pthread_create fails, the connection is closed once, a record that was
      allocated is freed, and main accepts again. */
  lemma {:induction false} FailuresReturn(s: Pool)
    requires Inv(s)
    ensures s.main.Accepted? ==>
              var s' := Step(s, MallocFails);
              && s'.main.Accepting? && s'.conns[s.main.conn].closes == 1 && s'.conns[s.main.conn].fd !in s'.open
              && !s'.strayClose
    ensures s.main.Allocated? ==>
              var s' := Step(s, CreateFails);
              && s'.main.Accepting? && s'.conns[s.main.conn].closes == 1 && s'.conns[s.main.conn].fd !in s'.open
              && !s'.strayClose && !s'.workers[s.main.id].live
  {
    if s.main.Accepted? || s.main.Allocated? {
      assert Owed(s, s.main.conn);
    }
  }

  predicate InShutdown(main: MainPc) {
    main.WantDrain? || InDrain(main) || main.Finished?
  }

  /** `active` is as it was, and main did not enter the shutdown. */
  predicate Calm(s: Pool, s': Pool) {
    s'.active == s.active && (InShutdown(s'.main) ==> InShutdown(s.main))
  }

  lemma {:induction false} WorkersAreCalm(s: Pool, id: Id)
    ensures Calm(s, BeginStep(s, id)) && Calm(s, CloseStep(s, id)) && Calm(s, LockStep(s, id))
    ensures Calm(s, PublishStep(s, id)) && Calm(s, UnlockStep(s, id)) && Calm(s, Move(s, id, Leaving, Exited))
  {
  }

  lemma {:induction false} ReapIsCalm(s: Pool)
    ensures Calm(s, ExamineStep(s)) && Calm(s, JoinStep(s)) && Calm(s, UnlinkStep(s)) && Calm(s, FreeStep(s))
  {
  }

  lemma {:induction false} AcceptIsCalm(s: Pool, n: nat)
    ensures Calm(s, AcceptStep(s, n)) && Calm(s, MallocStep(s, n)) && Calm(s, MallocFailsStep(s))
  {
  }

  lemma {:induction false} CreateIsCalm(s: Pool)
    ensures Calm(s, CreateStep(s)) && Calm(s, CreateFailsStep(s)) && Calm(s, InsertStep(s))
  {
  }

  lemma {:induction false} StepIsCalm(s: Pool, e: Event)
    requires e !in {Signal, Stop}
    ensures Calm(s, Step(s, e))
  {
    match e
    case Accept(fd) => AcceptIsCalm(s, fd);
    case Malloc(id) => AcceptIsCalm(s, id);
    case MallocFails => AcceptIsCalm(s, 0);
    case Create => CreateIsCalm(s);
    case CreateFails => CreateIsCalm(s);
    case Insert => CreateIsCalm(s);
    case Examine => ReapIsCalm(s);
    case Join => ReapIsCalm(s);
    case Unlink => ReapIsCalm(s);
    case Free => ReapIsCalm(s);
    case Begin(id) => WorkersAreCalm(s, id);
    case Close(id) => WorkersAreCalm(s, id);
    case Lock(id) => WorkersAreCalm(s, id);
    case Publish(id) => WorkersAreCalm(s, id);
    case Unlock(id) => WorkersAreCalm(s, id);
    case Exit(id) => WorkersAreCalm(s, id);
    case _ =>
  }

  lemma {:induction false} ActiveUntilSignal(events: seq<Event>)
    ensures Exec(events).active <==> Signal !in events
    ensures InShutdown(Exec(events).main) ==> !Exec(events).active
  {
    if events != [] {
      var n := |events| - 1;
      var s, e := Exec(events[..n]), events[n];
      ActiveUntilSignal(events[..n]);
      assert events == events[..n] + [e];
      if e !in {Signal, Stop} {
        StepIsCalm(s, e);
      }
    }
  }

  /** The shutdown begins only after a signal. */
  lemma {:induction false} ShutdownOnlyAfterSignal(events: seq<Event>)
    requires InShutdown(Exec(events).main)
    ensures Signal in events
  {
    ActiveUntilSignal(events);
  }

  // ----- Workers -----

  /** A worker whose mutex is free runs to its end: its descriptor is closed once, its completion
      published, and nobody holds the mutex. */
  lemma {:induction false} WorkerCanFinish(s: Pool, id: Id)
    requires Inv(s) && id in s.workers && s.workers[id].pc.Created? && s.holder.Nobody?
    ensures var s' := RunFrom(s, [Begin(id), Close(id), Lock(id)] + [Publish(id), Unlock(id), Exit(id)]);
            && s'.holder.Nobody? && id in s'.workers && s'.workers[id].pc.Exited? && s'.workers[id].complete
            && var c := s.workers[id].conn;
               c < |s'.conns| && s'.conns[c].closes == 1 && s'.conns[c].fd !in s'.open && !s'.strayClose
  {
    var a, b := [Begin(id), Close(id), Lock(id)], [Publish(id), Unlock(id), Exit(id)];
    RunConcat(s, a, b);
    RunThree(s, Begin(id), Close(id), Lock(id));
    var s3 := RunFrom(s, a);
    OwedIsOpen(s, id);
    ServesAndLocks(s, id);
    RunThree(s3, Publish(id), Unlock(id), Exit(id));
    PublishesAndExits(s3, id);
  }

  lemma {:induction false} Begins(s: Pool, id: Id)
    requires id in s.workers && s.workers[id].pc.Created?
    ensures var s' := BeginStep(s, id);
            && id in s'.workers && s'.workers[id] == s.workers[id].(pc := Serving)
            && s'.conns == s.conns && s'.open == s.open && s'.holder == s.holder && s'.strayClose == s.strayClose
  {
  }

  lemma {:induction false} Closes(s: Pool, id: Id)
    requires id in s.workers && s.workers[id].pc.Serving? && s.workers[id].conn < |s.conns| && !s.strayClose
    requires var conn := s.conns[s.workers[id].conn];
             conn.owner == Some(id) && conn.closes == 0 && conn.fd in s.open && s.open[conn.fd] == s.workers[id].conn
    ensures var c, s' := s.workers[id].conn, CloseStep(s, id);
            && id in s'.workers && s'.workers[id] == s.workers[id].(pc := Closed) && s'.holder == s.holder
            && c < |s'.conns| && s'.conns[c].closes == 1 && s'.conns[c].fd !in s'.open && !s'.strayClose
  {
  }

  lemma {:induction false} Locks(s: Pool, id: Id)
    requires id in s.workers && s.workers[id].pc.Closed? && s.holder.Nobody?
    ensures var s' := LockStep(s, id);
            && s'.holder == Thread(id) && id in s'.workers && s'.workers[id].pc.Publishing?
            && s'.conns == s.conns && s'.open == s.open && s'.strayClose == s.strayClose
  {
  }

  lemma {:induction false} OwedIsOpen(s: Pool, id: Id)
    requires Inv(s) && id in s.workers && s.workers[id].pc.Created?
    ensures s.workers[id].conn < |s.conns| && !s.strayClose
    ensures var conn := s.conns[s.workers[id].conn];
            conn.owner == Some(id) && conn.closes == 0 && conn.fd in s.open && s.open[conn.fd] == s.workers[id].conn
  {
    assert Owed(s, s.workers[id].conn);
  }

  lemma {:induction false} ServesAndLocks(s: Pool, id: Id)
    requires id in s.workers && s.workers[id].pc.Created? && s.holder.Nobody?
    requires s.workers[id].conn < |s.conns| && !s.strayClose
    requires var conn := s.conns[s.workers[id].conn];
             conn.owner == Some(id) && conn.closes == 0 && conn.fd in s.open && s.open[conn.fd] == s.workers[id].conn
    ensures var s' := Step(Step(Step(s, Begin(id)), Close(id)), Lock(id));
            && s'.holder == Thread(id) && id in s'.workers && s'.workers[id].pc.Publishing?
            && var c := s.workers[id].conn;
               c < |s'.conns| && s'.conns[c].closes == 1 && s'.conns[c].fd !in s'.open && !s'.strayClose
  {
    Begins(s, id);
    var s1 := BeginStep(s, id);
    Closes(s1, id);
    Locks(CloseStep(s1, id), id);
  }

  lemma {:induction false} PublishesAndExits(s: Pool, id: Id)
    requires s.holder == Thread(id) && id in s.workers && s.workers[id].pc.Publishing?
    ensures var s' := Step(Step(Step(s, Publish(id)), Unlock(id)), Exit(id));
            && s'.holder.Nobody? && id in s'.workers && s'.workers[id].pc.Exited? && s'.workers[id].complete
            && s'.conns == s.conns && s'.open == s.open && s'.strayClose == s.strayClose
  {
    var s1 := Step(s, Publish(id));
    assert s1.workers[id].pc.Published? && s1.workers[id].complete;
    var s2 := Step(s1, Unlock(id));
    assert s2.workers[id].pc.Leaving? && s2.workers[id].complete && s2.holder.Nobody?;
  }

  // ----- Nothing escapes the watch -----

  /** In any state at all, whoever uses a record after its free is found out: the worker reading
      or completing it, main listing, examining, joining, searching past, unlinking or freeing it. */
  lemma {:induction false} UsesAreWatched(s: Pool, id: Id)
    requires id in s.workers && !s.workers[id].live
    ensures s.workers[id].pc.Created? ==> BeginStep(s, id).touchedFreed
    ensures s.workers[id].pc.Publishing? ==> PublishStep(s, id).touchedFreed
    ensures s.main == Started(id) ==> InsertStep(s).touchedFreed
    ensures s.main.Reaping? && s.main.i < |s.list| && s.list[s.main.i] == id ==> ExamineStep(s).touchedFreed
    ensures s.main.Joined? && s.main.i < |s.list| && id in s.list[..s.main.i + 1] ==> UnlinkStep(s).touchedFreed
    ensures s.main.DrainJoined? && s.list != [] && s.list[0] == id ==> UnlinkStep(s).touchedFreed
    ensures s.main.Unlinked? && s.main.id == id ==> FreeStep(s).touchedFreed
    ensures s.main == DrainUnlinked(id) ==> FreeStep(s).touchedFreed
    ensures s.workers[id].pc.Exited? && s.main.Joining? && s.main.i < |s.list| && s.list[s.main.i] == id ==>
              JoinStep(s).touchedFreed
    ensures s.workers[id].pc.Exited? && s.main.Draining? && s.list != [] && s.list[0] == id ==> JoinStep(s).touchedFreed
  {
    if s.main.DrainJoined? && s.list != [] && s.list[0] == id {
      assert id in s.list[..1];
    }
  }

  /** In any state at all, closing a descriptor that is not open, not that connection's or not
      one's own is found out. */
  lemma {:induction false} ClosesAreWatched(s: Pool, c: nat, who: Option<Id>)
    requires c < |s.conns|
    ensures var conn := s.conns[c];
            !(conn.fd in s.open && s.open[conn.fd] == c && conn.owner == who) ==> CloseConn(s, c, who).strayClose
  {
  }
}
