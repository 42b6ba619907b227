/** What holds of the pool over every run, and exactly when shutdown finishes. */
module ThreadPoolSafety {
  import opened Contents
  import opened ThreadPool
  import opened ThreadPoolInvariant

  // ----- Records -----

  /** Over every run: nobody uses a record after its free; each record is freed only after it
      was joined, and joined only once and only after its thread had exited; and the list holds,
      without duplicates, exactly the started records not freed yet, but for the one main has in hand. */
  lemma {:induction false} RecordSafety(events: seq<Event>)
    ensures var s := Exec(events);
            && !s.touchedFreed
            && (forall id :: id in s.workers ==>
                  var w := s.workers[id];
                  && w.joins <= 1
                  && (w.joins == 1 ==> w.pc.Exited?)
                  && (!w.live && !w.pc.Unborn? ==> w.joins == 1)
                  && (!w.pc.Unborn? ==> (id in s.list || InHand(s.main) == Some(id) <==> w.live)))
            && (forall id :: id in s.list ==>
                  id in s.workers && !s.workers[id].pc.Unborn? && InHand(s.main) != Some(id))
            && (forall i, j :: 0 <= i < j < |s.list| ==> s.list[i] != s.list[j])
  {
    AlwaysInv(events);
    var s := Exec(events);
    forall id | id in s.workers
      ensures RecordOk(s, id, s.workers[id])
    {
    }
  }

  // ----- Descriptors -----

  /** Over every run, failures included: nobody closes a descriptor that is not its own; the
      open client descriptors are exactly those of connections main still holds or whose worker
      has not closed them yet; and a connection is closed once otherwise. */
  lemma {:induction false} DescriptorConservation(events: seq<Event>)
    ensures var s := Exec(events);
            && !s.strayClose
            && (forall fd :: fd in s.open ==> && s.open[fd] < |s.conns| && s.conns[s.open[fd]].fd == fd
                                              && Owed(s, s.open[fd]))
            && (forall c :: 0 <= c < |s.conns| ==>
                  if Owed(s, c) then s.conns[c].closes == 0 && s.conns[c].fd in s.open && s.open[s.conns[c].fd] == c
                  else s.conns[c].closes == 1)
  {
    AlwaysInv(events);
  }

  // ----- Waiting -----

  /** Whenever main waits for a worker in the reap pass, that worker has nothing left to do but
      exit: it needs no mutex, so it cannot be waiting for main, and once it has exited the
      join returns. */
  lemma {:induction false} ReapJoinNeverBlocks(events: seq<Event>)
    requires Exec(events).main.Joining?
    ensures var s := Exec(events);
            var i := s.main.i;
            i < |s.list| && s.list[i] in s.workers
            && (s.workers[s.list[i]].pc.Leaving? || s.workers[s.list[i]].pc.Exited?)
            && RunFrom(s, [Exit(s.list[i]), Join]).main == Joined(i)
  {
    AlwaysInv(events);
    var s := Exec(events);
    var id := s.list[s.main.i];
    assert RecordOk(s, id, s.workers[id]);
    RunTwo(s, Exit(id), Join);
  }

  lemma {:induction false} RunTwo(s: Pool, a: Event, b: Event)
    ensures RunFrom(s, [a, b]) == Step(Step(s, a), b)
  {
    RunOne(s, a);
    assert [a, b][..1] == [a];
  }

  lemma {:induction false} RunOne(s: Pool, a: Event)
    ensures RunFrom(s, [a]) == Step(s, a)
  {
    assert [a][..0] == [];
  }

  lemma {:induction false} RunConcat(s: Pool, a: seq<Event>, b: seq<Event>)
    ensures RunFrom(s, a + b) == RunFrom(RunFrom(s, a), b)
  {
    if b == [] {
      assert a + b == a;
    } else {
      RunConcat(s, a, b[..|b| - 1]);
      assert (a + b)[..|a + b| - 1] == a + b[..|b| - 1];
    }
  }

  // ----- Shutdown -----

  predicate AllPublished(s: Pool) {
    forall id :: id in s.list ==> id in s.workers && s.workers[id].complete
  }

  ghost predicate CanFinish(s: Pool) {
    exists events :: RunFrom(s, events).main.Finished?
  }

  predicate InDrain(main: MainPc) {
    main.Draining? || main.DrainJoined? || main.DrainUnlinked?
  }

  /** Main is draining, and a listed worker has still to publish. */
  ghost predicate Stuck(s: Pool, id: Id) {
    Inv(s) && InDrain(s.main) && id in s.list && !s.workers[id].complete
  }

  /** What makes it stuck: it is not the one just joined, and cannot get the mutex. */
  ghost predicate CannotPublish(s: Pool, id: Id) {
    && InDrain(s.main) && s.holder.Main?
    && id in s.list && id in s.workers && !s.workers[id].complete
    && !s.workers[id].pc.Publishing? && !s.workers[id].pc.Exited?
    && (s.main.DrainJoined? ==> s.list[0] != id)
  }

  lemma {:induction false} StuckCannotPublish(s: Pool, id: Id)
    requires Stuck(s, id)
    ensures CannotPublish(s, id)
  {
    assert RecordOk(s, id, s.workers[id]);
    if s.main.DrainJoined? {
      assert RecordOk(s, s.list[0], s.workers[s.list[0]]);
    }
  }

  ghost predicate StillListed(s: Pool, id: Id) {
    InDrain(s.main) && id in s.list && id in s.workers && !s.workers[id].complete
  }

  lemma {:induction false} StuckUnlink(s: Pool, id: Id)
    requires CannotPublish(s, id)
    ensures StillListed(UnlinkStep(s), id)
  {
    var j :| 0 <= j < |s.list| && s.list[j] == id;
    if s.main.DrainJoined? {
      assert s.list[1..][j - 1] == id;
    }
  }

  lemma {:induction false} StuckOthersServe(s: Pool, id: Id, who: Id)
    requires CannotPublish(s, id)
    ensures StillListed(BeginStep(s, who), id) && StillListed(Move(s, who, Leaving, Exited), id)
  {
  }

  lemma {:induction false} StuckOthersClose(s: Pool, id: Id, who: Id)
    requires CannotPublish(s, id)
    ensures StillListed(CloseStep(s, who), id)
  {
  }

  lemma {:induction false} StuckOthersPublish(s: Pool, id: Id, who: Id)
    requires CannotPublish(s, id)
    ensures StillListed(LockStep(s, who), id) && StillListed(PublishStep(s, who), id)
    ensures StillListed(UnlockStep(s, who), id)
  {
  }

  lemma {:induction false} StuckMain(s: Pool, id: Id, e: Event)
    requires CannotPublish(s, id)
    requires OnlyMoves(e) || e.Accept? || e.Malloc? || e in {MallocFails, Create, CreateFails, Insert, Examine}
    ensures StillListed(Step(s, e), id)
  {
  }

  lemma {:induction false} StuckJoinFree(s: Pool, id: Id)
    requires CannotPublish(s, id)
    ensures StillListed(JoinStep(s), id) && StillListed(FreeStep(s), id)
  {
  }

  lemma {:induction false} StuckStep(s: Pool, id: Id, e: Event)
    requires CannotPublish(s, id)
    ensures StillListed(Step(s, e), id)
  {
    match e
    case Unlink => StuckUnlink(s, id);
    case Join => StuckJoinFree(s, id);
    case Free => StuckJoinFree(s, id);
    case Begin(who) => StuckOthersServe(s, id, who);
    case Close(who) => StuckOthersClose(s, id, who);
    case Exit(who) => StuckOthersServe(s, id, who);
    case Lock(who) => StuckOthersPublish(s, id, who);
    case Publish(who) => StuckOthersPublish(s, id, who);
    case Unlock(who) => StuckOthersPublish(s, id, who);
    case _ => StuckMain(s, id, e);
  }

  lemma {:induction false} StuckStays(s: Pool, id: Id, e: Event)
    requires Stuck(s, id)
    ensures Stuck(Step(s, e), id)
  {
    StuckCannotPublish(s, id);
    StuckStep(s, id, e);
    StepKeeps(s, e);
  }

  lemma {:induction false} StuckForever(s: Pool, id: Id, events: seq<Event>)
    requires Stuck(s, id)
    ensures Stuck(RunFrom(s, events), id)
  {
    if events != [] {
      StuckForever(s, id, events[..|events| - 1]);
      StuckStays(RunFrom(s, events[..|events| - 1]), id, events[|events| - 1]);
    }
  }

  /** The run that joins, unlinks and frees every listed worker in turn. */
  lemma {:induction false} DrainRun(s: Pool) returns (events: seq<Event>)
    requires Inv(s) && s.main.Draining? && AllPublished(s)
    ensures RunFrom(s, events).main.Finished?
    decreases |s.list|
  {
    if s.list == [] {
      events := [EndDrain];
      assert [EndDrain][..0] == [];
    } else {
      var first := [Exit(s.list[0]), Join, Unlink, Free];
      DrainOne(s);
      RunKeeps(s, first);
      var rest := DrainRun(RunFrom(s, first));
      RunConcat(s, first, rest);
      events := first + rest;
    }
  }

  lemma {:induction false} DrainOne(s: Pool)
    requires Inv(s) && s.main.Draining? && AllPublished(s) && s.list != []
    ensures var s' := RunFrom(s, [Exit(s.list[0]), Join, Unlink, Free]);
            s'.main.Draining? && s'.list == s.list[1..] && AllPublished(s')
  {
    assert RecordOk(s, s.list[0], s.workers[s.list[0]]);
    DrainFirst(s, s.list[0]);
  }

  lemma {:induction false} DrainFirst(s: Pool, id: Id)
    requires s.main.Draining? && s.list != [] && s.list[0] == id && AllPublished(s)
    requires s.workers[id].pc.Leaving? || s.workers[id].pc.Exited?
    ensures var s' := RunFrom(s, [Exit(id), Join, Unlink, Free]);
            s'.main.Draining? && s'.list == s.list[1..] && AllPublished(s')
  {
    RunConcat(s, [Exit(id), Join], [Unlink, Free]);
    assert [Exit(id), Join] + [Unlink, Free] == [Exit(id), Join, Unlink, Free];
    DrainExitThenJoin(s, id);
    var s2 := RunFrom(s, [Exit(id), Join]);
    RunTwo(s2, Unlink, Free);
    UnlinkThenFree(s2);
    DrainUnlinkFree(s2);
  }

  lemma {:induction false} DrainExitThenJoin(s: Pool, id: Id)
    requires s.main.Draining? && s.list != [] && s.list[0] == id && AllPublished(s)
    requires s.workers[id].pc.Leaving? || s.workers[id].pc.Exited?
    ensures var s' := RunFrom(s, [Exit(id), Join]);
            s'.main.DrainJoined? && s'.list == s.list && AllPublished(s')
  {
    RunTwo(s, Exit(id), Join);
    DrainExit(s, id);
    DrainJoin(Move(s, id, Leaving, Exited), id);
  }

  lemma {:induction false} UnlinkThenFree(s: Pool)
    ensures Step(Step(s, Unlink), Free) == FreeStep(UnlinkStep(s))
  {
  }

  lemma {:induction false} DrainExit(s: Pool, id: Id)
    requires AllPublished(s) && id in s.workers && (s.workers[id].pc.Leaving? || s.workers[id].pc.Exited?)
    ensures var s' := Move(s, id, Leaving, Exited);
            s'.main == s.main && s'.list == s.list && AllPublished(s') && id in s'.workers && s'.workers[id].pc.Exited?
  {
  }

  lemma {:induction false} DrainJoin(s: Pool, id: Id)
    requires s.main.Draining? && s.list != [] && s.list[0] == id && AllPublished(s) && s.workers[id].pc.Exited?
    ensures var s' := JoinStep(s);
            s'.main.DrainJoined? && s'.list == s.list && AllPublished(s')
  {
  }

  lemma {:induction false} DrainUnlinkFree(s: Pool)
    requires s.main.DrainJoined? && s.list != [] && AllPublished(s)
    ensures var s' := FreeStep(UnlinkStep(s));
            s'.main.Draining? && s'.list == s.list[1..] && AllPublished(s')
  {
    var s1 := UnlinkStep(s);
    assert s1.main == DrainUnlinked(s.list[0]) && s1.list == s.list[1..] && s1.workers == s.workers;
  }

  /** From the moment shutdown has taken list_mutex it can finish if and only if every worker
      still listed has published its completion; otherwise main waits for ever for a worker
      that waits for main's mutex. */
  lemma {:induction false} ShutdownFinishesIff(events: seq<Event>)
    requires Exec(events).main.Draining?
    ensures CanFinish(Exec(events)) <==> AllPublished(Exec(events))
  {
    AlwaysInv(events);
    var s := Exec(events);
    if AllPublished(s) {
      var rest := DrainRun(s);
    } else {
      var id :| id in s.list && !s.workers[id].complete;
      forall more
        ensures !RunFrom(s, more).main.Finished?
      {
        StuckForever(s, id, more);
      }
    }
  }

  /** A shutdown that never finishes exists: the signal comes right after a worker is listed. */
  lemma {:induction false} ShutdownCanHang() returns (events: seq<Event>)
    ensures Exec(events).main.Draining? && !CanFinish(Exec(events))
  {
    var start := [Accept(4), Malloc(0), Create];
    var stop := [Insert, LockReap, Examine] + ([EndReap, Signal, Stop] + [LockDrain]);
    events := start + stop;
    RunConcat(INITIAL, start, stop);
    RunThree(INITIAL, Accept(4), Malloc(0), Create);
    FirstStarted();
    SignalledWhileServing(RunFrom(INITIAL, start), 0);
    ShutdownFinishesIff(events);
  }

  lemma {:induction false} FirstStarted()
    ensures var s := Step(Step(Step(INITIAL, Accept(4)), Malloc(0)), Create);
            s.main == Started(0) && 0 in s.workers && !s.workers[0].complete && s.list == [] && s.holder.Nobody?
  {
    var s1 := Step(INITIAL, Accept(4));
    var s2 := Step(s1, Malloc(0));
    assert s2.list == [] && s2.holder.Nobody?;
  }

  lemma {:induction false} SignalledWhileServing(s: Pool, id: Id)
    requires s.main == Started(id) && id in s.workers && !s.workers[id].complete && s.list == [] && s.holder.Nobody?
    ensures var s' := RunFrom(s, [Insert, LockReap, Examine] + ([EndReap, Signal, Stop] + [LockDrain]));
            s'.main.Draining? && s'.list == [id] && id in s'.workers && !s'.workers[id].complete
  {
    RunConcat(s, [Insert, LockReap, Examine], [EndReap, Signal, Stop] + [LockDrain]);
    RunThree(s, Insert, LockReap, Examine);
    InsertedAndExamined(s, id);
    StoppedAndLocked(RunFrom(s, [Insert, LockReap, Examine]));
  }

  lemma {:induction false} StoppedAndLocked(s: Pool)
    requires s.main == Reaping(|s.list|)
    ensures var s' := RunFrom(s, [EndReap, Signal, Stop] + [LockDrain]);
            s'.main.Draining? && s'.list == s.list && s'.workers == s.workers
  {
    RunConcat(s, [EndReap, Signal, Stop], [LockDrain]);
    RunThree(s, EndReap, Signal, Stop);
    StoppedAfterReap(s);
    RunOne(RunFrom(s, [EndReap, Signal, Stop]), LockDrain);
  }

  lemma {:induction false} InsertedAndExamined(s: Pool, id: Id)
    requires s.main == Started(id) && id in s.workers && !s.workers[id].complete && s.list == [] && s.holder.Nobody?
    ensures var s' := Step(Step(Step(s, Insert), LockReap), Examine);
            s'.main == Reaping(1) && s'.list == [id] && s'.workers == s.workers
  {
    var s1 := Step(s, Insert);
    assert s1.main == WantReap && s1.list == [id] && s1.workers == s.workers && s1.holder.Nobody?;
  }

  lemma {:induction false} StoppedAfterReap(s: Pool)
    requires s.main == Reaping(|s.list|)
    ensures var s' := Step(Step(Step(s, EndReap), Signal), Stop);
            s'.main == WantDrain && s'.holder.Nobody? && s'.list == s.list && s'.workers == s.workers
  {
  }

  lemma {:induction false} RunThree(s: Pool, a: Event, b: Event, c: Event)
    ensures RunFrom(s, [a, b, c]) == Step(Step(Step(s, a), b), c)
  {
    assert [a, b, c][..2] == [a, b];
    RunTwo(s, a, b);
  }

  /** When main has finished, every thread it ever started has exited, been joined once and its
      record freed, and every descriptor ever accepted has been closed once. */
  lemma {:induction false} FinishedCleanly(events: seq<Event>)
    requires Exec(events).main.Finished?
    ensures var s := Exec(events);
            && s.open == map[]
            && (forall c :: 0 <= c < |s.conns| ==> s.conns[c].closes == 1)
            && (forall id :: id in s.workers ==> !s.workers[id].live)
            && (forall id :: id in s.workers && !s.workers[id].pc.Unborn? ==>
                  s.workers[id].pc.Exited? && s.workers[id].joins == 1)
  {
    RecordSafety(events);
    DescriptorConservation(events);
    AlwaysInv(events);
    var s := Exec(events);
    forall id | id in s.workers
      ensures RecordOk(s, id, s.workers[id])
    {
    }
    forall c | 0 <= c < |s.conns|
      ensures !Owed(s, c)
    {
    }
  }
}
