/** Every run of main and its workers keeps the pool invariant. */
module ThreadPoolInvariant {
  import opened Contents
  import opened ThreadPool

  // ----- Connections -----

  /** Nothing was opened, closed or handed over. */
  ghost predicate SameConns(s: Pool, s': Pool) {
    && s'.conns == s.conns && s'.open == s.open && s'.strayClose == s.strayClose
    && MainConn(s'.main) == MainConn(s.main) && (s'.main.Allocated? ==> s'.main == s.main)
    && s'.workers.Keys == s.workers.Keys
    && forall id :: id in s.workers ==>
         && s'.workers[id].conn == s.workers[id].conn
         && (s'.workers[id].pc.Unborn? <==> s.workers[id].pc.Unborn?)
         && (s'.workers[id].pc.Created? || s'.workers[id].pc.Serving?
             <==> s.workers[id].pc.Created? || s.workers[id].pc.Serving?)
  }

  lemma {:induction false} ConnsKept(s: Pool, s': Pool)
    requires ConnsOk(s) && SameConns(s, s')
    ensures ConnsOk(s')
  {
    forall c | 0 <= c < |s.conns|
      ensures Owed(s', c) <==> Owed(s, c)
    {
    }
  }

  lemma {:induction false} AcceptKeepsConns(s: Pool, fd: nat)
    requires ConnsOk(s)
    ensures ConnsOk(AcceptStep(s, fd))
  {
    var s' := AcceptStep(s, fd);
    assert OwnersOk(s');
    assert OpenOk(s');
  }

  lemma {:induction false} MallocKeepsConns(s: Pool, id: Id)
    requires ConnsOk(s)
    ensures ConnsOk(MallocStep(s, id))
  {
  }

  lemma {:induction false} CreateKeepsConns(s: Pool)
    requires ConnsOk(s)
    ensures ConnsOk(CreateStep(s))
  {
    var s' := CreateStep(s);
    CreateKeepsOwners(s);
    CreateKeepsOwed(s);
    if s' != s {
      OpenKept(s, s');
    }
  }

  lemma {:induction false} CreateKeepsOwners(s: Pool)
    requires OwnersOk(s)
    ensures OwnersOk(CreateStep(s))
  {
  }

  lemma {:induction false} CreateKeepsOwed(s: Pool)
    requires OwnersOk(s)
    ensures |CreateStep(s).conns| == |s.conns|
    ensures forall c :: 0 <= c < |s.conns| ==> (Owed(CreateStep(s), c) <==> Owed(s, c))
  {
  }

  /** Handing a connection over opens and closes nothing. */
  lemma {:induction false} OpenKept(s: Pool, s': Pool)
    requires OpenOk(s) && s'.open == s.open && |s'.conns| == |s.conns|
    requires forall c :: 0 <= c < |s.conns| ==>
               && s'.conns[c].fd == s.conns[c].fd && s'.conns[c].closes == s.conns[c].closes
               && (Owed(s', c) <==> Owed(s, c))
    ensures OpenOk(s')
  {
  }

  /** Connection `c` was closed by the one who owed it, and is owed no more. */
  ghost predicate Closed(s: Pool, c: nat, s': Pool) {
    && c < |s.conns|
    && (var closed := CloseConn(s, c, s.conns[c].owner);
        s'.conns == closed.conns && s'.open == closed.open && s'.strayClose == closed.strayClose)
    && MainConn(s'.main) == (if s.conns[c].owner.None? then None else MainConn(s.main))
    && (s'.main.Allocated? ==> s'.main == s.main)
    && s'.workers.Keys == s.workers.Keys
    && (forall id :: id in s.workers ==>
          && s'.workers[id].conn == s.workers[id].conn
          && (s'.workers[id].pc.Unborn? <==> s.workers[id].pc.Unborn?)
          && (s'.workers[id].pc.Created? || s'.workers[id].pc.Serving?
              <==> (s.workers[id].pc.Created? || s.workers[id].pc.Serving?) && s.conns[c].owner != Some(id)))
  }

  lemma {:induction false} CloseKeepsOwners(s: Pool, c: nat, s': Pool)
    requires OwnersOk(s) && Closed(s, c, s')
    ensures OwnersOk(s')
  {
  }

  lemma {:induction false} CloseSettles(s: Pool, c: nat, s': Pool)
    requires OwnersOk(s) && Closed(s, c, s') && Owed(s, c)
    ensures forall d :: 0 <= d < |s.conns| ==> (Owed(s', d) <==> Owed(s, d) && d != c)
  {
  }

  lemma {:induction false} CloseKeepsOpen(s: Pool, c: nat, s': Pool)
    requires OpenOk(s) && c < |s.conns| && Owed(s, c)
    requires var closed := CloseConn(s, c, s.conns[c].owner);
             s'.conns == closed.conns && s'.open == closed.open && s'.strayClose == closed.strayClose
    requires forall d :: 0 <= d < |s.conns| ==> (Owed(s', d) <==> Owed(s, d) && d != c)
    ensures OpenOk(s') && s'.strayClose == s.strayClose
  {
  }

  lemma {:induction false} CloseKeepsConns(s: Pool, c: nat, s': Pool)
    requires ConnsOk(s) && Closed(s, c, s') && Owed(s, c)
    ensures ConnsOk(s')
  {
    CloseKeepsOwners(s, c, s');
    CloseSettles(s, c, s');
    CloseKeepsOpen(s, c, s');
  }

  // ----- Steps of workers -----

  /** Worker `id` alone moved on; main, the list and its record's bookkeeping did not change. */
  ghost predicate OneMoved(s: Pool, id: Id, s': Pool) {
    && s'.main == s.main && s'.list == s.list && s'.touchedFreed == s.touchedFreed
    && id in s.workers && id in s'.workers && s'.workers == s.workers[id := s'.workers[id]]
    && var v, w := s.workers[id], s'.workers[id];
       && w == v.(pc := w.pc, complete := HasPublished(w.pc))
       && !v.pc.Unborn? && !w.pc.Unborn?
       && (v.joins == 1 ==> w.pc.Exited?)
       && (v.complete ==> w.complete)
       && (w.pc.Publishing? || w.pc.Published? <==> s'.holder == Thread(id))
       && (s'.holder == s.holder || (s.holder.Nobody? && s'.holder == Thread(id))
           || (s.holder == Thread(id) && s'.holder.Nobody?))
  }

  lemma {:induction false} OneMovedLock(s: Pool, id: Id, s': Pool)
    requires LockOk(s) && OneMoved(s, id, s')
    ensures LockOk(s')
  {
  }

  lemma {:induction false} OneMovedList(s: Pool, id: Id, s': Pool)
    requires ListOk(s) && OneMoved(s, id, s')
    ensures ListOk(s')
  {
  }

  lemma {:induction false} OneMovedRecords(s: Pool, id: Id, s': Pool)
    requires RecordsOk(s) && OneMoved(s, id, s')
    ensures RecordsOk(s')
  {
    forall other | other in s'.workers
      ensures RecordOk(s', other, s'.workers[other])
    {
      assert RecordOk(s, other, s.workers[other]);
    }
  }

  lemma {:induction false} OneMovedKeeps(s: Pool, id: Id, s': Pool)
    requires Inv(s) && OneMoved(s, id, s')
    ensures LockOk(s') && ListOk(s') && RecordsOk(s')
  {
    OneMovedLock(s, id, s');
    OneMovedList(s, id, s');
    OneMovedRecords(s, id, s');
  }

  /** A worker that has not been joined uses a live record. */
  lemma {:induction false} RunningIsLive(s: Pool, id: Id)
    requires Inv(s) && id in s.workers && !s.workers[id].pc.Unborn? && !s.workers[id].pc.Exited?
    ensures s.workers[id].live && s.workers[id].joins == 0 && Touch(s, id) == s
    ensures s.workers[id].complete == HasPublished(s.workers[id].pc)
    ensures s.workers[id].pc.Publishing? || s.workers[id].pc.Published? <==> s.holder == Thread(id)
  {
    assert RecordOk(s, id, s.workers[id]);
  }

  lemma {:induction false} MovedKeeps(s: Pool, id: Id, s': Pool)
    requires Inv(s) && OneMoved(s, id, s')
    requires s'.conns == s.conns && s'.open == s.open && s'.strayClose == s.strayClose
    requires var v, w := s.workers[id], s'.workers[id];
             w.pc.Created? || w.pc.Serving? <==> v.pc.Created? || v.pc.Serving?
    ensures Inv(s')
  {
    OneMovedKeeps(s, id, s');
    ConnsKept(s, s');
  }

  lemma {:induction false} BeginKeeps(s: Pool, id: Id)
    requires Inv(s)
    ensures Inv(BeginStep(s, id))
  {
    var s' := BeginStep(s, id);
    if s' != s {
      RunningIsLive(s, id);
      MovedKeeps(s, id, s');
    }
  }

  lemma {:induction false} LockKeeps(s: Pool, id: Id)
    requires Inv(s)
    ensures Inv(LockStep(s, id))
  {
    var s' := LockStep(s, id);
    if s' != s {
      RunningIsLive(s, id);
      MovedKeeps(s, id, s');
    }
  }

  lemma {:induction false} PublishKeeps(s: Pool, id: Id)
    requires Inv(s)
    ensures Inv(PublishStep(s, id))
  {
    var s' := PublishStep(s, id);
    if s' != s {
      RunningIsLive(s, id);
      MovedKeeps(s, id, s');
    }
  }

  lemma {:induction false} UnlockKeeps(s: Pool, id: Id)
    requires Inv(s)
    ensures Inv(UnlockStep(s, id))
  {
    var s' := UnlockStep(s, id);
    if s' != s {
      RunningIsLive(s, id);
      MovedKeeps(s, id, s');
    }
  }

  lemma {:induction false} ExitKeeps(s: Pool, id: Id)
    requires Inv(s)
    ensures Inv(Move(s, id, Leaving, Exited))
  {
    var s' := Move(s, id, Leaving, Exited);
    if s' != s {
      RunningIsLive(s, id);
      MovedKeeps(s, id, s');
    }
  }

  lemma {:induction false} CloseKeeps(s: Pool, id: Id)
    requires Inv(s)
    ensures Inv(CloseStep(s, id))
  {
    var s' := CloseStep(s, id);
    if s' != s {
      RunningIsLive(s, id);
      OneMovedKeeps(s, id, s');
      assert s.conns[s.workers[id].conn].owner == Some(id);
      CloseKeepsConns(s, s.workers[id].conn, s');
    }
  }

  // ----- Steps of main -----

  lemma {:induction false} AcceptKeepsControl(s: Pool, fd: nat)
    requires ControlOk(s)
    ensures ControlOk(AcceptStep(s, fd))
  {
  }

  lemma {:induction false} MallocKeepsControl(s: Pool, id: Id)
    requires ControlOk(s)
    ensures ControlOk(MallocStep(s, id))
  {
  }

  lemma {:induction false} MallocFailsKeepsControl(s: Pool)
    requires ControlOk(s)
    ensures ControlOk(MallocFailsStep(s))
  {
  }

  lemma {:induction false} CreateKeepsControl(s: Pool)
    requires ControlOk(s)
    ensures ControlOk(CreateStep(s))
  {
    var s' := CreateStep(s);
    assert LockOk(s') && ListOk(s');
  }

  lemma {:induction false} CreateFailsKeepsControl(s: Pool)
    requires ControlOk(s)
    ensures ControlOk(CreateFailsStep(s))
  {
    var s' := CreateFailsStep(s);
    assert LockOk(s') && ListOk(s');
  }

  lemma {:induction false} InsertKeepsControl(s: Pool)
    requires ControlOk(s)
    ensures ControlOk(InsertStep(s))
  {
    var s' := InsertStep(s);
    assert LockOk(s') && ListOk(s');
  }

  lemma {:induction false} ExamineKeepsControl(s: Pool)
    requires ControlOk(s)
    ensures ControlOk(ExamineStep(s))
  {
  }

  lemma {:induction false} JoinRecordKeepsControl(s: Pool, id: Id, next: MainPc)
    requires ControlOk(s) && id in s.list
    requires (s.main.Joining? && s.main.i < |s.list| && s.list[s.main.i] == id && next == Joined(s.main.i))
             || (s.main.Draining? && s.list[0] == id && next == DrainJoined)
    ensures ControlOk(JoinRecord(s, id, next))
  {
    var s' := JoinRecord(s, id, next);
    if s' != s {
      assert LockOk(s') && ListOk(s');
      assert JoinedNow(s') == Some(id) && JoinedNow(s) == None;
      RecordsFollow(s, s', id);
    }
  }

  /** The records other than `id` are as main left them. */
  lemma {:induction false} RecordsFollow(s: Pool, s': Pool, id: Id)
    requires RecordsOk(s) && id in s.workers && id in s'.workers && s'.workers == s.workers[id := s'.workers[id]]
    requires !s'.touchedFreed && !s.main.Allocated? && !s'.main.Allocated?
    requires RecordOk(s', id, s'.workers[id])
    requires forall other :: other in s.workers && other != id ==>
               && (other in s'.list <==> other in s.list)
               && (InHand(s'.main) == Some(other) <==> InHand(s.main) == Some(other))
               && (JoinedNow(s') == Some(other) <==> JoinedNow(s) == Some(other))
    ensures RecordsOk(s')
  {
    forall other | other in s'.workers
      ensures RecordOk(s', other, s'.workers[other])
    {
      assert RecordOk(s, other, s.workers[other]);
    }
  }

  lemma {:induction false} JoinKeepsControl(s: Pool)
    requires ControlOk(s)
    ensures ControlOk(JoinStep(s))
  {
    if s.main.Joining? && s.main.i < |s.list| {
      JoinRecordKeepsControl(s, s.list[s.main.i], Joined(s.main.i));
    } else if s.main.Draining? && s.list != [] {
      JoinRecordKeepsControl(s, s.list[0], DrainJoined);
    }
  }

  /** No listed record was freed. */
  lemma {:induction false} ListedAreLive(s: Pool, n: nat)
    requires ControlOk(s) && n <= |s.list|
    ensures TouchAll(s, s.list[..n]) == s
  {
    forall id | id in s.list[..n]
      ensures id in s.workers && s.workers[id].live
    {
      assert id in s.list && RecordOk(s, id, s.workers[id]);
    }
  }

  /** Main takes the joined record at index `i` out of the list. */
  ghost predicate TakenOut(s: Pool, i: nat, s': Pool) {
    && i < |s.list|
    && ((s.main == Joined(i) && s'.main == Unlinked(s.list[i], i))
        || (s.main.DrainJoined? && i == 0 && s'.main == DrainUnlinked(s.list[0])))
    && s'.workers == s.workers && s'.holder == s.holder && s'.touchedFreed == s.touchedFreed
    && s'.list == s.list[..i] + s.list[i + 1..]
  }

  lemma {:induction false} TakenOutKeepsList(s: Pool, i: nat, s': Pool)
    requires ListOk(s) && TakenOut(s, i, s')
    ensures ListOk(s')
    ensures forall id :: id in s'.list <==> id in s.list && id != s.list[i]
  {
    Without(s.list, i);
  }

  lemma {:induction false} TakenOutKeepsControl(s: Pool, i: nat, s': Pool)
    requires ControlOk(s) && TakenOut(s, i, s')
    ensures ControlOk(s')
  {
    TakenOutKeepsList(s, i, s');
    assert LockOk(s');
    assert RecordOk(s, s.list[i], s.workers[s.list[i]]);
    RecordsFollow(s, s', s.list[i]);
  }

  lemma {:induction false} UnlinkTakesOut(s: Pool, i: nat)
    requires i < |s.list| && TouchAll(s, s.list[..i + 1]) == s
    requires s.main == Joined(i) || (s.main.DrainJoined? && i == 0)
    ensures TakenOut(s, i, UnlinkStep(s))
  {
    assert s.list[..0] + s.list[1..] == s.list[1..];
  }

  lemma {:induction false} UnlinkKeepsControl(s: Pool)
    requires ControlOk(s)
    ensures ControlOk(UnlinkStep(s))
  {
    if s.main.Joined? || s.main.DrainJoined? {
      var i := if s.main.Joined? then s.main.i else 0;
      ListedAreLive(s, i + 1);
      UnlinkTakesOut(s, i);
      TakenOutKeepsControl(s, i, UnlinkStep(s));
    }
  }

  /** A list without duplicates loses exactly the element taken out. */
  lemma {:induction false} Without(list: seq<Id>, i: nat)
    requires i < |list|
    requires forall j, k :: 0 <= j < k < |list| ==> list[j] != list[k]
    ensures var rest := list[..i] + list[i + 1..];
            && (forall id :: id in rest <==> id in list && id != list[i])
            && (forall j, k :: 0 <= j < k < |rest| ==> rest[j] != rest[k])
  {
    var rest := list[..i] + list[i + 1..];
    forall id | id in list && id != list[i]
      ensures id in rest
    {
      var j :| 0 <= j < |list| && list[j] == id;
      assert rest[if j < i then j else j - 1] == id;
    }
  }

  lemma {:induction false} FreeRecordKeepsControl(s: Pool, id: Id, next: MainPc)
    requires ControlOk(s)
    requires (s.main == DrainUnlinked(id) && next == Draining)
             || (s.main.Unlinked? && s.main.id == id && next == Reaping(s.main.i))
    ensures ControlOk(FreeRecord(s, id, next))
  {
    var s' := FreeRecord(s, id, next);
    assert LockOk(s') && ListOk(s');
    RecordsFollow(s, s', id);
  }

  lemma {:induction false} FreeKeepsControl(s: Pool)
    requires ControlOk(s)
    ensures ControlOk(FreeStep(s))
  {
    if s.main.Unlinked? {
      FreeRecordKeepsControl(s, s.main.id, Reaping(s.main.i));
    } else if s.main.DrainUnlinked? {
      FreeRecordKeepsControl(s, s.main.id, Draining);
    }
  }

  /** Steps of main that only move it or the mutex. */
  predicate OnlyMoves(e: Event) {
    e in {Signal, AcceptFails, Stop, LockReap, EndReap, LockDrain, EndDrain}
  }

  /** Main goes on to `next`, perhaps taking or releasing the mutex; nothing else changes. */
  ghost predicate OnlyMainMoved(s: Pool, s': Pool) {
    && s'.workers == s.workers && s'.list == s.list && s'.touchedFreed == s.touchedFreed
    && (s'.main != s.main ==>
          && InHand(s.main).None? && InHand(s'.main).None? && JoinedNow(s).None? && JoinedNow(s').None?
          && !s.main.Allocated? && !s'.main.Allocated? && !s'.main.Joining? && !s'.main.Joined?
          && !s'.main.DrainJoined? && !s'.main.Unlinked?
          && (s'.main.Reaping? ==> s'.main.i == 0) && (s'.main.Finished? ==> s.list == []))
    && (s'.holder.Main? <==> MainHolds(s'.main))
    && (s'.holder == s.holder || (!s.holder.Thread? && !s'.holder.Thread?))
  }

  lemma {:induction false} MovesAreMoves(s: Pool, e: Event)
    requires LockOk(s) && OnlyMoves(e)
    ensures OnlyMainMoved(s, Step(s, e))
  {
    var s' := Step(s, e);
    assert s' == s.(main := s'.main, holder := s'.holder, active := s'.active);
  }

  lemma {:induction false} MovedMainLock(s: Pool, s': Pool)
    requires LockOk(s) && OnlyMainMoved(s, s')
    ensures LockOk(s')
  {
  }

  lemma {:induction false} MovedMainList(s: Pool, s': Pool)
    requires ListOk(s) && OnlyMainMoved(s, s')
    ensures ListOk(s')
  {
  }

  lemma {:induction false} MovedMainRecords(s: Pool, s': Pool)
    requires RecordsOk(s) && OnlyMainMoved(s, s')
    ensures RecordsOk(s')
  {
    forall id | id in s'.workers
      ensures RecordOk(s', id, s'.workers[id])
    {
      assert RecordOk(s, id, s.workers[id]);
    }
  }

  lemma {:induction false} MainMovesKeepsControl(s: Pool, e: Event)
    requires ControlOk(s) && OnlyMoves(e)
    ensures ControlOk(Step(s, e))
  {
    MovesAreMoves(s, e);
    MovedMainLock(s, Step(s, e));
    MovedMainList(s, Step(s, e));
    MovedMainRecords(s, Step(s, e));
  }

  lemma {:induction false} MovesLeaveConns(s: Pool, e: Event)
    requires OnlyMoves(e)
    ensures SameConns(s, Step(s, e))
  {
    var s' := Step(s, e);
    assert s'.conns == s.conns && s'.open == s.open && s'.strayClose == s.strayClose && s'.workers == s.workers;
    assert MainConn(s'.main) == MainConn(s.main) && (s'.main.Allocated? ==> s'.main == s.main);
  }

  lemma {:induction false} MainLeavesConns(s: Pool, e: Event)
    requires OnlyMoves(e) || e in {Insert, Examine, Join, Unlink, Free}
    ensures SameConns(s, Step(s, e))
  {
    match e
    case Join => JoinLeavesConns(s);
    case Free => FreeLeavesConns(s);
    case Unlink => UnlinkLeavesConns(s);
    case Examine => ExamineLeavesConns(s);
    case Insert => InsertLeavesConns(s);
    case _ => MovesLeaveConns(s, e);
  }

  lemma {:induction false} InsertLeavesConns(s: Pool)
    ensures SameConns(s, InsertStep(s))
  {
  }

  lemma {:induction false} ExamineLeavesConns(s: Pool)
    ensures SameConns(s, ExamineStep(s))
  {
  }

  lemma {:induction false} UnlinkLeavesConns(s: Pool)
    ensures SameConns(s, UnlinkStep(s))
  {
  }

  lemma {:induction false} JoinRecordLeavesConns(s: Pool, id: Id, next: MainPc)
    requires s.main.Joining? || s.main.Draining?
    requires next.Joined? || next.DrainJoined?
    ensures SameConns(s, JoinRecord(s, id, next))
  {
  }

  lemma {:induction false} JoinLeavesConns(s: Pool)
    ensures SameConns(s, JoinStep(s))
  {
    if s.main.Joining? && s.main.i < |s.list| {
      JoinRecordLeavesConns(s, s.list[s.main.i], Joined(s.main.i));
    } else if s.main.Draining? && s.list != [] {
      JoinRecordLeavesConns(s, s.list[0], DrainJoined);
    }
  }

  lemma {:induction false} FreeLeavesConns(s: Pool)
    ensures SameConns(s, FreeStep(s))
  {
  }

  lemma {:induction false} FailuresKeepConns(s: Pool, e: Event)
    requires ConnsOk(s) && e in {MallocFails, CreateFails}
    ensures ConnsOk(Step(s, e))
  {
    if Step(s, e) != s {
      CloseKeepsConns(s, s.main.conn, Step(s, e));
    }
  }

  lemma {:induction false} MainKeepsControl(s: Pool, e: Event)
    requires ControlOk(s)
    requires OnlyMoves(e) || e.Accept? || e.Malloc?
             || e in {MallocFails, Create, CreateFails, Insert, Examine, Join, Unlink, Free}
    ensures ControlOk(Step(s, e))
  {
    match e
    case Accept(fd) => AcceptKeepsControl(s, fd);
    case Malloc(id) => MallocKeepsControl(s, id);
    case MallocFails => MallocFailsKeepsControl(s);
    case Create => CreateKeepsControl(s);
    case CreateFails => CreateFailsKeepsControl(s);
    case Insert => InsertKeepsControl(s);
    case Examine => ExamineKeepsControl(s);
    case Join => JoinKeepsControl(s);
    case Unlink => UnlinkKeepsControl(s);
    case Free => FreeKeepsControl(s);
    case _ => MainMovesKeepsControl(s, e);
  }

  lemma {:induction false} MainKeepsConns(s: Pool, e: Event)
    requires ConnsOk(s)
    requires OnlyMoves(e) || e.Accept? || e.Malloc?
             || e in {MallocFails, Create, CreateFails, Insert, Examine, Join, Unlink, Free}
    ensures ConnsOk(Step(s, e))
  {
    match e
    case Accept(fd) => AcceptKeepsConns(s, fd);
    case Malloc(id) => MallocKeepsConns(s, id);
    case Create => CreateKeepsConns(s);
    case MallocFails => FailuresKeepConns(s, e);
    case CreateFails => FailuresKeepConns(s, e);
    case _ =>
      MainLeavesConns(s, e);
      ConnsKept(s, Step(s, e));
  }

  lemma {:induction false} StepKeeps(s: Pool, e: Event)
    requires Inv(s)
    ensures Inv(Step(s, e))
  {
    match e
    case Begin(id) => BeginKeeps(s, id);
    case Close(id) => CloseKeeps(s, id);
    case Lock(id) => LockKeeps(s, id);
    case Publish(id) => PublishKeeps(s, id);
    case Unlock(id) => UnlockKeeps(s, id);
    case Exit(id) => ExitKeeps(s, id);
    case _ =>
      MainKeepsControl(s, e);
      MainKeepsConns(s, e);
  }

  lemma {:induction false} RunKeeps(s: Pool, events: seq<Event>)
    requires Inv(s)
    ensures Inv(RunFrom(s, events))
  {
    if events != [] {
      RunKeeps(s, events[..|events| - 1]);
      StepKeeps(RunFrom(s, events[..|events| - 1]), events[|events| - 1]);
    }
  }

  lemma {:induction false} AlwaysInv(events: seq<Event>)
    ensures Inv(Exec(events))
  {
    RunKeeps(INITIAL, events);
  }
}
