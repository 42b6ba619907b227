/** The system calls a client makes while it holds file_mutex are the steps the protocol machine
    takes for it, and what a client finds when it gets the mutex is what the machine allows. */
module Refinement {
  import opened Contents
  import opened Segmentation
  import opened Driver
  import opened Framing
  import opened SeekCommand
  import opened Requests
  import opened Chunking
  import P = Protocol
  import I = ProtocolInvariant
  import Safety = ProtocolSafety
  import S = Server

  /** The machine state `s` is that of the device and of client `id`'s open file. */
  ghost predicate Matches(s: P.System, id: P.ClientId, mutex: S.FileMutex, file: OpenFile)
    reads mutex.dev, file
  {
    id in s.clients && s.dev == mutex.dev.State() && s.clients[id].pos == file.fPos
  }

  /** write() of a client that stores a packet. */
  method WriteIsStep(mutex: S.FileMutex, file: OpenFile, packet: seq<Byte>, faults: Faults,
                     ghost s: P.System, ghost id: P.ClientId)
    returns (result: int, ghost outcome: P.Outcome)
    requires mutex.Consistent() && IsPacket(packet)
    requires Matches(s, id, mutex, file) && s.clients[id].pc == P.Storing(packet)
    modifies file, mutex.dev, mutex.dev.buffer, mutex.dev.buffer.entry, mutex.dev.memory
    ensures mutex.Consistent()
    ensures var s' := P.Step(s, id, P.Write(outcome));
            && Matches(s', id, mutex, file)
            && s'.clients[id].pc == P.Releasing(if result >= 0 then P.Rewinding else P.Done(false))
  {
    result := mutex.WritePacket(file, packet, faults);
    outcome := if result >= 0 then P.Success
               else if result == -EFAULT then P.BadAddress
               else if result == -ERESTARTSYS then P.Signalled
               else P.OutOfMemory;
    I.StepIs(s, id, P.Write(outcome));
    WholePacketOrNothing(s.dev, mutex.dev.State(), packet, outcome);
  }

  lemma {:induction false} WholePacketOrNothing(d: DeviceState, d': DeviceState, packet: seq<Byte>, outcome: P.Outcome)
    requires d.pending == [] == d'.pending && IsPacket(packet)
    requires if outcome.Success? then d'.commits == d.commits + [packet] else d' == d
    ensures Apply(d, P.CallFor(outcome, packet)) == d'
  {
    assert packet[|packet| - 1] == '\n';
    assert [] + packet == packet;
  }

  /** ioctl() of a client that sent a seek command. */
  method IoctlIsStep(mutex: S.FileMutex, file: OpenFile, to: SeekTo, interrupted: bool, faulty: bool,
                     ghost s: P.System, ghost id: P.ClientId)
    returns (result: int)
    requires mutex.Consistent() && to.writeCmd < UINT32_RANGE && to.writeCmdOffset < UINT32_RANGE
    requires Matches(s, id, mutex, file) && s.clients[id].pc == P.Seeking(to)
    modifies file
    ensures mutex.Consistent()
    ensures var s' := P.Step(s, id, P.Ioctl(interrupted || faulty));
            && Matches(s', id, mutex, file)
            && s'.clients[id].pc == P.Releasing(if result >= 0 then P.WantSend else P.Done(false))
  {
    result := mutex.dev.Ioctl(file, true, to.writeCmd, to.writeCmdOffset, interrupted, faulty);
    I.StepIs(s, id, P.Ioctl(interrupted || faulty));
  }

  /** read() of a client that has sent all of its last chunk. */
  method ReadIsStep(mutex: S.FileMutex, file: OpenFile, interrupted: bool, faulty: bool,
                    ghost s: P.System, ghost id: P.ClientId)
    returns (bytesRead: int, chunk: seq<Byte>)
    requires mutex.Consistent() && Matches(s, id, mutex, file)
    requires s.clients[id].pc.Sending? && s.clients[id].pc.sent >= |s.clients[id].pc.chunk|
    modifies file
    ensures mutex.Consistent()
    ensures var s' := P.Step(s, id, P.Read(bytesRead < 0));
            && Matches(s', id, mutex, file)
            && s'.clients[id].pc == if bytesRead > 0 then P.Sending(chunk, 0) else P.Releasing(P.Done(bytesRead == 0))
  {
    bytesRead, chunk := mutex.dev.Read(file, BUFFER_SIZE, interrupted, faulty);
    I.StepIs(s, id, P.Read(bytesRead < 0));
  }

  /** Where the receive loop stands once it has decided. */
  function AfterReceive(decision: Decision): P.Pc {
    match decision
    case Incomplete => P.Receiving
    case Store(packet) => P.WantStore(packet)
    case Seek(to) => P.WantSeek(to)
  }

  /** recv() of a client in its receive loop, its end of stream and its error: the machine gathers
      the very bytes taken from the socket and decides as the method does. */
  method RecvIsStep(sock: S.Socket, buf: array<Byte>, packetSize: S.int32,
                    ghost stream: seq<Byte>, ghost got: seq<Byte>, ghost cuts: seq<nat>,
                    ghost s: P.System, ghost id: P.ClientId)
    returns (bytesReceived: S.int32, decision: Decision, ghost event: P.Event)
    requires buf.Length == BufferSize(|got|) < 0x7FFF_FFFF && packetSize == |got| && buf[..packetSize] == got
    requires stream == got + sock.incoming
    requires S.Gathered(stream, got, cuts) && Decide(got).Incomplete?
    requires id in s.clients && s.clients[id].pc.Receiving? && s.clients[id].got == got
    modifies sock`incoming, sock`recvError, sock`ended, buf
    ensures |got| <= |stream| - |sock.incoming|
    ensures event == if bytesReceived > 0 then P.Receive(stream[|got|..|stream| - |sock.incoming|])
                     else if bytesReceived == 0 then P.EndReceive
                     else P.Fail
    ensures var s' := P.Step(s, id, event);
            && id in s'.clients && s'.dev == s.dev && s'.clients[id].got + sock.incoming == stream
            && s'.clients[id].pc == if bytesReceived > 0 then AfterReceive(decision)
                                    else if bytesReceived == 0 then P.Rewinding
                                    else P.Done(false)
  {
    ghost var got', cuts';
    bytesReceived, decision, got', cuts' := S.ReceiveMore(sock, buf, packetSize, stream, got, cuts);
    ghost var chunk := stream[|got|..|stream| - |sock.incoming|];
    event := if bytesReceived > 0 then P.Receive(chunk)
             else if bytesReceived == 0 then P.EndReceive
             else P.Fail;
    I.StepIs(s, id, event);
    assert got' == got + chunk;
    if bytesReceived > 0 {
      assert P.Takes(s.clients[id], chunk);
    }
  }

  /** lseek() of a client that did not seek. */
  method RewindIsStep(mutex: S.FileMutex, file: OpenFile, interrupted: bool, ghost s: P.System, ghost id: P.ClientId)
    returns (result: S.int32)
    requires mutex.Consistent() && Matches(s, id, mutex, file) && s.clients[id].pc.Rewinding?
    modifies file
    ensures var s' := P.Step(s, id, if result == 0 then P.Rewind else P.Fail);
            && id in s'.clients && s'.dev == mutex.dev.State()
            && s'.clients[id].pc == (if result == 0 then P.WantSend else P.Done(false))
            && (result == 0 ==> Matches(s', id, mutex, file))
  {
    result := S.Rewind(file, mutex.dev, interrupted);
    I.StepIs(s, id, if result == 0 then P.Rewind else P.Fail);
  }

  /** send() of what is left of a chunk. */
  method SendIsStep(sock: S.Socket, chunk: seq<Byte>, totalSent: nat, ghost s: P.System, ghost id: P.ClientId)
    returns (sent: S.int32, ghost event: P.Event)
    requires totalSent < |chunk| < 0x8000_0000
    requires id in s.clients && s.clients[id].pc == P.Sending(chunk, totalSent) && s.clients[id].out == sock.outgoing
    modifies sock`outgoing, sock`sendError
    ensures event == if sent >= 0 then P.Send(sent) else P.SendFail
    ensures var s' := P.Step(s, id, event);
            && id in s'.clients && s'.dev == s.dev && s'.clients[id].out == sock.outgoing
            && s'.clients[id].pc == if sent >= 0 then P.Sending(chunk, totalSent + sent) else P.Releasing(P.Done(false))
  {
    sent := sock.Send(chunk[totalSent..]);
    event := if sent >= 0 then P.Send(sent) else P.SendFail;
    I.StepIs(s, id, event);
    assert sent >= 0 ==> chunk[totalSent..][..sent] == chunk[totalSent..totalSent + sent];
  }

  /** What a client that gets the mutex at moment `n` or later may rely on: since moment `n` the
      others only added commits, nothing is pending, and every commit is a whole packet. */
  lemma {:induction false} OthersMeanwhile(trace: Safety.Trace, n: nat)
    requires n <= |trace|
    ensures P.Exec(trace[..n]).dev.commits <= P.Exec(trace).dev.commits
    ensures P.Exec(trace).dev.pending == []
    ensures forall i :: 0 <= i < |P.Exec(trace).dev.commits| ==> IsPacket(P.Exec(trace).dev.commits[i])
  {
    Safety.CommitsOnlyGrow(trace, n);
    I.AlwaysInv(trace);
  }
}
