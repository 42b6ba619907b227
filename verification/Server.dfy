/** receive_data, send_data and client_handler of server/aesdsocket.c over a device shared
    under file_mutex. Other clients run whenever the mutex is taken. */
module Server {
  import opened Contents
  import opened Segmentation
  import opened Driver
  import opened Framing
  import opened SeekCommand
  import opened Requests
  import opened Chunking
  import opened CommandGrammar

  /** A C `int`. */
  type int32 = x: int | -0x8000_0000 <= x < 0x8000_0000

  /** One connected client: bytes it will still send us, and bytes it has accepted from us. */
  class Socket {
    var incoming: seq<Byte>
    var outgoing: seq<Byte>
    /** What became of the calls on the socket: a recv or a send reported an error, a recv the
        end of the stream. */
    ghost var recvError: bool
    ghost var ended: bool
    ghost var sendError: bool

    /** recv: an error, an end of stream, or between one and `n` bytes. */
    method Recv(n: int32) returns (r: int32, data: seq<Byte>)
      requires n > 0
      modifies this`incoming, this`recvError, this`ended
      ensures -1 <= r <= n && |data| == (if r > 0 then r as int else 0)
      ensures old(incoming) == data + incoming
      ensures recvError == (old(recvError) || r == -1) && ended == (old(ended) || r == 0)
    {
      var outcome: int := *;
      if outcome > 0 && incoming != [] {
        var k: int :| 1 <= k <= n && k <= |incoming| by { assert 1 <= 1 <= n && 1 <= |incoming|; }
        data := incoming[..k];
        incoming := incoming[k..];
        r := k;
      } else {
        r, data := if outcome == 0 then -1 else 0, [];
        recvError, ended := recvError || r == -1, ended || r == 0;
      }
    }

    /** send: an error, or at least one byte accepted. */
    method Send(bytes: seq<Byte>) returns (sent: int32)
      requires 0 < |bytes| < 0x8000_0000
      modifies this`outgoing, this`sendError
      ensures sent == -1 || 1 <= sent <= |bytes|
      ensures sendError == (old(sendError) || sent == -1)
      ensures outgoing == old(outgoing) + (if sent == -1 then [] else bytes[..sent])
    {
      var fails: bool := *;
      if fails {
        sendError := true;
        return -1;
      }
      var k: int :| 1 <= k <= |bytes| by { assert 1 <= 1 <= |bytes|; }
      outgoing := outgoing + bytes[..k];
      sent := k;
    }
  }

  /** What the system may refuse one client's thread, and when the server is told to stop. */
  datatype Chances = Chances(
    openFails: bool,
    mallocFails: bool,                 // for receive_data's buffer
    reallocFails: nat -> bool,         // for the buffer of that size
    stopped: nat -> bool,              // `active` was cleared when so many bytes were received
    call: Faults,                      // the write or ioctl call
    rewindInterrupted: bool,
    sendMallocFails: bool,             // for send_data's buffer
    readFaults: nat -> Faults)         // the read call at that position

  /** file_mutex and what it protects. */
  class FileMutex {
    const dev: Device
    ghost var held: bool
    /** The commits found when the mutex was last taken. */
    ghost var atLock: seq<seq<Byte>>

    /** What every client finds when it takes the mutex and must leave when it releases it:
        nothing pending, and every commit one whole packet. */
    ghost predicate Consistent()
      reads dev, dev.buffer, dev.buffer.entry, dev.memory
    {
      && dev.Valid()
      && dev.State().pending == []
      && forall i :: 0 <= i < |dev.State().commits| ==> IsPacket(dev.State().commits[i])
    }

    constructor (dev: Device)
      requires dev.Valid() && dev.calls == []
      ensures this.dev == dev && !held && Consistent()
    {
      this.dev := dev;
      held, atLock := false, [];
    }

    /** One write call of a whole packet to a consistent device: all of it or nothing. */
    method WritePacket(file: OpenFile, packet: seq<Byte>, faults: Faults) returns (result: int)
      requires Consistent() && IsPacket(packet)
      modifies file, dev, dev.buffer, dev.buffer.entry, dev.memory
      ensures Consistent()
      ensures result < 0 <==> faults.interrupted || faults.noMemory || faults.faulty
      ensures result < 0 ==> dev.State() == old(dev.State())
      ensures result >= 0 ==> result == |packet| && dev.State().commits == old(dev.State()).commits + [packet]
      ensures file.fPos == old(file.fPos) + if result >= 0 then |packet| else 0
    {
      ghost var before := dev.State();
      result := dev.Write(file, packet, faults);
      assert packet[|packet| - 1] == '\n';
      assert before.pending + packet == packet;
    }

    /** pthread_mutex_lock: any number of other clients' critical sections come first. */
    method Lock()
      requires !held && Consistent()
      modifies this, dev, dev.buffer, dev.buffer.entry, dev.memory
      ensures held && Consistent()
      ensures old(dev.State().commits) <= dev.State().commits == atLock
    {
      var others: nat := *;
      while others > 0
        invariant Consistent()
        invariant old(dev.State().commits) <= dev.State().commits
        modifies dev, dev.buffer, dev.buffer.entry, dev.memory
      {
        var packet: seq<Byte> := *;
        var interrupted: bool, noMemory: bool, faulty: bool := *, *, *;
        if IsPacket(packet) {
          var file := new OpenFile();
          var _ := WritePacket(file, packet, Faults(interrupted, noMemory, faulty));
        }
        others := others - 1;
      }
      held, atLock := true, dev.State().commits;
    }

    /** pthread_mutex_unlock */
    method Unlock()
      requires held && Consistent()
      modifies this`held
      ensures !held
    {
      held := false;
    }
  }

  /** `rest` is what is left of `stream` after taking bytes from its front. */
  predicate IsRest(stream: seq<Byte>, rest: seq<Byte>) {
    |rest| <= |stream| && stream[|stream| - |rest|..] == rest
  }

  /** The bytes taken. */
  function Taken(stream: seq<Byte>, rest: seq<Byte>): seq<Byte>
    requires |rest| <= |stream|
  {
    stream[..|stream| - |rest|]
  }

  /** Doubling the `int` buffer size stays defined: the stream or its first packet is short enough. */
  predicate NoOverflow(stream: seq<Byte>) {
    |stream| < 0x3FFF_FFFF || (FirstPacket(stream).Some? && |FirstPacket(stream).value| <= 0x3FFF_FFFF)
  }

  lemma {:induction false} StillShort(stream: seq<Byte>, got: seq<Byte>)
    requires NoOverflow(stream) && got <= stream && FirstPacket(got).None?
    ensures |got| < 0x3FFF_FFFF
  {
    PacketIndependentOfPrefix(got, stream);
  }

  /** The receive loop of receive_data: bytes go to the end of a buffer that doubles when full,
      until a packet is complete (`decision`), the stream ends or the server is told to stop
      (Incomplete), or an error (`r` is -1). Whatever way recv cuts the stream (`cuts`), the
      decision is that of the bytes received, and every index and request stays inside the buffer. */
  method AwaitPacket(sock: Socket, chances: Chances) returns (r: int32, decision: Decision, ghost cuts: seq<nat>)
    requires NoOverflow(sock.incoming) && !sock.recvError && !sock.ended
    modifies sock`incoming, sock`recvError, sock`ended
    ensures r == 0 || r == -1
    ensures sock.recvError ==> r == -1
    ensures r == -1 ==> sock.recvError || chances.mallocFails || exists n :: chances.reallocFails(n)
    ensures r == 0 && decision.Incomplete? ==> sock.ended || exists n :: chances.stopped(n)
    ensures IsRest(old(sock.incoming), sock.incoming)
    ensures r == 0 ==> decision == Decide(Taken(old(sock.incoming), sock.incoming))
    ensures r == 0 && !decision.Incomplete? ==>
              Completes(old(sock.incoming), cuts) && Sum(cuts) == |Taken(old(sock.incoming), sock.incoming)|
    ensures r == 0 ==> Sensible(decision)
  {
    decision, cuts := Incomplete, [];
    if chances.mallocFails {
      return -1, decision, cuts;
    }
    var bufSize: int32 := BUFFER_SIZE;
    var packetSize: int32 := 0;
    var buf := new Byte[bufSize];
    ghost var got: seq<Byte> := [];
    var active := true;
    while active
      invariant fresh(buf) && buf.Length == bufSize == BufferSize(|got|) && bufSize <= 0x7FFF_FFFE
      invariant packetSize == |got| && buf[..packetSize] == got
      invariant Gathered(old(sock.incoming), got, cuts)
      invariant old(sock.incoming) == got + sock.incoming
      invariant decision == Incomplete == Decide(got)
      invariant !sock.recvError && !sock.ended
      invariant active || chances.stopped(packetSize)
      decreases |sock.incoming|, active
    {
      var bytesReceived;
      bytesReceived, decision, got, cuts := ReceiveMore(sock, buf, packetSize, old(sock.incoming), got, cuts);
      if bytesReceived == -1 {
        return -1, decision, cuts;
      }
      if bytesReceived == 0 {
        break;
      }
      packetSize := packetSize + bytesReceived;
      if decision != Incomplete {
        return 0, decision, cuts;
      }
      if packetSize >= bufSize - 1 {
        StillShort(old(sock.incoming), got);
        bufSize := bufSize * 2;
        if chances.reallocFails(bufSize) {
          return -1, decision, cuts;
        }
        buf := Reallocate(buf, bufSize);
      }
      active := !chances.stopped(packetSize);
    }
    r := 0;
  }

  /** The range of decisions a bounded stream can lead to. */
  predicate Sensible(decision: Decision) {
    match decision
    case Incomplete => true
    case Store(packet) => IsPacket(packet) && |packet| < 0x8000_0000
    case Seek(to) => to.writeCmd < UINT32_RANGE && to.writeCmdOffset < UINT32_RANGE
  }

  /** `got` came from the front of the stream in pieces of sizes `cuts`. */
  ghost predicate Gathered(stream: seq<Byte>, got: seq<Byte>, cuts: seq<nat>) {
    got <= stream && Receivable(cuts) && Sum(cuts) == |got|
  }

  /** One recv behind the bytes `got` that the buffer holds, and what it leads to. */
  method ReceiveMore(sock: Socket, buf: array<Byte>, packetSize: int32,
                     ghost stream: seq<Byte>, ghost got: seq<Byte>, ghost cuts: seq<nat>)
    returns (bytesReceived: int32, decision: Decision, ghost got': seq<Byte>, ghost cuts': seq<nat>)
    requires buf.Length == BufferSize(|got|) < 0x7FFF_FFFF && packetSize == |got| && buf[..packetSize] == got
    requires stream == got + sock.incoming
    requires Gathered(stream, got, cuts) && Decide(got).Incomplete?
    modifies sock`incoming, sock`recvError, sock`ended, buf
    ensures sock.recvError == (old(sock.recvError) || bytesReceived == -1)
    ensures sock.ended == (old(sock.ended) || bytesReceived == 0)
    ensures bytesReceived >= -1 && |got'| == packetSize + (if bytesReceived > 0 then bytesReceived else 0)
    ensures stream == got' + sock.incoming && |got'| < buf.Length && buf[..|got'|] == got'
    ensures Gathered(stream, got', cuts') && decision == Decide(got') && Sensible(decision)
    ensures bytesReceived <= 0 ==> decision.Incomplete?
    ensures BufferSize(|got'|) == if |got'| + 1 < buf.Length then buf.Length else 2 * buf.Length
    ensures !decision.Incomplete? ==> Completes(stream, cuts')
  {
    decision, got', cuts' := Incomplete, got, cuts;
    bytesReceived := ReceiveChunk(sock, buf, packetSize);
    if bytesReceived > 0 {
      ghost var chunk := buf[packetSize..packetSize + bytesReceived];
      got' := got + chunk;
      assert buf[..|got'|] == got';
      assert stream == got' + sock.incoming;
      SizeAfter(|got|, |chunk|, BUFFER_SIZE);
      cuts' := OneMoreCut(stream, got, chunk, cuts);
      decision := Examine(buf, packetSize + bytesReceived);
    }
  }

  lemma {:induction false} OneMoreCut(stream: seq<Byte>, got: seq<Byte>, chunk: seq<Byte>, cuts: seq<nat>)
    returns (longer: seq<nat>)
    requires got + chunk <= stream && Receivable(cuts) && Sum(cuts) == |got|
    requires 1 <= |chunk| <= Room(|got|) && FirstPacket(got).None?
    ensures Receivable(longer) && Sum(longer) == |got + chunk|
    ensures FirstPacket(got + chunk).Some? ==> Completes(stream, longer)
  {
    longer := cuts + [|chunk|];
    ReceivableSnoc(cuts, |chunk|);
    SumSnoc(cuts, |chunk|);
    assert stream[..|got|] == got && stream[..|got + chunk|] == got + chunk;
  }

  /** One recv of at most what fits behind the bytes already there, closed with a NUL. */
  method ReceiveChunk(sock: Socket, buf: array<Byte>, packetSize: int32) returns (r: int32)
    requires 0 <= packetSize < buf.Length - 1 < 0x7FFF_FFFF
    modifies sock`incoming, sock`recvError, sock`ended, buf
    ensures sock.recvError == (old(sock.recvError) || r == -1) && sock.ended == (old(sock.ended) || r == 0)
    ensures r >= -1 && packetSize + r < buf.Length
    ensures r <= 0 ==> sock.incoming == old(sock.incoming)
    ensures buf[..packetSize] == old(buf[..packetSize])
    ensures r > 0 ==> buf[..packetSize + r] == old(buf[..packetSize]) + buf[packetSize..packetSize + r]
    ensures r > 0 ==> && buf[packetSize + r] == NUL
                      && old(sock.incoming) == buf[packetSize..packetSize + r] + sock.incoming
  {
    var data;
    r, data := sock.Recv(buf.Length - packetSize - 1);
    if r > 0 {
      Append(buf, packetSize, data);
      buf[packetSize + r] := NUL;
    }
  }

  /** strchr and, once a newline is found, sscanf, on the buffer as a C string. */
  method Examine(buf: array<Byte>, packetSize: int32) returns (decision: Decision)
    requires 0 <= packetSize < buf.Length && buf[packetSize] == NUL
    ensures decision == Decide(buf[..packetSize])
  {
    ghost var got := buf[..packetSize];
    assert buf[..] == got + [NUL] + buf[packetSize + 1..];
    DecisionStopsAtNul(got, buf[packetSize + 1..]);
    var newlinePos := StrChr(buf[..]);
    if newlinePos.None? {
      return Incomplete;
    }
    var packetLength := newlinePos.value + 1;
    var scanned := ScanSeek(buf[..]);
    match scanned
    case Some(to) => decision := Seek(to);
    case None => decision := Store(buf[..packetLength]);
  }

  /** realloc to `size`: the old bytes, then unspecified ones. */
  method Reallocate(buf: array<Byte>, size: nat) returns (temp: array<Byte>)
    requires buf.Length <= size
    ensures fresh(temp) && temp.Length == size && temp[..buf.Length] == buf[..]
  {
    temp := new Byte[size];
    Append(temp, 0, buf[..]);
  }

  /** Copies `bytes` into `a` from index `at` on. */
  method Append(a: array<Byte>, at: nat, bytes: seq<Byte>)
    requires at + |bytes| <= a.Length
    modifies a
    ensures a[..at] == old(a[..at])
    ensures a[at..at + |bytes|] == bytes
  {
    forall i | 0 <= i < |bytes| {
      a[at + i] := bytes[i];
    }
  }

  /** The NUL behind the received bytes hides whatever else the buffer holds. */
  lemma {:induction false} DecisionStopsAtNul(s: seq<Byte>, garbage: seq<Byte>)
    ensures StrChr(s + [NUL] + garbage) == StrChr(s)
    ensures ScanSeek(s + [NUL] + garbage) == ScanSeek(s)
  {
    SearchStopsAtNul(s, garbage);
    CStringStopsAtNul(s, garbage);
  }

  lemma {:induction false} CStringStopsAtNul(s: seq<Byte>, garbage: seq<Byte>)
    ensures CString(s + [NUL] + garbage) == CString(s)
  {
    if s != [] && s[0] != NUL {
      CStringStopsAtNul(s[1..], garbage);
      assert (s + [NUL] + garbage)[1..] == s[1..] + [NUL] + garbage;
    }
  }

  /** The locked write loop: on success exactly one commit is added, the packet itself, and it
      is the newest; on failure no byte of it stays behind. */
  method StorePacket(file: OpenFile, mutex: FileMutex, packet: seq<Byte>, faults: Faults) returns (r: int32)
    requires !mutex.held && mutex.Consistent() && IsPacket(packet) && |packet| < 0x8000_0000
    modifies file, mutex, mutex.dev, mutex.dev.buffer, mutex.dev.buffer.entry, mutex.dev.memory
    ensures !mutex.held && mutex.Consistent()
    ensures r == if faults.interrupted || faults.noMemory || faults.faulty then -1 else 0
    ensures old(mutex.dev.State().commits) <= mutex.atLock
    ensures mutex.dev.State().commits == mutex.atLock + if r == 0 then [packet] else []
  {
    mutex.Lock();
    var dev := mutex.dev;
    ghost var before := mutex.atLock;
    var bytesWritten: int32 := 0;
    while bytesWritten < |packet|
      invariant mutex.held && mutex.Consistent() && mutex.atLock == before
      invariant bytesWritten == 0 || bytesWritten == |packet|
      invariant bytesWritten == 0 ==> dev.State().commits == before
      invariant bytesWritten > 0 ==> dev.State().commits == before + [packet]
      invariant bytesWritten > 0 ==> !faults.interrupted && !faults.noMemory && !faults.faulty
    {
      assert bytesWritten == 0 && packet[bytesWritten..] == packet;
      var result := mutex.WritePacket(file, packet[bytesWritten..], faults);
      if result < 0 {
        mutex.Unlock();
        return -1;
      }
      bytesWritten := bytesWritten + result;
    }
    mutex.Unlock();
    r := 0;
  }

  /** The locked ioctl of a seek command. */
  method SeekDevice(file: OpenFile, mutex: FileMutex, to: SeekTo, faults: Faults) returns (r: int32)
    requires !mutex.held && mutex.Consistent()
    requires to.writeCmd < UINT32_RANGE && to.writeCmdOffset < UINT32_RANGE
    modifies file, mutex, mutex.dev, mutex.dev.buffer, mutex.dev.buffer.entry, mutex.dev.memory
    ensures !mutex.held && mutex.Consistent()
    ensures old(mutex.dev.State().commits) <= mutex.dev.State().commits == mutex.atLock
    ensures var ns := Sizes(mutex.dev.Entries());
            var at := Place(to.writeCmd, to.writeCmdOffset);
            && r == (if !faults.interrupted && !faults.faulty && ValidPlace(ns, at) then 0 else -1)
            && (r == 0 ==> file.fPos == PositionOf(ns, at))
  {
    mutex.Lock();
    var result := mutex.dev.Ioctl(file, true, to.writeCmd, to.writeCmdOffset, faults.interrupted, faults.faulty);
    mutex.Unlock();
    r := if result < 0 then -1 else 0;
  }

  /** receive_data; `decision` is what the bytes taken from the client call for. */
  method ReceiveData(sock: Socket, file: OpenFile, mutex: FileMutex, chances: Chances)
    returns (r: int32, ghost decision: Decision)
    requires !mutex.held && mutex.Consistent()
    requires NoOverflow(sock.incoming) && !sock.recvError && !sock.ended
    modifies sock`incoming, sock`recvError, sock`ended, file,
             mutex, mutex.dev, mutex.dev.buffer, mutex.dev.buffer.entry, mutex.dev.memory
    ensures !mutex.held && mutex.Consistent()
    ensures r == 0 || r == -1
    ensures r == -1 ==> sock.recvError || ReceiveRefused(chances) || Misses(decision, mutex.dev.State().commits)
    ensures r == 0 && decision.Incomplete? ==> sock.ended || exists n :: chances.stopped(n)
    ensures IsRest(old(sock.incoming), sock.incoming)
    ensures r == 0 ==> decision == Decide(Taken(old(sock.incoming), sock.incoming))
    ensures AtMostStored(Decide(Taken(old(sock.incoming), sock.incoming)), old(mutex.dev.State().commits),
                         mutex.atLock, mutex.dev.State().commits)
    ensures r == 0 ==> Received(decision, file.fPos, old(mutex.dev.State().commits),
                                mutex.atLock, mutex.dev.State().commits)
  {
    var request;
    ghost var cuts;
    r, request, cuts := AwaitPacket(sock, chances);
    decision := request;
    if r == 0 {
      r := ActOn(request, file, mutex, chances.call, chances.rewindInterrupted);
    }
  }

  /** Something the system refused can have failed the receive. */
  ghost predicate ReceiveRefused(chances: Chances) {
    || chances.mallocFails || (exists n :: chances.reallocFails(n))
    || chances.call.interrupted || chances.call.noMemory || chances.call.faulty || chances.rewindInterrupted
  }

  /** A seek to a byte that the ring does not hold. */
  ghost predicate Misses(decision: Decision, commits: seq<seq<Byte>>) {
    decision.Seek?
    && !ValidPlace(Sizes(Window(commits)), Place(decision.to.writeCmd, decision.to.writeCmdOffset))
  }

  /** The rest of receive_data once the receive loop has ended. */
  method ActOn(decision: Decision, file: OpenFile, mutex: FileMutex, call: Faults, rewindInterrupted: bool)
    returns (r: int32)
    requires !mutex.held && mutex.Consistent()
    requires Sensible(decision)
    modifies file, mutex, mutex.dev, mutex.dev.buffer, mutex.dev.buffer.entry, mutex.dev.memory
    ensures !mutex.held && mutex.Consistent()
    ensures r == (match decision
                  case Incomplete => if rewindInterrupted then -1 else 0
                  case Store(_) =>
                    if call.interrupted || call.noMemory || call.faulty || rewindInterrupted then -1 else 0
                  case Seek(_) =>
                    if call.interrupted || call.faulty || Misses(decision, mutex.dev.State().commits) then -1 else 0)
    ensures AtMostStored(decision, old(mutex.dev.State().commits), mutex.atLock, mutex.dev.State().commits)
    ensures r == 0 ==> Received(decision, file.fPos, old(mutex.dev.State().commits),
                                mutex.atLock, mutex.dev.State().commits)
  {
    match decision {
      case Seek(to) =>
        r := SeekDevice(file, mutex, to, call);
        return;
      case Store(packet) =>
        r := StorePacket(file, mutex, packet, call);
        if r == -1 {
          return;
        }
      case Incomplete =>
    }
    r := Rewind(file, mutex.dev, rewindInterrupted);
  }

  /** lseek(file_fd, 0, SEEK_SET) */
  method Rewind(file: OpenFile, dev: Device, interrupted: bool) returns (r: int32)
    requires dev.Valid()
    modifies file
    ensures r == if interrupted then -1 else 0
    ensures r == 0 ==> file.fPos == 0
  {
    var pos := dev.Seek(file, 0, 0, interrupted);
    r := if pos < 0 then -1 else 0;
  }

  /** Whatever the outcome, a client's receive leaves the device alone, or as it was when the
      client took the mutex, or with the client's one packet on top of that. */
  ghost predicate AtMostStored(decision: Decision, before: seq<seq<Byte>>, taken: seq<seq<Byte>>,
                               after: seq<seq<Byte>>) {
    after == before || (before <= taken && (after == taken || (decision.Store? && after == taken + [decision.packet])))
  }

  /** What a successful receive leaves: the client's position and the device's commits. */
  ghost predicate Received(decision: Decision, fPos: nat, before: seq<seq<Byte>>,
                           taken: seq<seq<Byte>>, after: seq<seq<Byte>>) {
    match decision
    case Incomplete => fPos == 0 && after == before
    case Store(packet) => fPos == 0 && before <= taken && after == taken + [packet]
    case Seek(to) =>
      var ns := Sizes(Window(after));
      var at := Place(to.writeCmd, to.writeCmdOffset);
      before <= taken == after && ValidPlace(ns, at) && fPos == PositionOf(ns, at)
  }

  /** send_data: whatever sizes the reads and sends come in, the bytes the client accepts are
      the device's content from the file position on, as it is while the mutex is held; after
      an error they are a prefix of that. */
  method SendData(sock: Socket, file: OpenFile, mutex: FileMutex, chances: Chances) returns (r: int32)
    requires !mutex.held && mutex.Consistent() && !sock.sendError
    modifies sock`outgoing, sock`sendError, file,
             mutex, mutex.dev, mutex.dev.buffer, mutex.dev.buffer.entry, mutex.dev.memory
    ensures !mutex.held && mutex.Consistent()
    ensures r == 0 || r == -1
    ensures r == -1 ==> sock.sendError || chances.sendMallocFails || ReadRefused(chances)
    ensures old(mutex.dev.State().commits) <= mutex.dev.State().commits
    ensures mutex.dev.State().commits in {old(mutex.dev.State().commits), mutex.atLock}
    ensures var response := Remaining(Flatten(mutex.dev.Entries()), old(file.fPos));
            && old(sock.outgoing) <= sock.outgoing <= old(sock.outgoing) + response
            && (r == 0 ==> sock.outgoing == old(sock.outgoing) + response)
  {
    if chances.sendMallocFails {
      return -1;
    }
    mutex.Lock();
    r := Stream(sock, file, mutex.dev, chances);
    mutex.Unlock();
  }

  ghost predicate ReadRefused(chances: Chances) {
    exists pos :: chances.readFaults(pos).interrupted || chances.readFaults(pos).faulty
  }

  /** The loops of send_data under the mutex. */
  method Stream(sock: Socket, file: OpenFile, dev: Device, chances: Chances) returns (r: int32)
    requires dev.Valid() && !sock.sendError
    modifies sock`outgoing, sock`sendError, file
    ensures r == 0 || r == -1
    ensures r == -1 ==> sock.sendError || ReadRefused(chances)
    ensures var response := Remaining(Flatten(dev.Entries()), old(file.fPos));
            && old(sock.outgoing) <= sock.outgoing <= old(sock.outgoing) + response
            && (r == 0 ==> sock.outgoing == old(sock.outgoing) + response)
  {
    ghost var all := Flatten(dev.Entries());
    ghost var start := file.fPos;
    ghost var before := sock.outgoing;
    while true
      invariant all == Flatten(dev.Entries())
      invariant Sent(all, start, file.fPos, before, sock.outgoing)
      invariant !sock.sendError
      decreases if file.fPos <= |all| then |all| - file.fPos else 0
    {
      ghost var pos, outgoing := file.fPos, sock.outgoing;
      SentSoFar(all, start, pos, before, outgoing);
      var faults := chances.readFaults(file.fPos);
      var bytesRead, chunk := ReadNext(file, dev, all, faults);
      if bytesRead <= 0 {
        return if bytesRead < 0 then -1 else 0;
      }
      var ok := SendAll(sock, chunk);
      SentMore(all, start, pos, chunk, before, outgoing, sock.outgoing);
      if !ok {
        return -1;
      }
    }
  }

  /** One read of at most a buffer: an error, the end of the content, or what comes next. */
  method ReadNext(file: OpenFile, dev: Device, ghost all: seq<Byte>, faults: Faults)
    returns (bytesRead: int, chunk: seq<Byte>)
    requires dev.Valid() && all == Flatten(dev.Entries())
    modifies file
    ensures bytesRead < 0 <==> faults.interrupted || (faults.faulty && old(file.fPos) < |all|)
    ensures bytesRead <= 0 ==> file.fPos == old(file.fPos)
    ensures bytesRead == 0 ==> old(file.fPos) >= |all|
    ensures bytesRead > 0 ==> && bytesRead == |chunk| <= BUFFER_SIZE
                              && file.fPos == old(file.fPos) + |chunk|
                              && IsNext(all, old(file.fPos), chunk)
  {
    ReadPieceIsNext(dev.Entries(), file.fPos, BUFFER_SIZE);
    bytesRead, chunk := dev.Read(file, BUFFER_SIZE, faults.interrupted, faults.faulty);
  }

  /** The inner loop of send_data: all of `chunk` in order, or a prefix of it and an error. */
  method SendAll(sock: Socket, chunk: seq<Byte>) returns (ok: bool)
    requires |chunk| < 0x8000_0000 && !sock.sendError
    modifies sock`outgoing, sock`sendError
    ensures ok <==> !sock.sendError
    ensures old(sock.outgoing) <= sock.outgoing <= old(sock.outgoing) + chunk
    ensures ok ==> sock.outgoing == old(sock.outgoing) + chunk
  {
    var totalSent: int32 := 0;
    while totalSent < |chunk|
      invariant 0 <= totalSent <= |chunk|
      invariant sock.outgoing == old(sock.outgoing) + chunk[..totalSent] && !sock.sendError
    {
      var sent := sock.Send(chunk[totalSent..]);
      if sent == -1 {
        return false;
      }
      assert chunk[..totalSent] + chunk[totalSent..][..sent] == chunk[..totalSent + sent];
      totalSent := totalSent + sent;
    }
    ok := true;
  }

  /** The client has accepted exactly the bytes from `start` up to `pos`. */
  ghost predicate Sent(all: seq<Byte>, start: nat, pos: nat, before: seq<Byte>, outgoing: seq<Byte>) {
    && start <= pos
    && (start <= |all| ==> pos <= |all| && outgoing == before + all[start..pos])
    && (start > |all| ==> outgoing == before)
  }

  lemma {:induction false} SentSoFar(all: seq<Byte>, start: nat, pos: nat, before: seq<Byte>, outgoing: seq<Byte>)
    requires Sent(all, start, pos, before, outgoing)
    ensures before <= outgoing <= before + Remaining(all, start)
    ensures pos >= |all| ==> outgoing == before + Remaining(all, start)
  {
  }

  lemma {:induction false} SentMore(all: seq<Byte>, start: nat, pos: nat, piece: seq<Byte>,
                                    before: seq<Byte>, outgoing: seq<Byte>, outgoing': seq<Byte>)
    requires Sent(all, start, pos, before, outgoing)
    requires IsNext(all, pos, piece) && piece != []
    requires outgoing <= outgoing' <= outgoing + piece
    ensures before <= outgoing' <= before + Remaining(all, start)
    ensures outgoing' == outgoing + piece ==> Sent(all, start, pos + |piece|, before, outgoing')
  {
    if pos < |all| {
      SlicesJoin(all, start, pos, pos + |piece|);
      assert before + all[start..pos] + piece == before + (all[start..pos] + piece);
    }
  }

  lemma {:induction false} SlicesJoin(all: seq<Byte>, a: nat, b: nat, c: nat)
    requires a <= b <= c <= |all|
    ensures all[a..b] + all[b..c] == all[a..c] <= all[a..]
  {
  }

  /** What a client whose bytes called for `decision` is sent, when the device had `before`
      committed as it connected and `after` as it took the mutex to send. */
  ghost predicate Answered(decision: Decision, before: seq<seq<Byte>>, after: seq<seq<Byte>>, response: seq<Byte>) {
    match decision
    case Incomplete => before <= after && response == Flatten(Window(after))
    case Store(packet) =>
      && before <= after && response == Flatten(Window(after))
      && exists i :: |before| <= i < |after| && after[i] == packet
    case Seek(to) => before <= after && exists n :: |before| <= n <= |after| && AnsweredFrom(to, n, after, response)
  }

  /** The response begins at the position of the byte sought when there were `n` commits. */
  ghost predicate AnsweredFrom(to: SeekTo, n: nat, after: seq<seq<Byte>>, response: seq<Byte>)
    requires n <= |after|
  {
    var ns := Sizes(Window(after[..n]));
    var at := Place(to.writeCmd, to.writeCmdOffset);
    ValidPlace(ns, at) && response == Remaining(Flatten(Window(after)), PositionOf(ns, at))
  }

  /** A client that sent the canonical command for byte `offset` of entry `cmd`, and was answered,
      was answered from just that byte, in the ring as it was at some moment in between. */
  lemma {:induction false} CommandAnswered(got: seq<Byte>, before: seq<seq<Byte>>, after: seq<seq<Byte>>,
                                           response: seq<Byte>, cmd: nat, offset: nat)
    requires Answered(Decide(got), before, after, response) && SendsCommand(got, cmd, offset)
    ensures exists n :: |before| <= n <= |after| && ValidPlace(Sizes(Window(after[..n])), Place(cmd, offset))
                        && response == Remaining(Flatten(Window(after)),
                                                 PositionOf(Sizes(Window(after[..n])), Place(cmd, offset)))
  {
    CommandIsSeek(got, cmd, offset);
    var n :| |before| <= n <= |after| && AnsweredFrom(SeekTo(cmd, offset), n, after, response);
  }

  lemma {:induction false} CommandsAnswered(got: seq<Byte>, before: seq<seq<Byte>>, after: seq<seq<Byte>>,
                                            response: seq<Byte>)
    requires Answered(Decide(got), before, after, response)
    ensures forall cmd: nat, offset: nat :: SendsCommand(got, cmd, offset) ==>
              exists n :: |before| <= n <= |after| && ValidPlace(Sizes(Window(after[..n])), Place(cmd, offset))
                          && response == Remaining(Flatten(Window(after)),
                                                   PositionOf(Sizes(Window(after[..n])), Place(cmd, offset)))
  {
    forall cmd: nat, offset: nat | SendsCommand(got, cmd, offset)
      ensures exists n :: |before| <= n <= |after| && ValidPlace(Sizes(Window(after[..n])), Place(cmd, offset))
                          && response == Remaining(Flatten(Window(after)),
                                                   PositionOf(Sizes(Window(after[..n])), Place(cmd, offset)))
    {
      CommandAnswered(got, before, after, response, cmd, offset);
    }
  }

  /** client_handler up to the closing of the descriptors; `decision` is what the bytes taken
      from the client call for. It fails only if something was refused or the client seeks to a
      byte the ring does not hold. */
  method ClientHandler(sock: Socket, mutex: FileMutex, chances: Chances) returns (r: int32, ghost decision: Decision)
    requires !mutex.held && mutex.Consistent()
    requires NoOverflow(sock.incoming) && sock.outgoing == []
    requires !sock.recvError && !sock.ended && !sock.sendError
    modifies sock, mutex, mutex.dev, mutex.dev.buffer, mutex.dev.buffer.entry, mutex.dev.memory
    ensures !mutex.held && mutex.Consistent()
    ensures IsRest(old(sock.incoming), sock.incoming)
    ensures r == 0 ==> decision == Decide(Taken(old(sock.incoming), sock.incoming))
    ensures r == 0 ==> Answered(decision, old(mutex.dev.State().commits), mutex.dev.State().commits, sock.outgoing)
    // in particular, for whoever sent a canonical command
    ensures var after := mutex.dev.State().commits;
            r == 0 ==>
              forall cmd: nat, offset: nat :: SendsCommand(Taken(old(sock.incoming), sock.incoming), cmd, offset) ==>
                exists n :: |old(mutex.dev.State().commits)| <= n <= |after|
                            && ValidPlace(Sizes(Window(after[..n])), Place(cmd, offset))
                            && sock.outgoing == Remaining(Flatten(Window(after)),
                                                          PositionOf(Sizes(Window(after[..n])), Place(cmd, offset)))
    ensures r == 0 || r == -1
    ensures r == -1 ==>
              || chances.openFails || sock.recvError || ReceiveRefused(chances)
              || Misses(decision, mutex.dev.State().commits)
              || sock.sendError || chances.sendMallocFails || ReadRefused(chances)
  {
    ghost var stream, before := sock.incoming, mutex.dev.State().commits;
    r, decision := Serve(sock, mutex, chances);
    if r == 0 {
      CommandsAnswered(Taken(stream, sock.incoming), before, mutex.dev.State().commits, sock.outgoing);
    }
  }

  /** Open, receive and answer. */
  method Serve(sock: Socket, mutex: FileMutex, chances: Chances) returns (r: int32, ghost decision: Decision)
    requires !mutex.held && mutex.Consistent()
    requires NoOverflow(sock.incoming) && sock.outgoing == []
    requires !sock.recvError && !sock.ended && !sock.sendError
    modifies sock, mutex, mutex.dev, mutex.dev.buffer, mutex.dev.buffer.entry, mutex.dev.memory
    ensures !mutex.held && mutex.Consistent()
    ensures IsRest(old(sock.incoming), sock.incoming)
    ensures r == 0 ==> decision == Decide(Taken(old(sock.incoming), sock.incoming))
    ensures r == 0 ==> Answered(decision, old(mutex.dev.State().commits), mutex.dev.State().commits, sock.outgoing)
    ensures r == 0 || r == -1
    ensures r == -1 ==>
              || chances.openFails || sock.recvError || ReceiveRefused(chances)
              || Misses(decision, mutex.dev.State().commits)
              || sock.sendError || chances.sendMallocFails || ReadRefused(chances)
  {
    decision := Incomplete;
    if chances.openFails {
      return -1, decision;
    }
    ghost var stream, before := sock.incoming, mutex.dev.State().commits;
    var file := new OpenFile();
    assert mutex.dev.State().commits == before && sock.incoming == stream;
    r, decision := ReceiveData(sock, file, mutex, chances);
    if r == 0 {
      r := Answer(sock, file, mutex, chances, decision, before);
    }
  }

  /** The second half of client_handler. */
  method Answer(sock: Socket, file: OpenFile, mutex: FileMutex, chances: Chances,
                ghost decision: Decision, ghost before: seq<seq<Byte>>)
    returns (r: int32)
    requires !mutex.held && mutex.Consistent() && sock.outgoing == [] && !sock.sendError
    requires Received(decision, file.fPos, before, mutex.atLock, mutex.dev.State().commits)
    modifies sock`outgoing, sock`sendError, file,
             mutex, mutex.dev, mutex.dev.buffer, mutex.dev.buffer.entry, mutex.dev.memory
    ensures !mutex.held && mutex.Consistent()
    ensures r == 0 || r == -1
    ensures r == -1 ==> sock.sendError || chances.sendMallocFails || ReadRefused(chances)
    ensures r == 0 ==> Answered(decision, before, mutex.dev.State().commits, sock.outgoing)
  {
    ghost var start, taken, during := file.fPos, mutex.atLock, mutex.dev.State().commits;
    r := SendData(sock, file, mutex, chances);
    if r == 0 {
      ghost var after := mutex.dev.State().commits;
      assert [] + Remaining(Flatten(Window(after)), start) == sock.outgoing;
      ReceivedThenSent(decision, start, before, taken, during, after, sock.outgoing);
    }
  }

  lemma {:induction false} ReceivedThenSent(decision: Decision, start: nat, before: seq<seq<Byte>>,
                                            taken: seq<seq<Byte>>, during: seq<seq<Byte>>, after: seq<seq<Byte>>,
                                            response: seq<Byte>)
    requires Received(decision, start, before, taken, during) && during <= after
    requires response == Remaining(Flatten(Window(after)), start)
    ensures Answered(decision, before, after, response)
  {
    assert after[..|during|] == during;
    if decision.Seek? {
      assert AnsweredFrom(decision.to, |during|, after, response);
    } else if decision.Store? {
      assert after[|during| - 1] == decision.packet;
    }
  }
}
