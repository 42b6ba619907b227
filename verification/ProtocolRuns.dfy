/** Runs of the server in which a client's bytes have left the ring before it is answered. */
module ProtocolRuns {
  import opened Contents
  import opened Segmentation
  import opened Framing
  import opened SeekCommand
  import opened Requests
  import opened Chunking
  import opened Protocol
  import opened ProtocolInvariant
  import opened ProtocolSafety

  const LINE: seq<Byte> := "a\n"

  const SOUGHT := SeekTo(0, 0)

  // ----- What the two clients' bytes are taken for -----

  lemma {:induction false} LineIsStored()
    ensures IsPacket(LINE) && Decide([] + LINE) == Store(LINE)
    ensures 1 <= |LINE| <= Room(0)
  {
    PacketThenAnything(LINE, []);
    assert LINE + [] == [] + LINE == LINE;
    ScanSeekSplits(LINE);
  }

  lemma {:induction false} CommandIsSought()
    ensures Decide([] + Print(SOUGHT)) == Seek(SOUGHT)
    ensures 1 <= |Print(SOUGHT)| <= Room(0)
  {
    var p := Print(SOUGHT);
    assert Decimal(0) == "0";
    assert p == "AESDCHAR_IOCSEEKTO:0,0\n";
    assert IsPacketEnd(p, |p| - 1);
    PacketThenAnything(p, []);
    PrintScanRoundTrip(SOUGHT, []);
    assert p + [] == [] + p == p;
  }

  // ----- A client that stores the line -----

  /** Client `id` stored the line; nobody holds the mutex and the others are as they were. */
  ghost predicate StoredLine(s: System, id: ClientId, s': System) {
    && s'.holder.None? && s'.dev == DeviceState(s.dev.commits + [LINE], [])
    && id in s'.clients && s'.clients == s.clients[id := s'.clients[id]]
    && var c := s'.clients[id];
       && c.pc.Rewinding? && c.request == Store(LINE) && c.commit == Some(|s.dev.commits|)
  }

  /** A client that connected to `s` and sent `bytes`. */
  function Arrived(s: System, id: ClientId, bytes: seq<Byte>): System {
    Put(s, id, Received(NEW_CLIENT, bytes))
  }

  lemma {:induction false} Arrive(trace: Trace, id: ClientId, bytes: seq<Byte>) returns (longer: Trace)
    requires id !in Exec(trace).clients && 1 <= |bytes| <= Room(0)
    ensures Exec(longer) == Arrived(Exec(trace), id, bytes)
  {
    var connected := trace + [(id, Connect)];
    ExecSnoc(trace, id, Connect);
    longer := connected + [(id, Receive(bytes))];
    ExecSnoc(connected, id, Receive(bytes));
    assert Put(Put(Exec(trace), id, NEW_CLIENT), id, Received(NEW_CLIENT, bytes)) == Arrived(Exec(trace), id, bytes);
  }

  lemma {:induction false} ThreeMore(trace: Trace, id: ClientId, a: Event, b: Event, c: Event) returns (longer: Trace)
    ensures Exec(longer) == Step(Step(Step(Exec(trace), id, a), id, b), id, c)
  {
    ExecSnoc(trace, id, a);
    ExecSnoc(trace + [(id, a)], id, b);
    ExecSnoc(trace + [(id, a)] + [(id, b)], id, c);
    longer := trace + [(id, a)] + [(id, b)] + [(id, c)];
  }

  lemma {:induction false} LocksToStore(s: System, id: ClientId, c: Client, packet: seq<Byte>)
    requires s.holder.None? && c.pc == WantStore(packet)
    ensures var s' := Step(Put(s, id, c), id, Lock);
            s'.holder == Some(id) && s'.dev == s.dev && s'.clients == s.clients[id := c.(pc := Storing(packet))]
  {
  }

  lemma {:induction false} Writes(s: System, id: ClientId, c: Client, packet: seq<Byte>)
    requires id in s.clients && s.clients[id] == c && c.pc == Storing(packet)
    requires s.dev.pending == [] && '\n' in packet
    ensures var s' := Step(s, id, Write(Success));
            && s'.dev == DeviceState(s.dev.commits + [packet], [])
            && s'.clients == s.clients[id := c.(pc := Releasing(Rewinding), pos := c.pos + |packet|,
                                                commit := Some(|s.dev.commits|))]
  {
    StoresWhole(s.dev, packet);
    StepIs(s, id, Write(Success));
  }

  lemma {:induction false} StoresWhole(d: DeviceState, packet: seq<Byte>)
    requires d.pending == [] && '\n' in packet
    ensures Apply(d, CallFor(Success, packet)) == DeviceState(d.commits + [packet], [])
  {
    assert [] + packet == packet;
  }

  lemma {:induction false} Unlocks(s: System, id: ClientId, c: Client)
    requires id in s.clients && s.clients[id] == c && c.pc.Releasing?
    ensures var s' := Step(s, id, Unlock);
            s'.holder.None? && s'.dev == s.dev && s'.clients == s.clients[id := c.(pc := c.pc.next)]
  {
  }

  lemma {:induction false} WritesLine(s: System, id: ClientId)
    requires s.holder.None? && s.dev.pending == [] && id !in s.clients
    ensures StoredLine(s, id, Step(Step(Step(Arrived(s, id, LINE), id, Lock), id, Write(Success)), id, Unlock))
  {
    LineIsStored();
    WritesPacket(s, id, Received(NEW_CLIENT, LINE), LINE);
  }

  lemma {:induction false} WritesPacket(s: System, id: ClientId, c: Client, packet: seq<Byte>)
    requires s.holder.None? && s.dev.pending == [] && c.pc == WantStore(packet) && '\n' in packet
    ensures var s' := Step(Step(Step(Put(s, id, c), id, Lock), id, Write(Success)), id, Unlock);
            && s'.holder.None? && s'.dev == DeviceState(s.dev.commits + [packet], [])
            && s'.clients == s.clients[id := c.(pc := Rewinding, pos := c.pos + |packet|,
                                                commit := Some(|s.dev.commits|))]
  {
    LocksToStore(s, id, c, packet);
    var s1 := Step(Put(s, id, c), id, Lock);
    var c1 := c.(pc := Storing(packet));
    Writes(s1, id, c1, packet);
    var s2 := Step(s1, id, Write(Success));
    Unlocks(s2, id, s2.clients[id]);
  }

  lemma {:induction false} StoreLine(trace: Trace, id: ClientId) returns (longer: Trace)
    requires Exec(trace).holder.None? && id !in Exec(trace).clients
    ensures StoredLine(Exec(trace), id, Exec(longer))
  {
    AlwaysInv(trace);
    LineIsStored();
    var arrived := Arrive(trace, id, LINE);
    longer := ThreeMore(arrived, id, Lock, Write(Success), Unlock);
    WritesLine(Exec(trace), id);
  }

  /** `k` clients store the line one after another. */
  lemma {:induction false} StoreLines(trace: Trace, first: ClientId, k: nat) returns (longer: Trace)
    requires Exec(trace).holder.None? && forall id :: id in Exec(trace).clients ==> id < first
    ensures Exec(longer).holder.None?
    ensures |Exec(longer).dev.commits| == |Exec(trace).dev.commits| + k
    ensures forall id :: id in Exec(trace).clients ==>
              id in Exec(longer).clients && Exec(longer).clients[id] == Exec(trace).clients[id]
    decreases k
  {
    if k == 0 {
      longer := trace;
    } else {
      var next := StoreLine(trace, first);
      longer := StoreLines(next, first + 1, k - 1);
    }
  }

  // ----- The runs -----

  lemma {:induction false} LocksToSeek(s: System, id: ClientId, c: Client, to: SeekTo)
    requires s.holder.None? && c.pc == WantSeek(to)
    ensures var s' := Step(Put(s, id, c), id, Lock);
            s'.holder == Some(id) && s'.dev == s.dev && s'.clients == s.clients[id := c.(pc := Seeking(to))]
  {
  }

  lemma {:induction false} SeeksFirstByte(s: System, id: ClientId, c: Client)
    requires id in s.clients && s.clients[id] == c && c.pc == Seeking(SOUGHT) && s.dev.commits == [LINE]
    ensures var s' := Step(s, id, Ioctl(false));
            && s'.holder == s.holder && s'.dev == s.dev
            && s'.clients == s.clients[id := c.(pc := Releasing(WantSend), pos := 0, sought := Some(1), due := 0)]
  {
    var ns := Sizes(Window([LINE]));
    assert ns == [2] && ValidPlace(ns, Place(0, 0)) && PositionOf(ns, Place(0, 0)) == 0;
  }

  lemma {:induction false} Seeks(s: System, id: ClientId)
    requires s.holder.None? && s.dev.commits == [LINE] && id !in s.clients
    ensures var s' := Step(Step(Step(Arrived(s, id, Print(SOUGHT)), id, Lock), id, Ioctl(false)), id, Unlock);
            && s'.holder.None? && s'.dev == s.dev
            && id in s'.clients && s'.clients == s.clients[id := s'.clients[id]]
            && var c := s'.clients[id];
               c.pc.WantSend? && c.request == Seek(SOUGHT) && c.sought == Some(1)
  {
    CommandIsSought();
    SeeksThere(s, id, Received(NEW_CLIENT, Print(SOUGHT)));
  }

  lemma {:induction false} SeeksThere(s: System, id: ClientId, c: Client)
    requires s.holder.None? && s.dev.commits == [LINE] && c.pc == WantSeek(SOUGHT)
    ensures var s' := Step(Step(Step(Put(s, id, c), id, Lock), id, Ioctl(false)), id, Unlock);
            && s'.holder.None? && s'.dev == s.dev
            && s'.clients == s.clients[id := c.(pc := WantSend, pos := 0, sought := Some(1), due := 0)]
  {
    LocksToSeek(s, id, c, SOUGHT);
    var s1 := Step(Put(s, id, c), id, Lock);
    SeeksFirstByte(s1, id, c.(pc := Seeking(SOUGHT)));
    var s2 := Step(s1, id, Ioctl(false));
    Unlocks(s2, id, s2.clients[id]);
  }

  /** Client 1 stores a line, client 0 seeks in it, and `k` more clients store lines before
      either goes on. */
  lemma {:induction false} LinesAfter(k: nat) returns (trace: Trace)
    ensures var s := Exec(trace);
            && s.holder.None? && |s.dev.commits| == 1 + k && 0 in s.clients && 1 in s.clients
            && s.clients[0].pc.WantSend? && s.clients[0].request.Seek? && s.clients[0].sought == Some(1)
            && s.clients[1].pc.Rewinding? && s.clients[1].request.Store? && s.clients[1].commit == Some(0)
  {
    var one := StoreLine([], 1);
    assert Exec(one).dev.commits == [LINE];
    CommandIsSought();
    var arrived := Arrive(one, 0, Print(SOUGHT));
    var two := ThreeMore(arrived, 0, Lock, Ioctl(false), Unlock);
    Seeks(Exec(one), 0);
    trace := StoreLines(two, 2, k);
  }

  lemma {:induction false} RequestIsDelivered(trace: Trace, id: ClientId)
    requires id in Exec(trace).clients
    ensures Exec(trace).clients[id].request == Decide(Delivered(trace, id))
  {
    ClientFacts(trace, id);
    GotIsDelivered(trace, id);
  }

  /** A run in which a seek client is answered from another byte than the one it asked for. */
  lemma {:induction false} SeekCanMiss() returns (trace: Trace)
    ensures var s := Exec(trace);
            && 0 in s.clients && s.clients[0].request.Seek? && s.clients[0].sought.Some? && s.clients[0].seen.Some?
            && var c := s.clients[0];
               && c.sought.value <= c.seen.value <= |s.dev.commits|
               && Absolute(s.dev.commits[..c.seen.value], c.start) != Absolute(s.dev.commits[..c.sought.value], c.due)
  {
    var before := LinesAfter(10);
    trace := before + [(0, Lock)];
    ExecSnoc(before, 0, Lock);
    assert Exec(trace).clients[0].seen == Some(11) && Exec(trace).clients[0].sought == Some(1);
    RequestIsDelivered(trace, 0);
    var n, m := SeekResponse(trace, 0);
  }

  lemma {:induction false} StorerSends(before: Trace) returns (trace: Trace)
    requires var s := Exec(before); s.holder.None? && 1 in s.clients && s.clients[1].pc.Rewinding?
    ensures var s, s' := Exec(before), Exec(trace);
            && s'.dev == s.dev && 1 in s'.clients
            && var c, c' := s.clients[1], s'.clients[1];
               c'.seen == Some(|s.dev.commits|) && c'.commit == c.commit && c'.request == c.request
  {
    var rewound := before + [(1, Rewind)];
    ExecSnoc(before, 1, Rewind);
    trace := rewound + [(1, Lock)];
    ExecSnoc(rewound, 1, Lock);
  }

  /** For every `k` a run in which a client is answered when `k` packets came after its own:
      through nine every byte of its packet is readable, from ten on none is. */
  lemma {:induction false} OwnPacketAfter(k: nat) returns (trace: Trace)
    ensures var s := Exec(trace);
            && 1 in s.clients && s.clients[1].commit == Some(0) && s.clients[1].seen == Some(1 + k)
            && |s.dev.commits| == 1 + k
            && (if k < 10 then Base(s.dev.commits) <= |Flatten(s.dev.commits[..0])|
                else |Flatten(s.dev.commits[..1])| <= Base(s.dev.commits))
  {
    var before := LinesAfter(k);
    trace := StorerSends(before);
    RequestIsDelivered(trace, 1);
    var n, m := ReadYourOwnWrite(trace, 1);
    var commits := Exec(trace).dev.commits;
    assert commits[..1 + k] == commits;
  }

  /** A packet that arrives in two pieces is stored whole. */
  lemma {:induction false} TwoPiecesOnePacket() returns (trace: Trace)
    ensures Exec(trace).dev == DeviceState(["hello\n"], [])
  {
    var packet := "hello\n";
    var one := Arrive([], 0, "hel");
    FirstPieceWaits();
    var c := Received(NEW_CLIENT, "hel");
    var two := one + [(0, Receive("lo\n"))];
    ExecSnoc(one, 0, Receive("lo\n"));
    SecondPieceCompletes();
    var c' := Received(c, "lo\n");
    assert Exec(two) == Put(INITIAL, 0, c') by {
      assert Put(Put(INITIAL, 0, c), 0, c') == Put(INITIAL, 0, c');
    }
    trace := ThreeMore(two, 0, Lock, Write(Success), Unlock);
    WritesPacket(INITIAL, 0, c', packet);
    assert [] + [packet] == [packet];
  }

  lemma {:induction false} FirstPieceWaits()
    ensures Received(NEW_CLIENT, "hel").pc.Receiving? && Received(NEW_CLIENT, "hel").got == "hel"
    ensures 1 <= |"hel"| <= Room(0) && 1 <= |"lo\n"| <= Room(3)
  {
    assert [] + "hel" == "hel";
    NoNewlineNoPacket("hel");
  }

  lemma {:induction false} NoNewlineNoPacket(s: seq<Byte>)
    requires '\n' !in s
    ensures FirstPacket(s).None?
  {
    assert forall i: nat :: !IsPacketEnd(s, i);
  }

  lemma {:induction false} SecondPieceCompletes()
    ensures Received(Received(NEW_CLIENT, "hel"), "lo\n").pc == WantStore("hello\n")
  {
    FirstPieceWaits();
    var packet := "hello\n";
    assert "hel" + "lo\n" == packet;
    assert IsPacketEnd(packet, 5);
    PacketThenAnything(packet, []);
    assert packet + [] == packet;
    ScanSeekSplits(packet);
  }
}
