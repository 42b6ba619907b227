/** How recv can cut a client's stream before receive_data decides, given what fits into its
    doubling buffer, and exactly when the decision depends on it. */
module Chunking {
  import opened Contents
  import opened Framing
  import opened SeekCommand
  import opened Requests

  // ----- The buffer -----

  /** `size` doubled until `held` bytes, the NUL and at least one more byte fit. */
  function SizeFrom(held: nat, size: nat): (r: nat)
    requires size >= 2
    ensures held + 1 < r && size <= r
    decreases if held + 1 < size then 0 else held + 2 - size
  {
    if held + 1 < size then size else SizeFrom(held, 2 * size)
  }

  /** buf_size whenever receive_data calls recv, as a function of the bytes it holds. */
  function BufferSize(held: nat): nat {
    SizeFrom(held, BUFFER_SIZE)
  }

  /** How many bytes recv is asked for then. */
  function Room(held: nat): (r: nat)
    ensures r >= 1
  {
    BufferSize(held) - held - 1
  }

  /** The buffer keeps its size until it is full, and then doubles. */
  lemma {:induction false} SizeAfter(held: nat, more: nat, size: nat)
    requires size >= 2 && held + more < SizeFrom(held, size)
    ensures SizeFrom(held + more, size) ==
            if held + more + 1 < SizeFrom(held, size) then SizeFrom(held, size) else 2 * SizeFrom(held, size)
    decreases if held + 1 < size then 0 else held + 2 - size
  {
    if held + 1 < size {
      if held + more + 1 == size {
        assert SizeFrom(held + more, 2 * size) == 2 * size;
      }
    } else {
      SizeAfter(held, more, 2 * size);
    }
  }

  lemma {:induction false} SizeMonotone(a: nat, b: nat, size: nat)
    requires size >= 2 && a <= b
    ensures SizeFrom(a, size) <= SizeFrom(b, size)
    decreases if a + 1 < size then 0 else a + 2 - size
  {
    if a + 1 >= size {
      SizeMonotone(a, b, 2 * size);
    }
  }

  // ----- Cuts -----

  /** Every recv returned at least one byte and no more than it was asked for. */
  predicate Receivable(cuts: seq<nat>) {
    forall i :: 0 <= i < |cuts| ==> 1 <= cuts[i] <= Room(Sum(cuts[..i]))
  }

  /** The stream came in pieces of these sizes, and the last one completed its first packet: the
      moment receive_data decides. */
  predicate Completes(stream: seq<Byte>, cuts: seq<nat>) {
    && cuts != [] && Receivable(cuts)
    && Sum(cuts[..|cuts| - 1]) <= Sum(cuts) <= |stream|
    && FirstPacket(stream[..Sum(cuts[..|cuts| - 1])]).None?
    && FirstPacket(stream[..Sum(cuts)]).Some?
  }

  /** What receive_data takes the stream for, cut so. */
  function Decided(stream: seq<Byte>, cuts: seq<nat>): Decision
    requires Sum(cuts) <= |stream|
  {
    Decide(stream[..Sum(cuts)])
  }

  /** The most bytes that can have been received when packet `p` is complete. */
  function Limit(p: seq<Byte>): (n: nat)
    requires p != []
    ensures n >= |p|
  {
    BufferSize(|p| - 1) - 1
  }

  lemma {:induction false} SumSnoc(cuts: seq<nat>, n: nat)
    ensures Sum(cuts + [n]) == Sum(cuts) + n && (cuts + [n])[..|cuts|] == cuts
  {
    assert (cuts + [n])[..|cuts|] == cuts;
  }

  lemma {:induction false} ReceivableSnoc(cuts: seq<nat>, n: nat)
    requires Receivable(cuts) && 1 <= n <= Room(Sum(cuts))
    ensures Receivable(cuts + [n])
  {
    var longer := cuts + [n];
    forall i | 0 <= i < |longer| ensures 1 <= longer[i] <= Room(Sum(longer[..i])) {
      if i < |cuts| {
        assert longer[..i] == cuts[..i];
      } else {
        assert longer[..i] == cuts;
      }
    }
  }

  lemma {:induction false} PacketFoundFrom(p: seq<Byte>, stream: seq<Byte>, n: nat)
    requires IsPacket(p) && p <= stream && n <= |stream|
    ensures if |p| <= n then FirstPacket(stream[..n]) == Some(p) else FirstPacket(stream[..n]).None?
  {
    assert stream == p + stream[|p|..];
    PacketThenAnything(p, stream[|p|..]);
    PacketIndependentOfPrefix(stream[..n], stream);
    if |p| <= n {
      assert stream[..n] == p + stream[|p|..n];
      PacketThenAnything(p, stream[|p|..n]);
    }
  }

  /** However the stream was cut, no more than Limit(p) bytes were received. */
  lemma {:induction false} ReceivedWithinLimit(p: seq<Byte>, stream: seq<Byte>, cuts: seq<nat>)
    requires IsPacket(p) && p <= stream && Completes(stream, cuts)
    ensures |p| <= Sum(cuts) <= Limit(p)
  {
    var last := |cuts| - 1;
    var held := Sum(cuts[..last]);
    PacketFoundFrom(p, stream, held);
    PacketFoundFrom(p, stream, Sum(cuts));
    assert cuts == cuts[..last] + [cuts[last]];
    SumSnoc(cuts[..last], cuts[last]);
    SizeMonotone(held, |p| - 1, BUFFER_SIZE);
  }

  /** `n` single bytes can be received one by one. */
  lemma {:induction false} OneByOne(n: nat) returns (cuts: seq<nat>)
    ensures Receivable(cuts) && Sum(cuts) == n
  {
    if n == 0 {
      cuts := [];
    } else {
      var before := OneByOne(n - 1);
      cuts := before + [1];
      ReceivableSnoc(before, 1);
      SumSnoc(before, 1);
    }
  }

  /** Every number of bytes from |p| to Limit(p) that the stream has can be what was received. */
  lemma {:induction false} CutFor(p: seq<Byte>, stream: seq<Byte>, n: nat) returns (cuts: seq<nat>)
    requires IsPacket(p) && p <= stream && |p| <= n <= |stream| && n <= Limit(p)
    ensures Completes(stream, cuts) && Sum(cuts) == n
  {
    var before := OneByOne(|p| - 1);
    var k := n - (|p| - 1);
    cuts := before + [k];
    ReceivableSnoc(before, k);
    SumSnoc(before, k);
    PacketFoundFrom(p, stream, |p| - 1);
    PacketFoundFrom(p, stream, n);
  }

  /** Exactly these totals are reachable: at least the packet, at most the full buffer. */
  lemma {:induction false} ReachableTotals(p: seq<Byte>, stream: seq<Byte>, n: nat)
    requires IsPacket(p) && p <= stream
    ensures (exists cuts :: Completes(stream, cuts) && Sum(cuts) == n) <==> |p| <= n <= |stream| && n <= Limit(p)
  {
    if |p| <= n <= |stream| && n <= Limit(p) {
      var cuts := CutFor(p, stream, n);
    }
    if cuts :| Completes(stream, cuts) && Sum(cuts) == n {
      ReceivedWithinLimit(p, stream, cuts);
    }
  }

  // ----- When the cut matters -----

  /** The packet still awaits a number, and the buffer has room for it behind the packet. */
  predicate CutMatters(p: seq<Byte>)
    requires p != []
  {
    AwaitsNumber(p) && Limit(p) - |p| >= Missing(p)
  }

  lemma {:induction false} SameDecision(p: seq<Byte>, stream: seq<Byte>, cuts: seq<nat>)
    requires IsPacket(p) && p <= stream && !CutMatters(p) && Completes(stream, cuts)
    ensures Decided(stream, cuts) == Decide(p)
  {
    ReceivedWithinLimit(p, stream, cuts);
    var n := Sum(cuts);
    var rest := stream[|p|..n];
    assert stream[..n] == p + rest;
    PacketThenAnything(p, rest);
    PacketThenAnything(p, []);
    assert p + [] == p;
    if AwaitsNumber(p) {
      TooFewBytes(p, rest);
    } else {
      RestIgnored(p, rest);
    }
  }

  /** A stream, and two ways recv can cut it, that receive_data takes for different requests:
      once for data to store, once for a seek. */
  lemma {:induction false} DifferentDecisions(p: seq<Byte>)
    returns (stream: seq<Byte>, a: seq<nat>, b: seq<nat>)
    requires IsPacket(p) && CutMatters(p)
    ensures p <= stream && Completes(stream, a) && Completes(stream, b)
    ensures Decided(stream, a) == Store(p) && Decided(stream, b).Seek?
  {
    var rest := Witness(p);
    stream := p + rest;
    a := CutFor(p, stream, |p|);
    b := CutFor(p, stream, |stream|);
    assert stream[..|p|] == p && p + [] == p && stream[..|stream|] == stream;
    PacketThenAnything(p, []);
    PacketThenAnything(p, rest);
  }

  /** All cuts of all streams that begin with the packet are decided alike if and only if the
      packet awaits no number or the buffer has no room left for it. */
  lemma {:induction false} CutIrrelevantIff(p: seq<Byte>)
    requires IsPacket(p)
    ensures (forall stream, a, b :: p <= stream && Completes(stream, a) && Completes(stream, b) ==>
               Decided(stream, a) == Decided(stream, b))
            <==> !CutMatters(p)
  {
    if CutMatters(p) {
      var stream, a, b := DifferentDecisions(p);
      assert Decided(stream, a) != Decided(stream, b);
    } else {
      forall stream, a, b | p <= stream && Completes(stream, a) && Completes(stream, b)
        ensures Decided(stream, a) == Decided(stream, b)
      {
        SameDecision(p, stream, a);
        SameDecision(p, stream, b);
      }
    }
  }

  /** A packet that fills the first buffer, 1023 bytes beside the NUL, is decided alone, whatever
      number it awaits: nothing can stand behind it. */
  lemma {:induction false} FullBufferStandsAlone(p: seq<Byte>, stream: seq<Byte>, cuts: seq<nat>)
    requires IsPacket(p) && |p| == 1023 && p <= stream && Completes(stream, cuts)
    ensures Sum(cuts) == 1023 && Decided(stream, cuts) == Decide(p)
  {
    ReceivedWithinLimit(p, stream, cuts);
    SameDecision(p, stream, cuts);
  }
}
