/** What the server makes of the bytes a client has sent, and what a client is owed. */
module Requests {
  import opened Contents
  import opened Framing
  import opened SeekCommand

  /** Both receive_data and send_data start with a buffer of 1 kb. */
  const BUFFER_SIZE: nat := 1024

  /** What the bytes received so far call for. */
  datatype Decision = Incomplete | Seek(to: SeekTo) | Store(packet: seq<Byte>)

  /** Nothing until the first packet is complete; then the whole buffer, not just the packet,
      is scanned for a seek command. */
  function Decide(got: seq<Byte>): Decision {
    match FirstPacket(got)
    case None => Incomplete
    case Some(packet) =>
      match ScanSeek(got)
      case Some(to) => Seek(to)
      case None => Store(packet)
  }

  /** A stream whose first packet does not await a number is decided the same way however it
      is cut into receives; one that does not begin with the command word is stored verbatim. */
  lemma {:induction false} DecisionIndependentOfChunking(stream: seq<Byte>, n: nat)
    requires n <= |stream| && FirstPacket(stream[..n]).Some?
    ensures FirstPacket(stream) == FirstPacket(stream[..n])
    ensures !AwaitsNumber(FirstPacket(stream).value) ==> Decide(stream[..n]) == Decide(stream)
    ensures !BeginsWithCommand(stream) ==> Decide(stream[..n]) == Store(FirstPacket(stream).value)
  {
    PacketIndependentOfPrefix(stream[..n], stream);
    var p := FirstPacket(stream).value;
    var s := stream[..n];
    assert p <= s;
    assert s == p + s[|p|..] && stream == p + stream[|p|..];
    if !AwaitsNumber(p) {
      RestIgnored(p, s[|p|..]);
      RestIgnored(p, stream[|p|..]);
    }
    if !BeginsWithCommand(stream) {
      ScanSeekSplits(s);
    }
  }

  /** What a reader at `pos` has still to see of `all`. */
  function Remaining(all: seq<Byte>, pos: nat): seq<Byte> {
    if pos <= |all| then all[pos..] else []
  }
}
