/** Where the first packet of a byte stream ends, as strchr on a C string sees it. */
module Framing {
  import opened Contents

  const NUL: Byte := '\0'

  /** strchr(s, '\n') on the C string that starts at `s`: the search ends at the first NUL. */
  function StrChr(s: seq<Byte>): (r: Option<nat>)
    ensures r.Some? <==> exists i :: IsPacketEnd(s, i)
    ensures r.Some? ==> IsPacketEnd(s, r.value)
  {
    if s == [] || s[0] == NUL then None
    else if s[0] == '\n' then assert IsPacketEnd(s, 0); Some(0)
    else
      var r := StrChr(s[1..]);
      PacketEndTail(s);
      if r.None? then None else Some(r.value + 1)
  }

  lemma {:induction false} PacketEndTail(s: seq<Byte>)
    requires s != [] && s[0] != NUL && s[0] != '\n'
    ensures !IsPacketEnd(s, 0)
    ensures forall i: nat {:trigger IsPacketEnd(s[1..], i)} {:trigger IsPacketEnd(s, i + 1)} ::
              IsPacketEnd(s, i + 1) <==> IsPacketEnd(s[1..], i)
    ensures forall i: nat {:trigger IsPacketEnd(s, i)} :: IsPacketEnd(s, i) ==> i > 0 && IsPacketEnd(s[1..], i - 1)
  {
    forall i: nat
      ensures IsPacketEnd(s, i + 1) <==> IsPacketEnd(s[1..], i)
    {
      if IsPacketEnd(s[1..], i) {
        forall j | 0 <= j < i + 1
          ensures s[j] != '\n' && s[j] != NUL
        {
          if j > 0 {
            assert s[1..][j - 1] == s[j];
          }
        }
      } else if IsPacketEnd(s, i + 1) {
        assert forall j :: 0 <= j < i ==> s[1..][j] == s[j + 1];
      }
    }
    forall i: nat | IsPacketEnd(s, i)
      ensures i > 0 && IsPacketEnd(s[1..], i - 1)
    {
      assert IsPacketEnd(s, (i - 1) + 1);
    }
  }

  /** Index `i` holds the first newline, with no NUL before it. */
  predicate IsPacketEnd(s: seq<Byte>, i: nat) {
    i < |s| && s[i] == '\n' && forall j :: 0 <= j < i ==> s[j] != '\n' && s[j] != NUL
  }

  /** One whole packet: newline-ended, no other newline, no NUL. */
  predicate IsPacket(p: seq<Byte>) {
    p != [] && IsPacketEnd(p, |p| - 1)
  }

  /** The first packet of a stream, when there is one. */
  function FirstPacket(s: seq<Byte>): (r: Option<seq<Byte>>)
    ensures r.Some? ==> IsPacket(r.value) && r.value <= s
  {
    var at := StrChr(s);
    if at.None? then None else Some(s[..at.value + 1])
  }

  lemma {:induction false} PacketEndUnique(s: seq<Byte>, t: seq<Byte>, i: nat, j: nat)
    requires s <= t
    requires IsPacketEnd(s, i) && IsPacketEnd(t, j)
    ensures i == j
  {
  }

  /** The first packet is that of the stream, whichever prefix it was found in. */
  lemma {:induction false} PacketIndependentOfPrefix(s: seq<Byte>, t: seq<Byte>)
    requires s <= t
    ensures FirstPacket(s).Some? ==> FirstPacket(t) == FirstPacket(s)
    ensures FirstPacket(s).None? && FirstPacket(t).Some? ==> |s| < |FirstPacket(t).value|
  {
    if FirstPacket(s).Some? {
      var i := StrChr(s).value;
      assert IsPacketEnd(t, i);
      PacketEndUnique(s, t, i, StrChr(t).value);
      assert s[..i + 1] == t[..i + 1];
    } else if FirstPacket(t).Some? && StrChr(t).value < |s| {
      assert IsPacketEnd(s, StrChr(t).value);
    }
  }

  /** A NUL written behind the bytes makes whatever follows it invisible to the search. */
  lemma {:induction false} SearchStopsAtNul(s: seq<Byte>, garbage: seq<Byte>)
    ensures StrChr(s + [NUL] + garbage) == StrChr(s)
  {
    var t := s + [NUL] + garbage;
    if StrChr(s).Some? {
      assert IsPacketEnd(t, StrChr(s).value);
      PacketEndUnique(s, t, StrChr(s).value, StrChr(t).value);
    } else if StrChr(t).Some? {
      var i := StrChr(t).value;
      assert i < |s| by {
        assert t[|s|] == NUL;
      }
      assert forall j :: 0 <= j <= i ==> t[j] == s[j];
      assert IsPacketEnd(s, i);
    }
  }

  /** A packet is its own first packet, whatever follows it. */
  lemma {:induction false} PacketThenAnything(p: seq<Byte>, rest: seq<Byte>)
    requires IsPacket(p)
    ensures FirstPacket(p + rest) == Some(p)
  {
    assert IsPacketEnd(p + rest, |p| - 1);
    PacketEndUnique(p, p + rest, |p| - 1, StrChr(p + rest).value);
  }
}
