/** The seek command said without its parser: what a numeral is worth, which texts are commands,
    and so which request the bytes of a client are. */
module CommandGrammar {
  import opened Contents
  import opened Framing
  import opened SeekCommand
  import opened Requests

  // ----- Numerals -----

  predicate AllDigits(s: seq<Byte>) {
    forall i :: 0 <= i < |s| ==> IsDigit(s[i])
  }

  function Power10(n: nat): (r: nat)
    ensures r >= 1
  {
    if n == 0 then 1 else 10 * Power10(n - 1)
  }

  /** Lexicographic order on strings of one length. */
  ghost predicate LexLess(a: seq<Byte>, b: seq<Byte>)
    requires |a| == |b|
  {
    exists k :: 0 <= k < |a| && a[..k] == b[..k] && a[k] < b[k]
  }

  lemma {:induction false} OneDigit(v: nat)
    requires v < 10
    ensures IsDigit("0123456789"[v]) && DecimalValue(["0123456789"[v]]) == v
  {
    assert ["0123456789"[v]][..0] == [];
  }

  /** Among numerals of one length, value follows the lexicographic order. */
  lemma {:induction false} NumeralsOrdered(a: seq<Byte>, b: seq<Byte>)
    requires |a| == |b| && AllDigits(a) && AllDigits(b) && LexLess(a, b)
    ensures DecimalValue(a) < DecimalValue(b)
  {
    var n := |a| - 1;
    var k :| 0 <= k < |a| && a[..k] == b[..k] && a[k] < b[k];
    if k < n {
      assert a[..n][..k] == b[..n][..k];
      assert LexLess(a[..n], b[..n]);
      NumeralsOrdered(a[..n], b[..n]);
    }
  }

  lemma {:induction false} NumeralBound(a: seq<Byte>)
    requires AllDigits(a)
    ensures DecimalValue(a) < Power10(|a|)
  {
    if a != [] {
      NumeralBound(a[..|a| - 1]);
    }
  }

  lemma {:induction false} NumeralFor(n: nat, v: nat) returns (a: seq<Byte>)
    requires v < Power10(n)
    ensures |a| == n && AllDigits(a) && DecimalValue(a) == v
  {
    if n == 0 {
      a := [];
    } else {
      var front := NumeralFor(n - 1, v / 10);
      a := front + ["0123456789"[v % 10]];
      assert a[..n - 1] == front;
    }
  }

  /** Numerals of length n take exactly the values below 10^n. */
  lemma {:induction false} NumeralsFill(n: nat, v: nat)
    ensures (exists a: seq<Byte> :: |a| == n && AllDigits(a) && DecimalValue(a) == v) <==> v < Power10(n)
  {
    if v < Power10(n) {
      var a := NumeralFor(n, v);
    }
    if a: seq<Byte> :| |a| == n && AllDigits(a) && DecimalValue(a) == v {
      NumeralBound(a);
    }
  }

  /** The printer writes no leading zero. */
  lemma {:induction false} NoLeadingZero(n: nat)
    ensures Decimal(n)[0] == '0' ==> n == 0 && Decimal(n) == "0"
  {
    if n >= 10 {
      NoLeadingZero(n / 10);
      assert Decimal(n)[0] == Decimal(n / 10)[0];
    }
  }

  // ----- Numbers as %u reads them -----

  /** White space is the blank and the codes from tab to carriage return. */
  lemma {:induction false} WhiteSpaceCodes(c: Byte)
    ensures IsSpace(c) <==> c as int == 32 || 9 <= c as int <= 13
  {
  }

  /** What %u stores for a sign and a numeral. */
  function NumberOf(sign: seq<Byte>, digits: seq<Byte>): nat
    requires AllDigits(digits)
  {
    var magnitude: int := DecimalValue(digits);
    (if sign == "-" then -magnitude else magnitude) % UINT32_RANGE
  }

  predicate IsSign(sign: seq<Byte>) {
    sign == "" || sign == "+" || sign == "-"
  }

  /** `s` is white space, an optional sign and a numeral, and `rest` is what follows the numeral. */
  predicate Spells(s: seq<Byte>, spaces: seq<Byte>, sign: seq<Byte>, digits: seq<Byte>, rest: seq<Byte>) {
    && s == spaces + (sign + (digits + rest))
    && AllSpace(spaces) && IsSign(sign)
    && digits != [] && AllDigits(digits) && (rest == [] || !IsDigit(rest[0]))
  }

  lemma {:induction false} SpacesSkipped(s: seq<Byte>) returns (k: nat)
    ensures k <= |s| && SkipSpaces(s) == s[k..]
    ensures forall i :: 0 <= i < k ==> IsSpace(s[i])
  {
    if s != [] && IsSpace(s[0]) {
      var n := SpacesSkipped(s[1..]);
      k := n + 1;
      assert s[1..][n..] == s[k..];
      assert forall i :: 0 < i < k ==> s[i] == s[1..][i - 1];
    } else {
      k := 0;
    }
  }

  lemma {:induction false} DigitsSplit(s: seq<Byte>)
    ensures var n := DigitCount(s);
            AllDigits(s[..n]) && (s[n..] == [] || !IsDigit(s[n..][0]))
  {
    if s != [] && IsDigit(s[0]) {
      DigitsSplit(s[1..]);
      assert s[1..][DigitCount(s[1..])..] == s[DigitCount(s)..];
    }
  }

  lemma {:induction false} ScannedDigits(u: seq<Byte>, sign: seq<Byte>) returns (digits: seq<Byte>)
    requires ScanDigits(u, sign == "-").Some?
    ensures digits != [] && AllDigits(digits)
    ensures var r := ScanDigits(u, sign == "-").value;
            u == digits + r.rest && (r.rest == [] || !IsDigit(r.rest[0])) && r.value == NumberOf(sign, digits)
  {
    digits := u[..DigitCount(u)];
    DigitsSplit(u);
  }

  lemma {:induction false} ScannedSign(t: seq<Byte>) returns (sign: seq<Byte>, digits: seq<Byte>)
    requires ScanSigned(t).Some?
    ensures IsSign(sign) && digits != [] && AllDigits(digits)
    ensures var r := ScanSigned(t).value;
            && t == sign + (digits + r.rest) && (r.rest == [] || !IsDigit(r.rest[0]))
            && r.value == NumberOf(sign, digits)
  {
    if t != [] && t[0] in {'+', '-'} {
      sign := [t[0]];
      digits := ScannedDigits(t[1..], sign);
      assert t == sign + t[1..];
    } else {
      sign := "";
      digits := ScannedDigits(t, sign);
    }
  }

  /** Every number scanned is so spelled. */
  lemma {:induction false} ScannedIsSpelled(s: seq<Byte>)
    returns (spaces: seq<Byte>, sign: seq<Byte>, digits: seq<Byte>)
    requires ScanUnsigned(s).Some?
    ensures var r := ScanUnsigned(s).value;
            Spells(s, spaces, sign, digits, r.rest) && r.value == NumberOf(sign, digits)
  {
    var k := SpacesSkipped(s);
    spaces := s[..k];
    assert s == spaces + s[k..];
    sign, digits := ScannedSign(SkipSpaces(s));
  }

  lemma {:induction false} SignScanned(sign: seq<Byte>, digits: seq<Byte>, rest: seq<Byte>)
    requires IsSign(sign) && digits != [] && AllDigits(digits) && (rest == [] || !IsDigit(rest[0]))
    ensures var t := sign + (digits + rest);
            t != [] && !IsSpace(t[0]) && ScanSigned(t) == Some(Scanned(NumberOf(sign, digits), rest))
  {
    var u := digits + rest;
    var t := sign + u;
    DigitCountAt(digits, rest);
    assert u[..|digits|] == digits && u[|digits|..] == rest;
    if sign == "" {
      assert t == u && IsDigit(t[0]);
    } else {
      assert t[1..] == u && (t[0] == '+' || t[0] == '-');
    }
  }

  /** Everything so spelled is scanned. */
  lemma {:induction false} SpelledIsScanned(s: seq<Byte>, spaces: seq<Byte>, sign: seq<Byte>,
                                            digits: seq<Byte>, rest: seq<Byte>)
    requires Spells(s, spaces, sign, digits, rest)
    ensures ScanUnsigned(s) == Some(Scanned(NumberOf(sign, digits), rest))
  {
    var t := sign + (digits + rest);
    SignScanned(sign, digits, rest);
    SkipSpacesOfConcat(spaces, t);
    assert SkipSpaces(t) == t;
  }

  // ----- Commands -----

  /** `s` is the command word, a colon, a spelled number, a comma and another; `rest` follows. */
  ghost predicate CommandText(s: seq<Byte>, w1: seq<Byte>, g1: seq<Byte>, d1: seq<Byte>,
                              w2: seq<Byte>, g2: seq<Byte>, d2: seq<Byte>, rest: seq<Byte>) {
    && COMMAND + [':'] <= s
    && exists tail :: Spells(tail, w2, g2, d2, rest) && Spells(s[|COMMAND| + 1..], w1, g1, d1, [','] + tail)
  }

  /** A buffer is taken for a seek if and only if its C string is such a text; the first number
      is the command, the second the offset. */
  lemma {:induction false} CommandIff(buf: seq<Byte>, to: SeekTo)
    ensures ScanSeek(buf) == Some(to) <==>
            exists w1, g1, d1, w2, g2, d2, rest ::
              && CommandText(CString(buf), w1, g1, d1, w2, g2, d2, rest)
              && to.writeCmd == NumberOf(g1, d1) && to.writeCmdOffset == NumberOf(g2, d2)
  {
    WordInCString(buf);
    if ScanSeek(buf) == Some(to) {
      var w1, g1, d1, w2, g2, d2, rest := ScannedCommand(buf);
    }
    if w1, g1, d1, w2, g2, d2, rest :| CommandText(CString(buf), w1, g1, d1, w2, g2, d2, rest)
                                       && to.writeCmd == NumberOf(g1, d1) && to.writeCmdOffset == NumberOf(g2, d2) {
      CommandScanned(buf, w1, g1, d1, w2, g2, d2, rest);
    }
  }

  lemma {:induction false} WordInCString(buf: seq<Byte>)
    ensures BeginsWithCommand(buf) <==> COMMAND + [':'] <= CString(buf)
    ensures BeginsWithCommand(buf) ==> CString(buf)[|COMMAND| + 1..] == CString(buf[|COMMAND| + 1..])
  {
    CStringIsPrefix(buf);
    if BeginsWithCommand(buf) {
      var word := COMMAND + [':'];
      assert buf == word + buf[|word|..];
      CStringOfConcat(word, buf[|word|..]);
    }
  }

  lemma {:induction false} ScannedCommand(buf: seq<Byte>)
    returns (w1: seq<Byte>, g1: seq<Byte>, d1: seq<Byte>, w2: seq<Byte>, g2: seq<Byte>, d2: seq<Byte>, rest: seq<Byte>)
    requires ScanSeek(buf).Some?
    ensures CommandText(CString(buf), w1, g1, d1, w2, g2, d2, rest)
    ensures ScanSeek(buf) == Some(SeekTo(NumberOf(g1, d1), NumberOf(g2, d2)))
  {
    ScanSeekSplits(buf);
    WordInCString(buf);
    var numbers := CString(buf)[|COMMAND| + 1..];
    w1, g1, d1 := ScannedIsSpelled(numbers);
    var after := ScanUnsigned(numbers).value.rest;
    var tail := after[1..];
    assert after == [','] + tail;
    w2, g2, d2 := ScannedIsSpelled(tail);
    rest := ScanUnsigned(tail).value.rest;
  }

  lemma {:induction false} CommandScanned(buf: seq<Byte>, w1: seq<Byte>, g1: seq<Byte>, d1: seq<Byte>,
                                          w2: seq<Byte>, g2: seq<Byte>, d2: seq<Byte>, rest: seq<Byte>)
    requires CommandText(CString(buf), w1, g1, d1, w2, g2, d2, rest)
    ensures ScanSeek(buf) == Some(SeekTo(NumberOf(g1, d1), NumberOf(g2, d2)))
  {
    ScanSeekSplits(buf);
    WordInCString(buf);
    var numbers := CString(buf)[|COMMAND| + 1..];
    var tail :| Spells(tail, w2, g2, d2, rest) && Spells(numbers, w1, g1, d1, [','] + tail);
    SpelledIsScanned(numbers, w1, g1, d1, [','] + tail);
    SpelledIsScanned(tail, w2, g2, d2, rest);
    assert ([','] + tail)[1..] == tail;
  }

  // ----- Requests -----

  /** Nothing is decided before the first packet; then the buffer is a seek if and only if it is
      a command text, and data to store, the first packet, in every other case. */
  lemma {:induction false} RequestIff(got: seq<Byte>)
    ensures Decide(got).Incomplete? <==> FirstPacket(got).None?
    ensures forall to :: Decide(got) == Seek(to) <==> FirstPacket(got).Some? && ScanSeek(got) == Some(to)
    ensures forall p :: Decide(got) == Store(p) <==> FirstPacket(got) == Some(p) && ScanSeek(got) == None
  {
  }

  /** The canonical command, as text, is a packet and is taken for exactly its two numbers,
      whatever follows it. */
  lemma {:induction false} CanonicalCommand(cmd: nat, offset: nat, rest: seq<Byte>)
    requires cmd < UINT32_RANGE && offset < UINT32_RANGE
    ensures var text := "AESDCHAR_IOCSEEKTO:" + Decimal(cmd) + "," + Decimal(offset) + "\n";
            IsPacket(text) && Decide(text + rest) == Seek(SeekTo(cmd, offset))
  {
    var text := "AESDCHAR_IOCSEEKTO:" + Decimal(cmd) + "," + Decimal(offset) + "\n";
    var seek := SeekTo(cmd, offset);
    assert text == Print(seek) by {
      assert "AESDCHAR_IOCSEEKTO:" == COMMAND + [':'];
      Regroup("AESDCHAR_IOCSEEKTO:", Decimal(cmd), ",", Decimal(offset), "\n");
      Regroup("", Decimal(cmd), ",", Decimal(offset), "\n");
    }
    assert IsPacketEnd(text, |text| - 1);
    PacketThenAnything(text, rest);
    PrintScanRoundTrip(seek, rest);
  }

  /** The bytes begin with the canonical command for byte `offset` of entry `cmd`. */
  predicate SendsCommand(got: seq<Byte>, cmd: nat, offset: nat) {
    && cmd < UINT32_RANGE && offset < UINT32_RANGE
    && "AESDCHAR_IOCSEEKTO:" + Decimal(cmd) + "," + Decimal(offset) + "\n" <= got
  }

  lemma {:induction false} CommandIsSeek(got: seq<Byte>, cmd: nat, offset: nat)
    requires SendsCommand(got, cmd, offset)
    ensures Decide(got) == Seek(SeekTo(cmd, offset))
  {
    var text := "AESDCHAR_IOCSEEKTO:" + Decimal(cmd) + "," + Decimal(offset) + "\n";
    assert got == text + got[|text|..];
    CanonicalCommand(cmd, offset, got[|text|..]);
  }
}
