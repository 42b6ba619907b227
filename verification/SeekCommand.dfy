/** The textual seek command, as sscanf(buf, "%21[^:]:%u,%u") and the strcmp after it read it. */
module SeekCommand {
  import opened Contents
  import opened Framing

  const UINT32_RANGE: nat := 0x1_0000_0000

  /** struct aesd_seekto */
  datatype SeekTo = SeekTo(writeCmd: nat, writeCmdOffset: nat)

  const COMMAND: seq<Byte> := "AESDCHAR_IOCSEEKTO"
  const NAME_WIDTH: nat := 21

  /** The C string that starts at `s`. */
  function CString(s: seq<Byte>): seq<Byte> {
    if s == [] || s[0] == NUL then [] else [s[0]] + CString(s[1..])
  }

  predicate IsSpace(c: Byte) {
    c in {' ', '\t', '\n', '\U{0B}', '\U{0C}', '\r'}
  }

  predicate IsDigit(c: Byte) {
    '0' <= c <= '9'
  }

  predicate AllSpace(s: seq<Byte>) {
    forall i :: 0 <= i < |s| ==> IsSpace(s[i])
  }

  function SkipSpaces(s: seq<Byte>): seq<Byte> {
    if s != [] && IsSpace(s[0]) then SkipSpaces(s[1..]) else s
  }

  function DigitCount(s: seq<Byte>): (n: nat)
    ensures n <= |s| && forall i :: 0 <= i < n ==> IsDigit(s[i])
  {
    if s != [] && IsDigit(s[0]) then 1 + DigitCount(s[1..]) else 0
  }

  function DigitValue(c: Byte): nat
    requires IsDigit(c)
  {
    c as int - '0' as int
  }

  function DecimalValue(ds: seq<Byte>): nat
    requires forall i :: 0 <= i < |ds| ==> IsDigit(ds[i])
  {
    if ds == [] then 0 else DecimalValue(ds[..|ds| - 1]) * 10 + DigitValue(ds[|ds| - 1])
  }

  /** The length of the %21[^:] match. */
  function NameLength(s: seq<Byte>, width: nat): (n: nat)
    ensures n <= |s| && n <= width
    ensures forall i :: 0 <= i < n ==> s[i] != ':'
  {
    if s == [] || width == 0 || s[0] == ':' then 0 else 1 + NameLength(s[1..], width - 1)
  }

  datatype Scanned = Scanned(value: nat, rest: seq<Byte>)

  function ScanDigits(s: seq<Byte>, negative: bool): (r: Option<Scanned>)
    ensures r.Some? ==> r.value.value < UINT32_RANGE
  {
    var n := DigitCount(s);
    if n == 0 then None
    else
      var magnitude: int := DecimalValue(s[..n]);
      Some(Scanned((if negative then -magnitude else magnitude) % UINT32_RANGE, s[n..]))
  }

  function ScanSigned(s: seq<Byte>): Option<Scanned> {
    if s != [] && s[0] in {'+', '-'} then ScanDigits(s[1..], s[0] == '-') else ScanDigits(s, false)
  }

  /** %u: white space, an optional sign, digits; a negative number wraps. */
  function ScanUnsigned(s: seq<Byte>): Option<Scanned> {
    ScanSigned(SkipSpaces(s))
  }

  /** The two numbers after "AESDCHAR_IOCSEEKTO:". */
  function ScanNumbers(s: seq<Byte>): (r: Option<SeekTo>)
    ensures r.Some? ==> r.value.writeCmd < UINT32_RANGE && r.value.writeCmdOffset < UINT32_RANGE
  {
    match ScanUnsigned(s)
    case None => None
    case Some(a) =>
      if a.rest == [] || a.rest[0] != ',' then None
      else
        match ScanUnsigned(a.rest[1..])
        case None => None
        case Some(b) => Some(SeekTo(a.value, b.value))
  }

  /** What the server takes the buffer for: a seek, or (None) data to write. */
  function ScanSeek(buf: seq<Byte>): Option<SeekTo> {
    var s := CString(buf);
    var n := NameLength(s, NAME_WIDTH);
    if n == 0 || n == |s| || s[n] != ':' || s[..n] != COMMAND then None
    else ScanNumbers(s[n + 1..])
  }

  // ----- Only buffers that begin with the command word are commands -----

  predicate BeginsWithCommand(s: seq<Byte>) {
    COMMAND + [':'] <= s
  }

  lemma {:induction false} NameLengthAt(name: seq<Byte>, t: seq<Byte>, width: nat)
    requires forall i :: 0 <= i < |name| ==> name[i] != ':'
    requires |name| <= width
    ensures NameLength(name + [':'] + t, width) == |name|
  {
    if name != [] {
      NameLengthAt(name[1..], t, width - 1);
      assert (name + [':'] + t)[1..] == name[1..] + [':'] + t;
    }
  }

  lemma {:induction false} CStringIsPrefix(s: seq<Byte>)
    ensures CString(s) <= s && NUL !in CString(s)
  {
    if s != [] && s[0] != NUL {
      CStringIsPrefix(s[1..]);
    }
  }

  lemma {:induction false} CStringOfConcat(s: seq<Byte>, t: seq<Byte>)
    requires NUL !in s
    ensures CString(s + t) == s + CString(t)
  {
    if s == [] {
      assert s + t == t;
    } else {
      CStringOfConcat(s[1..], t);
      DropOfConcat(s, t, 1);
    }
  }

  /** Recognition splits at the colon: the word, then the numbers. */
  lemma {:induction false} ScanSeekSplits(buf: seq<Byte>)
    ensures !BeginsWithCommand(buf) ==> ScanSeek(buf) == None
    ensures BeginsWithCommand(buf) ==> ScanSeek(buf) == ScanNumbers(CString(buf[|COMMAND| + 1..]))
  {
    var word := COMMAND + [':'];
    if BeginsWithCommand(buf) {
      var rest := buf[|word|..];
      assert buf == word + rest;
      CStringOfConcat(word, rest);
      NameLengthAt(COMMAND, CString(rest), NAME_WIDTH);
      assert (word + CString(rest))[..|COMMAND|] == COMMAND;
      assert (word + CString(rest))[|COMMAND| + 1..] == CString(rest);
    } else {
      CStringIsPrefix(buf);
      var s := CString(buf);
      var n := NameLength(s, NAME_WIDTH);
      assert s <= buf;
      assert n < |s| && s[n] == ':' ==> s[..n + 1] == s[..n] + [':'];
    }
  }

  // ----- Printing and reading back -----

  function Decimal(n: nat): (ds: seq<Byte>)
    ensures ds != [] && forall i :: 0 <= i < |ds| ==> IsDigit(ds[i])
    ensures DecimalValue(ds) == n
  {
    var d := ('0' as int + n % 10) as char;
    if n < 10 then [d]
    else
      var ds := Decimal(n / 10);
      assert (ds + [d])[..|ds|] == ds;
      ds + [d]
  }

  function PrintNumbers(seek: SeekTo): seq<Byte> {
    Decimal(seek.writeCmd) + [','] + Decimal(seek.writeCmdOffset) + ['\n']
  }

  /** The canonical text of a seek command. */
  function Print(seek: SeekTo): seq<Byte> {
    COMMAND + [':'] + PrintNumbers(seek)
  }

  lemma {:induction false} DigitCountAt(ds: seq<Byte>, t: seq<Byte>)
    requires forall i :: 0 <= i < |ds| ==> IsDigit(ds[i])
    requires t == [] || !IsDigit(t[0])
    ensures DigitCount(ds + t) == |ds|
  {
    if ds == [] {
      assert ds + t == t;
    } else {
      DigitCountAt(ds[1..], t);
      assert (ds + t)[1..] == ds[1..] + t;
    }
  }

  lemma {:induction false} ScanDecimal(n: nat, t: seq<Byte>)
    requires n < UINT32_RANGE
    requires t == [] || !IsDigit(t[0])
    ensures ScanUnsigned(Decimal(n) + t) == Some(Scanned(n, t))
  {
    var ds := Decimal(n);
    var s := ds + t;
    assert s[0] == ds[0];
    assert SkipSpaces(s) == s;
    DigitCountAt(ds, t);
    assert s[..|ds|] == ds && s[|ds|..] == t;
  }

  lemma {:induction false} ScanPrintedNumbers(seek: SeekTo, t: seq<Byte>)
    requires seek.writeCmd < UINT32_RANGE && seek.writeCmdOffset < UINT32_RANGE
    requires t == [] || !IsDigit(t[0])
    ensures ScanNumbers(Decimal(seek.writeCmd) + ([','] + (Decimal(seek.writeCmdOffset) + t))) == Some(seek)
  {
    var b := Decimal(seek.writeCmdOffset) + t;
    ScanDecimal(seek.writeCmd, [','] + b);
    ScanDecimal(seek.writeCmdOffset, t);
    assert ([','] + b)[1..] == b;
  }

  /** Every printed command is read back exactly, whatever bytes follow its newline. */
  lemma {:induction false} PrintScanRoundTrip(seek: SeekTo, rest: seq<Byte>)
    requires seek.writeCmd < UINT32_RANGE && seek.writeCmdOffset < UINT32_RANGE
    ensures ScanSeek(Print(seek) + rest) == Some(seek)
  {
    var word := COMMAND + [':'];
    var tail := PrintNumbers(seek);
    assert Print(seek) + rest == word + (tail + rest);
    ScanSeekSplits(word + (tail + rest));
    assert (word + (tail + rest))[|word|..] == tail + rest;
    PrintedNumbersThenAnything(seek, rest);
    ScanPrintedNumbers(seek, ['\n'] + CString(rest));
  }

  lemma {:induction false} PrintedNumbersThenAnything(seek: SeekTo, rest: seq<Byte>)
    ensures CString(PrintNumbers(seek) + rest)
            == Decimal(seek.writeCmd) + ([','] + (Decimal(seek.writeCmdOffset) + (['\n'] + CString(rest))))
  {
    var a, b := Decimal(seek.writeCmd), Decimal(seek.writeCmdOffset);
    DigitsHaveNoNul(a);
    DigitsHaveNoNul(b);
    CStringOfConcat(PrintNumbers(seek), rest);
    Regroup(a, [','], b, ['\n'], CString(rest));
  }

  lemma {:induction false} Regroup(a: seq<Byte>, b: seq<Byte>, c: seq<Byte>, d: seq<Byte>, e: seq<Byte>)
    ensures a + b + c + d + e == a + (b + (c + (d + e)))
  {
  }

  lemma {:induction false} DigitsHaveNoNul(ds: seq<Byte>)
    requires forall i :: 0 <= i < |ds| ==> IsDigit(ds[i])
    ensures NUL !in ds
  {
  }

  // ----- The parser reads past the packet -----

  lemma {:induction false} SkipSpacesOfConcat(s: seq<Byte>, t: seq<Byte>)
    ensures SkipSpaces(s + t) == if AllSpace(s) then SkipSpaces(t) else SkipSpaces(s) + t
    ensures AllSpace(s) ==> SkipSpaces(s) == []
    ensures !AllSpace(s) ==> SkipSpaces(s) != [] && !IsSpace(SkipSpaces(s)[0])
                             && SkipSpaces(s)[|SkipSpaces(s)| - 1] == s[|s| - 1]
  {
    if s == [] {
      assert s + t == t;
    } else if IsSpace(s[0]) {
      SkipSpacesOfConcat(s[1..], t);
      assert (s + t)[1..] == s[1..] + t;
      assert AllSpace(s) <==> AllSpace(s[1..]) by {
        assert forall i :: 0 < i < |s| ==> s[i] == s[1..][i - 1];
      }
    }
  }

  lemma {:induction false} DigitCountStops(s: seq<Byte>, t: seq<Byte>)
    requires s != [] && s[|s| - 1] == '\n'
    ensures DigitCount(s + t) == DigitCount(s) < |s|
  {
    assert (s + t)[1..] == s[1..] + t;
    if IsDigit(s[0]) {
      DigitCountStops(s[1..], t);
    }
  }

  lemma {:induction false} ScanDigitsOfConcat(s: seq<Byte>, negative: bool, t: seq<Byte>)
    requires s != [] && s[|s| - 1] == '\n'
    ensures match ScanDigits(s, negative)
            case None => ScanDigits(s + t, negative) == None
            case Some(a) => && ScanDigits(s + t, negative) == Some(Scanned(a.value, a.rest + t))
                            && a.rest != [] && a.rest[|a.rest| - 1] == '\n'
  {
    DigitCountStops(s, t);
    var n := DigitCount(s);
    assert (s + t)[..n] == s[..n] && (s + t)[n..] == s[n..] + t;
  }

  /** A number scanned from text that ends in a newline ignores what follows, unless that text
      is all white space: then the scan runs on into what follows. */
  lemma {:induction false} ScanUnsignedOfConcat(s: seq<Byte>, t: seq<Byte>)
    requires s != [] && s[|s| - 1] == '\n'
    ensures AllSpace(s) ==> ScanUnsigned(s) == None && ScanUnsigned(s + t) == ScanUnsigned(t)
    ensures !AllSpace(s) ==> match ScanUnsigned(s)
                             case None => ScanUnsigned(s + t) == None
                             case Some(a) => && ScanUnsigned(s + t) == Some(Scanned(a.value, a.rest + t))
                                             && a.rest != [] && a.rest[|a.rest| - 1] == '\n'
  {
    SkipSpacesOfConcat(s, t);
    if !AllSpace(s) {
      var w := SkipSpaces(s);
      if w[0] in {'+', '-'} {
        assert (w + t)[1..] == w[1..] + t;
        ScanDigitsOfConcat(w[1..], w[0] == '-', t);
      } else {
        ScanDigitsOfConcat(w, false, t);
      }
    }
  }

  /** The packet ends where a number is still awaited: right after the colon, or right after
      the comma. */
  predicate AwaitsNumber(p: seq<Byte>) {
    BeginsWithCommand(p) &&
    var numbers := p[|COMMAND| + 1..];
    AllSpace(numbers) ||
    var a := ScanUnsigned(numbers);
    a.Some? && a.value.rest != [] && a.value.rest[0] == ',' && AllSpace(a.value.rest[1..])
  }

  lemma {:induction false} ScanNumbersOfConcat(s: seq<Byte>, t: seq<Byte>)
    requires s != [] && s[|s| - 1] == '\n' && !AllSpace(s)
    ensures var a := ScanUnsigned(s);
            if a.Some? && a.value.rest != [] && a.value.rest[0] == ',' && AllSpace(a.value.rest[1..])
            then && ScanNumbers(s) == None
                 && ScanNumbers(s + t) == (match ScanUnsigned(t)
                                           case None => None
                                           case Some(b) => Some(SeekTo(a.value.value, b.value)))
            else ScanNumbers(s + t) == ScanNumbers(s)
  {
    ScanUnsignedOfConcat(s, t);
    match ScanUnsigned(s)
    case None =>
    case Some(a) =>
      if a.rest[0] == ',' {
        assert (a.rest + t)[1..] == a.rest[1..] + t;
        ScanUnsignedOfConcat(a.rest[1..], t);
      }
  }

  /** To the parser alone, whatever bytes follow a packet change how it is taken exactly when the
      packet still awaits a number. How many can follow it in the buffer is another matter. */
  lemma {:induction false} RecognitionIgnoresRestIff(p: seq<Byte>)
    requires IsPacket(p)
    ensures (forall rest :: ScanSeek(p + rest) == ScanSeek(p)) <==> !AwaitsNumber(p)
  {
    if AwaitsNumber(p) {
      var rest := Witness(p);
      assert ScanSeek(p + rest) != ScanSeek(p);
    } else {
      forall rest
        ensures ScanSeek(p + rest) == ScanSeek(p)
      {
        RestIgnored(p, rest);
      }
    }
  }

  lemma {:induction false} DropOfConcat(s: seq<Byte>, t: seq<Byte>, n: nat)
    requires n <= |s|
    ensures (s + t)[n..] == s[n..] + t
  {
  }

  /** The numbers part of a buffer that begins with the command word. */
  lemma {:induction false} ScanSeekOfPacket(p: seq<Byte>, rest: seq<Byte>)
    requires IsPacket(p) && BeginsWithCommand(p)
    ensures ScanSeek(p + rest) == ScanNumbers(p[|COMMAND| + 1..] + CString(rest))
    ensures ScanSeek(p) == ScanNumbers(p[|COMMAND| + 1..])
    ensures p[|COMMAND| + 1..] != []
  {
    var numbers := p[|COMMAND| + 1..];
    assert COMMAND + [':'] != p by {
      assert p[|p| - 1] == '\n';
    }
    ScanSeekSplits(p);
    ScanSeekSplits(p + rest);
    DropOfConcat(p, rest, |COMMAND| + 1);
    assert NUL !in numbers;
    CStringOfConcat(numbers, rest);
    CStringOfConcat(numbers, []);
    assert numbers + [] == numbers;
  }

  lemma {:induction false} WordEndsBeforeNewline(p: seq<Byte>, rest: seq<Byte>)
    requires IsPacket(p)
    ensures BeginsWithCommand(p + rest) <==> BeginsWithCommand(p)
  {
    var word := COMMAND + [':'];
    assert forall i :: 0 <= i < |word| ==> word[i] != '\n';
    if |p| <= |word| {
      assert word[|p| - 1] != (p + rest)[|p| - 1];
      assert word[|p| - 1] != p[|p| - 1];
    }
  }

  lemma {:induction false} RestIgnored(p: seq<Byte>, rest: seq<Byte>)
    requires IsPacket(p) && !AwaitsNumber(p)
    ensures ScanSeek(p + rest) == ScanSeek(p)
  {
    if BeginsWithCommand(p) {
      ScanSeekOfPacket(p, rest);
      var numbers := p[|COMMAND| + 1..];
      ScanUnsignedOfConcat(numbers, CString(rest));
      ScanNumbersOfConcat(numbers, CString(rest));
    } else {
      WordEndsBeforeNewline(p, rest);
      ScanSeekSplits(p);
      ScanSeekSplits(p + rest);
    }
  }

  /** The fewest bytes that supply what a packet still awaits: two numbers and the comma, or
      the second number. */
  function Missing(p: seq<Byte>): nat
    requires AwaitsNumber(p)
  {
    if AllSpace(p[|COMMAND| + 1..]) then 3 else 1
  }

  lemma {:induction false} NumbersTakeBytes(s: seq<Byte>)
    ensures |SkipSpaces(s)| <= |s|
    ensures ScanUnsigned(s).Some? ==> |ScanUnsigned(s).value.rest| < |s|
    ensures ScanNumbers(s).Some? ==> |s| >= 3
  {
    SkippingShortens(s);
    var a := ScanUnsigned(s);
    if a.Some? && a.value.rest != [] {
      SkippingShortens(a.value.rest[1..]);
    }
  }

  lemma {:induction false} SkippingShortens(s: seq<Byte>)
    ensures |SkipSpaces(s)| <= |s|
  {
    if s != [] {
      SkippingShortens(s[1..]);
    }
  }

  /** Fewer bytes than are missing change nothing. */
  lemma {:induction false} TooFewBytes(p: seq<Byte>, rest: seq<Byte>)
    requires IsPacket(p) && AwaitsNumber(p) && |rest| < Missing(p)
    ensures ScanSeek(p + rest) == ScanSeek(p)
  {
    if rest == [] {
      assert p + rest == p;
    } else {
      ScanSeekOfPacket(p, rest);
      CStringIsPrefix(rest);
      SpacesThenTooFew(p[|COMMAND| + 1..], CString(rest));
    }
  }

  lemma {:induction false} SpacesThenTooFew(s: seq<Byte>, t: seq<Byte>)
    requires s != [] && s[|s| - 1] == '\n' && AllSpace(s) && |t| < 3
    ensures ScanNumbers(s + t) == ScanNumbers(s) == None
  {
    ScanUnsignedOfConcat(s, t);
    NumbersTakeBytes(t);
  }

  /** As many bytes as are missing that turn a packet awaiting a number into a command. */
  lemma {:induction false} Witness(p: seq<Byte>) returns (rest: seq<Byte>)
    requires IsPacket(p) && AwaitsNumber(p)
    ensures |rest| == Missing(p)
    ensures ScanSeek(p) == None && ScanSeek(p + rest).Some?
  {
    var numbers := p[|COMMAND| + 1..];
    var zero := Decimal(0);
    rest := if AllSpace(numbers) then zero + [','] + zero else zero;
    ScanSeekOfPacket(p, rest);
    CStringOfConcat(rest, []);
    assert rest + [] == rest;
    assert zero + [] == zero;
    ScanDecimal(0, []);
    if AllSpace(numbers) {
      ScanUnsignedOfConcat(numbers, rest);
      assert rest == zero + ([','] + (zero + []));
      ScanPrintedNumbers(SeekTo(0, 0), []);
    } else {
      ScanNumbersOfConcat(numbers, rest);
    }
  }
}
