/** The flat byte string a device shows to its readers, and how positions in it
    relate to (entry, offset) pairs. Everything here is a value. */
module Contents {

  datatype Option<+T> = None | Some(value: T)

  /** One C `char`. Only NUL, newline and the characters of a seek command are ever told apart. */
  type Byte = char

  /** AESDCHAR_MAX_WRITE_OPERATIONS_SUPPORTED */
  const CAPACITY: nat := 10

  /** The most recent CAPACITY elements of a log, oldest first. */
  function Window<T>(log: seq<T>): seq<T> {
    if |log| <= CAPACITY then log else log[|log| - CAPACITY..]
  }

  function Flatten(es: seq<seq<Byte>>): seq<Byte> {
    if es == [] then [] else Flatten(es[..|es| - 1]) + es[|es| - 1]
  }

  function Sizes(es: seq<seq<Byte>>): seq<nat> {
    seq(|es|, i requires 0 <= i < |es| => |es[i]|)
  }

  function Sum(ns: seq<nat>): nat {
    if ns == [] then 0 else Sum(ns[..|ns| - 1]) + ns[|ns| - 1]
  }

  function Min(a: nat, b: nat): nat { if a <= b then a else b }

  lemma {:induction false} FlattenSnoc(xs: seq<seq<Byte>>, x: seq<Byte>)
    ensures Flatten(xs + [x]) == Flatten(xs) + x
  {
    assert (xs + [x])[..|xs|] == xs;
  }

  lemma {:induction false} FlattenConcat(a: seq<seq<Byte>>, b: seq<seq<Byte>>)
    ensures Flatten(a + b) == Flatten(a) + Flatten(b)
  {
    if b == [] {
      assert a + b == a;
    } else {
      FlattenConcat(a, b[..|b| - 1]);
      assert (a + b)[..|a + b| - 1] == a + b[..|b| - 1];
    }
  }

  lemma {:induction false} SumStep(ns: seq<nat>, i: nat)
    requires i < |ns|
    ensures Sum(ns[..i + 1]) == Sum(ns[..i]) + ns[i]
  {
    assert ns[..i + 1][..i] == ns[..i];
  }

  lemma {:induction false} SumPrefix(ns: seq<nat>, i: nat, j: nat)
    requires i <= j <= |ns|
    ensures Sum(ns[..i]) <= Sum(ns[..j])
    ensures i < j ==> Sum(ns[..i]) + ns[i] <= Sum(ns[..j])
    decreases j
  {
    if i < j {
      SumStep(ns, j - 1);
      SumPrefix(ns, i, j - 1);
    }
  }

  lemma {:induction false} FlattenLength(es: seq<seq<Byte>>)
    ensures |Flatten(es)| == Sum(Sizes(es))
  {
    if es != [] {
      FlattenLength(es[..|es| - 1]);
      assert Sizes(es)[..|es| - 1] == Sizes(es[..|es| - 1]);
    }
  }

  /** Where entry `i` sits in the flat string. */
  lemma {:induction false} FlattenEntry(es: seq<seq<Byte>>, i: nat)
    requires i < |es|
    ensures var at := Sum(Sizes(es)[..i]);
            at + |es[i]| <= |Flatten(es)| && Flatten(es)[at..at + |es[i]|] == es[i]
  {
    var at := Sum(Sizes(es)[..i]);
    assert es == es[..i] + ([es[i]] + es[i + 1..]);
    FlattenConcat(es[..i], [es[i]] + es[i + 1..]);
    FlattenConcat([es[i]], es[i + 1..]);
    assert [es[i]][..0] == [];
    assert Flatten([es[i]]) == es[i];
    FlattenLength(es[..i]);
    assert Sizes(es[..i]) == Sizes(es)[..i];
  }

  // ----- Positions -----

  /** A position named by entry index (oldest is 0) and offset inside that entry. */
  datatype Place = Place(index: nat, offset: nat)

  /** `at` names a byte that exists. */
  predicate ValidPlace(ns: seq<nat>, at: Place) {
    at.index < |ns| && at.offset < ns[at.index]
  }

  /** The flat position of a place. */
  function PositionOf(ns: seq<nat>, at: Place): nat
    requires at.index < |ns|
  {
    Sum(ns[..at.index]) + at.offset
  }

  /** The place the walk of the ring finds for flat position `p`, starting at entry `from`
      with `p` bytes still to skip. */
  function LocateFrom(ns: seq<nat>, from: nat, p: nat): (r: Option<Place>)
    requires from <= |ns|
    decreases |ns| - from
    ensures r.Some? ==> from <= r.value.index && ValidPlace(ns, r.value)
    ensures r.Some? ==> PositionOf(ns, r.value) == Sum(ns[..from]) + p
    ensures r.None? <==> Sum(ns[..from]) + p >= Sum(ns)
  {
    if from == |ns| then
      assert ns[..from] == ns; None
    else
      SumStep(ns, from);
      SumPrefix(ns, from + 1, |ns|);
      assert ns[..|ns|] == ns;
      if p < ns[from] then Some(Place(from, p)) else LocateFrom(ns, from + 1, p - ns[from])
  }

  function Locate(ns: seq<nat>, p: nat): Option<Place> {
    LocateFrom(ns, 0, p)
  }

  lemma {:induction false} PlaceUnique(ns: seq<nat>, a: Place, b: Place)
    requires ValidPlace(ns, a) && ValidPlace(ns, b)
    requires PositionOf(ns, a) == PositionOf(ns, b)
    ensures a == b
  {
    if a.index < b.index {
      SumPrefix(ns, a.index, b.index);
    } else if b.index < a.index {
      SumPrefix(ns, b.index, a.index);
    }
  }

  /** Seek and lookup are mutual inverses: lookup undoes a valid seek, every position below
      the total is the position of exactly the place lookup finds, and lookup finds nothing
      from the total on. */
  lemma {:induction false} SeekLookupInverse(ns: seq<nat>, at: Place, p: nat)
    ensures ValidPlace(ns, at) ==> Locate(ns, PositionOf(ns, at)) == Some(at)
    ensures ValidPlace(ns, at) ==> PositionOf(ns, at) < Sum(ns)
    ensures p < Sum(ns) <==> Locate(ns, p).Some?
    ensures p < Sum(ns) ==> (ValidPlace(ns, at) && PositionOf(ns, at) == p <==> Locate(ns, p) == Some(at))
  {
    assert ns[..|ns|] == ns;
    if ValidPlace(ns, at) {
      SumPrefix(ns, at.index, |ns|);
      PlaceUnique(ns, at, Locate(ns, PositionOf(ns, at)).value);
    }
    if p < Sum(ns) && ValidPlace(ns, at) && PositionOf(ns, at) == p {
      PlaceUnique(ns, at, Locate(ns, p).value);
    }
  }

  // ----- Reading -----

  /** What one read of at most `count` bytes at position `p` returns: never past the end of
      the entry that holds `p`. */
  function ReadPiece(es: seq<seq<Byte>>, p: nat, count: nat): seq<Byte> {
    match Locate(Sizes(es), p)
    case None => []
    case Some(at) => es[at.index][at.offset..at.offset + Min(count, |es[at.index]| - at.offset)]
  }

  lemma {:induction false} ReadPieceAt(es: seq<seq<Byte>>, p: nat, count: nat)
    ensures match Locate(Sizes(es), p)
            case None => ReadPiece(es, p, count) == []
            case Some(at) =>
              var rest := |es[at.index]| - at.offset;
              ReadPiece(es, p, count) == es[at.index][at.offset..at.offset + (if rest >= count then count else rest)]
  {
  }

  /** `piece` is what a reader at position `p` of `all` must see next: the bytes from `p` on,
      at least one of them while any remain. */
  predicate IsNext(all: seq<Byte>, p: nat, piece: seq<Byte>) {
    if p < |all| then piece != [] && p + |piece| <= |all| && piece == all[p..p + |piece|] else piece == []
  }

  lemma {:induction false} SliceOfSlice(all: seq<Byte>, start: nat, e: seq<Byte>, offset: nat, n: nat)
    requires start + |e| <= |all| && all[start..start + |e|] == e && offset + n <= |e|
    ensures all[start + offset..start + offset + n] == e[offset..offset + n]
  {
    var left, right := all[start + offset..start + offset + n], e[offset..offset + n];
    forall k | 0 <= k < n
      ensures left[k] == right[k]
    {
      assert all[start..start + |e|][offset + k] == e[offset + k];
    }
  }

  lemma {:induction false} SliceIsNext(all: seq<Byte>, start: nat, e: seq<Byte>, offset: nat, n: nat)
    requires start + |e| <= |all| && all[start..start + |e|] == e && offset + n <= |e| && n > 0
    ensures IsNext(all, start + offset, e[offset..offset + n])
  {
    SliceOfSlice(all, start, e, offset, n);
  }

  lemma {:induction false} ReadPieceIsNext(es: seq<seq<Byte>>, p: nat, count: nat)
    requires count > 0
    ensures IsNext(Flatten(es), p, ReadPiece(es, p, count))
    ensures |ReadPiece(es, p, count)| <= count
  {
    FlattenLength(es);
    var found := Locate(Sizes(es), p);
    if found.Some? {
      var at := found.value;
      assert PositionOf(Sizes(es), at) == p;
      FlattenEntry(es, at.index);
      SliceIsNext(Flatten(es), p - at.offset, es[at.index], at.offset, Min(count, |es[at.index]| - at.offset));
    }
  }

  /** What successive calls of a read handler return, each starting where the one before it
      stopped. */
  function Successive(read: (nat, nat) -> seq<Byte>, p: nat, counts: seq<nat>): (pieces: seq<seq<Byte>>)
    ensures |pieces| == |counts|
    decreases |counts|
  {
    if counts == [] then []
    else
      var piece := read(p, counts[0]);
      [piece] + Successive(read, p + |piece|, counts[1..])
  }

  /** Successive reads of an unchanged device. */
  function Reads(es: seq<seq<Byte>>, p: nat, counts: seq<nat>): seq<seq<Byte>> {
    Successive((q: nat, count: nat) => ReadPiece(es, q, count), p, counts)
  }

  lemma {:induction false} FlattenCons(x: seq<Byte>, xs: seq<seq<Byte>>)
    ensures Flatten([x] + xs) == x + Flatten(xs)
  {
    FlattenConcat([x], xs);
    assert [x][..0] == [];
    assert Flatten([x]) == x;
  }

  /** `piece` is a non-empty run of bytes inside one entry, beginning at flat position `q`. */
  ghost predicate InsideOneEntry(es: seq<seq<Byte>>, q: nat, piece: seq<Byte>) {
    piece != [] &&
    exists at: Place :: ValidPlace(Sizes(es), at) && at.offset + |piece| <= |es[at.index]|
                        && PositionOf(Sizes(es), at) == q
                        && piece == es[at.index][at.offset..at.offset + |piece|]
  }

  lemma {:induction false} ReadPieceInsideOneEntry(es: seq<seq<Byte>>, p: nat, count: nat)
    requires ReadPiece(es, p, count) != []
    ensures InsideOneEntry(es, p, ReadPiece(es, p, count))
  {
    var at := Locate(Sizes(es), p).value;
    assert PositionOf(Sizes(es), at) == p;
  }

  /** Each piece is what the reader must see next after the pieces before it. */
  predicate Consecutive(all: seq<Byte>, p: nat, pieces: seq<seq<Byte>>)
    decreases |pieces|
  {
    pieces == [] || (IsNext(all, p, pieces[0]) && Consecutive(all, p + |pieces[0]|, pieces[1..]))
  }

  /** Consecutive pieces concatenate to the content from `p` on; enough of them give all of it. */
  lemma {:induction false} ConsecutiveConcatenate(all: seq<Byte>, p: nat, pieces: seq<seq<Byte>>)
    requires Consecutive(all, p, pieces)
    ensures var got := Flatten(pieces);
            if p < |all| then p + |got| <= |all| && got == all[p..p + |got|] else got == []
    ensures p <= |all| && |pieces| >= |all| - p ==> Flatten(pieces) == all[p..]
    decreases |pieces|
  {
    if pieces != [] {
      ConsecutiveConcatenate(all, p + |pieces[0]|, pieces[1..]);
      FlattenCons(pieces[0], pieces[1..]);
      assert pieces == [pieces[0]] + pieces[1..];
    }
  }

  /** On an unchanged device, reads with positive counts from any position return consecutive
      pieces, each inside one entry, and nothing from the end of the content on. */
  lemma {:induction false} ReadsAreConsecutive(es: seq<seq<Byte>>, p: nat, counts: seq<nat>)
    requires forall i :: 0 <= i < |counts| ==> counts[i] > 0
    ensures |Reads(es, p, counts)| == |counts|
    ensures Consecutive(Flatten(es), p, Reads(es, p, counts))
  {
    var read := (q: nat, count: nat) => ReadPiece(es, q, count);
    forall q: nat, count: nat | count > 0 ensures IsNext(Flatten(es), q, read(q, count)) {
      ReadPieceIsNext(es, q, count);
    }
    SuccessiveAreConsecutive(read, Flatten(es), p, counts);
  }

  lemma {:induction false} SuccessiveAreConsecutive(read: (nat, nat) -> seq<Byte>, all: seq<Byte>,
                                                    p: nat, counts: seq<nat>)
    requires forall q: nat, count: nat :: count > 0 ==> IsNext(all, q, read(q, count))
    requires forall i :: 0 <= i < |counts| ==> counts[i] > 0
    ensures Consecutive(all, p, Successive(read, p, counts))
    decreases |counts|
  {
    if counts != [] {
      SuccessiveAreConsecutive(read, all, p + |read(p, counts[0])|, counts[1..]);
    }
  }

  lemma {:induction false} FlattenTakeCons(x: seq<Byte>, xs: seq<seq<Byte>>, i: nat)
    requires 0 < i <= |xs|
    ensures ([x] + xs)[i] == xs[i - 1]
    ensures |Flatten(([x] + xs)[..i])| == |x| + |Flatten(xs[..i - 1])|
  {
    assert ([x] + xs)[..i] == [x] + xs[..i - 1];
    FlattenCons(x, xs[..i - 1]);
  }

  /** Read `i` starts as far behind `p` as the pieces before it are long. */
  lemma {:induction false} SuccessiveAt(read: (nat, nat) -> seq<Byte>, p: nat, counts: seq<nat>, i: nat)
    requires i < |counts|
    ensures var pieces := Successive(read, p, counts);
            pieces[i] == read(p + |Flatten(pieces[..i])|, counts[i])
    decreases i
  {
    if i > 0 {
      var piece := read(p, counts[0]);
      SuccessiveAt(read, p + |piece|, counts[1..], i - 1);
      FlattenTakeCons(piece, Successive(read, p + |piece|, counts[1..]), i);
    }
  }

  lemma {:induction false} ReadsStayInsideEntries(es: seq<seq<Byte>>, p: nat, counts: seq<nat>, i: nat)
    requires i < |counts|
    ensures var pieces := Reads(es, p, counts);
            pieces[i] == [] || InsideOneEntry(es, p + |Flatten(pieces[..i])|, pieces[i])
  {
    var pieces := Reads(es, p, counts);
    var q := p + |Flatten(pieces[..i])|;
    SuccessiveAt((q: nat, count: nat) => ReadPiece(es, q, count), p, counts, i);
    PieceInsideOneEntry(es, q, counts[i], pieces[i]);
  }

  lemma {:induction false} PieceInsideOneEntry(es: seq<seq<Byte>>, q: nat, count: nat, piece: seq<Byte>)
    requires piece == ReadPiece(es, q, count)
    ensures piece == [] || InsideOneEntry(es, q, piece)
  {
    if piece != [] {
      ReadPieceInsideOneEntry(es, q, count);
    }
  }

  // ----- Address stability under commits -----

  /** Bytes that have left the window: the absolute index, in the flat string of the whole
      log, of the first byte still readable. */
  function Base(log: seq<seq<Byte>>): nat {
    if |log| <= CAPACITY then 0 else |Flatten(log[..|log| - CAPACITY])|
  }

  /** Readable content is the whole history from Base on. */
  lemma {:induction false} WindowIsSuffix(log: seq<seq<Byte>>)
    ensures Base(log) <= |Flatten(log)|
    ensures Flatten(Window(log)) == Flatten(log)[Base(log)..]
  {
    if |log| > CAPACITY {
      var k := |log| - CAPACITY;
      FlattenConcat(log[..k], log[k..]);
      assert log == log[..k] + log[k..];
    }
  }

  /** One commit: while the ring is not full every old position keeps its byte; a full ring
      shifts every position down by exactly the evicted entry's size. */
  lemma {:induction false} CommitShift(log: seq<seq<Byte>>, e: seq<Byte>)
    ensures |log| < CAPACITY ==> Flatten(Window(log + [e])) == Flatten(Window(log)) + e
    ensures |log| >= CAPACITY ==>
              && Window(log)[0] <= Flatten(Window(log))
              && Flatten(Window(log + [e])) == Flatten(Window(log))[|Window(log)[0]|..] + e
    ensures Base(log + [e]) == Base(log) + (if |log| < CAPACITY then 0 else |Window(log)[0]|)
  {
    var w := Window(log);
    var w' := Window(log + [e]);
    if |log| < CAPACITY {
      assert w' == w + [e];
      assert w'[..|w'| - 1] == w;
    } else {
      var k := |log| - CAPACITY;
      assert w' == w[1..] + [e];
      assert w'[..|w'| - 1] == w[1..];
      assert w == [w[0]] + w[1..];
      FlattenCons(w[0], w[1..]);
      assert (log + [e])[..k + 1] == log[..k] + [w[0]];
      assert (log[..k] + [w[0]])[..k] == log[..k];
    }
  }

  /** Any number of commits: Base only grows, and when no entry is empty it stays put
      exactly when nothing was evicted in between. */
  lemma {:induction false} BaseMonotone(log: seq<seq<Byte>>, n: nat)
    requires n <= |log|
    ensures Base(log[..n]) <= Base(log)
    ensures (forall i :: 0 <= i < |log| ==> log[i] != []) ==>
              (Base(log[..n]) == Base(log) <==> (|log| <= CAPACITY || n == |log|))
    decreases |log| - n
  {
    if n == |log| {
      assert log[..n] == log;
    } else {
      BaseMonotone(log, n + 1);
      assert log[..n + 1] == log[..n] + [log[n]];
      CommitShift(log[..n], log[n]);
      if n >= CAPACITY {
        var past := log[..n];
        assert Window(past)[0] == past[n - CAPACITY];
      }
    }
  }

  lemma {:induction false} FlattenPrefix(log: seq<seq<Byte>>, n: nat)
    requires n <= |log|
    ensures |Flatten(log[..n])| <= |Flatten(log)|
    ensures Flatten(log) == Flatten(log[..n]) + Flatten(log[n..])
  {
    FlattenConcat(log[..n], log[n..]);
    assert log == log[..n] + log[n..];
  }

  /** An entry in its place among its neighbours. */
  lemma {:induction false} FlattenAround(es: seq<seq<Byte>>, k: nat)
    requires k < |es|
    ensures Flatten(es) == Flatten(es[..k]) + es[k] + Flatten(es[k + 1..])
  {
    FlattenPrefix(es, k);
    assert es[k..] == [es[k]] + es[k + 1..];
    FlattenCons(es[k], es[k + 1..]);
  }

  /** With fewer than ten entries after it every byte of an entry lies at or behind the first
      readable one; with ten or more every byte lies before it. */
  lemma {:induction false} ReadableIff(log: seq<seq<Byte>>, j: nat)
    requires j < |log| && log[j] != []
    ensures |log| - j - 1 < CAPACITY <==> Base(log) <= |Flatten(log[..j])|
    ensures |log| - j - 1 >= CAPACITY <==> |Flatten(log[..j + 1])| <= Base(log)
  {
    assert log[..j + 1] == log[..j] + [log[j]];
    FlattenSnoc(log[..j], log[j]);
    var n := |log| - CAPACITY;
    if j < n {
      assert log[..n][..j + 1] == log[..j + 1];
      FlattenPrefix(log[..n], j + 1);
    } else if n > 0 {
      assert log[..j][..n] == log[..n];
      FlattenPrefix(log[..j], n);
    }
  }
}
