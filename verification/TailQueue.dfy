/** The TAILQ macros of server/queue.h: a queue in which every element also holds the address of
    the link field that reaches it, refining operations on a sequence. */
module TailQueue {

  class Element {
    var next: Element?
    var prev: Link

    constructor () {
      next, prev := null, NextOf(this);
    }
  }

  /** The address of a link field: a head's tqh_first or an element's tqe_next. */
  datatype Link = FirstOf(head: Head) | NextOf(elm: Element)

  /** The structure a link field lies in. */
  function Holder(l: Link): object {
    match l
    case FirstOf(head) => head
    case NextOf(elm) => elm
  }

  /** `*l` */
  function Deref(l: Link): Element?
    reads Holder(l)
  {
    match l
    case FirstOf(head) => head.first
    case NextOf(elm) => elm.next
  }

  /** The address stored right behind a link field. Reading it as TAILQ_LAST and TAILQ_PREV do,
      through a cast to the head's type, works because a head and an element lay out their two
      fields alike. */
  function Companion(l: Link): Link
    reads Holder(l)
  {
    match l
    case FirstOf(head) => head.last
    case NextOf(elm) => elm.prev
  }

  /** `*l = elm` */
  method Store(l: Link, elm: Element?)
    modifies (if l.FirstOf? then {l.head} else {})`first, (if l.NextOf? then {l.elm} else {})`next
    ensures Deref(l) == elm
  {
    match l {
      case FirstOf(head) => head.first := elm;
      case NextOf(before) => before.next := elm;
    }
  }

  class Head {
    var first: Element?
    var last: Link
    /** The elements of the queue, in order. */
    ghost var elems: seq<Element>

    ghost predicate Valid()
      reads this, elems
    {
      && first == LinkAt(0)
      && (forall i {:trigger elems[i].next} :: 0 <= i < |elems| ==> elems[i].next == LinkAt(i + 1))
      && (forall i {:trigger elems[i].prev} :: 0 <= i < |elems| ==> elems[i].prev == AddressOf(i))
      && last == AddressOf(|elems|)
    }

    /** What the link in front of position `i` holds. */
    ghost function LinkAt(i: nat): Element?
      requires i <= |elems|
      reads this`elems
    {
      if i == |elems| then null else elems[i]
    }

    /** The address of the link in front of position `i`. */
    ghost function AddressOf(i: nat): Link
      requires i <= |elems|
      reads this`elems
    {
      if i == 0 then FirstOf(this) else NextOf(elems[i - 1])
    }

    /** Every link is reached by its address: dereferencing the address of the link in front of a
        position gives the element there. */
    lemma {:induction false} AddressReachesElement(i: nat)
      requires Valid() && i <= |elems|
      ensures Deref(AddressOf(i)) == LinkAt(i)
    {
      if i > 0 {
        assert elems[i - 1].next == LinkAt(i);
      }
    }

    /** A queue that ends has no cycle: no element stands in it twice. */
    lemma {:induction false} NoCycle(i: nat, j: nat)
      requires Valid() && i < j < |elems|
      ensures elems[i] != elems[j]
      decreases |elems| - j
    {
      assert elems[i].next == LinkAt(i + 1) && elems[j].next == LinkAt(j + 1);
      if j + 1 < |elems| {
        NoCycle(i + 1, j + 1);
      }
    }

    lemma {:induction false} Distinct()
      requires Valid()
      ensures forall i, j :: 0 <= i < j < |elems| ==> elems[i] != elems[j]
    {
      forall i: nat, j | i < j < |elems| ensures elems[i] != elems[j] {
        NoCycle(i, j);
      }
    }

    /** Back pointers lead to the head an element belongs to: no element is in two queues. */
    lemma {:induction false} InOneQueue(other: Head, i: nat, j: nat)
      requires Valid() && other.Valid() && this != other && i < |elems| && j < |other.elems|
      ensures elems[i] != other.elems[j]
    {
      assert elems[i].prev == AddressOf(i) && other.elems[j].prev == other.AddressOf(j);
      if i > 0 && j > 0 {
        InOneQueue(other, i - 1, j - 1);
      }
    }

    lemma {:induction false} Disjoint(other: Head)
      requires Valid() && other.Valid() && this != other
      ensures forall e :: e in elems ==> e !in other.elems
    {
      forall i: nat, j: nat | i < |elems| && j < |other.elems| ensures elems[i] != other.elems[j] {
        InOneQueue(other, i, j);
      }
    }

    /** The links after `elm` went in front of position `p` of a queue that held `was`: the
        elements before it keep the links of their places, those behind move one place on. */
    lemma {:induction false} InsertedIsValid(was: seq<Element>, p: nat, elm: Element)
      requires p <= |was| == |elems| - 1
      requires forall i {:trigger elems[i]} :: 0 <= i < p ==> elems[i] == was[i]
      requires elems[p] == elm
      requires forall i {:trigger elems[i]} :: p < i < |elems| ==> elems[i] == was[i - 1]
      requires first == LinkAt(0) && last == AddressOf(|elems|)
      requires elm.next == LinkAt(p + 1) && elm.prev == AddressOf(p)
      requires forall i {:trigger was[i].next} :: 0 <= i < p ==> was[i].next == LinkAt(i + 1)
      requires forall i {:trigger was[i].next} :: p <= i < |was| ==> was[i].next == LinkAt(i + 2)
      requires forall i {:trigger was[i].prev} :: 0 <= i < p ==> was[i].prev == AddressOf(i)
      requires forall i {:trigger was[i].prev} :: p <= i < |was| ==> was[i].prev == AddressOf(i + 1)
      ensures Valid()
    {
    }

    /** The links after position `p` went out of a queue that held `was`. */
    lemma {:induction false} RemovedIsValid(was: seq<Element>, p: nat)
      requires p < |was| == |elems| + 1
      requires forall i {:trigger elems[i]} :: 0 <= i < p ==> elems[i] == was[i]
      requires forall i {:trigger elems[i]} :: p <= i < |elems| ==> elems[i] == was[i + 1]
      requires first == LinkAt(0) && last == AddressOf(|elems|)
      requires forall i {:trigger was[i].next} :: 0 <= i < p ==> was[i].next == LinkAt(i + 1)
      requires forall i {:trigger was[i].next} :: p < i < |was| ==> was[i].next == LinkAt(i)
      requires forall i {:trigger was[i].prev} :: 0 <= i < p ==> was[i].prev == AddressOf(i)
      requires forall i {:trigger was[i].prev} :: p < i < |was| ==> was[i].prev == AddressOf(i - 1)
      ensures Valid()
    {
    }

    /** The links after `theirs` went behind `was`: every element has the links of its new place. */
    lemma {:induction false} JoinedIsValid(was: seq<Element>, theirs: seq<Element>)
      requires |elems| == |was| + |theirs|
      requires forall i {:trigger elems[i]} :: 0 <= i < |was| ==> elems[i] == was[i]
      requires forall i {:trigger elems[i]} :: |was| <= i < |elems| ==> elems[i] == theirs[i - |was|]
      requires first == LinkAt(0) && last == AddressOf(|elems|)
      requires forall i {:trigger was[i].next} :: 0 <= i < |was| ==> was[i].next == LinkAt(i + 1)
      requires forall i {:trigger was[i].prev} :: 0 <= i < |was| ==> was[i].prev == AddressOf(i)
      requires forall i {:trigger theirs[i].next} :: 0 <= i < |theirs| ==> theirs[i].next == LinkAt(|was| + i + 1)
      requires forall i {:trigger theirs[i].prev} :: 0 <= i < |theirs| ==> theirs[i].prev == AddressOf(|was| + i)
      ensures Valid()
    {
    }

    /** TAILQ_INIT */
    constructor ()
      ensures Valid() && elems == []
    {
      first, last, elems := null, FirstOf(this), [];
    }

    method Init()
      modifies this
      ensures Valid() && elems == []
    {
      first, last, elems := null, FirstOf(this), [];
    }

    /** TAILQ_EMPTY */
    predicate Empty()
      requires Valid()
      reads this, elems
      ensures Empty() <==> elems == []
    {
      first == null
    }

    /** TAILQ_LAST */
    method Last() returns (r: Element?)
      requires Valid()
      ensures r == if elems == [] then null else elems[|elems| - 1]
    {
      r := Deref(Companion(last));
      if elems != [] {
        AddressReachesElement(|elems| - 1);
        assert elems[|elems| - 1].prev == AddressOf(|elems| - 1);
      }
    }

    /** TAILQ_PREV */
    method Prev(elm: Element, ghost i: nat) returns (r: Element?)
      requires Valid() && i < |elems| && elems[i] == elm
      ensures r == if i == 0 then null else elems[i - 1]
    {
      assert elems[i].prev == AddressOf(i);
      r := Deref(Companion(elm.prev));
      if i == 0 {
        AddressReachesElement(|elems|);
      } else {
        assert elems[i - 1].prev == AddressOf(i - 1);
        AddressReachesElement(i - 1);
      }
    }

    /** TAILQ_FOREACH_REVERSE visits every element once, last to first. */
    method ForeachReverse() returns (visited: seq<Element>)
      requires Valid()
      ensures |visited| == |elems|
      ensures forall k :: 0 <= k < |elems| ==> visited[k] == elems[|elems| - 1 - k]
    {
      visited := [];
      var current := Last();
      while current != null
        invariant |visited| <= |elems|
        invariant current == if |visited| < |elems| then elems[|elems| - 1 - |visited|] else null
        invariant forall k :: 0 <= k < |visited| ==> visited[k] == elems[|elems| - 1 - k]
        decreases |elems| - |visited|
      {
        var before := Prev(current, |elems| - 1 - |visited|);
        visited := visited + [current];
        current := before;
      }
    }

    /** TAILQ_INSERT_HEAD */
    method InsertHead(elm: Element)
      requires Valid() && elm !in elems
      modifies this, elm, elems
      ensures Valid() && elems == [elm] + old(elems)
    {
      Distinct();
      elm.next := first;
      if elm.next != null {
        first.prev := NextOf(elm);
      } else {
        last := NextOf(elm);
      }
      first := elm;
      elm.prev := FirstOf(this);
      elems := [elm] + elems;
    }

    /** TAILQ_INSERT_TAIL */
    method InsertTail(elm: Element)
      requires Valid() && elm !in elems
      modifies this, elm, elems
      ensures Valid() && elems == old(elems) + [elm]
    {
      Distinct();
      elm.next := null;
      elm.prev := last;
      Store(last, elm);
      last := NextOf(elm);
      elems := elems + [elm];
    }

    /** TAILQ_INSERT_AFTER */
    method InsertAfter(listelm: Element, elm: Element, ghost before: seq<Element>, ghost after: seq<Element>)
      requires Valid() && elems == before + [listelm] + after && elm !in elems
      modifies this, elm, elems
      ensures Valid() && elems == before + [listelm, elm] + after
    {
      Distinct();
      ghost var was, k := elems, |before|;
      assert was[k] == listelm;
      elm.next := listelm.next;
      if elm.next != null {
        elm.next.prev := NextOf(elm);
      } else {
        last := NextOf(elm);
      }
      listelm.next := elm;
      elm.prev := NextOf(listelm);
      elems := before + [listelm, elm] + after;
      InsertedIsValid(was, k + 1, elm);
    }

    /** TAILQ_INSERT_BEFORE: needs no head, the back pointer finds the link to change. */
    method InsertBefore(listelm: Element, elm: Element, ghost before: seq<Element>, ghost after: seq<Element>)
      requires Valid() && elems == before + [listelm] + after && elm !in elems
      modifies this, elm, elems
      ensures Valid() && elems == before + [elm, listelm] + after
    {
      Distinct();
      ghost var was, k := elems, |before|;
      assert was[k] == listelm;
      elm.prev := listelm.prev;
      elm.next := listelm;
      Store(listelm.prev, elm);
      listelm.prev := NextOf(elm);
      elems := before + [elm, listelm] + after;
      InsertedIsValid(was, k, elm);
    }

    /** TAILQ_REMOVE: no search, the back pointer finds the link to change. */
    method Remove(elm: Element, ghost before: seq<Element>, ghost after: seq<Element>)
      requires Valid() && elems == before + [elm] + after
      modifies this, elems
      ensures Valid() && elems == before + after
    {
      Distinct();
      ghost var was, k := elems, |before|;
      assert was[k] == elm;
      if elm.next != null {
        elm.next.prev := elm.prev;
      } else {
        last := elm.prev;
      }
      Store(elm.prev, elm.next);
      elems := before + after;
      RemovedIsValid(was, k);
    }

    /** TAILQ_CONCAT: appends the other queue and leaves it empty. */
    method Concat(other: Head)
      requires this != other && Valid() && other.Valid()
      modifies this, other, elems, other.elems
      ensures Valid() && elems == old(elems + other.elems)
      ensures other.Valid() && other.elems == []
    {
      if !other.Empty() {
        Distinct();
        other.Distinct();
        Disjoint(other);
        ghost var was, theirs := elems, other.elems;
        assert forall i {:trigger theirs[i]} :: 0 <= i < |theirs| ==> theirs[i] !in was;
        Store(last, other.first);
        other.first.prev := last;
        last := other.last;
        elems := was + theirs;
        other.Init();
        JoinedIsValid(was, theirs);
      }
    }

    /** Valid() for a head that took over the elements of another: their chain still starts at the
        other head's link `from`, and an empty head's last address is still the other's. */
    ghost predicate TakenFrom(from: Head)
      reads this, elems
    {
      && first == LinkAt(0)
      && (forall i {:trigger elems[i].next} :: 0 <= i < |elems| ==> elems[i].next == LinkAt(i + 1))
      && (forall i {:trigger elems[i].prev} :: 0 < i < |elems| ==> elems[i].prev == AddressOf(i))
      && (elems != [] ==> elems[0].prev == FirstOf(from) && last == AddressOf(|elems|))
    }

    /** The repair at the end of TAILQ_SWAP: points the chain back at its new head. */
    method Adopt(ghost from: Head)
      requires TakenFrom(from) && forall i, j :: 0 <= i < j < |elems| ==> elems[i] != elems[j]
      modifies this`last, (set e | e in elems)`prev
      ensures Valid()
    {
      if first != null {
        first.prev := FirstOf(this);
      } else {
        last := FirstOf(this);
      }
    }

    /** TAILQ_SWAP: exchanges the contents of two queues. */
    method Swap(other: Head)
      requires Valid() && other.Valid()
      modifies this, other, elems, other.elems
      ensures Valid() && elems == old(other.elems)
      ensures other.Valid() && other.elems == old(elems)
    {
      Distinct();
      other.Distinct();
      if this != other {
        Disjoint(other);
      }
      var swapFirst, swapLast := first, last;
      ghost var swapElems := elems;
      first, last, elems := other.first, other.last, other.elems;
      other.first, other.last, other.elems := swapFirst, swapLast, swapElems;
      Adopt(other);
      other.Adopt(this);
    }
  }
}
