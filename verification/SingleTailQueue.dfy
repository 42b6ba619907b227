/** The STAILQ macros of server/queue.h: a singly linked queue whose head also keeps the address
    of the last link field, refining operations on a sequence. */
module SingleTailQueue {

  class Element {
    var next: Element?

    constructor () {
      next := null;
    }
  }

  /** The address of a link field: a head's stqh_first or an element's stqe_next. */
  datatype Link = FirstOf(head: Head) | NextOf(elm: Element)

  class Head {
    var first: Element?
    var last: Link
    /** The elements of the queue, in order. */
    ghost var elems: seq<Element>

    ghost predicate Valid()
      reads this, elems
    {
      && first == LinkAt(0)
      && (forall i {:trigger elems[i].next} :: 0 <= i < |elems| ==> elems[i].next == LinkAt(i + 1))
      && last == AddressOf(|elems|)
    }

    /** What the link in front of position `i` holds. */
    ghost function LinkAt(i: nat): Element?
      requires i <= |elems|
      reads this`elems
    {
      if i == |elems| then null else elems[i]
    }

    /** The address of the link in front of position `i`. */
    ghost function AddressOf(i: nat): Link
      requires i <= |elems|
      reads this`elems
    {
      if i == 0 then FirstOf(this) else NextOf(elems[i - 1])
    }

    /** A queue that ends has no cycle: no element stands in it twice. */
    lemma {:induction false} NoCycle(i: nat, j: nat)
      requires Valid() && i < j < |elems|
      ensures elems[i] != elems[j]
      decreases |elems| - j
    {
      assert elems[i].next == LinkAt(i + 1) && elems[j].next == LinkAt(j + 1);
      if j + 1 < |elems| {
        NoCycle(i + 1, j + 1);
      }
    }

    lemma {:induction false} Distinct()
      requires Valid()
      ensures forall i, j :: 0 <= i < j < |elems| ==> elems[i] != elems[j]
    {
      forall i: nat, j | i < j < |elems| ensures elems[i] != elems[j] {
        NoCycle(i, j);
      }
    }

    /** The links after `theirs` went behind `was`: every element has the link of its new place. */
    lemma {:induction false} JoinedIsValid(was: seq<Element>, theirs: seq<Element>)
      requires |elems| == |was| + |theirs|
      requires forall i {:trigger elems[i]} :: 0 <= i < |was| ==> elems[i] == was[i]
      requires forall i {:trigger elems[i]} :: |was| <= i < |elems| ==> elems[i] == theirs[i - |was|]
      requires first == LinkAt(0) && last == AddressOf(|elems|)
      requires forall i {:trigger was[i].next} :: 0 <= i < |was| ==> was[i].next == LinkAt(i + 1)
      requires forall i {:trigger theirs[i].next} :: 0 <= i < |theirs| ==> theirs[i].next == LinkAt(|was| + i + 1)
      ensures Valid()
    {
    }

    /** STAILQ_INIT */
    constructor ()
      ensures Valid() && elems == []
    {
      first, last, elems := null, FirstOf(this), [];
    }

    method Init()
      modifies this
      ensures Valid() && elems == []
    {
      first, last, elems := null, FirstOf(this), [];
    }

    /** STAILQ_EMPTY */
    predicate Empty()
      requires Valid()
      reads this, elems
      ensures Empty() <==> elems == []
    {
      first == null
    }

    /** STAILQ_LAST: the element whose link field the head's last address lies in. */
    function Last(): (r: Element?)
      requires Valid()
      reads this, elems
      ensures r == if elems == [] then null else elems[|elems| - 1]
    {
      if Empty() then null else last.elm
    }

    /** The store through the last address, `*last = elm`. */
    method StoreLast(elm: Element?)
      requires last == FirstOf(this) || last.NextOf?
      modifies this`first, (if last.NextOf? then {last.elm} else {})`next
      ensures if last.NextOf? then first == old(first) && last.elm.next == elm else first == elm
    {
      match last {
        case FirstOf(head) => first := elm;
        case NextOf(tail) => tail.next := elm;
      }
    }

    /** STAILQ_INSERT_HEAD */
    method InsertHead(elm: Element)
      requires Valid() && elm !in elems
      modifies this, elm
      ensures Valid() && elems == [elm] + old(elems)
    {
      elm.next := first;
      if elm.next == null {
        last := NextOf(elm);
      }
      first := elm;
      elems := [elm] + elems;
    }

    /** STAILQ_INSERT_TAIL */
    method InsertTail(elm: Element)
      requires Valid() && elm !in elems
      modifies this, elm, elems
      ensures Valid() && elems == old(elems) + [elm]
    {
      Distinct();
      elm.next := null;
      StoreLast(elm);
      last := NextOf(elm);
      elems := elems + [elm];
    }

    /** STAILQ_INSERT_AFTER */
    method InsertAfter(tqelm: Element, elm: Element, ghost before: seq<Element>, ghost after: seq<Element>)
      requires Valid() && elems == before + [tqelm] + after && elm !in elems
      modifies this, elm, tqelm
      ensures Valid() && elems == before + [tqelm, elm] + after
    {
      Distinct();
      assert elems[|before|] == tqelm;
      elm.next := tqelm.next;
      if elm.next == null {
        last := NextOf(elm);
      }
      tqelm.next := elm;
      ghost var was, k := elems, |before|;
      elems := before + [tqelm, elm] + after;
      forall i | 0 <= i < |elems| ensures elems[i].next == LinkAt(i + 1) {
        assert elems[i] == if i <= k then was[i] else if i == k + 1 then elm else was[i - 1];
        assert k + 2 < |elems| ==> elems[k + 2] == was[k + 1];
      }
    }

    /** STAILQ_REMOVE_HEAD */
    method RemoveHead()
      requires Valid() && elems != []
      modifies this
      ensures Valid() && elems == old(elems)[1..]
    {
      first := first.next;
      if first == null {
        last := FirstOf(this);
      }
      elems := elems[1..];
    }

    /** STAILQ_REMOVE_AFTER */
    method RemoveAfter(elm: Element, ghost before: seq<Element>, ghost removed: Element, ghost after: seq<Element>)
      requires Valid() && elems == before + [elm, removed] + after
      modifies this, elm
      ensures Valid() && elems == before + [elm] + after
    {
      Distinct();
      assert elems[|before|] == elm && elems[|before| + 1] == removed;
      elm.next := elm.next.next;
      if elm.next == null {
        last := NextOf(elm);
      }
      ghost var was, k := elems, |before|;
      elems := before + [elm] + after;
      forall i | 0 <= i < |elems| ensures elems[i].next == LinkAt(i + 1) {
        assert elems[i] == if i <= k then was[i] else was[i + 1];
        assert k + 1 < |elems| ==> elems[k + 1] == was[k + 2];
      }
    }

    /** STAILQ_REMOVE: searches from the head for the link to `elm`. */
    method Remove(elm: Element, ghost before: seq<Element>, ghost after: seq<Element>)
      requires Valid() && elems == before + [elm] + after
      modifies this, elems
      ensures Valid() && elems == before + after
    {
      Distinct();
      ghost var k := |before|;
      assert elems[k] == elm && elems[..k] == before && elems[k + 1..] == after;
      if first == elm {
        RemoveHead();
      } else {
        var curelm := first;
        ghost var i := 0;
        while curelm.next != elm
          invariant 0 <= i < k && curelm == elems[i]
          decreases k - i
        {
          curelm := curelm.next;
          i := i + 1;
        }
        assert before == before[..i] + [curelm];
        RemoveAfter(curelm, before[..i], elm, after);
      }
    }

    /** STAILQ_CONCAT: appends the other queue and leaves it empty. */
    method Concat(other: Head)
      requires this != other && Valid() && other.Valid()
      requires forall e :: e in elems ==> e !in other.elems
      modifies this, other, elems
      ensures Valid() && elems == old(elems + other.elems)
      ensures other.Valid() && other.elems == []
    {
      if !other.Empty() {
        Distinct();
        ghost var was, theirs := elems, other.elems;
        assert forall i {:trigger theirs[i]} :: 0 <= i < |theirs| ==> theirs[i] !in was;
        StoreLast(other.first);
        last := other.last;
        elems := was + theirs;
        other.Init();
        JoinedIsValid(was, theirs);
      }
    }

    /** STAILQ_SWAP: exchanges the contents of two queues. */
    method Swap(other: Head)
      requires Valid() && other.Valid()
      modifies this, other
      ensures Valid() && elems == old(other.elems)
      ensures other.Valid() && other.elems == old(elems)
    {
      var swapFirst, swapLast := first, last;
      ghost var swapElems := elems;
      first, last, elems := other.first, other.last, other.elems;
      other.first, other.last, other.elems := swapFirst, swapLast, swapElems;
      if first == null {
        last := FirstOf(this);
      }
      if other.first == null {
        other.last := FirstOf(other);
      }
    }
  }
}
