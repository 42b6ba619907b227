/** The list of thread records on the heap: the SLIST macros of server/queue.h as main uses
    them, with the traversal that frees records as it goes. */
module ThreadList {

  /** struct thread_data */
  class ThreadData {
    var threadComplete: bool
    var next: ThreadData?

    constructor ()
      ensures !threadComplete && next == null
    {
      threadComplete, next := false, null;
    }
  }

  /** The records of `ns` whose flag is `complete`, in order. */
  ghost function Those(ns: seq<ThreadData>, complete: bool): seq<ThreadData>
    reads (set n | n in ns)`threadComplete
  {
    if ns == [] then [] else (if ns[0].threadComplete == complete then [ns[0]] else []) + Those(ns[1..], complete)
  }

  /** struct thread_pool_head */
  class ThreadPoolHead {
    var first: ThreadData?
    /** The records in the list, in order. */
    ghost var nodes: seq<ThreadData>
    /** Records given back to free(), first to last; nothing may read or write them any more. */
    ghost var freed: seq<ThreadData>
    /** Records whose thread was joined, first to last. */
    ghost var joined: seq<ThreadData>

    ghost predicate Valid()
      reads this, nodes
    {
      && (forall n :: n in nodes ==> n !in freed)
      && first == LinkAt(0)
      && (forall i {:trigger nodes[i].next} :: 0 <= i < |nodes| ==> nodes[i].next == LinkAt(i + 1))
    }

    /** What the link in front of position `i` holds. */
    ghost function LinkAt(i: nat): ThreadData?
      requires i <= |nodes|
      reads this`nodes
    {
      if i == |nodes| then null else nodes[i]
    }

    /** A list that ends has no cycle: no record stands in it twice. */
    lemma {:induction false} NoCycle(i: nat, j: nat)
      requires Valid() && i < j < |nodes|
      ensures nodes[i] != nodes[j]
      decreases |nodes| - j
    {
      assert nodes[i].next == LinkAt(i + 1) && nodes[j].next == LinkAt(j + 1);
      if j + 1 < |nodes| {
        NoCycle(i + 1, j + 1);
      }
    }

    lemma {:induction false} Distinct()
      requires Valid()
      ensures forall i, j :: 0 <= i < j < |nodes| ==> nodes[i] != nodes[j]
    {
      forall i: nat, j | i < j < |nodes| ensures nodes[i] != nodes[j] {
        NoCycle(i, j);
      }
    }

    /** SLIST_INIT */
    constructor ()
      ensures Valid() && nodes == [] && freed == [] && joined == []
    {
      first, nodes, freed, joined := null, [], [], [];
    }

    /** SLIST_NEXT; reading a freed record is not allowed. */
    function Next(n: ThreadData): ThreadData?
      requires n !in freed
      reads this`freed, n`next
    {
      n.next
    }

    /** SLIST_INSERT_HEAD */
    method InsertHead(elm: ThreadData)
      requires Valid() && elm !in nodes && elm !in freed
      modifies this, elm`next
      ensures Valid() && nodes == [elm] + old(nodes)
      ensures freed == old(freed) && joined == old(joined)
    {
      elm.next := first;
      first := elm;
      nodes := [elm] + nodes;
    }

    /** SLIST_REMOVE_HEAD */
    method RemoveHead()
      requires Valid() && nodes != []
      modifies this`first, this`nodes
      ensures Valid() && nodes == old(nodes)[1..]
    {
      first := Next(first);
      nodes := nodes[1..];
    }

    /** SLIST_REMOVE_AFTER */
    method RemoveAfter(elm: ThreadData, ghost i: nat)
      requires Valid() && i + 1 < |nodes| && nodes[i] == elm
      modifies this`nodes, elm`next
      ensures Valid() && nodes == old(nodes)[..i + 1] + old(nodes)[i + 2..]
    {
      Distinct();
      elm.next := Next(Next(elm));
      nodes := nodes[..i + 1] + nodes[i + 2..];
    }

    /** SLIST_REMOVE: searches again from the head for the link to `elm`, which stands between
        `before` and `after`. */
    method Remove(elm: ThreadData, ghost before: seq<ThreadData>, ghost after: seq<ThreadData>)
      requires Valid() && nodes == before + [elm] + after
      modifies this`first, this`nodes, (set n | n in nodes && n != elm)`next
      ensures Valid() && nodes == before + after
    {
      Distinct();
      ghost var k := |before|;
      assert nodes[k] == elm && nodes[..k] == before && nodes[k + 1..] == after;
      if first == elm {
        RemoveHead();
      } else {
        var curelm := first;
        ghost var i := 0;
        while Next(curelm) != elm
          invariant 0 <= i < k && curelm == nodes[i]
          decreases k - i
        {
          curelm := Next(curelm);
          i := i + 1;
        }
        RemoveAfter(curelm, i);
      }
    }

    /** free() */
    ghost method Free(elm: ThreadData)
      requires Valid() && elm !in nodes && elm !in freed
      modifies this`freed
      ensures Valid() && freed == old(freed) + [elm]
    {
      freed := freed + [elm];
    }

    /** pthread_join of a record's thread; a second join is not allowed. */
    ghost method JoinThread(elm: ThreadData)
      requires elm !in freed && elm !in joined
      modifies this`joined
      ensures joined == old(joined) + [elm]
    {
      joined := joined + [elm];
    }

    lemma {:induction false} SuccessorOf(elm: ThreadData, before: seq<ThreadData>, after: seq<ThreadData>)
      requires Valid() && nodes == before + [elm] + after
      ensures elm.next == if after == [] then null else after[0]
      ensures elm !in before && elm !in after
    {
      Distinct();
      assert nodes[|before|] == elm;
      assert forall i :: 0 <= i < |before| ==> nodes[i] == before[i];
      assert forall i :: 0 <= i < |after| ==> nodes[|before| + 1 + i] == after[i];
    }

    /** One iteration of the reap pass, at a record between `kept` and `rest`. The successor is
        read before the record can be freed, and is still in the list afterwards. */
    method ReapOne(current: ThreadData, ghost kept: seq<ThreadData>, ghost rest: seq<ThreadData>)
      returns (temp: ThreadData?)
      requires Valid() && nodes == kept + [current] + rest && current !in joined
      modifies this`first, this`nodes, this`freed, this`joined, (set n | n in nodes && n != current)`next
      ensures Valid() && nodes == (if current.threadComplete then kept else kept + [current]) + rest
      ensures temp == (if rest == [] then null else rest[0]) && current !in rest
      ensures joined == old(joined) + if current.threadComplete then [current] else []
      ensures freed == old(freed) + if current.threadComplete then [current] else []
    {
      SuccessorOf(current, kept, rest);
      assert current in nodes;
      temp := Next(current);
      if current.threadComplete {
        JoinThread(current);
        Remove(current, kept, rest);
        Free(current);
      }
    }

    /** The reap pass: SLIST_FOREACH_SAFE over the list, joining, unlinking and freeing every
        complete record. What stays is the incomplete records in their order. */
    method Reap()
      requires Valid() && (forall n :: n in nodes ==> n !in joined)
      modifies this`first, this`nodes, this`freed, this`joined, (set n | n in nodes)`next
      ensures Valid()
      ensures nodes == old(Those(nodes, false))
      ensures joined == old(joined) + old(Those(nodes, true))
      ensures freed == old(freed) + old(Those(nodes, true))
    {
      ghost var staying, leaving := Those(nodes, false), Those(nodes, true);
      ghost var kept: seq<ThreadData>, gone: seq<ThreadData>, rest := [], [], nodes;
      var current := first;
      while current != null
        invariant Valid() && nodes == kept + rest
        invariant kept + Those(rest, false) == staying
        invariant gone + Those(rest, true) == leaving
        invariant current == if rest == [] then null else rest[0]
        invariant joined == old(joined) + gone && freed == old(freed) + gone
        invariant forall n :: n in rest ==> n !in joined
        invariant forall n :: n in nodes ==> n in old(nodes)
        decreases |rest|
      {
        ghost var at, tail := ReapStep(kept, gone, rest);
        current := ReapOne(current, kept, tail);
        if at.threadComplete {
          gone := gone + [at];
        } else {
          kept := kept + [at];
        }
        rest := tail;
      }
    }

    /** The shutdown loop: joins, unlinks and frees every record, first to last. */
    method Drain()
      requires Valid() && (forall n :: n in nodes ==> n !in joined)
      modifies this
      ensures Valid() && nodes == [] && first == null
      ensures joined == old(joined + nodes)
      ensures freed == old(freed + nodes)
    {
      ghost var all := nodes;
      ghost var i := 0;
      while first != null
        invariant 0 <= i <= |all| && Valid() && nodes == all[i..]
        invariant joined == old(joined) + all[..i]
        invariant freed == old(freed) + all[..i]
        decreases |nodes|
      {
        var temp := first;
        Distinct();
        JoinThread(temp);
        RemoveHead();
        Free(temp);
        assert all[..i + 1] == all[..i] + [temp];
        i := i + 1;
      }
      assert all[..|all|] == all;
    }
  }

  /** The head of `rest` goes to the end of those kept or joins those gone. */
  lemma {:induction false} ReapStep(kept: seq<ThreadData>, gone: seq<ThreadData>, rest: seq<ThreadData>)
    returns (head: ThreadData, tail: seq<ThreadData>)
    requires rest != []
    ensures head == rest[0] && rest == [head] + tail
    ensures kept + rest == kept + [head] + tail
    ensures if head.threadComplete
            then && Those(rest, false) == Those(tail, false)
                 && gone + Those(rest, true) == gone + [head] + Those(tail, true)
            else && kept + Those(rest, false) == kept + [head] + Those(tail, false)
                 && Those(rest, true) == Those(tail, true)
  {
    head, tail := rest[0], rest[1..];
    assert rest == [head] + tail;
  }

  /** Nothing is lost or repeated: the kept and the reaped records together are the old list. */
  lemma {:induction false} ReapPartitions(ns: seq<ThreadData>)
    ensures multiset(Those(ns, false)) + multiset(Those(ns, true)) == multiset(ns)
  {
    if ns != [] {
      ReapPartitions(ns[1..]);
      assert ns == [ns[0]] + ns[1..];
    }
  }

  /** A selection keeps order: that of a joined list is the selections joined. */
  lemma {:induction false} ThoseInOrder(a: seq<ThreadData>, b: seq<ThreadData>, complete: bool)
    ensures Those(a + b, complete) == Those(a, complete) + Those(b, complete)
  {
    if a == [] {
      assert a + b == b;
    } else {
      ThoseInOrder(a[1..], b, complete);
      assert (a + b)[1..] == a[1..] + b && (a + b)[0] == a[0];
    }
  }

  /** What is selected is what has the flag. */
  lemma {:induction false} ThoseHaveFlag(ns: seq<ThreadData>, complete: bool)
    ensures forall n :: n in Those(ns, complete) <==> n in ns && n.threadComplete == complete
  {
    if ns != [] {
      ThoseHaveFlag(ns[1..], complete);
      assert ns == [ns[0]] + ns[1..];
    }
  }
}
