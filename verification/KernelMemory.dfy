/** The allocator the driver calls, as a map of live blocks. Freeing or resizing anything
    that is not live is a precondition violation, so a verified caller does neither. */
module KernelMemory {
  import opened Contents

  const NULL: nat := 0
  /** What the kernel returns for a zero-byte allocation; freeing it is a no-op. */
  const ZERO_SIZE_PTR: nat := 16

  predicate ZeroOrNull(p: nat) { p == NULL || p == ZERO_SIZE_PTR }

  class Slab {
    var blocks: map<nat, seq<Byte>>

    constructor ()
      ensures blocks == map[]
    {
      blocks := map[];
    }

    /** krealloc: may fail and change nothing; otherwise the block keeps its first bytes,
        possibly under a fresh address, and the rest is unspecified. */
    method Krealloc(p: nat, newSize: nat, fails: bool) returns (q: nat)
      requires ZeroOrNull(p) || p in blocks
      requires NULL !in blocks && ZERO_SIZE_PTR !in blocks
      modifies this
      ensures q == NULL <==> fails
      ensures q == NULL ==> blocks == old(blocks)
      ensures q != NULL && newSize == 0 ==> q == ZERO_SIZE_PTR && blocks == old(blocks) - {p}
      ensures q != NULL && newSize > 0 ==>
                && q != ZERO_SIZE_PTR && (q == p || q !in old(blocks))
                && q in blocks && |blocks[q]| == newSize
                && blocks == (old(blocks) - {p})[q := blocks[q]]
                && (p in old(blocks) ==>
                      var n := Min(|old(blocks)[p]|, newSize); blocks[q][..n] == old(blocks)[p][..n])
    {
      if fails {
        return NULL;
      }
      if newSize == 0 {
        blocks := blocks - {p};
        return ZERO_SIZE_PTR;
      }
      var inPlace: bool := *;
      if inPlace && p in blocks {
        q := p;
      } else {
        q := FreshAddress();
      }
      var kept := if p in blocks then blocks[p][..Min(|blocks[p]|, newSize)] else [];
      var filler: Byte := *;
      blocks := (blocks - {p})[q := kept + seq(newSize - |kept|, _ => filler)];
    }

    method FreshAddress() returns (q: nat)
      ensures q !in blocks && q > ZERO_SIZE_PTR
    {
      ghost var bound := AddressBound(blocks.Keys);
      q := ZERO_SIZE_PTR + 1;
      while q in blocks
        invariant q > ZERO_SIZE_PTR
        decreases bound - q
      {
        q := q + 1;
      }
    }

    method Kfree(p: nat)
      requires ZeroOrNull(p) || p in blocks
      requires NULL !in blocks && ZERO_SIZE_PTR !in blocks
      modifies this
      ensures blocks == old(blocks) - {p}
    {
      blocks := blocks - {p};
    }

    /** copy_from_user into a live block. A fault leaves the target range unspecified; copying
        nothing cannot fault. */
    method CopyIn(p: nat, offset: nat, bytes: seq<Byte>, faulty: bool) returns (failed: bool)
      requires if p in blocks then offset + |bytes| <= |blocks[p]| else offset == |bytes| == 0
      modifies this
      ensures failed == (faulty && bytes != [])
      ensures p !in old(blocks) ==> blocks == old(blocks)
      ensures p in old(blocks) ==>
                && p in blocks
                && |blocks[p]| == |old(blocks)[p]|
                && blocks == old(blocks)[p := blocks[p]]
                && (!failed ==> blocks[p] == old(blocks)[p][..offset] + bytes + old(blocks)[p][offset + |bytes|..])
    {
      failed := faulty && bytes != [];
      var n := |bytes|;
      if failed {
        n :| 0 <= n < |bytes|;
      }
      if p in blocks {
        var block := blocks[p];
        blocks := blocks[p := block[..offset] + bytes[..n] + block[offset + n..]];
      }
    }
  }

  lemma {:induction false} AddressBound(s: set<nat>) returns (bound: nat)
    ensures forall x :: x in s ==> x < bound
  {
    if s == {} {
      bound := 0;
    } else {
      var x :| x in s;
      var rest := AddressBound(s - {x});
      bound := if x < rest then rest else x + 1;
      assert forall y :: y in s ==> y == x || y in s - {x};
    }
  }
}
