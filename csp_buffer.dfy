/**
 The packet-buffer pool of libcsp: a fixed number of equally sized,
 reference-counted packet buffers. A buffer is identified by its slot index;
 `None` plays the role of the NULL pointer.

 The first half of the module states the free registry on values: the
 reference counts of all slots as a sequence, the free slots as a stack of
 indices, and how taking and returning a slot keep the two consistent. The
 class `Pool` then holds that state in arrays and updates it in place.
 */
module CspBuffer {
  import opened Wrappers

  type byte = bv8

  /** The elements of a sequence, as a set. */
  function Elements(s: seq<nat>): set<nat>
  {
    set x | x in s
  }

  /** No index occurs twice in `s`. */
  predicate Distinct(s: seq<nat>)
  {
    forall j, k :: 0 <= j < k < |s| ==> s[j] != s[k]
  }

  /** A sequence without repetitions has as many elements as it is long. */
  lemma {:induction false} DistinctCard(s: seq<nat>)
    requires Distinct(s)
    ensures |Elements(s)| == |s|
  {
    if |s| > 0 {
      var t := s[..|s| - 1];
      var last := s[|s| - 1];
      assert s == t + [last];
      assert Elements(s) == Elements(t) + {last};
      assert last !in Elements(t);
      DistinctCard(t);
    }
  }

  /** The slot indices 0, 1, ..., n - 1, in this order. */
  function SlotSeq(n: nat): (s: seq<nat>)
    ensures |s| == n && forall k :: 0 <= k < n ==> s[k] == k
  {
    seq(n, i requires 0 <= i => i)
  }

  /** The slot indices of a pool of capacity `n`. */
  function Slots(n: nat): set<nat>
  {
    Elements(SlotSeq(n))
  }

  lemma SlotsCard(n: nat)
    ensures forall i: nat :: i in Slots(n) <==> i < n
    ensures |Slots(n)| == n
  {
    var s := SlotSeq(n);
    forall i: nat | i < n
      ensures i in Slots(n)
    {
      assert s[i] == i;
    }
    DistinctCard(s);
  }

  /** The free slots: those whose reference count is zero. */
  function Zeros(refs: seq<nat>): set<nat>
  {
    set i: nat | i < |refs| && refs[i] == 0
  }

  /** The live slots: those held by at least one owner. */
  function Owned(refs: seq<nat>): set<nat>
  {
    set i: nat | i < |refs| && refs[i] > 0
  }

  /**
   The free registry `stack` lists exactly the slots whose reference count
   in `refs` is zero, each once.
   */
  predicate Consistent(refs: seq<nat>, stack: seq<nat>)
  {
    && (forall k :: 0 <= k < |stack| ==> stack[k] < |refs|)
    && Distinct(stack)
    && (forall i :: 0 <= i < |refs| ==> (refs[i] == 0 <==> i in stack))
  }

  /**
   Every slot is either free or live, and the registry holds one entry per
   free slot; so the number of free slots lies between 0 and the capacity.
   */
  lemma StackCount(refs: seq<nat>, stack: seq<nat>)
    requires Consistent(refs, stack)
    ensures Elements(stack) == Zeros(refs)
    ensures |stack| == |Zeros(refs)|
    ensures Zeros(refs) * Owned(refs) == {}
    ensures |Zeros(refs)| + |Owned(refs)| == |refs|
  {
    assert Elements(stack) == Zeros(refs);
    DistinctCard(stack);
    SlotsCard(|refs|);
    assert Zeros(refs) + Owned(refs) == Slots(|refs|);
  }

  /**
   Taking the slot on top of the registry and giving it one owner: the slot
   was free, it is live afterwards, and the rest stays consistent.
   */
  lemma PopConsistent(refs: seq<nat>, stack: seq<nat>)
    requires Consistent(refs, stack) && |stack| > 0
    ensures stack[|stack| - 1] < |refs| && refs[stack[|stack| - 1]] == 0
    ensures Consistent(refs[stack[|stack| - 1] := 1], stack[..|stack| - 1])
    ensures Zeros(refs[stack[|stack| - 1] := 1]) == Zeros(refs) - {stack[|stack| - 1]}
    ensures Owned(refs[stack[|stack| - 1] := 1]) == Owned(refs) + {stack[|stack| - 1]}
  {
  }

  /**
   Dropping the last owner of slot i and pushing it onto the registry: the
   registry had room for it and stays consistent, and i becomes free.
   */
  lemma PushConsistent(refs: seq<nat>, stack: seq<nat>, i: nat)
    requires Consistent(refs, stack) && i < |refs| && refs[i] == 1
    ensures |stack| < |refs|
    ensures Consistent(refs[i := 0], stack + [i])
    ensures Zeros(refs[i := 0]) == Zeros(refs) + {i}
    ensures Owned(refs[i := 0]) == Owned(refs) - {i}
  {
    StackCount(refs, stack);
    assert i in Owned(refs);
    assert i !in stack;
    var refs' := refs[i := 0];
    assert Zeros(refs') == Zeros(refs) + {i};
    assert Owned(refs') == Owned(refs) - {i};
  }

  /**
   Changing the count of a live slot to another positive count (one more
   owner, or one fewer while others remain) changes neither which slots are
   free nor the registry.
   */
  lemma RecountConsistent(refs: seq<nat>, stack: seq<nat>, i: nat, c: nat)
    requires Consistent(refs, stack) && i < |refs| && refs[i] > 0 && c > 0
    ensures Consistent(refs[i := c], stack)
    ensures Zeros(refs[i := c]) == Zeros(refs)
    ensures Owned(refs[i := c]) == Owned(refs)
  {
  }

  class Pool {
    /** Number of buffers, fixed when the pool is set up. */
    const N: nat
    /** Payload capacity of every buffer, fixed when the pool is set up. */
    const dataSize: nat

    /** Reference count of each slot; 0 means the slot is free. */
    const refc: array<nat>
    /** The payload bytes in use in each slot (its length is the packet length). */
    const data: array<seq<byte>>
    /** Free registry: free[..top] is a stack of the free slot indices. */
    const free: array<nat>
    var top: nat

    ghost predicate Valid()
      reads this, refc, data, free
    {
      && refc.Length == N && data.Length == N && free.Length == N
      && refc != free
      && top <= N
      && Consistent(refc[..], free[..top])
      && (forall i :: 0 <= i < N ==> |data[i]| <= dataSize)
    }

    /** The reference counts of all slots. */
    ghost function Refs(): seq<nat>
      reads refc
    {
      refc[..]
    }

    /** The content (used payload bytes) of all slots. */
    ghost function Contents(): seq<seq<byte>>
      reads data
    {
      data[..]
    }

    /** The slots no holder owns. */
    ghost function FreeSet(): set<nat>
      reads refc
    {
      Zeros(refc[..])
    }

    /** The slots that are handed out to at least one holder. */
    ghost function LiveSet(): set<nat>
      reads refc
    {
      Owned(refc[..])
    }

    /** csp_buffer_init: all N slots free, all contents empty. */
    constructor (n: nat, size: nat)
      ensures Valid()
      ensures N == n && dataSize == size
      ensures fresh(refc) && fresh(data) && fresh(free)
      ensures FreeSet() == Slots(n) && LiveSet() == {}
      ensures |FreeSet()| == n
      ensures Contents() == seq(n, _ => [])
    {
      N, dataSize := n, size;
      refc := new nat[n](_ => 0);
      data := new seq<byte>[n](_ => []);
      free := new nat[n];
      top := 0;
      new;
      while top < n
        modifies this, free
        invariant top <= n
        invariant forall k :: 0 <= k < top ==> free[k] == k
      {
        free[top] := top;
        top := top + 1;
      }
      forall i | 0 <= i < n
        ensures i in free[..top]
      {
        assert free[i] == i;
      }
      SlotsCard(n);
      assert FreeSet() == Slots(n);
      assert LiveSet() == {};
    }

    /** csp_buffer_get: take a free buffer, or None when none is left. */
    method Get(unused: nat) returns (h: Option<nat>)
      requires Valid()
      modifies this, refc, data
      ensures Valid()
      ensures h.None? <==> old(|FreeSet()|) == 0
      ensures h.None? ==> top == old(top) && Refs() == old(Refs()) && Contents() == old(Contents())
      ensures h.Some? ==> h.value in old(FreeSet()) && h.value !in old(LiveSet())
      ensures h.Some? ==> Refs() == old(Refs())[h.value := 1]
      ensures h.Some? ==> FreeSet() == old(FreeSet()) - {h.value}
      ensures h.Some? ==> LiveSet() == old(LiveSet()) + {h.value}
      ensures h.Some? ==> |FreeSet()| == old(|FreeSet()|) - 1
      ensures h.Some? ==> Contents() == old(Contents())[h.value := []]
    {
      StackCount(refc[..], free[..top]);
      if top == 0 {
        return None;
      }
      ghost var refs, stack := refc[..], free[..top];
      PopConsistent(refs, stack);
      top := top - 1;
      var i := free[top];
      refc[i] := 1;
      data[i] := [];
      assert refc[..] == refs[i := 1];
      assert free[..top] == stack[..|stack| - 1];
      h := Some(i);
    }

    /** csp_buffer_get_isr: the same operation, from interrupt context. */
    method GetIsr(unused: nat) returns (h: Option<nat>)
      requires Valid()
      modifies this, refc, data
      ensures Valid()
      ensures h.None? <==> old(|FreeSet()|) == 0
      ensures h.None? ==> top == old(top) && Refs() == old(Refs()) && Contents() == old(Contents())
      ensures h.Some? ==> h.value in old(FreeSet()) && h.value !in old(LiveSet())
      ensures h.Some? ==> Refs() == old(Refs())[h.value := 1]
      ensures h.Some? ==> FreeSet() == old(FreeSet()) - {h.value}
      ensures h.Some? ==> LiveSet() == old(LiveSet()) + {h.value}
      ensures h.Some? ==> |FreeSet()| == old(|FreeSet()|) - 1
      ensures h.Some? ==> Contents() == old(Contents())[h.value := []]
    {
      h := Get(unused);
    }

    /** csp_buffer_free: drop one reference; the last one returns the slot. */
    method Free(h: Option<nat>)
      requires Valid()
      requires h.Some? ==> h.value < N && refc[h.value] > 0
      modifies this, refc, free
      ensures Valid()
      ensures h.None? ==> top == old(top) && unchanged(refc, free)
      ensures h.Some? ==> Refs() == old(Refs())[h.value := old(refc[h.value]) - 1]
      ensures h.Some? ==> (FreeSet() ==
        if old(refc[h.value]) == 1 then old(FreeSet()) + {h.value} else old(FreeSet()))
      ensures h.Some? ==> (|FreeSet()| ==
        if old(refc[h.value]) == 1 then old(|FreeSet()|) + 1 else old(|FreeSet()|))
      ensures Contents() == old(Contents())
    {
      if h.None? {
        return;
      }
      var i := h.value;
      ghost var refs, stack := refc[..], free[..top];
      if refc[i] == 1 {
        PushConsistent(refs, stack, i);
        refc[i] := 0;
        free[top] := i;
        top := top + 1;
        assert refc[..] == refs[i := 0];
        assert free[..top] == stack + [i];
        assert i !in old(FreeSet());
      } else {
        RecountConsistent(refs, stack, i, refc[i] - 1);
        refc[i] := refc[i] - 1;
        assert refc[..] == refs[i := refs[i] - 1];
      }
    }

    /** csp_buffer_free_isr: the same operation, from interrupt context. */
    method FreeIsr(h: Option<nat>)
      requires Valid()
      requires h.Some? ==> h.value < N && refc[h.value] > 0
      modifies this, refc, free
      ensures Valid()
      ensures h.None? ==> top == old(top) && unchanged(refc, free)
      ensures h.Some? ==> Refs() == old(Refs())[h.value := old(refc[h.value]) - 1]
      ensures h.Some? ==> (FreeSet() ==
        if old(refc[h.value]) == 1 then old(FreeSet()) + {h.value} else old(FreeSet()))
      ensures h.Some? ==> (|FreeSet()| ==
        if old(refc[h.value]) == 1 then old(|FreeSet()|) + 1 else old(|FreeSet()|))
      ensures Contents() == old(Contents())
    {
      Free(h);
    }

    /** csp_buffer_refc_inc: add one holder to a live buffer. */
    method RefcInc(h: nat)
      requires Valid()
      requires h < N && refc[h] > 0
      modifies refc
      ensures Valid()
      ensures Refs() == old(Refs())[h := old(refc[h]) + 1]
      ensures FreeSet() == old(FreeSet()) && LiveSet() == old(LiveSet())
    {
      ghost var refs := refc[..];
      RecountConsistent(refs, free[..top], h, refc[h] + 1);
      refc[h] := refc[h] + 1;
      assert refc[..] == refs[h := refs[h] + 1];
    }

    /** csp_buffer_clone: a fresh buffer holding a copy of h's content. */
    method Clone(h: nat) returns (c: Option<nat>)
      requires Valid()
      requires h < N && refc[h] > 0
      modifies this, refc, data
      ensures Valid()
      ensures c.None? <==> old(|FreeSet()|) == 0
      ensures c.None? ==> top == old(top) && Refs() == old(Refs()) && Contents() == old(Contents())
      ensures c.Some? ==> c.value in old(FreeSet()) && c.value != h
      ensures c.Some? ==> Refs() == old(Refs())[c.value := 1]
      ensures c.Some? ==> FreeSet() == old(FreeSet()) - {c.value}
      ensures c.Some? ==> |FreeSet()| == old(|FreeSet()|) - 1
      ensures c.Some? ==> Contents() == old(Contents())[c.value := old(data[h])]
    {
      c := Get(0);
      if c.None? {
        return;
      }
      var d := c.value;
      data[d] := data[h];
    }

    /**
     Writes `bytes` as the content of live buffer h. This stands for the
     protocol stack filling packet->data and packet->length through the
     pointer it received; it is not part of the pool's interface.
     */
    method Write(h: nat, bytes: seq<byte>)
      requires Valid()
      requires h < N && refc[h] > 0 && |bytes| <= dataSize
      modifies data
      ensures Valid()
      ensures Contents() == old(Contents())[h := bytes]
    {
      data[h] := bytes;
    }

    /**
     Reads the content of live buffer h, as the protocol stack reads
     packet->data[..packet->length]; it is not part of the pool's interface.
     */
    method Read(h: nat) returns (bytes: seq<byte>)
      requires Valid()
      requires h < N && refc[h] > 0
      ensures bytes == Contents()[h]
      ensures |bytes| <= dataSize
    {
      bytes := data[h];
    }

    /** csp_buffer_remaining: the number of free buffers. */
    method Remaining() returns (r: int)
      requires Valid()
      ensures r == |FreeSet()|
      ensures 0 <= r <= N
      ensures r + |LiveSet()| == N
    {
      StackCount(refc[..], free[..top]);
      r := top;
    }

    /** csp_buffer_data_size: the fixed payload capacity of every buffer. */
    method DataSize() returns (r: nat)
      requires Valid()
      ensures r == dataSize
      ensures forall i :: 0 <= i < N ==> |Contents()[i]| <= r
    {
      r := dataSize;
    }
  }
}
