/**
 Callers of the buffer pool: each method sets up a fresh pool, runs one of
 the usage patterns the pool's interface is meant for, and states what the
 caller observes through the interface alone.
 */
module BufferUsage {
  import opened Wrappers
  import opened CspBuffer

  /** Every slot in `taken` is held by exactly one owner. */
  predicate SoleHolders(refs: seq<nat>, taken: seq<nat>)
  {
    forall k :: 0 <= k < |taken| ==> taken[k] < |refs| && refs[taken[k]] == 1
  }

  /**
   Taking one more free slot b keeps the taken slots distinct and each held
   once, and moves b from the free slots to the taken ones.
   */
  lemma TakeOne(refs: seq<nat>, taken: seq<nat>, b: nat)
    requires Distinct(taken) && SoleHolders(refs, taken)
    requires b < |refs| && refs[b] == 0
    ensures Distinct(taken + [b]) && SoleHolders(refs[b := 1], taken + [b])
    ensures Elements(taken + [b]) + Zeros(refs[b := 1]) == Elements(taken) + Zeros(refs)
  {
  }

  /**
   Takes buffers from `p` until none is left: every buffer that was free is
   handed out once, each with a single holder.
   */
  method Drain(p: Pool) returns (taken: seq<nat>)
    requires p.Valid()
    modifies p, p.refc, p.data
    ensures p.Valid() && p.FreeSet() == {}
    ensures |taken| == old(|p.FreeSet()|) && Distinct(taken)
    ensures Elements(taken) == old(p.FreeSet())
    ensures SoleHolders(p.Refs(), taken)
  {
    ghost var free0 := p.FreeSet();
    taken := [];
    var r := p.Remaining();
    while r > 0
      invariant p.Valid()
      invariant r == |p.FreeSet()| && |taken| + r == |free0|
      invariant Distinct(taken) && SoleHolders(p.Refs(), taken)
      invariant Elements(taken) + p.FreeSet() == free0
      decreases r
    {
      ghost var refs := p.Refs();
      var h := p.Get(0);
      var b := h.value;
      TakeOne(refs, taken, b);
      taken := taken + [b];
      r := p.Remaining();
    }
  }

  /**
   In a fresh pool, taking buffers until none is left hands out every slot
   exactly once; the next request gets NULL; returning one buffer makes
   exactly one more request succeed.
   */
  method Exhaust(n: nat, size: nat) returns (taken: seq<nat>, extra: Option<nat>, again: Option<nat>, last: Option<nat>)
    ensures |taken| == n && Distinct(taken) && Elements(taken) == Slots(n)
    ensures extra.None?
    ensures n > 0 ==> again == Some(taken[0]) && last.None?
  {
    var p := new Pool(n, size);
    SlotsCard(n);
    taken := Drain(p);
    extra := p.Get(0);
    again, last := None, None;
    if n > 0 {
      p.Free(Some(taken[0]));
      again := p.GetIsr(0);
      last := p.Get(0);
    }
  }

  /**
   A buffer shared with a second holder by refc_inc: the first free only
   drops a reference, the second returns the slot to the pool.
   */
  method ShareAndRelease(n: nat, size: nat)
    returns (before: int, afterFirst: int, afterSecond: int, liveAfterFirst: bool)
    requires n > 0
    ensures before == n - 1
    ensures afterFirst == before && liveAfterFirst
    ensures afterSecond == before + 1
  {
    var p := new Pool(n, size);
    SlotsCard(n);
    var h := p.Get(0);
    var b := h.value;
    before := p.Remaining();
    p.RefcInc(b);
    p.Free(h);
    afterFirst := p.Remaining();
    liveAfterFirst := p.refc[b] > 0;
    p.FreeIsr(h);
    afterSecond := p.Remaining();
  }

  /**
   A clone carries the content of its original; writing to either buffer
   afterwards leaves the other one as it was.
   */
  method CloneIsIndependent(n: nat, size: nat, data: seq<byte>, update: seq<byte>, cloneUpdate: seq<byte>)
    returns (copy: seq<byte>, original: seq<byte>, copyLater: seq<byte>,
             copyWritten: seq<byte>, originalLater: seq<byte>, distinct: bool)
    requires n >= 2 && |data| <= size && |update| <= size && |cloneUpdate| <= size
    ensures copy == data && distinct
    ensures original == update
    ensures copyLater == data
    ensures copyWritten == cloneUpdate
    ensures originalLater == update
  {
    var p := new Pool(n, size);
    SlotsCard(n);
    var h := p.Get(0);
    var b := h.value;
    p.Write(b, data);
    var c := p.Clone(b);
    var d := c.value;
    distinct := b != d;
    copy := p.Read(d);
    p.Write(b, update);
    original := p.Read(b);
    copyLater := p.Read(d);
    p.Write(d, cloneUpdate);
    copyWritten := p.Read(d);
    originalLater := p.Read(b);
  }

  /**
   Cloning when no buffer is free returns NULL and leaves the source buffer's
   content and the number of free buffers as they were.
   */
  method CloneWhenExhausted(size: nat, data: seq<byte>)
    returns (c: Option<nat>, before: int, after: int, content: seq<byte>)
    requires |data| <= size
    ensures c.None? && before == after == 0
    ensures content == data
  {
    var p := new Pool(1, size);
    SlotsCard(1);
    var h := p.Get(0);
    var b := h.value;
    p.Write(b, data);
    before := p.Remaining();
    c := p.Clone(b);
    after := p.Remaining();
    content := p.Read(b);
  }

  /** Freeing NULL, from either context, changes nothing the caller sees. */
  method FreeNull(n: nat, size: nat) returns (before: int, afterTask: int, afterIsr: int)
    ensures before == afterTask == afterIsr == n
  {
    var p := new Pool(n, size);
    SlotsCard(n);
    before := p.Remaining();
    p.Free(None);
    afterTask := p.Remaining();
    p.FreeIsr(None);
    afterIsr := p.Remaining();
  }
}
