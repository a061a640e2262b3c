/**
 A model of `PoolAllocator<T, MAXSIZE>`: a fixed array of slot handles used as a
 stack of free slots, with `top` the index of the topmost free handle
 (`m_freeIndex`). A handle is the index of a storage slot; `None` stands for a
 null pointer. The storage itself lives with the caller (see the Frame module).
 */
module PoolAllocator {
  import opened Wrappers

  type Handle = Option<nat>

  /** `slots` is the handle array `m_pool` (its length is MAXSIZE) and `top` is
      `m_freeIndex`; the entries `slots[..top + 1]` are the free handles. */
  datatype Pool = Pool(slots: seq<nat>, top: int)

  /** The class invariant: the top index is -1 (empty) up to MAXSIZE-1 (full). */
  predicate Valid(p: Pool) {
    -1 <= p.top < |p.slots|
  }

  function Capacity(p: Pool): nat {
    |p.slots|
  }

  function FreeCount(p: Pool): nat
    requires Valid(p)
  {
    p.top + 1
  }

  /** The free handles, bottom first; the last element is the next one handed out. */
  function FreeStack(p: Pool): (s: seq<nat>)
    requires Valid(p)
    ensures |s| == FreeCount(p)
  {
    p.slots[..p.top + 1]
  }

  predicate Distinct(s: seq<nat>) {
    forall i, j :: 0 <= i < j < |s| ==> s[i] != s[j]
  }

  /** The handle array as the constructor fills it: entry i refers to slot i. */
  function Iota(n: nat): (s: seq<nat>)
    ensures |s| == n && forall i :: 0 <= i < n ==> s[i] == i
  {
    seq(n, i requires 0 <= i => i)
  }

  /** The constructor: handle i refers to storage slot i, and every slot is free. */
  function Init(n: nat): (p: Pool)
    ensures Valid(p) && Capacity(p) == n && p.top == n - 1
    ensures FreeCount(p) == n
    ensures forall h: nat :: h in FreeStack(p) <==> h < n
    ensures Distinct(FreeStack(p))
    ensures p.slots == Iota(n)
  {
    var slots := Iota(n);
    assert slots[..n] == slots;
    forall h: nat | h < n
      ensures h in slots
    {
      assert slots[h] == h;
    }
    assert forall i :: 0 <= i < n ==> slots[i] < n;
    Pool(slots, n - 1)
  }

  datatype AllocResult = AllocResult(handle: Handle, pool: Pool)

  /** `Alloc`: pops the topmost free handle, or answers null when none is left. */
  function Alloc(p: Pool): (r: AllocResult)
    requires Valid(p)
    ensures Valid(r.pool) && r.pool.slots == p.slots
    ensures r.handle.None? <==> FreeCount(p) == 0
    ensures FreeCount(p) == 0 ==> r.pool == p
    ensures FreeCount(p) > 0 ==> FreeStack(p) == FreeStack(r.pool) + [r.handle.value]
  {
    if p.top >= 0 then
      AllocResult(Some(p.slots[p.top]), p.(top := p.top - 1))
    else
      AllocResult(None, p)
  }

  /** `Free`: pushes a non-null handle when there is room; a null handle and a
      push onto a full stack are both ignored. Ownership is not checked. */
  function Free(p: Pool, h: Handle): (r: Pool)
    requires Valid(p)
    ensures Valid(r) && Capacity(r) == Capacity(p)
    ensures h.None? ==> r == p
    ensures h.Some? && FreeCount(p) == Capacity(p) ==> r == p
    ensures h.Some? && FreeCount(p) < Capacity(p) ==> FreeStack(r) == FreeStack(p) + [h.value]
  {
    if h.Some? then
      if p.top < |p.slots| - 1 then
        var q := Pool(p.slots[p.top + 1 := h.value], p.top + 1);
        assert FreeStack(q) == FreeStack(p) + [h.value];
        q
      else
        p
    else
      p
  }

  /** A freed handle is the next one allocated, and the pair leaves the free
      stack as it was. */
  lemma FreeThenAllocIsLifo(p: Pool, h: nat)
    requires Valid(p) && FreeCount(p) < Capacity(p)
    ensures var r := Alloc(Free(p, Some(h)));
            r.handle == Some(h) && r.pool.top == p.top && FreeStack(r.pool) == FreeStack(p)
  {
    var q := Free(p, Some(h));
    var r := Alloc(q);
    assert FreeStack(q) == FreeStack(p) + [h];
    assert FreeStack(q) == FreeStack(r.pool) + [r.handle.value];
    assert FreeStack(q)[..|FreeStack(q)| - 1] == FreeStack(p);
    assert FreeStack(q)[..|FreeStack(q)| - 1] == FreeStack(r.pool);
  }

  /** Because `Free` neither checks ownership nor detects a double free, a handle
      freed twice is handed out twice. */
  lemma DoubleFreeHandsOutTwice(p: Pool, h: nat)
    requires Valid(p) && FreeCount(p) + 2 <= Capacity(p)
    ensures var a := Alloc(Free(Free(p, Some(h)), Some(h)));
            var b := Alloc(a.pool);
            a.handle == Some(h) && b.handle == Some(h)
  {
    var q1 := Free(p, Some(h));
    FreeThenAllocIsLifo(q1, h);
    var a := Alloc(Free(q1, Some(h)));
    assert FreeStack(a.pool) == FreeStack(q1);
    FreeThenAllocIsLifo(p, h);
  }

  /** Allocating from a fresh pool of capacity n succeeds exactly n times, with
      n distinct slot handles (from the top of the stack down), and the next
      request answers null. */
  method AllocFromFresh(n: nat) returns (got: seq<nat>, next: Handle)
    ensures |got| == n
    ensures forall i :: 0 <= i < n ==> got[i] == n - 1 - i
    ensures Distinct(got)
    ensures next == None
  {
    var p := Init(n);
    got := [];
    var i := 0;
    while i < n
      invariant 0 <= i <= n
      invariant Valid(p) && p.top == n - 1 - i
      invariant p.slots == Init(n).slots
      invariant |got| == i
      invariant forall j :: 0 <= j < i ==> got[j] == n - 1 - j
    {
      var r := Alloc(p);
      assert p.slots[p.top] == n - 1 - i;
      got := got + [r.handle.value];
      p := r.pool;
      i := i + 1;
    }
    var last := Alloc(p);
    next := last.handle;
  }
}
