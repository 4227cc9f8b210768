/**
 * How objects lie in a bump-allocated range of memory: end to end, each padded
 * to a whole number of words. The header of an object is its size in bytes.
 */
module Layout {
  import opened Evacuation
  import Alignment

  /** Bytes needed to fill z up to a whole number of 8-byte words. */
  function AllocPadding(z: nat): nat { Alignment.Padding(z, 8) }

  function WithPadding(z: nat): nat {
    z + AllocPadding(z)
  }

  lemma PaddingAligns(z: nat)
    ensures WithPadding(z) % 8 == 0 && WithPadding(z) < z + 8
  {
  }

  /** Distance from the start of the object at a to the start of the next one. */
  function Stride(mem: Mem<nat>, a: Addr): nat
    requires a in mem && mem[a].Obj?
  {
    WithPadding(mem[a].hdr)
  }

  /** [lo, hi) is covered exactly, without gap or overlap, by objects. */
  ghost predicate Tiled(mem: Mem<nat>, lo: nat, hi: nat) {
    && lo <= hi
    && (lo < hi ==> lo in mem)
    && (forall a :: a in mem && lo <= a < hi ==>
          && mem[a].Obj? && 0 < mem[a].hdr
          && a + Stride(mem, a) <= hi
          && (a + Stride(mem, a) == hi || a + Stride(mem, a) in mem))
    && (forall a, b :: a in mem && b in mem && lo <= a < b < hi ==> mem[a].Obj? && a + Stride(mem, a) <= b)
  }

  lemma TiledFrame(mem: Mem<nat>, mem': Mem<nat>, lo: nat, hi: nat)
    requires Tiled(mem, lo, hi)
    requires forall a :: lo <= a < hi ==> (a in mem <==> a in mem')
    requires forall a :: a in mem' && lo <= a < hi ==> mem'[a].Obj? && mem'[a].hdr == mem[a].hdr
    ensures Tiled(mem', lo, hi)
  {
    hide AllocPadding;
    forall a | a in mem' && lo <= a < hi
      ensures 0 < mem'[a].hdr && a + Stride(mem', a) <= hi
      ensures a + Stride(mem', a) == hi || a + Stride(mem', a) in mem'
    {
      assert a in mem;
    }
    forall a, b | a in mem' && b in mem' && lo <= a < b < hi
      ensures a + Stride(mem', a) <= b
    {
      assert a in mem && b in mem;
    }
  }

  /** Bump allocation extends the covered range by one object. */
  lemma TiledAppend(mem: Mem<nat>, lo: nat, hi: nat, c: Cell<nat>)
    requires Tiled(mem, lo, hi) && hi !in mem && c.Obj? && 0 < c.hdr
    ensures Tiled(mem[hi := c], lo, hi + WithPadding(c.hdr))
    requires forall a :: a in mem && hi < a ==> hi + WithPadding(c.hdr) <= a
  {
    hide AllocPadding;
    var mem' := mem[hi := c];
    forall a | a in mem' && lo <= a < hi + WithPadding(c.hdr)
      ensures mem'[a].Obj? && 0 < mem'[a].hdr && a + Stride(mem', a) <= hi + WithPadding(c.hdr)
      ensures a + Stride(mem', a) == hi + WithPadding(c.hdr) || a + Stride(mem', a) in mem'
    {
      assert a == hi || a < hi;
    }
  }

  /** The two halves of a covered range, cut where an object starts. */
  lemma TiledJoin(mem: Mem<nat>, lo: nat, mid: nat, hi: nat)
    requires Tiled(mem, lo, mid) && Tiled(mem, mid, hi)
    ensures Tiled(mem, lo, hi)
  {
    hide AllocPadding;
    forall a | a in mem && lo <= a < hi
      ensures mem[a].Obj? && 0 < mem[a].hdr && a + Stride(mem, a) <= hi
      ensures a + Stride(mem, a) == hi || a + Stride(mem, a) in mem
    {
      if a < mid {
        assert a + Stride(mem, a) == mid || a + Stride(mem, a) in mem;
      }
    }
    forall a, b | a in mem && b in mem && lo <= a < b < hi
      ensures mem[a].Obj? && a + Stride(mem, a) <= b
    {
      if a < mid <= b { assert a + Stride(mem, a) <= mid; }
    }
  }

  // ---------------------------------------------------------------------------
  // Bytes held by a set of objects
  // ---------------------------------------------------------------------------

  /** Total padded size of the objects of S that start in [lo, hi). */
  ghost function Bytes(mem: Mem<nat>, S: set<Addr>, lo: nat, hi: nat): nat
    decreases hi - lo
  {
    if hi <= lo then 0
    else (if lo in S && lo in mem && mem[lo].Obj? then Stride(mem, lo) else 0) + Bytes(mem, S, lo + 1, hi)
  }

  lemma {:induction false} BytesFrame(mem: Mem<nat>, S: set<Addr>, S': set<Addr>, lo: nat, hi: nat)
    requires forall a :: lo <= a < hi && a in mem ==> (a in S <==> a in S')
    ensures Bytes(mem, S, lo, hi) == Bytes(mem, S', lo, hi)
    decreases hi - lo
  {
    hide AllocPadding;
    if lo < hi { BytesFrame(mem, S, S', lo + 1, hi); }
  }

  lemma {:induction false} BytesAdd(mem: Mem<nat>, S: set<Addr>, x: Addr, lo: nat, hi: nat)
    requires x !in S && x in mem && mem[x].Obj? && lo <= x < hi
    ensures Bytes(mem, S + {x}, lo, hi) == Bytes(mem, S, lo, hi) + Stride(mem, x)
    decreases hi - lo
  {
    hide AllocPadding;
    if lo == x {
      BytesFrame(mem, S + {x}, S, lo + 1, hi);
    } else {
      BytesAdd(mem, S, x, lo + 1, hi);
    }
  }

  lemma {:induction false} BytesGap(mem: Mem<nat>, S: set<Addr>, lo: nat, mid: nat, hi: nat)
    requires lo <= mid <= hi
    requires forall a :: lo <= a < mid ==> a !in mem
    ensures Bytes(mem, S, lo, hi) == Bytes(mem, S, mid, hi)
    decreases mid - lo
  {
    hide AllocPadding;
    if lo < mid { BytesGap(mem, S, lo + 1, mid, hi); }
  }

  lemma {:induction false} BytesJoin(mem: Mem<nat>, S: set<Addr>, lo: nat, mid: nat, hi: nat)
    requires lo <= mid <= hi
    ensures Bytes(mem, S, lo, hi) == Bytes(mem, S, lo, mid) + Bytes(mem, S, mid, hi)
    decreases mid - lo
  {
    hide AllocPadding;
    if lo < mid { BytesJoin(mem, S, lo + 1, mid, hi); }
  }

  lemma TiledTail(mem: Mem<nat>, lo: nat, hi: nat)
    requires Tiled(mem, lo, hi) && lo < hi
    ensures Tiled(mem, lo + Stride(mem, lo), hi)
    ensures forall a :: lo < a < lo + Stride(mem, lo) ==> a !in mem
  {
    hide AllocPadding;
    assert lo in mem;
  }

  lemma TiledHead(mem: Mem<nat>, lo: nat, hi: nat)
    requires Tiled(mem, lo, hi)
    ensures lo <= hi && (lo < hi ==> lo in mem && mem[lo].Obj? && 0 < Stride(mem, lo) <= hi - lo)
  {
  }

  /** Conservation: in a covered range, what a set of objects holds and what the others hold add up to the range. */
  lemma {:induction false} BytesConserved(mem: Mem<nat>, S: set<Addr>, lo: nat, hi: nat)
    requires Tiled(mem, lo, hi)
    ensures Bytes(mem, S, lo, hi) + Bytes(mem, mem.Keys - S, lo, hi) == hi - lo
    decreases hi - lo
  {
    hide WithPadding, Tiled;
    TiledHead(mem, lo, hi);
    if lo < hi {
      TiledTail(mem, lo, hi);
      var z := Stride(mem, lo);
      BytesGap(mem, S, lo + 1, lo + z, hi);
      BytesGap(mem, mem.Keys - S, lo + 1, lo + z, hi);
      BytesConserved(mem, S, lo + z, hi);
    }
  }
}
