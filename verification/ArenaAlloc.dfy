/**
 * A bump allocator over a reserved address range whose pages are committed on
 * demand. One arena is one space of the collector.
 */
module Arenas {
  import opened Layout
  import Alignment

  /** Smallest whole number of huge pages (2 MB) that holds x bytes; memory is committed in these. */
  function AlignLub(x: nat): (r: nat)
    ensures x <= r < x + 0x20_0000 && r % 0x20_0000 == 0
  {
    Alignment.RoundUp(x, 0x20_0000)
  }

  /** The state of one arena, as a value. */
  datatype Arena = Arena(lo: nat, checkpoint: nat, free: nat, committed: nat, hi: nat) {
    predicate Ok() {
      0 < lo <= checkpoint <= free <= lo + committed <= hi && 0 < committed && Aligned()
    }

    predicate Aligned() {
      committed % 0x20_0000 == 0 && (hi - lo) % 0x20_0000 == 0 && lo % 8 == 0 && free % 8 == 0
    }

    predicate Contains(x: nat) { lo <= x < hi }

    predicate Allocated(x: nat) { lo <= x < free }

    predicate IsBeforeCheckpoint(x: nat) { lo <= x < checkpoint }
  }

  class ArenaAlloc {
    const lo: nat
    const hi: nat
    var committed: nat
    var checkpoint: nat
    var free: nat

    ghost function View(): Arena
      reads this
    {
      Arena(lo, checkpoint, free, committed, hi)
    }

    /** Reserves [base, base + z) rounded up to whole huge pages; nothing is committed yet. */
    constructor (base: nat, z: nat)
      requires 0 < base && base % 0x20_0000 == 0
      ensures View() == Arena(base, base, base, 0, base + AlignLub(z)) && View().Aligned()
    {
      lo, hi := base, base + AlignLub(z);
      committed, checkpoint, free := 0, base, base;
    }

    /**
     * Commits memory so that the first offset bytes are usable. Fails, where
     * the original throws, exactly when they exceed the reserved range.
     */
    method Expand(offset: nat) returns (ok: bool)
      requires View().Aligned() && lo + committed <= hi
      modifies this`committed
      ensures ok <==> lo + offset <= hi
      ensures ok ==> offset <= committed && old(committed) <= committed
      ensures committed == old(committed) || committed < offset + 0x20_0000
      ensures View().Aligned() && lo + committed <= hi
      ensures !ok || offset <= old(committed) ==> committed == old(committed)
    {
      if offset <= committed {
        return true;
      }
      if lo + offset > hi {
        return false;
      }
      committed := AlignLub(offset);
      return true;
    }

    method SetFreePtr(x: nat)
      requires View().Ok() && lo <= x < lo + committed && x % 8 == 0
      modifies this`free, this`checkpoint
      ensures View() == old(View()).(free := x, checkpoint := if x < old(checkpoint) then x else old(checkpoint))
      ensures View().Ok()
    {
      free := x;
      if checkpoint > free {
        checkpoint := free;
      }
    }

    method Clear()
      requires View().Ok()
      modifies this`free, this`checkpoint
      ensures View() == old(View()).(free := lo, checkpoint := lo) && View().Ok()
    {
      SetFreePtr(lo);
    }

    method Reset(need: nat) returns (ok: bool)
      requires View().Ok()
      modifies this`free, this`checkpoint, this`committed
      ensures ok <==> lo + need <= hi
      ensures View() == old(View()).(free := lo, checkpoint := lo, committed := committed) && View().Ok()
    {
      Clear();
      ok := Expand(need);
    }

    method Checkpoint()
      requires View().Ok()
      modifies this`checkpoint
      ensures View() == old(View()).(checkpoint := free) && View().Ok()
    {
      checkpoint := free;
    }

    /** Hands out the next z bytes, padded to whole words. Fails exactly when the reserved range is exhausted. */
    method Alloc(z: nat) returns (ok: bool, addr: nat)
      requires View().Ok()
      modifies this`free, this`committed
      ensures View().Ok()
      ensures ok <==> old(free) + WithPadding(z) <= hi
      ensures ok ==>
        addr == old(free) && View() == old(View()).(free := old(free) + WithPadding(z), committed := committed)
      ensures !ok ==> View() == old(View())
    {
      var z1 := z + AllocPadding(z);
      PaddingAligns(z);
      hide AllocPadding;
      ok := Expand(free - lo + z1);
      addr := free;
      if ok {
        free := free + z1;
      }
    }
  }
}
