/**
 * The arena allocator that keeps a header in front of each allocation, byte by
 * byte, and the iterators that find the allocations again from their headers.
 * Addresses are offsets from the start of the reserved range.
 */
module ArenaWalk {
  import opened Alignment
  import opened AllocHeader

  const GUARD: byte := 0xfd

  /** One allocation: what its header says. The size includes padding. */
  datatype Allocation = Allocation(tseq: nat, age: nat, size: nat)

  /**
   * Where the header of the i-th allocation is, or would be: after a guard, and after the earlier
   * allocations with a guard each.
   */
  function Pos(g: nat, allocs: seq<Allocation>, i: nat): nat
    requires i <= |allocs|
  {
    if i == 0 then g else Pos(g, allocs, i - 1) + 8 + allocs[i - 1].size + g
  }

  lemma {:induction false} PosOfPrefix(g: nat, allocs: seq<Allocation>, x: Allocation, i: nat)
    requires i <= |allocs|
    ensures Pos(g, allocs + [x], i) == Pos(g, allocs, i)
    decreases i
  {
    if 0 < i { PosOfPrefix(g, allocs, x, i - 1); }
  }

  lemma {:induction false} PosGrows(g: nat, allocs: seq<Allocation>, i: nat, j: nat)
    requires i < j <= |allocs|
    ensures Pos(g, allocs, i) + 8 + allocs[i].size + g <= Pos(g, allocs, j)
    decreases j
  {
    if i + 1 < j { PosGrows(g, allocs, i, j - 1); }
  }

  lemma {:induction false} PosIsAligned(g: nat, allocs: seq<Allocation>, i: nat)
    requires i <= |allocs| && g % 8 == 0 && forall k :: 0 <= k < |allocs| ==> allocs[k].size % 8 == 0
    ensures Pos(g, allocs, i) % 8 == 0
    decreases i
  {
    if 0 < i {
      PosIsAligned(g, allocs, i - 1);
      WordsAddUp(Pos(g, allocs, i - 1), allocs[i - 1].size, g);
    }
  }

  lemma WordsAddUp(a: nat, b: nat, c: nat)
    requires a % 8 == 0 && b % 8 == 0 && c % 8 == 0
    ensures (a + 8 + b + c) % 8 == 0
  {
  }

  /** The header h tells the truth about an allocation. */
  predicate Tells(cfg: HeaderConfig, h: nat, a: Allocation) {
    cfg.Size(h) == a.size && cfg.Age(h) == a.age && cfg.Tseq(h) == a.tseq
  }

  /** The header of an allocation can be read back whole. */
  predicate Fits(cfg: HeaderConfig, a: Allocation) {
    a.size < Pow2(cfg.sizeBits) && a.age < Pow2(cfg.ageBits) && a.tseq < Pow2(cfg.tseqBits)
  }

  class DArena {
    const cfg: HeaderConfig
    const align: nat
    const hi: nat
    // the reserve, and what lies behind it
    const buf: array<byte>

    var committed: nat
    var free: nat

    ghost var allocs: seq<Allocation>

    constructor (cfg: HeaderConfig, align: nat, hi: nat, buf: array<byte>)
      requires cfg.Ok() && 0 < align && align % 8 == 0 && hi % align == 0 && hi + 2 * cfg.guardZ <= buf.Length
      ensures Valid() && this.cfg == cfg && this.hi == hi && this.buf == buf && allocs == [] && committed == 0
    {
      this.cfg, this.align, this.hi, this.buf := cfg, align, hi, buf;
      committed, free, allocs := 0, 0, [];
    }

    predicate Aligned()
      reads this`committed
    {
      cfg.Ok() && 0 < align && align % 8 == 0 && hi % align == 0 && committed % align == 0
    }

    /** Where the i-th header is. */
    ghost function At(i: nat): nat
      requires i <= |allocs|
      reads this`allocs
    {
      Pos(cfg.guardZ, allocs, i)
    }

    /** The header of the i-th allocation is in memory b. */
    ghost predicate HeaderIn(b: seq<byte>, i: nat)
      requires i < |allocs|
      reads this`allocs
    {
      At(i) + 8 <= |b| && b[At(i)..At(i) + 8] == ToBytes(cfg.MkHeader(allocs[i].tseq, allocs[i].age, allocs[i].size), 8)
    }

    ghost predicate HeadersIn(b: seq<byte>)
      reads this`allocs
    {
      forall i :: 0 <= i < |allocs| ==> HeaderIn(b, i)
    }

    /** The guard before the i-th header, or behind the last allocation, is in memory b. */
    ghost predicate GuardIn(b: seq<byte>, i: nat)
      requires i <= |allocs|
      reads this`allocs
    {
      At(i) <= |b| && forall j :: 0 <= j < At(i) && At(i) - cfg.guardZ <= j ==> b[j] == GUARD
    }

    ghost predicate GuardsIn(b: seq<byte>)
      reads this`allocs
    {
      forall i :: 0 <= i <= |allocs| ==> GuardIn(b, i)
    }

    ghost predicate Valid()
      reads this, buf
    {
      && Aligned() && committed <= hi && hi + 2 * cfg.guardZ <= buf.Length
      && (forall i :: 0 <= i < |allocs| ==> allocs[i].size % 8 == 0)
      && free == (if committed == 0 then 0 else At(|allocs|))
      && (committed == 0 ==> allocs == [])
      && free <= committed + 2 * cfg.guardZ
      && (allocs != [] && cfg.guardZ < hi ==> At(|allocs| - 1) < hi)
      && HeadersIn(buf[..]) && (0 < committed ==> GuardsIn(buf[..]))
    }

    method FillGuard(at: nat)
      requires at + cfg.guardZ <= buf.Length
      modifies buf
      ensures forall j :: 0 <= j < buf.Length && !(at <= j < at + cfg.guardZ) ==> buf[j] == old(buf[j])
      ensures forall j :: at <= j < at + cfg.guardZ ==> buf[j] == GUARD
    {
      var i := 0;
      while i < cfg.guardZ
        invariant 0 <= i <= cfg.guardZ
        invariant forall j :: 0 <= j < buf.Length && !(at <= j < at + i) ==> buf[j] == old(buf[j])
        invariant forall j :: at <= j < at + i ==> buf[j] == GUARD
      {
        buf[at + i] := GUARD;
        i := i + 1;
      }
    }

    /** Stores h at address at, lowest byte first. */
    method StoreWord(at: nat, h: nat)
      requires at + 8 <= buf.Length
      modifies buf
      ensures forall j :: 0 <= j < buf.Length && !(at <= j < at + 8) ==> buf[j] == old(buf[j])
      ensures buf[at..at + 8] == ToBytes(h, 8)
    {
      var bs := ToBytes(h, 8);
      var i := 0;
      while i < 8
        invariant 0 <= i <= 8
        invariant forall j :: 0 <= j < buf.Length && !(at <= j < at + i) ==> buf[j] == old(buf[j])
        invariant forall j :: 0 <= j < i ==> buf[at + j] == bs[j]
      {
        buf[at + i] := bs[i];
        i := i + 1;
      }
    }

    /** Commits memory so that the first target bytes are usable. On the first commit the arena starts with a guard. */
    method Expand(target: nat, commits: bool) returns (ok: bool)
      requires Valid() && free < target
      modifies this`committed, this`free, buf
      ensures Valid() && allocs == old(allocs)
      ensures ok == (target <= old(committed) || (target <= hi && commits))
      ensures ok ==> target <= committed && old(committed) <= committed && free == At(|allocs|)
      ensures !ok ==> committed == old(committed) && free == old(free)
      ensures ok ==> free == if old(committed) == 0 then cfg.guardZ else old(free)
      ensures committed == old(committed) || committed < target + align
    {
      hide Pos, ToBytes, HeaderConfig.MkHeader;
      if target <= committed {
        return true;
      }
      if target > hi {
        return false;
      }
      if !commits {
        return false;
      }
      var first := committed == 0;
      PaddingAligns(target, align);
      PaddingFits(target, align, hi);
      if first {
        FillGuard(free);
        FirstGuard();
        free := free + cfg.guardZ;
        assert GuardIn(buf[..], 0);
      }
      committed := RoundUp(target, align);
      return true;
    }

    lemma FirstGuard()
      requires allocs == []
      ensures At(|allocs|) == cfg.guardZ
    {
    }

    /**
     * Hands out z bytes, padded to whole words, behind a header. Fails, with
     * nothing changed, if there is no header field for the size, or no memory.
     * Whether the size fits its field is not checked.
     */
    method Alloc(z: nat, tseq: nat, age: nat, commits: bool) returns (ok: bool, mem: nat)
      requires Valid()
      modifies this`committed, this`free, this`allocs, buf
      ensures Valid()
      ensures ok == (0 < cfg.sizeBits &&
        (old(free) + 8 + RoundUp(z, 8) <= old(committed) || (old(free) + 8 + RoundUp(z, 8) <= hi && commits)))
      ensures ok ==>
        allocs == old(allocs) + [Allocation(tseq, age, RoundUp(z, 8))] && mem == old(At(|allocs|)) + 8 && mem % 8 == 0
      ensures ok ==> mem + RoundUp(z, 8) + cfg.guardZ <= buf.Length
      ensures ok ==> forall j :: mem + RoundUp(z, 8) <= j < mem + RoundUp(z, 8) + cfg.guardZ ==> buf[j] == GUARD
      ensures ok ==> forall j :: 0 <= j && mem - 8 - cfg.guardZ <= j < mem - 8 ==> buf[j] == GUARD
      ensures ok ==> mem == (if old(committed) == 0 then cfg.guardZ else old(free)) + 8
      ensures committed == old(committed) || committed < mem + RoundUp(z, 8) + align
      ensures ok ==> mem + z <= committed + cfg.guardZ && free == At(|allocs|) == mem + RoundUp(z, 8) + cfg.guardZ
      ensures !ok ==> allocs == old(allocs) && free == old(free)
    {
      hide Pos, ToBytes, HeaderConfig.MkHeader, DArena.HeadersIn, RoundUp;
      if cfg.sizeBits == 0 {
        return false, 0;
      }
      mem := 0;
      var z0 := RoundUp(z, 8);
      PaddingAligns(z, 8);
      var header := cfg.MkHeader(tseq, age, z0);
      ok := Expand(free + 8 + z0, commits);
      if ok {
        mem := Place(Allocation(tseq, age, z0), header, z0);
      }
    }

    /** Writes the header at the free pointer, and a guard behind the allocation. */
    method Place(ghost x: Allocation, header: nat, z0: nat) returns (mem: nat)
      requires Valid() && 0 < committed && x.size == z0 && z0 % 8 == 0 && free + 8 + z0 <= committed + cfg.guardZ
      requires cfg.guardZ < hi ==> free < hi
      requires header == cfg.MkHeader(x.tseq, x.age, x.size)
      modifies this`free, this`allocs, buf
      ensures Valid() && allocs == old(allocs) + [x] && mem == old(free) + 8 && mem % 8 == 0
      ensures free == mem + z0 + cfg.guardZ <= buf.Length
      ensures forall j :: mem + z0 <= j < mem + z0 + cfg.guardZ ==> buf[j] == GUARD
      ensures forall j :: 0 <= j && mem - 8 - cfg.guardZ <= j < mem - 8 ==> buf[j] == GUARD
    {
      hide ToBytes, HeaderConfig.MkHeader, DArena.Aligned, Pos;
      ghost var buf0 := buf[..];
      FreeIsAligned();
      mem := Write(header, z0);
      OldHeadersStay(buf0, buf[..]);
      ExtendedBy(x);
      NewHeader(buf[..], x);
      OldGuardsStay(buf0, buf[..]);
      assert GuardIn(buf[..], |allocs|);
      NewGuard(buf[..], x);
      allocs := allocs + [x];
    }

    /** The header, and the guard after z0 more bytes. */
    method Write(header: nat, z0: nat) returns (mem: nat)
      requires free + 8 + z0 + cfg.guardZ <= buf.Length
      modifies this`free, buf
      ensures mem == old(free) + 8 && free == mem + z0 + cfg.guardZ
      ensures forall j :: 0 <= j < buf.Length && j < old(free) ==> buf[j] == old(buf[j])
      ensures buf[mem - 8..mem] == ToBytes(header, 8)
      ensures forall j :: mem + z0 <= j < mem + z0 + cfg.guardZ ==> buf[j] == GUARD
    {
      hide ToBytes;
      StoreWord(free, header);
      mem := free + 8;
      free := free + 8 + z0;
      FillGuard(free);
      free := free + cfg.guardZ;
    }

    lemma OldGuardsStay(b: seq<byte>, b': seq<byte>)
      requires |b'| == |b| && forall j :: 0 <= j < |b| && j < At(|allocs|) ==> b'[j] == b[j]
      requires GuardsIn(b)
      ensures GuardsIn(b')
    {
      hide Pos;
      forall i | 0 <= i <= |allocs| ensures GuardIn(b', i) {
        assert GuardIn(b, i);
        if i < |allocs| { PosGrows(cfg.guardZ, allocs, i, |allocs|); }
      }
    }

    /** With one more guard, at the end. */
    lemma NewGuard(b: seq<byte>, x: Allocation)
      requires GuardsIn(b) && At(|allocs|) + 8 + x.size + cfg.guardZ <= |b|
      requires forall j :: At(|allocs|) + 8 + x.size <= j < At(|allocs|) + 8 + x.size + cfg.guardZ ==> b[j] == GUARD
      ensures forall i :: 0 <= i <= |allocs + [x]| ==>
        var p := Pos(cfg.guardZ, allocs + [x], i);
        p <= |b| && forall j :: 0 <= j < p && p - cfg.guardZ <= j ==> b[j] == GUARD
    {
      hide Pos;
      ExtendedBy(x);
      forall i | 0 <= i <= |allocs + [x]|
        ensures var p := Pos(cfg.guardZ, allocs + [x], i);
          p <= |b| && forall j :: 0 <= j < p && p - cfg.guardZ <= j ==> b[j] == GUARD
      {
        if i <= |allocs| { assert GuardIn(b, i); }
      }
    }

    /** With one more header, at the end. */
    lemma NewHeader(b: seq<byte>, x: Allocation)
      requires HeadersIn(b) && At(|allocs|) + 8 <= |b|
      requires b[At(|allocs|)..At(|allocs|) + 8] == ToBytes(cfg.MkHeader(x.tseq, x.age, x.size), 8)
      ensures forall i :: 0 <= i < |allocs + [x]| ==>
        var p, a := Pos(cfg.guardZ, allocs + [x], i), (allocs + [x])[i];
        p + 8 <= |b| && b[p..p + 8] == ToBytes(cfg.MkHeader(a.tseq, a.age, a.size), 8)
    {
      hide Pos, ToBytes, HeaderConfig.MkHeader;
      ExtendedBy(x);
      forall i | 0 <= i < |allocs + [x]|
        ensures var p, a := Pos(cfg.guardZ, allocs + [x], i), (allocs + [x])[i];
          p + 8 <= |b| && b[p..p + 8] == ToBytes(cfg.MkHeader(a.tseq, a.age, a.size), 8)
      {
        if i < |allocs| { assert HeaderIn(b, i); }
      }
    }

    lemma FreeIsAligned()
      requires Valid() && 0 < committed
      ensures free % 8 == 0 && free == At(|allocs|)
    {
      PosIsAligned(cfg.guardZ, allocs, |allocs|);
    }

    /** Headers below the free pointer are not disturbed by what is written from there on. */
    lemma OldHeadersStay(b: seq<byte>, b': seq<byte>)
      requires |b'| == |b| && forall j :: 0 <= j < |b| && j < At(|allocs|) ==> b'[j] == b[j]
      requires HeadersIn(b)
      ensures HeadersIn(b')
    {
      hide Pos, ToBytes, HeaderConfig.MkHeader;
      forall i | 0 <= i < |allocs| ensures HeaderIn(b', i) {
        assert HeaderIn(b, i);
        PosGrows(cfg.guardZ, allocs, i, |allocs|);
        assert b'[At(i)..At(i) + 8] == b[At(i)..At(i) + 8];
      }
    }

    lemma ExtendedBy(x: Allocation)
      ensures forall i :: 0 <= i <= |allocs| ==> Pos(cfg.guardZ, allocs + [x], i) == At(i)
      ensures Pos(cfg.guardZ, allocs + [x], |allocs| + 1) == At(|allocs|) + 8 + x.size + cfg.guardZ
    {
      forall i | 0 <= i <= |allocs| ensures Pos(cfg.guardZ, allocs + [x], i) == At(i) {
        PosOfPrefix(cfg.guardZ, allocs, x, i);
      }
    }

    // -------------------------------------------------------------------------
    // Reading it back
    // -------------------------------------------------------------------------

    function LoadWord(at: nat): nat
      requires at + 8 <= buf.Length
      reads buf
    {
      FromBytes(buf[at..at + 8])
    }

    /** Where the first header is, if there is one. */
    function BeginHeader(): nat { cfg.guardZ }

    function EndHeader(): nat
      reads this`free
    {
      free
    }

    /** Empties the arena, leaving it with its initial guard. */
    method Clear()
      requires Valid()
      modifies this`free, this`allocs, buf
      ensures allocs == [] && free == cfg.guardZ && committed == old(committed)
      ensures Valid() <==> 0 < committed || cfg.guardZ == 0
    {
      free := 0;
      allocs := [];
      FillGuard(free);
      free := free + cfg.guardZ;
      assert GuardIn(buf[..], 0);
    }

    /** Headers read back from memory are the ones put in. */
    lemma HeaderReads(i: nat)
      requires Valid() && i < |allocs|
      ensures At(i) + 8 <= buf.Length && LoadWord(At(i)) == cfg.MkHeader(allocs[i].tseq, allocs[i].age, allocs[i].size)
    {
      hide Pos, ToBytes, FromBytes, HeaderConfig.MkHeader;
      assert HeaderIn(buf[..], i);
      assert buf[..][At(i)..At(i) + 8] == buf[At(i)..At(i) + 8];
      HeaderFits(cfg, allocs[i].tseq, allocs[i].age, allocs[i].size);
      Pow2OfWord();
      BytesRoundTrip(cfg.MkHeader(allocs[i].tseq, allocs[i].age, allocs[i].size), 8);
    }

    /**
     * The headers are where an iterator will look: before the free pointer, the next one a size and a
     * guard further on.
     */
    lemma NextHeader(i: nat)
      requires Valid() && i < |allocs|
      ensures At(i) + 8 <= buf.Length && At(i) < free && (cfg.guardZ < hi ==> At(i) < hi)
      ensures At(i + 1) == At(i) + 8 + allocs[i].size + cfg.guardZ <= free
      ensures At(|allocs|) == free
    {
      PosGrows(cfg.guardZ, allocs, i, |allocs|);
      if i + 1 < |allocs| {
        PosGrows(cfg.guardZ, allocs, i + 1, |allocs|);
        PosGrows(cfg.guardZ, allocs, i, |allocs| - 1);
      }
      assert HeaderIn(buf[..], i);
    }

    /**
     * The arena can be walked: it begins with its guard, which leaves room, and every header holds
     * what was put into it.
     */
    ghost predicate Walkable()
      reads this`allocs, this`committed
    {
      (0 < committed || cfg.guardZ == 0) && cfg.guardZ < hi && forall i :: 0 <= i < |allocs| ==> Fits(cfg, allocs[i])
    }
  }

  /** What the iterator shows of an allocation. */
  datatype AllocInfo = AllocInfo(mem: nat, tseq: nat, age: nat, size: nat)

  function InfoOf(g: nat, allocs: seq<Allocation>, i: nat): AllocInfo
    requires i < |allocs|
  {
    AllocInfo(Pos(g, allocs, i) + 8, allocs[i].tseq, allocs[i].age, allocs[i].size)
  }

  /** All of them, in order. */
  function Infos(g: nat, allocs: seq<Allocation>): (r: seq<AllocInfo>)
    ensures |r| == |allocs|
  {
    seq(|allocs|, i requires 0 <= i < |allocs| => InfoOf(g, allocs, i))
  }

  lemma InfosAt(g: nat, allocs: seq<Allocation>, i: nat)
    requires i < |allocs|
    ensures Infos(g, allocs)[i] == AllocInfo(Pos(g, allocs, i) + 8, allocs[i].tseq, allocs[i].age, allocs[i].size)
  {
  }

  class DArenaIterator {
    const arena: DArena
    var pos: nat

    constructor Begin(arena: DArena)
      ensures this.arena == arena && pos == arena.BeginHeader()
    {
      this.arena, pos := arena, arena.BeginHeader();
    }

    constructor At(arena: DArena, pos: nat)
      ensures this.arena == arena && this.pos == pos
    {
      this.arena, this.pos := arena, pos;
    }

    constructor End(arena: DArena)
      ensures this.arena == arena && pos == arena.EndHeader()
    {
      this.arena, pos := arena, arena.EndHeader();
    }

    /** At the i-th allocation, or at the end. */
    ghost predicate IsAt(i: nat)
      reads this, arena, arena.buf
    {
      arena.Valid() && i <= |arena.allocs| && pos == arena.At(i)
    }

    /** The two iterators, of the same arena, are at the same place. */
    predicate Equals(other: DArenaIterator)
      reads this`pos, other`pos
    {
      arena == other.arena && pos == other.pos
    }

    method Deref(ghost i: nat) returns (ok: bool, info: AllocInfo)
      requires IsAt(i) && arena.Walkable()
      ensures ok == (i < |arena.allocs|)
      ensures ok ==>
        info == AllocInfo(pos + 8, arena.allocs[i].tseq, arena.allocs[i].age, arena.allocs[i].size)
    {
      hide Pos, FromBytes, HeaderConfig.MkHeader;
      info := AllocInfo(0, 0, 0, 0);
      ok := pos < arena.hi && pos < arena.free;
      if i < |arena.allocs| {
        arena.NextHeader(i);
        arena.HeaderReads(i);
        HeaderOfFit(arena.cfg, arena.allocs[i]);
      }
      if ok {
        var h := arena.LoadWord(pos);
        info := AllocInfo(pos + 8, arena.cfg.Tseq(h), arena.cfg.Age(h), arena.cfg.Size(h));
      }
    }

    method Next(ghost i: nat)
      requires IsAt(i) && arena.Walkable()
      modifies this`pos
      ensures if i < |arena.allocs| then IsAt(i + 1) else pos == old(pos)
    {
      hide Pos, FromBytes, HeaderConfig.MkHeader;
      if i < |arena.allocs| {
        arena.NextHeader(i);
        arena.HeaderReads(i);
        HeaderOfFit(arena.cfg, arena.allocs[i]);
      }
      if pos < arena.hi && pos < arena.free {
        pos := pos + 8 + arena.cfg.Size(arena.LoadWord(pos)) + arena.cfg.guardZ;
      }
    }
  }

  /** A header tells the truth about an allocation exactly if its type, age and size all fit their fields. */
  lemma HeaderIsTrueIff(cfg: HeaderConfig, a: Allocation)
    ensures var h := cfg.MkHeader(a.tseq, a.age, a.size);
      (cfg.Size(h) == a.size && cfg.Age(h) == a.age && cfg.Tseq(h) == a.tseq) <==>
        (a.size < Pow2(cfg.sizeBits) && a.age < Pow2(cfg.ageBits) && a.tseq < Pow2(cfg.tseqBits))
  {
    HeaderRoundTrip(cfg, a.tseq, a.age, a.size);
    if Fits(cfg, a) { HeaderOfFit(cfg, a); }
  }

  /** Payloads do not overlap, and keep a header and the guards between them. */
  lemma PayloadsAreApart(g: nat, allocs: seq<Allocation>, i: nat, j: nat)
    requires i < j < |allocs|
    ensures InfoOf(g, allocs, i).mem + allocs[i].size + g + 8 <= InfoOf(g, allocs, j).mem
  {
    PosGrows(g, allocs, i, j);
  }

  /**
   * The bound on the free pointer is tight: with guard bytes, it can be two guards beyond committed
   * memory, and beyond the reserve.
   */
  method GuardsOverrun() returns (d: DArena)
    ensures d.Valid() && 0 < d.cfg.guardZ && d.free == d.committed + 2 * d.cfg.guardZ == d.hi + 2 * d.cfg.guardZ
  {
    var buf := new byte[32];
    d := new DArena(HeaderConfig(8, 24, 8, 32), 8, 16, buf);
    var ok, mem := d.Alloc(8, 0, 0, true);
  }

  lemma HeaderOfFit(cfg: HeaderConfig, a: Allocation)
    requires Fits(cfg, a)
    ensures Tells(cfg, cfg.MkHeader(a.tseq, a.age, a.size), a)
  {
    HeaderRoundTrip(cfg, a.tseq, a.age, a.size);
    SmallMod(a.size, Pow2(cfg.sizeBits));
    SmallMod(a.tseq, Pow2(cfg.tseqBits));
  }

  /** Walking an arena from begin to end finds exactly the allocations made, in order. */
  method Walk(d: DArena) returns (infos: seq<AllocInfo>)
    requires d.Valid() && d.Walkable()
    ensures infos == Infos(d.cfg.guardZ, d.allocs) && |infos| == |d.allocs|
    ensures forall i :: 0 <= i < |infos| ==>
      infos[i] == AllocInfo(d.At(i) + 8, d.allocs[i].tseq, d.allocs[i].age, d.allocs[i].size)
  {
    hide Pos;
    infos := [];
    var ix := new DArenaIterator.Begin(d);
    var end := new DArenaIterator.End(d);
    ghost var i := 0;
    BeginsAtFirst(d);
    while !ix.Equals(end)
      invariant ix.arena == end.arena == d && end.IsAt(|d.allocs|) && ix.IsAt(i) && d.Valid() && d.Walkable()
      invariant infos == Infos(d.cfg.guardZ, d.allocs)[..i]
      invariant fresh(ix) && fresh(end) && ix != end
      decreases |d.allocs| - i
    {
      NotYetAtEnd(ix, end, i);
      var ok, info := ix.Deref(i);
      infos := infos + [info];
      ix.Next(i);
      i := i + 1;
    }
    EqualAtEnd(ix, end, i);
  }

  lemma BeginsAtFirst(d: DArena)
    requires d.Valid() && d.Walkable()
    ensures d.BeginHeader() == d.At(0) && d.EndHeader() == d.At(|d.allocs|)
  {
  }

  lemma NotYetAtEnd(ix: DArenaIterator, end: DArenaIterator, i: nat)
    requires ix.arena == end.arena && ix.IsAt(i) && end.IsAt(|ix.arena.allocs|) && !ix.Equals(end)
    ensures i < |ix.arena.allocs|
  {
  }

  lemma EqualAtEnd(ix: DArenaIterator, end: DArenaIterator, i: nat)
    requires ix.arena == end.arena && ix.IsAt(i) && end.IsAt(|ix.arena.allocs|) && ix.Equals(end)
    ensures i == |ix.arena.allocs|
  {
    if i < |ix.arena.allocs| { PosGrows(ix.arena.cfg.guardZ, ix.arena.allocs, i, |ix.arena.allocs|); }
  }

  // ---------------------------------------------------------------------------
  // All generations of a collector
  // ---------------------------------------------------------------------------

  ghost predicate AllWalkable(arenas: seq<DArena>)
    reads arenas, set d | d in arenas :: d.buf
  {
    0 < |arenas| && forall d :: d in arenas ==> d.Valid() && d.Walkable()
  }

  /** The allocations of generation g and the older ones, in order. */
  ghost function AllFrom(arenas: seq<DArena>, g: nat): seq<AllocInfo>
    requires g <= |arenas|
    reads arenas
    decreases |arenas| - g
  {
    if g == |arenas| then [] else Infos(arenas[g].cfg.guardZ, arenas[g].allocs) + AllFrom(arenas, g + 1)
  }

  class DX1CollectorIterator {
    const arenas: seq<DArena>

    // the generation, and where in its arena, up to the end of that
    var gen: nat
    var arena: DArena
    var pos: nat
    var end: nat

    // how many allocations of the arena have been passed
    ghost var i: nat

    /** At the i-th allocation of generation gen, or at the end of the last generation. */
    ghost predicate IsPlaced()
      reads this, arenas, set d | d in arenas :: d.buf
    {
      && AllWalkable(arenas) && gen <= |arenas|
      && arena == arenas[if gen < |arenas| then gen else |arenas| - 1]
      && i <= |arena.allocs| && pos == arena.At(i) && end == arena.free
      && (gen == |arenas| ==> i == |arena.allocs|)
    }

    /** Placed, and not at the end of a generation before the last. */
    ghost predicate Valid()
      reads this, arenas, set d | d in arenas :: d.buf
    {
      IsPlaced() && (gen < |arenas| ==> i < |arena.allocs|)
    }

    /** What is still to be visited. */
    ghost function ToCome(): seq<AllocInfo>
      requires IsPlaced()
      reads this, arenas, set d | d in arenas :: d.buf
    {
      Infos(arena.cfg.guardZ, arena.allocs)[i..] + AllFrom(arenas, if gen < |arenas| then gen + 1 else gen)
    }

    constructor Begin(arenas: seq<DArena>)
      requires AllWalkable(arenas)
      ensures this.arenas == arenas && Valid() && ToCome() == AllFrom(arenas, 0)
    {
      this.arenas := arenas;
      gen, arena, pos, end, i := 0, arenas[0], arenas[0].BeginHeader(), arenas[0].EndHeader(), 0;
      new;
      BeginsAtFirst(arena);
      Normalize();
    }

    constructor End(arenas: seq<DArena>)
      requires AllWalkable(arenas)
      ensures this.arenas == arenas && Valid() && gen == |arenas| && ToCome() == []
    {
      this.arenas := arenas;
      var last := arenas[|arenas| - 1];
      gen, arena, pos, end, i := |arenas|, last, last.EndHeader(), last.EndHeader(), |last.allocs|;
      new;
      BeginsAtFirst(arena);
    }

    /** Moves to the beginning of generation gen. */
    method EnterGeneration()
      requires AllWalkable(arenas) && gen < |arenas|
      modifies this`arena, this`pos, this`end, this`i
      ensures IsPlaced() && i == 0 && ToCome() == AllFrom(arenas, gen) && (pos == end <==> arena.allocs == [])
    {
      hide Pos, DArena.Valid, DArena.Walkable, Infos;
      arena := arenas[gen];
      pos, end, i := arena.BeginHeader(), arena.EndHeader(), 0;
      BeginsAtFirst(arena);
      AtEndIff(arena, 0);
      assert Infos(arena.cfg.guardZ, arena.allocs)[0..] == Infos(arena.cfg.guardZ, arena.allocs);
    }

    /** At the end of a generation only the older ones are to come. */
    lemma DoneWith()
      requires IsPlaced() && pos == end
      ensures i == |arena.allocs| && ToCome() == AllFrom(arenas, if gen < |arenas| then gen + 1 else gen)
    {
      AtEndIff(arena, i);
    }

    lemma NotDoneWith()
      requires IsPlaced() && pos != end
      ensures Valid()
    {
      AtEndIff(arena, i);
    }

    /** Finds the next generation that is not empty, if this one is done with. */
    method Normalize()
      requires IsPlaced()
      modifies this
      ensures Valid() && ToCome() == old(ToCome())
    {
      hide AllFrom, AllWalkable, DX1CollectorIterator.ToCome;
      if pos != end {
        NotDoneWith();
        return;
      }
      ghost var todo := ToCome();
      DoneWith();
      if gen < |arenas| {
        var g := gen + 1;
        while g < |arenas|
          invariant gen < g <= |arenas| && gen == g - 1 && IsPlaced() && pos == end && AllFrom(arenas, g) == todo
          decreases |arenas| - g
        {
          gen := g;
          EnterGeneration();
          if pos != end {
            NotDoneWith();
            return;
          }
          DoneWith();
          g := g + 1;
        }
        AtLast();
        gen := g;
        DoneWith();
      }
    }

    lemma AtLast()
      requires IsPlaced() && gen + 1 == |arenas| && pos == end
      ensures i == |arena.allocs|
    {
      DoneWith();
    }

    method Deref() returns (info: AllocInfo)
      requires Valid() && gen < |arenas|
      ensures ToCome() != [] && info == ToCome()[0]
    {
      var ix := new DArenaIterator.At(arena, pos);
      var ok;
      ok, info := ix.Deref(i);
    }

    lemma CurrentIsWalkable()
      requires IsPlaced() && gen < |arenas|
      ensures arena.Valid() && arena.Walkable()
    {
    }

    method Next()
      requires Valid() && gen < |arenas|
      modifies this
      ensures Valid() && ToCome() == old(ToCome())[1..]
    {
      hide Pos, AllFrom, AllWalkable;
      ghost var infos, rest := Infos(arena.cfg.guardZ, arena.allocs), AllFrom(arenas, gen + 1);
      assert infos[i..] + rest == [infos[i]] + (infos[i + 1..] + rest);
      CurrentIsWalkable();
      var ix := new DArenaIterator.At(arena, pos);
      ix.Next(i);
      pos, i := ix.pos, i + 1;
      Normalize();
    }

    /** Iterators of one collector are at the same place: in the same generation, and at the same place in its arena. */
    predicate Equals(other: DX1CollectorIterator)
      reads this, other
    {
      arenas == other.arenas && gen == other.gen && arena == other.arena && pos == other.pos
    }
  }

  lemma AtEndIff(d: DArena, i: nat)
    requires d.Valid() && d.Walkable() && i <= |d.allocs|
    ensures d.At(i) == d.free <==> i == |d.allocs|
  {
    BeginsAtFirst(d);
    if i < |d.allocs| { PosGrows(d.cfg.guardZ, d.allocs, i, |d.allocs|); }
  }

  /** How many allocations there are in the generations from h up to g. */
  ghost function Between(arenas: seq<DArena>, h: nat, g: nat): nat
    requires h <= g <= |arenas|
    reads arenas
    decreases g - h
  {
    if h == g then 0 else |arenas[h].allocs| + Between(arenas, h + 1, g)
  }

  /** The i-th allocation of generation g comes after all those of the younger ones. */
  lemma {:induction false} AllFromAt(arenas: seq<DArena>, h: nat, g: nat, i: nat)
    requires h <= g < |arenas| && i < |arenas[g].allocs|
    ensures var k, d := Between(arenas, h, g) + i, arenas[g];
      k < |AllFrom(arenas, h)| &&
      AllFrom(arenas, h)[k] == AllocInfo(d.At(i) + 8, d.allocs[i].tseq, d.allocs[i].age, d.allocs[i].size)
    decreases g - h
  {
    hide Pos, Infos;
    if h < g {
      AllFromAt(arenas, h + 1, g, i);
    } else {
      InfosAt(arenas[g].cfg.guardZ, arenas[g].allocs, i);
    }
  }

  lemma {:induction false} AllFromSize(arenas: seq<DArena>, h: nat)
    requires h <= |arenas|
    ensures |AllFrom(arenas, h)| == Between(arenas, h, |arenas|)
    decreases |arenas| - h
  {
    hide Infos;
    if h < |arenas| { AllFromSize(arenas, h + 1); }
  }

  /**
   * Iterating over a collector visits the allocations of every generation in order, and ends where an
   * end iterator is.
   */
  method WalkAll(arenas: seq<DArena>) returns (infos: seq<AllocInfo>)
    requires AllWalkable(arenas)
    ensures infos == AllFrom(arenas, 0) && |infos| == Between(arenas, 0, |arenas|)
    ensures forall g, i :: 0 <= g < |arenas| && 0 <= i < |arenas[g].allocs| ==>
      var k, d := Between(arenas, 0, g) + i, arenas[g];
      k < |infos| && infos[k] == AllocInfo(d.At(i) + 8, d.allocs[i].tseq, d.allocs[i].age, d.allocs[i].size)
  {
    hide Pos, Between, DArena.At;
    hide AllWalkable, AllFrom, DX1CollectorIterator.ToCome, DX1CollectorIterator.IsPlaced;
    infos := [];
    var ix := new DX1CollectorIterator.Begin(arenas);
    var end := new DX1CollectorIterator.End(arenas);
    while !ix.Equals(end)
      invariant fresh(ix) && fresh(end) && ix != end && ix.arenas == end.arenas == arenas
      invariant ix.Valid() && end.Valid() && end.gen == |arenas|
      invariant infos + ix.ToCome() == AllFrom(arenas, 0)
      decreases |ix.ToCome()|
    {
      EqualIffDone(ix, end);
      var info := ix.Deref();
      infos := infos + [info];
      ix.Next();
    }
    EqualIffDone(ix, end);
    AllFromSpelledOut(arenas);
  }

  lemma AllFromSpelledOut(arenas: seq<DArena>)
    ensures |AllFrom(arenas, 0)| == Between(arenas, 0, |arenas|)
    ensures forall g, i :: 0 <= g < |arenas| && 0 <= i < |arenas[g].allocs| ==>
      var k, d := Between(arenas, 0, g) + i, arenas[g];
      k < |AllFrom(arenas, 0)| &&
      AllFrom(arenas, 0)[k] == AllocInfo(d.At(i) + 8, d.allocs[i].tseq, d.allocs[i].age, d.allocs[i].size)
  {
    hide Pos, Between, AllFrom;
    AllFromSize(arenas, 0);
    forall g, i | 0 <= g < |arenas| && 0 <= i < |arenas[g].allocs|
      ensures var k, d := Between(arenas, 0, g) + i, arenas[g];
        k < |AllFrom(arenas, 0)| &&
        AllFrom(arenas, 0)[k] == AllocInfo(d.At(i) + 8, d.allocs[i].tseq, d.allocs[i].age, d.allocs[i].size)
    {
      AllFromAt(arenas, 0, g, i);
    }
  }

  /** An iterator is where an end iterator is exactly if it is past the last generation, and then nothing is to come. */
  lemma EqualIffDone(ix: DX1CollectorIterator, end: DX1CollectorIterator)
    requires ix.arenas == end.arenas && ix.Valid() && end.Valid() && end.gen == |end.arenas|
    ensures ix.Equals(end) <==> ix.gen == |ix.arenas|
    ensures ix.gen <= |ix.arenas| && (ix.gen == |ix.arenas| ==> ix.ToCome() == [])
  {
    hide Pos, DArena.Valid, DArena.Walkable;
  }
}
