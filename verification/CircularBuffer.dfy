/**
 * A byte queue in a reserved address range: it grows by committing memory, keeps
 * pinned ranges where they are, and moves unread input back to the beginning
 * when that is cheap. Addresses are offsets from the start of the reserve.
 */
module CircularBuffer {
  import opened Alignment

  /** The addresses from lo up to hi. */
  datatype Span = Span(lo: nat, hi: nat) {
    predicate Ok() { lo <= hi }

    predicate Within(other: Span) { other.lo <= lo && hi <= other.hi }

    /** The part from p on; empty, at the end, if p is outside. */
    function SuffixFrom(p: nat): Span { if lo <= p <= hi then Span(p, hi) else Span(hi, hi) }

    function Prefix(z: nat): Span { Span(lo, lo + z) }

    /** Extended by a span that begins where this one ends. */
    function Plus(x: Span): Span { if hi == x.lo then Span(lo, x.hi) else this }
  }

  /** Pins in increasing order of their starts. */
  predicate Sorted(pins: seq<Span>) {
    forall i, j :: 0 <= i < j < |pins| ==> pins[i].lo <= pins[j].lo
  }

  /** Where pin_range puts r: at the end, or just before a last pin that does not start before it. */
  function WithPin(pins: seq<Span>, r: Span): (s: seq<Span>)
    ensures forall p :: p in s <==> p == r || p in pins
  {
    var z := |pins|;
    if z == 0 || r.lo > pins[z - 1].lo then pins + [r]
    else
      assert pins == pins[..z - 1] + [pins[z - 1]];
      pins[..z - 1] + [r] + [pins[z - 1]]
  }

  lemma WithPinHasAll(pins: seq<Span>, r: Span)
    ensures forall p :: p in WithPin(pins, r) <==> p == r || p in pins
    ensures multiset(WithPin(pins, r)) == multiset(pins) + multiset{r}
  {
    var z := |pins|;
    if z != 0 && r.lo <= pins[z - 1].lo { assert pins == pins[..z - 1] + [pins[z - 1]]; }
  }

  /**
   * Exactly when the order survives: only the last pin is compared, so a new one must not start before
   * the one before it.
   */
  lemma WithPinSortedIff(pins: seq<Span>, r: Span)
    requires Sorted(pins)
    ensures Sorted(WithPin(pins, r)) <==> |pins| < 2 || pins[|pins| - 2].lo <= r.lo
  {
    var s, z := WithPin(pins, r), |pins|;
    if 2 <= z && r.lo < pins[z - 2].lo {
      assert s[z - 2] == pins[z - 2] && s[z - 1] == r;
    }
  }

  /** The occupied range once what neither input nor the first pin needs has been released. */
  function Fitted(occupied: Span, input: Span, pins: seq<Span>): Span {
    if pins == [] then input
    else if occupied.lo < pins[0].lo then occupied.SuffixFrom(pins[0].lo)
    else occupied
  }

  /** Exactly when releasing memory keeps the unread input: the first pin must not start in the middle of it. */
  lemma FittedHoldsInputIff(occupied: Span, input: Span, pins: seq<Span>)
    requires input.Within(occupied) && input.lo < input.hi && (pins != [] ==> pins[0].Within(occupied) && pins[0].Ok())
    ensures input.Within(Fitted(occupied, input, pins)) <==> pins == [] || pins[0].lo <= input.lo
  {
  }

  lemma Negative(x: real, y: real)
    requires x < 0.0 <= y
    ensures x * y <= 0.0
  {
  }

  lemma NotNegative(x: real, y: real)
    requires 0.0 <= x && 0.0 <= y
    ensures 0.0 <= x * y
  {
  }

  lemma Joined(s: seq<char>, lo: nat, hi: nat, k: nat)
    requires lo <= hi && hi + k <= |s|
    ensures s[lo..hi + k] == s[lo..hi] + s[hi..hi + k]
  {
  }

  class DCircularBuffer {
    const align: nat
    const pageZ: nat
    const efficiency: real
    const buf: array<char>

    var mapped: Span
    var occupied: Span
    var input: Span
    var pins: seq<Span>

    // what append has accepted and consume has taken, since the beginning
    ghost var accepted: seq<char>
    ghost var taken: seq<char>

    constructor (align: nat, pageZ: nat, efficiency: real, buf: array<char>)
      requires 0 < align && buf.Length % align == 0
      ensures Valid() && Orderly() && this.buf == buf && accepted == [] && taken == [] && pins == [] && Compact()
    {
      this.align, this.pageZ, this.efficiency, this.buf := align, pageZ, efficiency, buf;
      mapped, occupied, input, pins := Span(0, 0), Span(0, 0), Span(0, 0), [];
      accepted, taken := [], [];
    }

    /** The mapped range is a whole number of allocation units, and so is the reserve. */
    predicate Aligned()
      reads this`mapped
    {
      0 < align && buf.Length % align == 0 && mapped.hi % align == 0
    }

    /** Unread input ends where what is occupied ends. Of the pins nothing is asked. */
    ghost predicate Shape()
      reads this
    {
      && Aligned() && mapped.lo == 0 && mapped.hi <= buf.Length
      && occupied.Within(mapped) && occupied.Ok() && input.Ok() && input.hi == occupied.hi
      && (pins == [] ==> occupied == input)
    }

    /** p is a range that ends within what is occupied. */
    predicate Held(p: Span)
      reads this`occupied
    {
      p.Ok() && p.hi <= occupied.hi
    }

    ghost function Unread(): seq<char>
      requires Shape()
      reads this, buf
    {
      buf[input.lo..input.hi]
    }

    /** The queue: what was taken, followed by what is unread, is what was accepted. */
    ghost predicate Valid()
      reads this, buf
    {
      Shape() && taken + Unread() == accepted
    }

    /** The invariants CB1 to CB3 that verify_ok checks, and that unread input is occupied. */
    ghost predicate Checked()
      reads this
    {
      && mapped.Within(Span(0, buf.Length)) && occupied.Within(mapped) && input.Within(occupied)
      && forall p :: p in pins ==> p.Within(occupied)
    }

    /** Pins are in order and start at or before the unread input: then every operation keeps the invariants. */
    ghost predicate Orderly()
      reads this
    {
      Shape() && Checked() && Sorted(pins) && forall p :: p in pins ==> p.Ok() && p.lo <= input.lo
    }

    /** How far from the beginning z bytes of input may be. */
    function Worth(z: nat): int { (efficiency * z as real).Floor }

    /** If nothing is pinned, unread input is not farther from the beginning than is worth moving it. */
    ghost predicate Compact()
      requires Shape()
      reads this
    {
      pins == [] ==> Near(input.lo, input.hi - input.lo)
    }

    /** More input never makes it too far away. */
    lemma MoreIsNotFarther(z: nat, k: nat)
      requires 0 < Worth(z)
      ensures Worth(z) <= Worth(z + k)
    {
      var y: real, x: real := z as real, k as real;
      WorthIsFloor(z);
      WorthIsFloor(z + k);
      assert efficiency * (z + k) as real == efficiency * y + efficiency * x;
      if efficiency < 0.0 {
        Negative(efficiency, y);
        assert false;
      }
      NotNegative(efficiency, x);
    }

    /** Worth is the product rounded down. */
    lemma WorthIsFloor(z: nat)
      ensures Worth(z) as real <= efficiency * z as real < Worth(z) as real + 1.0
    {
    }

    predicate Near(lo: nat, z: nat) { lo <= z || lo <= pageZ || lo <= Worth(z) }

    lemma StaysNear(lo: nat, z: nat, k: nat)
      requires Near(lo, z)
      ensures Near(lo, z + k)
    {
      hide DCircularBuffer.Worth;
      if pageZ < lo && z < lo { MoreIsNotFarther(z, k); }
    }

    lemma NearWithNothing(lo: nat)
      ensures Near(lo, 0) ==> lo <= pageZ
    {
      WorthIsFloor(0);
    }

    /** The bytes of a pin that was held are still there, and it is held still. */
    twostate predicate PinsKept()
      requires old(Shape()) && Shape()
      reads this, buf
    {
      forall p :: p in pins && p in old(pins) && old(Held(p)) ==> Held(p) && buf[p.lo..p.hi] == old(buf[p.lo..p.hi])
    }

    /** Commits memory up to hi, if the operating system grants it. */
    method ExpandTo(hi: nat, commits: bool) returns (ok: bool)
      requires Shape() && hi <= buf.Length
      modifies this`mapped
      ensures Shape() && old(mapped.hi) <= mapped.hi && (commits ==> hi <= mapped.hi)
      ensures (!commits ==> mapped == old(mapped)) && (mapped == old(mapped) || mapped.hi < hi + align)
      ensures ok <==> commits || hi < old(mapped.hi)
      ensures old(Orderly()) ==> Orderly()
    {
      if hi < mapped.hi {
        return true;
      }
      var addZ := hi - mapped.hi;
      var addCommitZ := RoundUp(addZ, align);
      if !commits {
        return false;
      }
      CommitStaysAligned(addZ);
      mapped := mapped.Plus(Span(mapped.hi, mapped.hi + addCommitZ));
      return true;
    }

    lemma CommitStaysAligned(addZ: nat)
      requires Shape() && mapped.hi + addZ <= buf.Length
      ensures (mapped.hi + RoundUp(addZ, align)) % align == 0 && mapped.hi + RoundUp(addZ, align) <= buf.Length
    {
      PaddingAligns(addZ, align);
      SumIsMultiple(mapped.hi, RoundUp(addZ, align), align);
      RestIsMultiple(buf.Length, mapped.hi, align);
      PaddingFits(addZ, align, buf.Length - mapped.hi);
    }

    /** Memory for more input, at the end of what is occupied. */
    method GetAppendSpan(desired: nat, commits: bool) returns (dest: Span)
      requires Shape()
      modifies this`mapped
      ensures Shape() && dest == Span(occupied.hi, mapped.hi) && old(mapped.hi) <= mapped.hi
      ensures if commits then occupied.hi + desired <= mapped.hi || mapped.hi == buf.Length else mapped == old(mapped)
      ensures mapped == old(mapped) || mapped.hi < occupied.hi + desired + align
      ensures old(Orderly()) ==> Orderly()
    {
      dest := Span(occupied.hi, occupied.hi + desired);
      if dest.hi > buf.Length {
        dest := Span(dest.lo, buf.Length);
      }
      var ok := ExpandTo(dest.hi, commits);
      dest := Span(occupied.hi, mapped.hi);
    }

    /**
     * Copies src to the end of the unread input, as far as memory goes; returns
     * the rest. If commits succeed, only the end of the reserve is a limit.
     */
    method Append(src: seq<char>, commits: bool) returns (rest: seq<char>, k: nat)
      requires Valid()
      modifies this`mapped, this`occupied, this`input, this`accepted, buf
      ensures Valid() && (old(Orderly()) ==> Orderly())
      ensures k <= |src| && rest == src[k..] && accepted == old(accepted) + src[..k]
      ensures Unread() == old(Unread()) + src[..k]
      ensures k == |src| || k == (if commits then buf.Length else old(mapped.hi)) - old(occupied.hi)
      ensures input == Span(old(input.lo), old(input.hi) + k)
      ensures occupied == Span(old(occupied.lo), old(occupied.hi) + k)
      ensures taken == old(taken) && pins == old(pins) && PinsKept()
      ensures mapped == old(mapped) || mapped.hi < old(occupied.hi) + |src| + align
      ensures old(Compact()) ==> Compact()
      ensures commits && old(Compact()) && pins == [] && old(Unread()) == [] ==> k == |src| || buf.Length - pageZ <= k
    {
      hide DCircularBuffer.Aligned, DCircularBuffer.Near, Sorted;
      ghost var buf0, lo, hi := buf[..], input.lo, input.hi;
      var dest := GetAppendSpan(|src|, commits);
      k := if |src| < dest.hi - dest.lo then |src| else dest.hi - dest.lo;
      CopyIn(buf, dest.lo, src, k);
      Appended(buf0, buf[..], hi, src[..k], lo, hi);
      forall p | p in pins && Held(p) ensures buf[p.lo..p.hi] == buf0[p.lo..p.hi] {
        Appended(buf0, buf[..], hi, src[..k], p.lo, p.hi);
      }
      Extend(k, src[..k]);
      if old(Compact()) && pins == [] { StaysNear(lo, hi - lo, k); }
      NearWithNothing(lo);
      rest := src[k..];
    }

    /** What was copied to the end of the occupied range becomes unread input. */
    method Extend(k: nat, ghost src: seq<char>)
      requires Valid() && |src| == k && occupied.hi + k <= mapped.hi && buf[occupied.hi..occupied.hi + k] == src
      modifies this`occupied, this`input, this`accepted
      ensures Valid() && (old(Orderly()) ==> Orderly())
      ensures accepted == old(accepted) + src && Unread() == old(Unread()) + src
      ensures input == Span(old(input.lo), old(input.hi) + k)
      ensures occupied == Span(old(occupied.lo), old(occupied.hi) + k)
    {
      hide DCircularBuffer.Aligned, DCircularBuffer.Worth, Sorted;
      assert buf[input.lo..input.hi + k] == Unread() + src by { Joined(buf[..], input.lo, input.hi, k); }
      occupied := occupied.Plus(Span(occupied.hi, occupied.hi + k));
      input := input.Plus(Span(input.hi, input.hi + k));
      accepted := accepted + src;
    }

    /** A pin that Orderly allows. */
    predicate Fits(p: Span)
      reads this`occupied, this`input
    {
      Held(p) && occupied.lo <= p.lo <= input.lo
    }

    /** Releases what neither input nor the first pin needs. */
    method ShrinkOccupiedToFit()
      requires Aligned() && mapped.lo == 0 && mapped.hi <= buf.Length
      requires occupied.Within(mapped) && occupied.Ok() && input.Ok() && input.hi == occupied.hi
      modifies this`occupied
      ensures Shape() && occupied == Fitted(old(occupied), input, pins) && occupied.hi == old(occupied.hi)
      ensures Sorted(pins) && old(occupied).lo <= input.lo && (forall p :: p in pins ==> old(Fits(p))) ==> Orderly()
    {
      if pins == [] {
        occupied := input;
      } else if occupied.lo < pins[0].lo {
        assert pins[0] in pins;
        occupied := occupied.SuffixFrom(pins[0].lo);
      }
    }

    /**
     * Moves unread input to the beginning of mapped memory, if no pin forbids it and it is far enough
     * away to be worth it.
     */
    method CheckResetMapStart()
      requires Shape()
      modifies this`occupied, this`input, buf
      ensures Shape() && Unread() == old(Unread()) && PinsKept() && (old(Orderly()) ==> Orderly())
      ensures pins != [] ==> input == old(input) && occupied == old(occupied)
      ensures Compact()
      ensures pins == [] ==> input == if old(Compact()) then old(input) else Span(0, old(input.hi - input.lo))
    {
      hide DCircularBuffer.Aligned, DCircularBuffer.Worth, Sorted;
      if pins == [] && input == occupied {
        var z := input.hi - input.lo;
        var worth := Worth(z);
        if input.lo > mapped.lo + (if pageZ < worth then worth else pageZ) && mapped.lo + z < input.lo {
          MoveDown(buf, input.lo, z);
          occupied := mapped.Prefix(z);
          input := mapped.Prefix(z);
        }
      }
    }

    /** Takes the input up to the end of s, which must begin where the unread input does. */
    method Consume(s: Span) returns (ok: bool)
      requires Valid() && s.Ok()
      modifies this`occupied, this`input, this`taken, buf
      ensures Valid() && accepted == old(accepted) && PinsKept()
      ensures ok == (s.lo == old(input.lo) && s.hi <= old(occupied.hi))
      ensures ok ==>
        && s.hi <= buf.Length && taken == old(taken) + old(buf[s.lo..s.hi])
        && old(Unread()) == old(buf[s.lo..s.hi]) + Unread()
      ensures ok && pins != [] ==> input == Span(s.hi, old(input).hi)
      ensures ok && pins == [] ==>
        var z := old(input).hi - s.hi;
        if s.hi <= z || s.hi <= pageZ || s.hi <= Worth(z) then input == Span(s.hi, old(input).hi)
        else input == Span(0, z)
      ensures ok ==> Compact()
      ensures ok && pins != [] ==>
        occupied == if old(occupied).lo < old(input).lo then old(occupied) else Fitted(old(occupied), input, pins)
      ensures !ok ==>
        taken == old(taken) && input == old(input) && occupied == old(occupied) && Unread() == old(Unread())
      ensures old(Orderly()) ==> Orderly()
    {
      hide DCircularBuffer.Aligned, DCircularBuffer.Worth, Sorted, Fitted;
      if s.lo != input.lo || s.hi > occupied.hi {
        return false;
      }
      TakeInput(s.hi);
      CheckResetMapStart();
      ok := true;
    }

    /** The unread input before hi is taken. */
    method TakeInput(hi: nat)
      requires Valid() && input.lo <= hi <= input.hi
      modifies this`occupied, this`input, this`taken
      ensures Valid() && taken == old(taken) + buf[old(input).lo..hi]
      ensures (pins == [] ==> input == Span(hi, old(input).hi))
      ensures old(Unread()) == buf[old(input).lo..hi] + Unread()
      ensures input.hi == old(input).hi && (pins != [] ==> input == Span(hi, old(input).hi))
      ensures pins != [] ==>
        occupied == if old(occupied).lo < old(input).lo then old(occupied) else Fitted(old(occupied), input, pins)
      ensures old(Orderly()) ==> Orderly()
    {
      hide DCircularBuffer.Aligned, DCircularBuffer.Worth, Sorted, Fitted;
      assert Unread() == buf[input.lo..hi] + buf[hi..input.hi];
      taken := taken + buf[input.lo..hi];
      if occupied.lo < input.lo {
        // a pin keeps what has been read before
        input := input.SuffixFrom(hi);
      } else {
        input := input.SuffixFrom(hi);
        ShrinkOccupiedToFit();
      }
    }

    /**
     * Keeps r where it is until it is unpinned; r is not checked, and the queue
     * goes on working whatever it is. The checked invariants go on holding
     * exactly if r lies within what is occupied, and starts neither in the unread
     * input nor before the pin before last.
     */
    method PinRange(r: Span)
      requires Valid()
      modifies this`pins
      ensures Valid() && pins == WithPin(old(pins), r) && multiset(pins) == multiset(old(pins)) + multiset{r}
      ensures Compact()
      ensures old(Orderly()) ==>
        (Orderly() <==>
          r.Ok() && r.Within(occupied) && r.lo <= input.lo &&
            (|old(pins)| < 2 || old(pins)[|old(pins)| - 2].lo <= r.lo))
    {
      if Orderly() { WithPinSortedIff(pins, r); }
      WithPinHasAll(pins, r);
      pins := WithPin(pins, r);
    }

    /** Undoes one PinRange. */
    method UnpinRange(r: Span)
      requires Valid() && pins != []
      modifies this`pins, this`occupied, this`input, buf
      ensures Valid() && accepted == old(accepted) && taken == old(taken) && Unread() == old(Unread()) && PinsKept()
      ensures multiset(pins) == multiset(old(pins)) - multiset{r}
      ensures pins == [] ==>
        var lo, hi := old(input).lo, old(input).hi;
        if lo <= hi - lo || lo <= pageZ || lo <= Worth(hi - lo) then input == old(input)
        else input == Span(0, hi - lo)
      ensures pins != [] ==> input == old(input)
      ensures Compact()
      ensures old(Orderly()) ==> Orderly()
    {
      hide DCircularBuffer.Aligned, DCircularBuffer.Orderly, DCircularBuffer.Worth, Sorted, Without;
      if r == pins[0] {
        UnpinFirst();
      } else {
        UnpinLater(r);
      }
    }

    method UnpinLater(r: Span)
      requires Shape() && pins != [] && pins[0] != r
      modifies this`pins
      ensures Shape() && multiset(pins) == multiset(old(pins)) - multiset{r} && forall p :: p in pins ==> p in old(pins)
      ensures pins != []
      ensures old(Orderly()) ==> Orderly()
    {
      hide DCircularBuffer.Aligned, DCircularBuffer.Worth, Sorted, Without;
      var i := FindPin(r);
      if i < |pins| {
        RemoveOne(pins, i);
        WithoutIsNotEmpty(pins, i);
        pins := Without(pins, i);
      } else {
        NotThere(pins, r);
      }
    }

    method UnpinFirst()
      requires Shape() && pins != []
      modifies this`pins, this`occupied, this`input, buf
      ensures Shape() && Unread() == old(Unread()) && PinsKept()
      ensures pins == Without(old(pins), 0) && multiset(pins) == multiset(old(pins)) - multiset{old(pins)[0]}
      ensures pins == [] ==>
        var lo, hi := old(input).lo, old(input).hi;
        if lo <= hi - lo || lo <= pageZ || lo <= Worth(hi - lo) then input == old(input)
        else input == Span(0, hi - lo)
      ensures pins != [] ==> input == old(input)
      ensures old(Orderly()) ==> Orderly()
    {
      hide DCircularBuffer.Aligned, DCircularBuffer.Orderly, DCircularBuffer.Worth, Sorted, Without;
      DropFirst();
      CheckResetMapStart();
    }

    method DropFirst()
      requires Shape() && pins != []
      modifies this`pins, this`occupied
      ensures Shape() && pins == Without(old(pins), 0) && multiset(pins) == multiset(old(pins)) - multiset{old(pins)[0]}
      ensures occupied.hi == old(occupied.hi) && forall p :: p in pins ==> p in old(pins)
      ensures old(Orderly()) ==> Orderly()
    {
      hide DCircularBuffer.Aligned, DCircularBuffer.Worth, Sorted, Without;
      RemoveOne(pins, 0);
      pins := Without(pins, 0);
      ShrinkOccupiedToFit();
    }

    /** The first pin equal to r, or the number of pins. */
    method FindPin(r: Span) returns (i: nat)
      ensures i <= |pins| && (i < |pins| ==> pins[i] == r) && forall j :: 0 <= j < i ==> pins[j] != r
    {
      i := 0;
      while i < |pins| && pins[i] != r
        invariant 0 <= i <= |pins| && forall j :: 0 <= j < i ==> pins[j] != r
      {
        i := i + 1;
      }
    }
  }

  /**
   * A pin that is not held is not kept: if it has any bytes in the reserve, the
   * queue has only to accept enough input, of bytes other than those there.
   */
  method LosePin(b: DCircularBuffer, p: Span)
    requires b.Valid() && p in b.pins && p.lo < p.hi <= b.buf.Length && !b.Held(p)
    modifies b`mapped, b`occupied, b`input, b`accepted, b.buf
    ensures b.Valid() && p in b.pins && b.buf[p.lo..p.hi] != old(b.buf[p.lo..p.hi])
  {
    var at := if p.lo < b.occupied.hi then b.occupied.hi else p.lo;
    var x := if b.buf[at] == 'a' then 'b' else 'a';
    ghost var was := b.buf[p.lo..p.hi];
    var src := seq(at + 1 - b.occupied.hi, _ => x);
    var rest, k := b.Append(src, true);
    assert b.buf[at] == b.Unread()[at - b.input.lo] == x;
    assert b.buf[p.lo..p.hi][at - p.lo] == x != was[at - p.lo];
  }

  /** pins with the i-th erased. */
  function Without(pins: seq<Span>, i: nat): seq<Span>
    requires i < |pins|
  {
    pins[..i] + pins[i + 1..]
  }

  lemma WithoutIsNotEmpty(pins: seq<Span>, i: nat)
    requires 0 < i < |pins|
    ensures Without(pins, i) != []
  {
  }

  lemma NotThere(pins: seq<Span>, r: Span)
    requires forall j :: 0 <= j < |pins| ==> pins[j] != r
    ensures multiset(pins) == multiset(pins) - multiset{r}
  {
    assert r !in multiset(pins);
  }

  lemma RemoveOne(pins: seq<Span>, i: nat)
    requires i < |pins|
    ensures multiset(Without(pins, i)) == multiset(pins) - multiset{pins[i]}
    ensures Sorted(pins) ==> Sorted(Without(pins, i))
    ensures forall p :: p in Without(pins, i) ==> p in pins
  {
    hide Sorted;
    assert pins == pins[..i] + ([pins[i]] + pins[i + 1..]);
    WithoutIsSorted(pins, i);
  }

  lemma WithoutIsSorted(pins: seq<Span>, i: nat)
    requires i < |pins|
    ensures Sorted(pins) ==> Sorted(Without(pins, i))
    ensures forall p :: p in Without(pins, i) ==> p in pins
  {
    var w := Without(pins, i);
    assert forall j :: 0 <= j < |w| ==> w[j] == pins[if j < i then j else j + 1];
  }

  /** memcpy: the first k bytes of src to address at. */
  method CopyIn(buf: array<char>, at: nat, src: seq<char>, k: nat)
    requires k <= |src| && at + k <= buf.Length
    modifies buf
    ensures buf[..at] == old(buf[..at]) && buf[at..at + k] == src[..k]
  {
    var i := 0;
    while i < k
      invariant 0 <= i <= k
      invariant forall j :: 0 <= j < at ==> buf[j] == old(buf[j])
      invariant forall j :: 0 <= j < i ==> buf[at + j] == src[j]
    {
      buf[at + i] := src[i];
      i := i + 1;
    }
  }

  /** memmove to the beginning, over a distance greater than the size. */
  method MoveDown(buf: array<char>, lo: nat, z: nat)
    requires z <= lo && lo + z <= buf.Length
    modifies buf
    ensures buf[..z] == old(buf[lo..lo + z])
  {
    var i := 0;
    while i < z
      invariant 0 <= i <= z
      invariant forall j :: 0 <= j < i ==> buf[j] == old(buf[lo + j])
      invariant forall j :: i <= j < buf.Length ==> buf[j] == old(buf[j])
    {
      buf[i] := buf[lo + i];
      i := i + 1;
    }
  }

  /** What lies below at, and what was put there. */
  lemma Appended(b: seq<char>, b': seq<char>, at: nat, x: seq<char>, lo: nat, hi: nat)
    requires lo <= hi <= at && at + |x| <= |b| == |b'| && b'[..at] == b[..at] && b'[at..at + |x|] == x
    ensures b'[lo..hi] == b[lo..hi] && b'[lo..at + |x|] == b[lo..at] + x
  {
    assert b'[lo..hi] == b'[..at][lo..hi] && b[lo..hi] == b[..at][lo..hi];
    assert b'[lo..at] == b'[..at][lo..] && b[lo..at] == b[..at][lo..];
    assert b'[lo..at + |x|] == b'[lo..at] + b'[at..at + |x|];
  }
}
