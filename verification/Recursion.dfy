/**
 * When the forwarding step of the N-generation collector comes back from
 * objects outside from-space: it looks into their children, and the children of
 * these, without noting where it has been.
 */
module Recursion {
  import opened Evacuation

  /** A visit of x, with room for fuel nested visits, comes back. Every pointer is followed; nothing is remembered. */
  ghost predicate Returns<H>(mem: Mem<H>, x: Addr, fuel: nat)
    decreases fuel
  {
    x in mem && mem[x].Obj? ==>
      0 < fuel && forall i :: 0 <= i < |mem[x].fields| ==> Returns(mem, mem[x].fields[i], fuel - 1)
  }

  /** p follows references from x. */
  ghost predicate IsWalk<H>(mem: Mem<H>, x: Addr, p: seq<Addr>) {
    && 0 < |p| && p[0] == x
    && (forall i :: 0 <= i < |p| ==> p[i] in mem && mem[p[i]].Obj?)
    && (forall i :: 0 < i < |p| ==> p[i] in mem[p[i - 1]].fields)
  }

  /** p comes through the same object twice. */
  ghost predicate Repeats(p: seq<Addr>) {
    exists i, j :: 0 <= i < j < |p| && p[i] == p[j]
  }

  ghost predicate ReachesCycle<H>(mem: Mem<H>, x: Addr) {
    exists p :: IsWalk(mem, x, p) && Repeats(p)
  }

  /** Room for fuel visits is enough exactly if no walk is longer. */
  lemma {:induction false} ReturnsIffWalksAreShort<H>(mem: Mem<H>, x: Addr, fuel: nat)
    ensures Returns(mem, x, fuel) <==> forall p :: IsWalk(mem, x, p) ==> |p| <= fuel
    decreases fuel
  {
    if x in mem && mem[x].Obj? {
      assert IsWalk(mem, x, [x]);
      if 0 < fuel {
        forall i | 0 <= i < |mem[x].fields|
          ensures Returns(mem, mem[x].fields[i], fuel - 1) <==> forall p :: IsWalk(mem, mem[x].fields[i], p) ==>
            |p| <= fuel - 1
        {
          ReturnsIffWalksAreShort(mem, mem[x].fields[i], fuel - 1);
        }
        if Returns(mem, x, fuel) {
          forall p | IsWalk(mem, x, p) ensures |p| <= fuel { TailIsShort(mem, x, p, fuel); }
        }
        if forall p :: IsWalk(mem, x, p) ==> |p| <= fuel {
          forall i, p | 0 <= i < |mem[x].fields| && IsWalk(mem, mem[x].fields[i], p) ensures |p| <= fuel - 1 {
            assert IsWalk(mem, x, [x] + p);
          }
        }
      }
    }
  }

  lemma TailIsShort<H>(mem: Mem<H>, x: Addr, p: seq<Addr>, fuel: nat)
    requires IsWalk(mem, x, p) && 0 < fuel
    requires forall i, q :: 0 <= i < |mem[x].fields| && IsWalk(mem, mem[x].fields[i], q) ==> |q| <= fuel - 1
    ensures |p| <= fuel
  {
    if 1 < |p| {
      var i :| 0 <= i < |mem[x].fields| && mem[x].fields[i] == p[1];
      assert IsWalk(mem, mem[x].fields[i], p[1..]);
    }
  }

  /** A walk without repetition is no longer than memory is large. */
  lemma {:induction false} DistinctIsShort(p: seq<Addr>, S: set<Addr>)
    requires (forall i :: 0 <= i < |p| ==> p[i] in S) && !Repeats(p)
    ensures |p| <= |S|
    decreases |p|
  {
    if p != [] {
      var q, x := p[..|p| - 1], p[|p| - 1];
      assert !Repeats(q);
      assert forall i :: 0 <= i < |q| ==> q[i] != x;
      DistinctIsShort(q, S - {x});
    }
  }

  /** Going round a cycle once more makes a walk longer. */
  lemma Pump<H>(mem: Mem<H>, x: Addr, p: seq<Addr>) returns (q: seq<Addr>)
    requires IsWalk(mem, x, p) && Repeats(p)
    ensures IsWalk(mem, x, q) && Repeats(q) && |p| < |q|
  {
    var i, j :| 0 <= i < j < |p| && p[i] == p[j];
    q := p[..j] + p[i..];
    assert q[i] == q[j];
    forall k | 0 < k < |q| ensures q[k] in mem[q[k - 1]].fields {
      if k == j { assert q[k - 1] == p[j - 1]; }
    }
  }

  lemma {:induction false} LongWalk<H>(mem: Mem<H>, x: Addr, n: nat)
    requires ReachesCycle(mem, x)
    ensures exists p :: IsWalk(mem, x, p) && Repeats(p) && n < |p|
    decreases n
  {
    if n == 0 {
      var p :| IsWalk(mem, x, p) && Repeats(p);
    } else {
      LongWalk(mem, x, n - 1);
      var p :| IsWalk(mem, x, p) && Repeats(p) && n - 1 < |p|;
      var q := Pump(mem, x, p);
    }
  }

  /**
   * The termination domain, exactly: looking into x and what it refers to comes
   * back, given stack enough, if and only if no cycle can be reached from x.
   */
  lemma ReturnsIffAcyclic<H>(mem: Mem<H>, x: Addr)
    ensures (exists fuel: nat :: Returns(mem, x, fuel)) <==> !ReachesCycle(mem, x)
  {
    if ReachesCycle(mem, x) {
      forall fuel: nat ensures !Returns(mem, x, fuel) {
        LongWalk(mem, x, fuel);
        ReturnsIffWalksAreShort(mem, x, fuel);
      }
    } else {
      forall p | IsWalk(mem, x, p) ensures |p| <= |mem.Keys| {
        assert !Repeats(p);
        DistinctIsShort(p, mem.Keys);
      }
      ReturnsIffWalksAreShort(mem, x, |mem.Keys|);
    }
  }

  /** The least cyclic heap: an object that refers to itself is never done with. */
  lemma SelfReferenceNeverReturns<H>(mem: Mem<H>, x: Addr, i: nat, fuel: nat)
    requires x in mem && mem[x].Obj? && i < |mem[x].fields| && mem[x].fields[i] == x
    ensures !Returns(mem, x, fuel)
  {
    var p := [x, x];
    assert p[0] == p[1] && IsWalk(mem, x, p) && Repeats(p);
    ReturnsIffAcyclic(mem, x);
  }

  lemma {:induction false} ReturnsMore<H>(mem: Mem<H>, x: Addr, f: nat, f': nat)
    requires Returns(mem, x, f) && f <= f'
    ensures Returns(mem, x, f')
    decreases f
  {
    if x in mem && mem[x].Obj? {
      forall i | 0 <= i < |mem[x].fields| ensures Returns(mem, mem[x].fields[i], f' - 1) {
        ReturnsMore(mem, mem[x].fields[i], f - 1, f' - 1);
      }
    }
  }

  // ---------------------------------------------------------------------------
  // The part of memory that a collection does not move
  // ---------------------------------------------------------------------------

  /** A visit of x comes back, as far as it leads through objects outside from. */
  ghost predicate OldReturns<H>(mem: Mem<H>, from: set<Addr>, x: Addr, f: nat) {
    Returns(Without(mem, from), x, f)
  }

  ghost predicate ChildrenReturn<H>(mem: Mem<H>, from: set<Addr>, a: Addr, f: nat) {
    a in mem && mem[a].Obj? ==> forall i :: 0 <= i < |mem[a].fields| ==> OldReturns(mem, from, mem[a].fields[i], f)
  }

  predicate KeepsOut<H>(mem: Mem<H>, from: set<Addr>, x: Addr) {
    x in mem && mem[x].Obj? && forall i :: 0 <= i < |mem[x].fields| ==> mem[x].fields[i] !in from
  }

  /** Nothing that x leads to refers to an object of from. */
  ghost predicate StaysOld<H>(mem: Mem<H>, from: set<Addr>, x: Addr) {
    x !in from && forall p :: IsWalk(Without(mem, from), x, p) ==> KeepsOut(mem, from, p[|p| - 1])
  }

  lemma StaysOldChild<H>(mem: Mem<H>, from: set<Addr>, x: Addr, i: nat)
    requires StaysOld(mem, from, x) && x in mem && mem[x].Obj? && i < |mem[x].fields|
    ensures StaysOld(mem, from, mem[x].fields[i])
  {
    var part, y := Without(mem, from), mem[x].fields[i];
    assert IsWalk(part, x, [x]);
    assert KeepsOut(mem, from, x);
    forall p | IsWalk(part, y, p) ensures KeepsOut(mem, from, p[|p| - 1]) {
      assert IsWalk(part, x, [x] + p);
    }
  }

  /** Chains in the part that does not move are chains. */
  lemma {:induction false} ReturnsInPart<H>(mem: Mem<H>, from: set<Addr>, x: Addr, f: nat)
    requires Returns(mem, x, f)
    ensures OldReturns(mem, from, x, f)
    decreases f
  {
    if x in mem && mem[x].Obj? && x !in from {
      forall i | 0 <= i < |mem[x].fields| ensures OldReturns(mem, from, mem[x].fields[i], f - 1) {
        ReturnsInPart(mem, from, mem[x].fields[i], f - 1);
      }
    }
  }

  /** And they are all there are, where nothing leads out of it. */
  lemma {:induction false} PartIsAll<H>(mem: Mem<H>, from: set<Addr>, x: Addr, f: nat)
    requires StaysOld(mem, from, x) && OldReturns(mem, from, x, f)
    ensures Returns(mem, x, f)
    decreases f
  {
    if x in mem && mem[x].Obj? {
      forall i | 0 <= i < |mem[x].fields| ensures Returns(mem, mem[x].fields[i], f - 1) {
        StaysOldChild(mem, from, x, i);
        PartIsAll(mem, from, mem[x].fields[i], f - 1);
      }
    }
  }
}
