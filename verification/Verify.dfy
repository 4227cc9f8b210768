/**
 * The collector's own check of its heap: what its counters count, and why a
 * heap between collections always passes.
 */
module Verification {
  import opened Evacuation
  import opened Stores
  import opened Logs

  datatype VerifyStats = VerifyStats(
    gcRoot: nat, ext: nat, fromSpace: nat, toSpace: nat, fwd: nat, ageOk: nat, ageBad: nat,
    mlogVital: nat, mlogStale: nat, mlogFrom: nat, mlogWild: nat)
  {
    predicate IsOk() { fromSpace == 0 && fwd == 0 && ageBad == 0 }
  }

  const NoStats: VerifyStats := VerifyStats(0, 0, 0, 0, 0, 0, 0, 0, 0, 0, 0)

  /** What the check reads: the configuration, memory, and the spaces of both roles. */
  datatype View = View(cfg: Config, mem: Mem<Hdr>, to: seq<Space>, fr: seq<Space>)

  // ---------------------------------------------------------------------------
  // Pointers
  // ---------------------------------------------------------------------------

  datatype Verdict = External | FromSpace | AgeOk | AgeBad

  /** A pointer into to-space leads to an object, whose header can be read. */
  predicate Readable(v: View, x: Addr) { Contains(v.to, x) ==> x in v.mem && v.mem[x].Obj? }

  function Judge(v: View, x: Addr): Verdict
    requires Readable(v, x)
  {
    if Contains(v.to, x) then
      if Age2Gen(v.cfg, v.mem[x].hdr.age) == GenerationOf(v.to, x) then AgeOk else AgeBad
    else if Contains(v.fr, x) then FromSpace
    else External
  }

  ghost predicate AllReadable(v: View, s: seq<Addr>) { forall x :: x in s ==> Readable(v, x) }

  /** How many of the pointers in s deserve this verdict. */
  ghost function Count(v: View, s: seq<Addr>, verdict: Verdict): (n: nat)
    requires AllReadable(v, s)
    ensures n == 0 <==> forall x :: x in s ==> Judge(v, x) != verdict
  {
    if s == [] then 0 else
      assert s == s[..|s| - 1] + [s[|s| - 1]];
      Count(v, s[..|s| - 1], verdict) + if Judge(v, s[|s| - 1]) == verdict then 1 else 0
  }

  lemma CountOfConcat(v: View, s: seq<Addr>, t: seq<Addr>, verdict: Verdict)
    requires AllReadable(v, s) && AllReadable(v, t)
    ensures AllReadable(v, s + t) && Count(v, s + t, verdict) == Count(v, s, verdict) + Count(v, t, verdict)
  {
    if t == [] {
      assert s + t == s;
    } else {
      var t' := t[..|t| - 1];
      assert (s + t)[..|s + t| - 1] == s + t';
      CountOfConcat(v, s, t', verdict);
    }
  }

  /** Every pointer gets one verdict. */
  lemma {:induction false} VerdictsAddUp(v: View, s: seq<Addr>)
    requires AllReadable(v, s)
    ensures Count(v, s, External) + Count(v, s, FromSpace) + Count(v, s, AgeOk) + Count(v, s, AgeBad) == |s|
  {
    if s != [] { VerdictsAddUp(v, s[..|s| - 1]); }
  }

  /** The counters after the pointers in s have been looked at. */
  ghost function Counted(v: View, st: VerifyStats, s: seq<Addr>): VerifyStats
    requires AllReadable(v, s)
  {
    st.(ext := st.ext + Count(v, s, External), fromSpace := st.fromSpace + Count(v, s, FromSpace),
        toSpace := st.toSpace + Count(v, s, AgeOk) + Count(v, s, AgeBad),
        ageOk := st.ageOk + Count(v, s, AgeOk), ageBad := st.ageBad + Count(v, s, AgeBad))
  }

  lemma CountedTwice(v: View, st: VerifyStats, s: seq<Addr>, t: seq<Addr>)
    requires AllReadable(v, s) && AllReadable(v, t)
    ensures AllReadable(v, s + t) && Counted(v, Counted(v, st, s), t) == Counted(v, st, s + t)
  {
    CountOfConcat(v, s, t, External);
    CountOfConcat(v, s, t, FromSpace);
    CountOfConcat(v, s, t, AgeOk);
    CountOfConcat(v, s, t, AgeBad);
  }

  /** What an object refers to; an object the collector does not own, or a forwarded one, is a leaf. */
  function FieldsOf(mem: Mem<Hdr>, a: Addr): seq<Addr> {
    if a in mem && mem[a].Obj? then mem[a].fields else []
  }

  ghost function AllFieldsOf(mem: Mem<Hdr>, objs: seq<Addr>): (s: seq<Addr>)
    ensures forall x :: x in s <==> exists a :: a in objs && x in FieldsOf(mem, a)
  {
    if objs == [] then [] else
      assert objs == objs[..|objs| - 1] + [objs[|objs| - 1]];
      AllFieldsOf(mem, objs[..|objs| - 1]) + FieldsOf(mem, objs[|objs| - 1])
  }

  lemma AllFieldsOfPrefix(mem: Mem<Hdr>, objs: seq<Addr>, k: nat)
    requires k < |objs|
    ensures AllFieldsOf(mem, objs[..k + 1]) == AllFieldsOf(mem, objs[..k]) + FieldsOf(mem, objs[k])
  {
    assert objs[..k + 1][..k] == objs[..k];
  }

  lemma AllFieldsOfConcat(mem: Mem<Hdr>, s: seq<Addr>, t: seq<Addr>)
    ensures AllFieldsOf(mem, s + t) == AllFieldsOf(mem, s) + AllFieldsOf(mem, t)
  {
    if t == [] {
      assert s + t == s;
    } else {
      var t' := t[..|t| - 1];
      assert (s + t)[..|s + t| - 1] == s + t';
      AllFieldsOfConcat(mem, s, t');
    }
  }

  /** The objects of all the spaces, in the order of the check. */
  ghost function AllObjs(to: seq<Space>): (s: seq<Addr>)
    ensures forall a :: a in s <==> exists g :: 0 <= g < |to| && a in to[g].objs
  {
    if to == [] then [] else
      assert to == to[..|to| - 1] + [to[|to| - 1]];
      AllObjs(to[..|to| - 1]) + to[|to| - 1].objs
  }

  /** How many of these objects have been forwarded. */
  ghost function Forwarded(mem: Mem<Hdr>, objs: seq<Addr>): (n: nat)
    requires forall a :: a in objs ==> a in mem
    ensures n == 0 <==> forall a :: a in objs ==> mem[a].Obj?
  {
    if objs == [] then 0 else
      assert objs == objs[..|objs| - 1] + [objs[|objs| - 1]];
      Forwarded(mem, objs[..|objs| - 1]) + if mem[objs[|objs| - 1]].Fwd? then 1 else 0
  }

  lemma ForwardedConcat(mem: Mem<Hdr>, s: seq<Addr>, t: seq<Addr>)
    requires forall a :: a in s + t ==> a in mem
    ensures (forall a :: a in s ==> a in mem) && forall a :: a in t ==> a in mem
    ensures Forwarded(mem, s + t) == Forwarded(mem, s) + Forwarded(mem, t)
  {
    assert forall a :: a in s || a in t ==> a in s + t;
    if t == [] {
      assert s + t == s;
    } else {
      var t' := t[..|t| - 1];
      assert (s + t)[..|s + t| - 1] == s + t';
      ForwardedConcat(mem, s, t');
    }
  }

  /** What the check needs of the objects it visits. */
  ghost predicate CanVisit(v: View, objs: seq<Addr>) {
    forall a :: a in objs ==> a in v.mem && AllReadable(v, FieldsOf(v.mem, a))
  }

  lemma VisitIsReadable(v: View, objs: seq<Addr>)
    requires CanVisit(v, objs)
    ensures (forall a :: a in objs ==> a in v.mem) && AllReadable(v, AllFieldsOf(v.mem, objs))
  {
    hide Readable;
  }

  /** The counters after these objects have been visited. */
  ghost function Visited(v: View, st: VerifyStats, objs: seq<Addr>): VerifyStats
    requires CanVisit(v, objs)
  {
    VisitIsReadable(v, objs);
    Counted(v, st, AllFieldsOf(v.mem, objs)).(fwd := st.fwd + Forwarded(v.mem, objs))
  }

  lemma VisitedTwice(v: View, st: VerifyStats, s: seq<Addr>, t: seq<Addr>)
    requires CanVisit(v, s) && CanVisit(v, t)
    ensures CanVisit(v, s + t) && Visited(v, Visited(v, st, s), t) == Visited(v, st, s + t)
  {
    hide Readable, AllReadable, Count, Forwarded, AllFieldsOf, FieldsOf;
    VisitIsReadable(v, s);
    VisitIsReadable(v, t);
    AllFieldsOfConcat(v.mem, s, t);
    ForwardedConcat(v.mem, s, t);
    CountedTwice(v, st, AllFieldsOf(v.mem, s), AllFieldsOf(v.mem, t));
  }

  lemma VisitedOne(v: View, st: VerifyStats, a: Addr)
    requires CanVisit(v, [a])
    ensures a in v.mem && AllReadable(v, FieldsOf(v.mem, a))
    ensures Visited(v, st, [a]) == Counted(v, st, FieldsOf(v.mem, a)).(fwd := st.fwd + if v.mem[a].Fwd? then 1 else 0)
  {
    hide Readable, Count, AllFieldsOf, Forwarded;
    assert a in [a];
    VisitIsReadable(v, [a]);
    JustOne(v.mem, a);
  }

  lemma JustOne(mem: Mem<Hdr>, a: Addr)
    requires a in mem
    ensures AllFieldsOf(mem, [a]) == FieldsOf(mem, a)
    ensures (forall b :: b in [a] ==> b in mem) && Forwarded(mem, [a]) == if mem[a].Fwd? then 1 else 0
  {
    AllFieldsOfPrefix(mem, [a], 0);
    assert [a][..1] == [a] && [a][..0] == [];
  }

  lemma NothingVisited(v: View, st: VerifyStats)
    ensures CanVisit(v, []) && Visited(v, st, []) == st
    ensures AllReadable(v, AllFieldsOf(v.mem, [])) && Counted(v, st, AllFieldsOf(v.mem, [])) == st
  {
  }

  /** The same for roots, which may lead to what the collector does not own. */
  ghost predicate CanVisitRoots(v: View, objs: seq<Addr>) {
    forall a :: a in objs ==> AllReadable(v, FieldsOf(v.mem, a))
  }

  lemma RootsAreReadable(v: View, roots: seq<Addr>)
    requires CanVisitRoots(v, roots)
    ensures AllReadable(v, AllFieldsOf(v.mem, roots))
  {
    hide Readable;
  }

  /** The counters after what these root slots hold has been visited. */
  ghost function CountedRoots(v: View, st: VerifyStats, roots: seq<Addr>): VerifyStats
    requires CanVisitRoots(v, roots)
  {
    RootsAreReadable(v, roots);
    Counted(v, st, AllFieldsOf(v.mem, roots)).(gcRoot := st.gcRoot + |roots|)
  }

  lemma CountedRootsPrefix(v: View, st: VerifyStats, roots: seq<Addr>, i: nat)
    requires i < |roots| && CanVisitRoots(v, roots)
    ensures CanVisitRoots(v, roots[..i]) && CanVisitRoots(v, roots[..i + 1])
    ensures AllReadable(v, FieldsOf(v.mem, roots[i]))
    ensures CountedRoots(v, st, roots[..i + 1]) ==
      Counted(v, CountedRoots(v, st, roots[..i]), FieldsOf(v.mem, roots[i])).(gcRoot := st.gcRoot + i + 1)
  {
    hide Readable, Count;
    RootsAreReadable(v, roots[..i]);
    AllFieldsOfPrefix(v.mem, roots, i);
    CountedTwice(v, st, AllFieldsOf(v.mem, roots[..i]), FieldsOf(v.mem, roots[i]));
  }

  function Contents(vars: map<nat, Addr>, rootv: seq<nat>): (s: seq<Addr>)
    requires forall r :: r in rootv ==> r in vars
    ensures |s| == |rootv| && forall i :: 0 <= i < |rootv| ==> s[i] == vars[rootv[i]]
  {
    seq(|rootv|, i requires 0 <= i < |rootv| => assert rootv[i] in rootv; vars[rootv[i]])
  }

  // ---------------------------------------------------------------------------
  // Log entries
  // ---------------------------------------------------------------------------

  datatype LogVerdict = Vital | Stale | LeadsToFromSpace | Wild

  /** An entry's field can be read. */
  predicate HasSlot(mem: Mem<Hdr>, en: MEntry) {
    en.parent in mem && mem[en.parent].Obj? && en.slot < |mem[en.parent].fields|
  }

  /** What the check thinks of an entry of the log for the generation with these spaces. */
  function JudgeEntry(mem: Mem<Hdr>, space: Space, from: Space, en: MEntry): LogVerdict
    requires HasSlot(mem, en)
  {
    if mem[en.parent].fields[en.slot] != en.snap then Stale
    else if space.lo <= en.snap < space.lo + space.used then Vital
    else if from.Holds(en.snap) then LeadsToFromSpace
    else Wild
  }

  ghost predicate AllHaveSlots(v: View, logs: seq<seq<MEntry>>) {
    && |logs| <= |v.to| == |v.fr|
    && forall k, en :: 0 <= k < |logs| && en in logs[k] ==> HasSlot(v.mem, en)
  }

  ghost function CountEntries(mem: Mem<Hdr>, space: Space, from: Space, log: seq<MEntry>, verdict: LogVerdict): (n: nat)
    requires forall en :: en in log ==> HasSlot(mem, en)
    ensures n == 0 <==> forall en :: en in log ==> JudgeEntry(mem, space, from, en) != verdict
  {
    if log == [] then 0 else
      assert log == log[..|log| - 1] + [log[|log| - 1]];
      CountEntries(mem, space, from, log[..|log| - 1], verdict) +
      if JudgeEntry(mem, space, from, log[|log| - 1]) == verdict then 1 else 0
  }

  /** The same over the first k logs. */
  ghost function CountLogs(v: View, logs: seq<seq<MEntry>>, k: nat, verdict: LogVerdict): (n: nat)
    requires AllHaveSlots(v, logs) && k <= |logs|
    ensures n == 0 <==> forall h, en :: 0 <= h < k && en in logs[h] ==>
      JudgeEntry(v.mem, v.to[h], v.fr[h], en) != verdict
  {
    if k == 0 then 0
    else CountLogs(v, logs, k - 1, verdict) + CountEntries(v.mem, v.to[k - 1], v.fr[k - 1], logs[k - 1], verdict)
  }

  /** The counters after the first j entries of log k. */
  ghost function CountedPrefix(v: View, st: VerifyStats, logs: seq<seq<MEntry>>, k: nat, j: nat): VerifyStats
    requires AllHaveSlots(v, logs) && k < |logs| && j <= |logs[k]|
  {
    var s := logs[k][..j];
    st.(mlogVital := st.mlogVital + CountEntries(v.mem, v.to[k], v.fr[k], s, Vital),
        mlogStale := st.mlogStale + CountEntries(v.mem, v.to[k], v.fr[k], s, Stale),
        mlogFrom := st.mlogFrom + CountEntries(v.mem, v.to[k], v.fr[k], s, LeadsToFromSpace),
        mlogWild := st.mlogWild + CountEntries(v.mem, v.to[k], v.fr[k], s, Wild))
  }

  ghost function CountedEntries(v: View, st: VerifyStats, logs: seq<seq<MEntry>>, k: nat): VerifyStats
    requires AllHaveSlots(v, logs) && k < |logs|
  {
    CountedPrefix(v, st, logs, k, |logs[k]|)
  }

  lemma NextVerdict(v: View, logs: seq<seq<MEntry>>, k: nat, j: nat)
    requires AllHaveSlots(v, logs) && k < |logs| && j < |logs[k]|
    ensures HasSlot(v.mem, logs[k][j])
    ensures forall verdict ::
      CountEntries(v.mem, v.to[k], v.fr[k], logs[k][..j + 1], verdict) ==
      CountEntries(v.mem, v.to[k], v.fr[k], logs[k][..j], verdict) +
      if JudgeEntry(v.mem, v.to[k], v.fr[k], logs[k][j]) == verdict then 1 else 0
  {
    assert logs[k][j] in logs[k];
    assert logs[k][..j + 1][..j] == logs[k][..j];
  }

  lemma WholeLog(logs: seq<seq<MEntry>>, k: nat)
    requires k < |logs|
    ensures logs[k][..|logs[k]|] == logs[k]
  {
  }

  lemma AnotherLog(v: View, st: VerifyStats, logs: seq<seq<MEntry>>, k: nat)
    requires AllHaveSlots(v, logs) && k < |logs|
    ensures CountedEntries(v, CountedLogs(v, st, logs, k), logs, k) == CountedLogs(v, st, logs, k + 1)
  {
    hide CountEntries;
    WholeLog(logs, k);
  }

  ghost function CountedLogs(v: View, st: VerifyStats, logs: seq<seq<MEntry>>, k: nat): VerifyStats
    requires AllHaveSlots(v, logs) && k <= |logs|
  {
    st.(mlogVital := st.mlogVital + CountLogs(v, logs, k, Vital),
        mlogStale := st.mlogStale + CountLogs(v, logs, k, Stale),
        mlogFrom := st.mlogFrom + CountLogs(v, logs, k, LeadsToFromSpace),
        mlogWild := st.mlogWild + CountLogs(v, logs, k, Wild))
  }

  // ---------------------------------------------------------------------------
  // The counters, without the order of counting
  // ---------------------------------------------------------------------------

  /** Place j of s holds a pointer with this verdict. */
  predicate Hit(v: View, s: seq<Addr>, j: nat, verdict: Verdict) {
    j < |s| && Readable(v, s[j]) && Judge(v, s[j]) == verdict
  }

  /** All such places, if s are the fields of the k-th object. */
  ghost function Hits(v: View, s: seq<Addr>, verdict: Verdict, k: nat): (r: set<(nat, nat)>)
    ensures forall p :: p in r <==> p.0 == k && Hit(v, s, p.1, verdict)
  {
    set j: nat | j < |s| && Hit(v, s, j, verdict) :: (k, j)
  }

  lemma {:induction false} CountIsHits(v: View, s: seq<Addr>, verdict: Verdict, k: nat)
    requires AllReadable(v, s)
    ensures Count(v, s, verdict) == |Hits(v, s, verdict, k)|
  {
    hide Readable, Judge, Hits;
    if s == [] {
      assert Hits(v, s, verdict, k) == {};
    } else {
      hide Hit;
      var t, z := s[..|s| - 1], |s| - 1;
      CountIsHits(v, t, verdict, k);
      assert s[z] in s;
      LastHit(v, s, verdict, k);
    }
  }

  /** With one pointer more there may be one more. */
  lemma LastHit(v: View, s: seq<Addr>, verdict: Verdict, k: nat)
    requires s != [] && Readable(v, s[|s| - 1])
    ensures |Hits(v, s, verdict, k)| ==
      |Hits(v, s[..|s| - 1], verdict, k)| + if Judge(v, s[|s| - 1]) == verdict then 1 else 0
  {
    hide Readable, Judge, Hits;
    var t, z := s[..|s| - 1], |s| - 1;
    forall j: nat ensures Hit(v, s, j, verdict) <==> Hit(v, t, j, verdict) || (j == z && Judge(v, s[z]) == verdict) {
      assert j < z ==> t[j] == s[j];
    }
    hide Hit;
    assert (k, z) !in Hits(v, t, verdict, k);
    assert Hits(v, s, verdict, k) == Hits(v, t, verdict, k) + if Judge(v, s[z]) == verdict then {(k, z)} else {};
  }

  /** All places in the fields of these objects: the position of the object, and the number of the field. */
  ghost function AllHits(v: View, objs: seq<Addr>, verdict: Verdict): (r: set<(nat, nat)>)
    ensures forall p :: p in r <==> p.0 < |objs| && Hit(v, FieldsOf(v.mem, objs[p.0]), p.1, verdict)
  {
    set k: nat, j: nat |
      k < |objs| && j < |FieldsOf(v.mem, objs[k])| && Hit(v, FieldsOf(v.mem, objs[k]), j, verdict) :: (k, j)
  }

  lemma {:induction false} CountIsAllHits(v: View, objs: seq<Addr>, verdict: Verdict)
    requires CanVisitRoots(v, objs)
    ensures AllReadable(v, AllFieldsOf(v.mem, objs))
    ensures Count(v, AllFieldsOf(v.mem, objs), verdict) == |AllHits(v, objs, verdict)|
  {
    hide AllReadable, Hit, AllHits, Hits, FieldsOf, Readable;
    RootsAreReadable(v, objs);
    if objs == [] {
      assert AllHits(v, objs, verdict) == {};
    } else {
      var others, last := objs[..|objs| - 1], FieldsOf(v.mem, objs[|objs| - 1]);
      assert objs[|objs| - 1] in objs && forall a :: a in others ==> a in objs;
      assert objs == others + [objs[|objs| - 1]];
      CountIsAllHits(v, others, verdict);
      CountOfConcat(v, AllFieldsOf(v.mem, others), last, verdict);
      CountIsHits(v, last, verdict, |objs| - 1);
      LastHits(v, objs, verdict);
    }
  }

  lemma LastHits(v: View, objs: seq<Addr>, verdict: Verdict)
    requires objs != []
    ensures |AllHits(v, objs, verdict)| == |AllHits(v, objs[..|objs| - 1], verdict)| +
      |Hits(v, FieldsOf(v.mem, objs[|objs| - 1]), verdict, |objs| - 1)|
  {
    hide Hit, FieldsOf, AllHits, Hits;
    var z, others := |objs| - 1, objs[..|objs| - 1];
    var A, B := AllHits(v, others, verdict), Hits(v, FieldsOf(v.mem, objs[z]), verdict, z);
    assert A !! B;
    assert AllHits(v, objs, verdict) == A + B;
  }

  /** The same by the address of the object. */
  ghost function HitsByAddress(v: View, objs: seq<Addr>, verdict: Verdict): (r: set<(Addr, nat)>)
    ensures forall p :: p in r <==> p.0 in objs && Hit(v, FieldsOf(v.mem, p.0), p.1, verdict)
  {
    set a, j: nat | a in objs && j < |FieldsOf(v.mem, a)| && Hit(v, FieldsOf(v.mem, a), j, verdict) :: (a, j)
  }

  ghost predicate AllDifferent(objs: seq<Addr>) { forall i, j :: 0 <= i < j < |objs| ==> objs[i] != objs[j] }

  lemma {:induction false} CountIsByAddress(v: View, objs: seq<Addr>, verdict: Verdict)
    requires CanVisitRoots(v, objs) && AllDifferent(objs)
    ensures AllReadable(v, AllFieldsOf(v.mem, objs))
    ensures Count(v, AllFieldsOf(v.mem, objs), verdict) == |HitsByAddress(v, objs, verdict)|
  {
    hide AllReadable, Hit, HitsByAddress, Hits, FieldsOf, Readable;
    RootsAreReadable(v, objs);
    if objs == [] {
      assert HitsByAddress(v, objs, verdict) == {};
    } else {
      var others, last := objs[..|objs| - 1], FieldsOf(v.mem, objs[|objs| - 1]);
      assert objs[|objs| - 1] in objs && forall a :: a in others ==> a in objs;
      assert objs == others + [objs[|objs| - 1]];
      CountIsByAddress(v, others, verdict);
      CountOfConcat(v, AllFieldsOf(v.mem, others), last, verdict);
      CountIsHits(v, last, verdict, objs[|objs| - 1]);
      LastByAddress(v, objs, verdict);
    }
  }

  lemma LastByAddress(v: View, objs: seq<Addr>, verdict: Verdict)
    requires objs != [] && AllDifferent(objs)
    ensures |HitsByAddress(v, objs, verdict)| == |HitsByAddress(v, objs[..|objs| - 1], verdict)| +
      |Hits(v, FieldsOf(v.mem, objs[|objs| - 1]), verdict, objs[|objs| - 1])|
  {
    hide Hit, FieldsOf, HitsByAddress, Hits;
    var a, others := objs[|objs| - 1], objs[..|objs| - 1];
    var A, B := HitsByAddress(v, others, verdict), Hits(v, FieldsOf(v.mem, a), verdict, a);
    assert objs == others + [a];
    assert A !! B;
    assert HitsByAddress(v, objs, verdict) == A + B;
  }

  /** The fields that objects hold: the position of the object, and the number of the field. */
  ghost function Slots(mem: Mem<Hdr>, objs: seq<Addr>): (r: set<(nat, nat)>)
    ensures forall p :: p in r <==>
      p.0 < |objs| && objs[p.0] in mem && mem[objs[p.0]].Obj? && p.1 < |mem[objs[p.0]].fields|
  {
    set k: nat, j: nat | k < |objs| && j < |FieldsOf(mem, objs[k])| :: (k, j)
  }

  /** x lies in the space of its age, and in none of a younger generation. */
  predicate IsAtAge(cfg: Config, mem: Mem<Hdr>, to: seq<Space>, x: Addr) {
    && x in mem && mem[x].Obj?
    && var g := Age2Gen(cfg, mem[x].hdr.age);
       g < |to| && to[g].Holds(x) && forall h :: 0 <= h < g ==> !to[h].Holds(x)
  }

  /** x leads to an object of the generation its age calls for, or into no space at all. */
  predicate InOrder(v: View, x: Addr) {
    if Contains(v.to, x) then IsAtAge(v.cfg, v.mem, v.to, x) else !Contains(v.fr, x)
  }

  /** Verdicts in terms of places alone. */
  predicate HasVerdict(v: View, x: Addr, verdict: Verdict) {
    match verdict
    case External => !Contains(v.to, x) && !Contains(v.fr, x)
    case FromSpace => !Contains(v.to, x) && Contains(v.fr, x)
    case AgeOk => IsAtAge(v.cfg, v.mem, v.to, x)
    case AgeBad => Contains(v.to, x) && !IsAtAge(v.cfg, v.mem, v.to, x)
  }

  lemma VerdictByPlace(v: View, x: Addr, verdict: Verdict)
    requires Readable(v, x)
    ensures HasVerdict(v, x, verdict) <==> Judge(v, x) == verdict
  {
    hide Age2Gen, GenerationOf;
    if Contains(v.to, x) {
      assert v.to[GenerationOf(v.to, x)].Holds(x);
    }
  }

  lemma JudgedInOrder(v: View, x: Addr)
    requires Readable(v, x)
    ensures InOrder(v, x) <==> Judge(v, x) != FromSpace && Judge(v, x) != AgeBad
  {
    VerdictByPlace(v, x, FromSpace);
    VerdictByPlace(v, x, AgeBad);
    VerdictByPlace(v, x, AgeOk);
    hide Judge, IsAtAge, Contains;
  }

  lemma CountByPlace(v: View, objs: seq<Addr>, verdict: Verdict)
    requires CanVisitRoots(v, objs)
    ensures AllReadable(v, AllFieldsOf(v.mem, objs))
    ensures Count(v, AllFieldsOf(v.mem, objs), verdict) ==
      |Places(v, objs, verdict)|
  {
    CountIsAllHits(v, objs, verdict);
    hide Readable, Judge, HasVerdict, AllHits, Places, Slots, Count, AllFieldsOf;
    forall p: (nat, nat) ensures p in AllHits(v, objs, verdict) <==>
      p in Slots(v.mem, objs) && HasVerdict(v, v.mem[objs[p.0]].fields[p.1], verdict)
    {
      if p in Slots(v.mem, objs) {
        assert objs[p.0] in objs && v.mem[objs[p.0]].fields[p.1] in FieldsOf(v.mem, objs[p.0]);
        VerdictByPlace(v, v.mem[objs[p.0]].fields[p.1], verdict);
      }
    }
    assert AllHits(v, objs, verdict) == Places(v, objs, verdict);
  }

  /** The entries of a log, the k-th, that deserve this verdict. */
  ghost function EntryHits(mem: Mem<Hdr>, space: Space, from: Space, log: seq<MEntry>, verdict: LogVerdict, k: nat):
    (r: set<(nat, nat)>)
    ensures forall p :: p in r <==> p.0 == k && p.1 < |log| && EntryHasVerdict(mem, space, from, log[p.1], verdict)
  {
    set j: nat | j < |log| && EntryHasVerdict(mem, space, from, log[j], verdict) :: (k, j)
  }

  predicate EntryHasVerdict(mem: Mem<Hdr>, space: Space, from: Space, en: MEntry, verdict: LogVerdict) {
    HasSlot(mem, en) && JudgeEntry(mem, space, from, en) == verdict
  }

  lemma {:induction false} CountIsEntryHits(
      mem: Mem<Hdr>, space: Space, from: Space, log: seq<MEntry>, verdict: LogVerdict, k: nat)
    requires forall en :: en in log ==> HasSlot(mem, en)
    ensures CountEntries(mem, space, from, log, verdict) == |EntryHits(mem, space, from, log, verdict, k)|
  {
    hide HasSlot, JudgeEntry, EntryHits;
    if log == [] {
      assert EntryHits(mem, space, from, log, verdict, k) == {};
    } else {
      hide EntryHasVerdict;
      var t, z := log[..|log| - 1], |log| - 1;
      CountIsEntryHits(mem, space, from, t, verdict, k);
      assert log[z] in log;
      LastEntryHit(mem, space, from, log, verdict, k);
    }
  }

  lemma LastEntryHit(mem: Mem<Hdr>, space: Space, from: Space, log: seq<MEntry>, verdict: LogVerdict, k: nat)
    requires log != [] && HasSlot(mem, log[|log| - 1])
    ensures |EntryHits(mem, space, from, log, verdict, k)| ==
      |EntryHits(mem, space, from, log[..|log| - 1], verdict, k)| +
      if JudgeEntry(mem, space, from, log[|log| - 1]) == verdict then 1 else 0
  {
    hide HasSlot, JudgeEntry, EntryHits;
    var t, z := log[..|log| - 1], |log| - 1;
    var hit := JudgeEntry(mem, space, from, log[z]) == verdict;
    assert EntryHasVerdict(mem, space, from, log[z], verdict) <==> hit;
    hide EntryHasVerdict;
    assert (k, z) !in EntryHits(mem, space, from, t, verdict, k);
    assert EntryHits(mem, space, from, log, verdict, k) ==
      EntryHits(mem, space, from, t, verdict, k) + if hit then {(k, z)} else {};
  }

  /** The same in the first n logs: which log, and which entry. */
  ghost function LogHits(v: View, logs: seq<seq<MEntry>>, n: nat, verdict: LogVerdict): (r: set<(nat, nat)>)
    requires n <= |logs| <= |v.to| == |v.fr|
    ensures forall p :: p in r <==>
      p.0 < n && p.1 < |logs[p.0]| && EntryHasVerdict(v.mem, v.to[p.0], v.fr[p.0], logs[p.0][p.1], verdict)
  {
    set k: nat, j: nat |
      k < n && j < |logs[k]| && EntryHasVerdict(v.mem, v.to[k], v.fr[k], logs[k][j], verdict) :: (k, j)
  }

  lemma {:induction false} CountIsLogHits(v: View, logs: seq<seq<MEntry>>, n: nat, verdict: LogVerdict)
    requires AllHaveSlots(v, logs) && n <= |logs|
    ensures CountLogs(v, logs, n, verdict) == |LogHits(v, logs, n, verdict)|
  {
    hide EntryHasVerdict, LogHits, EntryHits, JudgeEntry, HasSlot, CountEntries;
    if n == 0 {
      assert LogHits(v, logs, n, verdict) == {};
    } else {
      CountIsLogHits(v, logs, n - 1, verdict);
      CountIsEntryHits(v.mem, v.to[n - 1], v.fr[n - 1], logs[n - 1], verdict, n - 1);
      LastLogHits(v, logs, n, verdict);
    }
  }

  lemma LastLogHits(v: View, logs: seq<seq<MEntry>>, n: nat, verdict: LogVerdict)
    requires 0 < n <= |logs| <= |v.to| == |v.fr|
    ensures |LogHits(v, logs, n, verdict)| == |LogHits(v, logs, n - 1, verdict)| +
      |EntryHits(v.mem, v.to[n - 1], v.fr[n - 1], logs[n - 1], verdict, n - 1)|
  {
    hide EntryHasVerdict, LogHits, EntryHits;
    var A, B := LogHits(v, logs, n - 1, verdict),
      EntryHits(v.mem, v.to[n - 1], v.fr[n - 1], logs[n - 1], verdict, n - 1);
    assert A !! B;
    assert LogHits(v, logs, n, verdict) == A + B;
  }

  /** How many fields of these objects hold pointers with this verdict. */
  ghost function NumberOf(v: View, objs: seq<Addr>, verdict: Verdict): nat { |Places(v, objs, verdict)| }

  ghost function Places(v: View, objs: seq<Addr>, verdict: Verdict): (r: set<(nat, nat)>)
    ensures forall p :: p in r <==>
      p in Slots(v.mem, objs) && HasVerdict(v, v.mem[objs[p.0]].fields[p.1], verdict)
  {
    set p | p in Slots(v.mem, objs) && HasVerdict(v, v.mem[objs[p.0]].fields[p.1], verdict)
  }

  /** The verdict of the check, and what it is about. */
  lemma PassesIff(v: View, roots: seq<Addr>)
    requires CanVisit(v, AllObjs(v.to)) && CanVisitRoots(v, roots)
    ensures Passes(v, roots) <==> Visited(v, CountedRoots(v, NoStats, roots), AllObjs(v.to)).IsOk()
  {
    hide Readable, Judge, AllObjs, InOrder, Count, Forwarded, AllFieldsOf, FieldsOf;
    RootsAreReadable(v, roots);
    VisitIsReadable(v, AllObjs(v.to));
    InOrderIff(v, AllFieldsOf(v.mem, roots));
    InOrderIff(v, AllFieldsOf(v.mem, AllObjs(v.to)));
  }

  lemma InOrderIff(v: View, s: seq<Addr>)
    requires AllReadable(v, s)
    ensures Count(v, s, FromSpace) == 0 == Count(v, s, AgeBad) <==> forall x :: x in s ==> InOrder(v, x)
  {
    hide Readable, Judge, InOrder;
    forall x | x in s ensures InOrder(v, x) <==> Judge(v, x) != FromSpace && Judge(v, x) != AgeBad {
      JudgedInOrder(v, x);
    }
  }

  lemma CountTogether(v: View, roots: seq<Addr>, objs: seq<Addr>, verdict: Verdict)
    requires CanVisitRoots(v, roots) && CanVisitRoots(v, objs)
    ensures AllReadable(v, AllFieldsOf(v.mem, roots)) && AllReadable(v, AllFieldsOf(v.mem, objs))
    ensures Count(v, AllFieldsOf(v.mem, roots), verdict) + Count(v, AllFieldsOf(v.mem, objs), verdict) ==
      NumberOf(v, roots + objs, verdict)
  {
    hide Readable, Count, AllFieldsOf, FieldsOf, HasVerdict, Slots;
    RootsAreReadable(v, roots);
    RootsAreReadable(v, objs);
    AllFieldsOfConcat(v.mem, roots, objs);
    CountOfConcat(v, AllFieldsOf(v.mem, roots), AllFieldsOf(v.mem, objs), verdict);
    CountByPlace(v, roots + objs, verdict);
  }

  /** The counters at the end of the check. */
  ghost function Final(v: View, roots: seq<Addr>, logs: seq<seq<MEntry>>): VerifyStats
    requires CanVisit(v, AllObjs(v.to)) && CanVisitRoots(v, roots) && AllHaveSlots(v, logs)
  {
    CountedLogs(v, Visited(v, CountedRoots(v, NoStats, roots), AllObjs(v.to)), logs, |logs|)
  }

  /** What the counters say about pointers. */
  lemma Accounts(v: View, roots: seq<Addr>, logs: seq<seq<MEntry>>)
    requires CanVisit(v, AllObjs(v.to)) && CanVisitRoots(v, roots) && AllHaveSlots(v, logs)
    ensures var st, holders := Final(v, roots, logs), roots + AllObjs(v.to);
      && st.gcRoot == |roots| && st.toSpace == st.ageOk + st.ageBad
      && st.ext == NumberOf(v, holders, External) && st.fromSpace == NumberOf(v, holders, FromSpace)
      && st.ageOk == NumberOf(v, holders, AgeOk) && st.ageBad == NumberOf(v, holders, AgeBad)
      && (forall a :: a in AllObjs(v.to) ==> a in v.mem) && st.fwd == Forwarded(v.mem, AllObjs(v.to))
      && (st.IsOk() <==> Passes(v, roots))
  {
    hide Readable, Count, AllFieldsOf, FieldsOf, HasVerdict, Slots, AllObjs, Forwarded, CountLogs, Passes, NumberOf;
    RootsAreReadable(v, roots);
    VisitIsReadable(v, AllObjs(v.to));
    CountTogether(v, roots, AllObjs(v.to), External);
    CountTogether(v, roots, AllObjs(v.to), FromSpace);
    CountTogether(v, roots, AllObjs(v.to), AgeOk);
    CountTogether(v, roots, AllObjs(v.to), AgeBad);
    PassesIff(v, roots);
  }

  /** What the counters say about log entries. */
  lemma LogAccounts(v: View, roots: seq<Addr>, logs: seq<seq<MEntry>>)
    requires CanVisit(v, AllObjs(v.to)) && CanVisitRoots(v, roots) && AllHaveSlots(v, logs)
    ensures var st := Final(v, roots, logs);
      && st.mlogVital == |LogHits(v, logs, |logs|, Vital)| && st.mlogStale == |LogHits(v, logs, |logs|, Stale)|
      && st.mlogFrom == |LogHits(v, logs, |logs|, LeadsToFromSpace)|
      && st.mlogWild == |LogHits(v, logs, |logs|, Wild)|
  {
    hide Readable, Count, AllFieldsOf, FieldsOf, AllObjs, Forwarded, CountLogs, LogHits, CanVisit, CanVisitRoots;
    CountIsLogHits(v, logs, |logs|, Vital);
    CountIsLogHits(v, logs, |logs|, Stale);
    CountIsLogHits(v, logs, |logs|, LeadsToFromSpace);
    CountIsLogHits(v, logs, |logs|, Wild);
  }

  lemma {:induction false} ForwardedIs(mem: Mem<Hdr>, objs: seq<Addr>)
    requires forall a :: a in objs ==> a in mem
    ensures Forwarded(mem, objs) == |set k: nat | k < |objs| && objs[k] in mem && mem[objs[k]].Fwd?|
  {
    if objs != [] {
      var t, z := objs[..|objs| - 1], |objs| - 1;
      assert objs == t + [objs[z]] && objs[z] in objs;
      ForwardedIs(mem, t);
      var A := set k: nat | k < |t| && t[k] in mem && mem[t[k]].Fwd?;
      var B := set k: nat | k < |objs| && objs[k] in mem && mem[objs[k]].Fwd?;
      assert B == A + if mem[objs[z]].Fwd? then {z} else {};
    }
  }

  /** The numbers, spelled out. */
  lemma PlacesSpelledOut(cfg: Config, mem: Mem<Hdr>, to: seq<Space>, fr: seq<Space>, objs: seq<Addr>)
    requires |to| == cfg.n
    ensures var v := View(cfg, mem, to, fr);
      && NumberOf(v, objs, External) == |set p | p in Slots(mem, objs) &&
           var x := mem[objs[p.0]].fields[p.1]; !Contains(to, x) && !Contains(fr, x)|
      && NumberOf(v, objs, FromSpace) == |set p | p in Slots(mem, objs) &&
           var x := mem[objs[p.0]].fields[p.1]; !Contains(to, x) && Contains(fr, x)|
      && NumberOf(v, objs, AgeOk) + NumberOf(v, objs, AgeBad) == |set p | p in Slots(mem, objs) &&
           Contains(to, mem[objs[p.0]].fields[p.1])|
      && NumberOf(v, objs, AgeOk) == |set p | p in Slots(mem, objs) &&
           IsAtAge(cfg, mem, to, mem[objs[p.0]].fields[p.1])|
  {
    hide Contains, Slots, IsAtAge, Places, Age2Gen;
    var v := View(cfg, mem, to, fr);
    var E := set p | p in Slots(mem, objs) &&
      var x := mem[objs[p.0]].fields[p.1]; !Contains(to, x) && !Contains(fr, x);
    assert Places(v, objs, External) == E;
    var F := set p | p in Slots(mem, objs) &&
      var x := mem[objs[p.0]].fields[p.1]; !Contains(to, x) && Contains(fr, x);
    assert Places(v, objs, FromSpace) == F;
    InToSpace(v, objs);
    var A := set p | p in Slots(mem, objs) && IsAtAge(cfg, mem, to, mem[objs[p.0]].fields[p.1]);
    assert Places(v, objs, AgeOk) == A;
  }

  lemma InOneOfThem(v: View, x: Addr)
    ensures HasVerdict(v, x, AgeOk) || HasVerdict(v, x, AgeBad) <==> Contains(v.to, x)
    ensures !(HasVerdict(v, x, AgeOk) && HasVerdict(v, x, AgeBad))
  {
    hide Age2Gen;
  }

  lemma InToSpace(v: View, objs: seq<Addr>)
    ensures NumberOf(v, objs, AgeOk) + NumberOf(v, objs, AgeBad) ==
      |set p | p in Slots(v.mem, objs) && Contains(v.to, v.mem[objs[p.0]].fields[p.1])|
  {
    hide Contains, Slots, HasVerdict, Places;
    forall x: Addr
      ensures HasVerdict(v, x, AgeOk) || HasVerdict(v, x, AgeBad) <==> Contains(v.to, x)
      ensures !(HasVerdict(v, x, AgeOk) && HasVerdict(v, x, AgeBad))
    {
      InOneOfThem(v, x);
    }
    var T := set p | p in Slots(v.mem, objs) && Contains(v.to, v.mem[objs[p.0]].fields[p.1]);
    assert Places(v, objs, AgeOk) !! Places(v, objs, AgeBad);
    assert Places(v, objs, AgeOk) + Places(v, objs, AgeBad) == T;
  }

  lemma EntriesSpelledOut(cfg: Config, mem: Mem<Hdr>, to: seq<Space>, fr: seq<Space>, logs: seq<seq<MEntry>>)
    requires AllHaveSlots(View(cfg, mem, to, fr), logs)
    ensures var v, n := View(cfg, mem, to, fr), |logs|;
      && CountLogs(v, logs, n, Stale) == |set k: nat, j: nat | k < |logs| && j < |logs[k]| &&
           HasSlot(mem, logs[k][j]) && mem[logs[k][j].parent].fields[logs[k][j].slot] != logs[k][j].snap :: (k, j)|
      && CountLogs(v, logs, n, Vital) == |set k: nat, j: nat | k < |logs| && j < |logs[k]| &&
           HasSlot(mem, logs[k][j]) && mem[logs[k][j].parent].fields[logs[k][j].slot] == logs[k][j].snap &&
           to[k].lo <= logs[k][j].snap < to[k].lo + to[k].used :: (k, j)|
      && CountLogs(v, logs, n, LeadsToFromSpace) == |set k: nat, j: nat | k < |logs| && j < |logs[k]| &&
           HasSlot(mem, logs[k][j]) && mem[logs[k][j].parent].fields[logs[k][j].slot] == logs[k][j].snap &&
           !(to[k].lo <= logs[k][j].snap < to[k].lo + to[k].used) && fr[k].Holds(logs[k][j].snap) :: (k, j)|
      && CountLogs(v, logs, n, Wild) == |set k: nat, j: nat | k < |logs| && j < |logs[k]| &&
           HasSlot(mem, logs[k][j]) && mem[logs[k][j].parent].fields[logs[k][j].slot] == logs[k][j].snap &&
           !(to[k].lo <= logs[k][j].snap < to[k].lo + to[k].used) && !fr[k].Holds(logs[k][j].snap) :: (k, j)|
  {
    hide LogHits, CountLogs, CountEntries;
    var v, n := View(cfg, mem, to, fr), |logs|;
    var S := set k: nat, j: nat | k < |logs| && j < |logs[k]| &&
           HasSlot(mem, logs[k][j]) && mem[logs[k][j].parent].fields[logs[k][j].slot] != logs[k][j].snap :: (k, j);
    assert LogHits(v, logs, n, Stale) == S;
    CountIsLogHits(v, logs, n, Stale);
    var V := set k: nat, j: nat | k < |logs| && j < |logs[k]| &&
           HasSlot(mem, logs[k][j]) && mem[logs[k][j].parent].fields[logs[k][j].slot] == logs[k][j].snap &&
           to[k].lo <= logs[k][j].snap < to[k].lo + to[k].used :: (k, j);
    assert LogHits(v, logs, n, Vital) == V;
    CountIsLogHits(v, logs, n, Vital);
    var F := set k: nat, j: nat | k < |logs| && j < |logs[k]| &&
           HasSlot(mem, logs[k][j]) && mem[logs[k][j].parent].fields[logs[k][j].slot] == logs[k][j].snap &&
           !(to[k].lo <= logs[k][j].snap < to[k].lo + to[k].used) && fr[k].Holds(logs[k][j].snap) :: (k, j);
    assert LogHits(v, logs, n, LeadsToFromSpace) == F;
    CountIsLogHits(v, logs, n, LeadsToFromSpace);
    var W := set k: nat, j: nat | k < |logs| && j < |logs[k]| &&
           HasSlot(mem, logs[k][j]) && mem[logs[k][j].parent].fields[logs[k][j].slot] == logs[k][j].snap &&
           !(to[k].lo <= logs[k][j].snap < to[k].lo + to[k].used) && !fr[k].Holds(logs[k][j].snap) :: (k, j);
    assert LogHits(v, logs, n, Wild) == W;
    CountIsLogHits(v, logs, n, Wild);
  }

  // ---------------------------------------------------------------------------
  // Why a heap between collections passes
  // ---------------------------------------------------------------------------

  /**
   * No object of these was forwarded, and what objects and roots refer to is in order.
   */
  ghost predicate Passes(v: View, roots: seq<Addr>) {
    && (forall a :: a in AllObjs(v.to) ==> a in v.mem && v.mem[a].Obj?)
    && forall a, x :: (a in roots || a in AllObjs(v.to)) && x in FieldsOf(v.mem, a) ==> InOrder(v, x)
  }

  lemma OneHolder(to: seq<Space>, fr: seq<Space>, x: Addr, g: nat, h: nat)
    requires Apart(to, fr) && g < |to| && h < |to| && to[g].Holds(x) && to[h].Holds(x)
    ensures g == h
  {
    assert g < h ==> Disj(to[g], to[h]);
    assert h < g ==> Disj(to[h], to[g]);
  }

  /** Age and address tell the same generation between collections too. */
  lemma GenerationAtHome(v: View, x: Addr)
    requires HeapOk(v.cfg, v.mem, v.to, v.fr) && (x in v.mem || Foreign(v.to, v.fr, x))
    ensures Readable(v, x) && Judge(v, x) == if x in v.mem then AgeOk else External
  {
    hide Age2Gen, GenerationOf;
    if x in v.mem {
      assert AtHome(v.cfg, v.to, v.mem[x], x);
      var g := Age2Gen(v.cfg, v.mem[x].hdr.age);
      assert v.to[g].Ok() && v.to[g].Holds(x);
      OneHolder(v.to, v.fr, x, g, GenerationOf(v.to, x));
    }
  }

  /** Every pointer the check comes across is one it can judge. */
  lemma HeapIsReadable(v: View, roots: seq<Addr>)
    requires HeapOk(v.cfg, v.mem, v.to, v.fr)
    ensures CanVisit(v, AllObjs(v.to)) && CanVisitRoots(v, roots)
  {
    hide Age2Gen, GenerationOf, Judge, Readable, Foreign, Metered;
    forall a, x | (a in roots || a in AllObjs(v.to)) && x in FieldsOf(v.mem, a) ensures Readable(v, x) {
      GenerationAtHome(v, x);
    }
  }

  lemma LogsAreReadable(v: View, logs: seq<seq<MEntry>>)
    requires HeapOk(v.cfg, v.mem, v.to, v.fr) && LogsOk(v.cfg, v.mem, logs)
    ensures AllHaveSlots(v, logs)
  {
    hide HeapOk;
    SpacesFit(v);
    forall k, en | 0 <= k < |logs| && en in logs[k] ensures HasSlot(v.mem, en) {
      EntryVerdict(v, logs, k, en);
    }
  }

  /** No entry of a log leads to from-space. */
  lemma NoneLeadsToFromSpace(v: View, logs: seq<seq<MEntry>>)
    requires HeapOk(v.cfg, v.mem, v.to, v.fr) && LogsOk(v.cfg, v.mem, logs)
    ensures AllHaveSlots(v, logs) && CountLogs(v, logs, |logs|, LeadsToFromSpace) == 0
  {
    hide HeapOk, JudgeEntry, LogsOk, CountLogs;
    LogsAreReadable(v, logs);
    forall k, en | 0 <= k < |logs| && en in logs[k]
      ensures JudgeEntry(v.mem, v.to[k], v.fr[k], en) != LeadsToFromSpace
    {
      EntryVerdict(v, logs, k, en);
    }
  }

  lemma SpacesFit(v: View)
    requires HeapOk(v.cfg, v.mem, v.to, v.fr)
    ensures |v.to| == |v.fr| == v.cfg.n
  {
  }

  lemma HeapPasses(v: View, roots: seq<Addr>)
    requires HeapOk(v.cfg, v.mem, v.to, v.fr)
    ensures Passes(v, roots)
  {
    hide Age2Gen, GenerationOf, Judge, Readable, InOrder, Foreign, Metered, Apart, AllOk;
    forall a, x | (a in roots || a in AllObjs(v.to)) && x in FieldsOf(v.mem, a)
      ensures InOrder(v, x)
    {
      GenerationAtHome(v, x);
      JudgedInOrder(v, x);
    }
  }

  /**
   * Between collections an entry is stale, or vital, or what the check calls
   * wild: that is so exactly if what it points to has been promoted beyond the
   * generation of the log.
   */
  lemma EntryVerdict(v: View, logs: seq<seq<MEntry>>, k: nat, en: MEntry)
    requires HeapOk(v.cfg, v.mem, v.to, v.fr) && LogsOk(v.cfg, v.mem, logs) && k < |logs| && en in logs[k]
    ensures HasSlot(v.mem, en) && en.snap in v.mem && v.mem[en.snap].Obj? && |v.to| == |v.fr| == v.cfg.n
    ensures |logs| == v.cfg.n - 1
    ensures JudgeEntry(v.mem, v.to[k], v.fr[k], en) ==
      if v.mem[en.parent].fields[en.slot] != en.snap then Stale
      else if GenOf(v.cfg, v.mem, en.snap) == k then Vital else Wild
  {
    hide Age2Gen, Metered;
    assert EntryOk(v.cfg, v.mem, k, en);
    assert AtHome(v.cfg, v.to, v.mem[en.snap], en.snap);
    var g := GenOf(v.cfg, v.mem, en.snap);
    assert v.to[g].Ok() && v.to[g].Holds(en.snap);
    assert v.to[k].Ok();
    assert Disj(v.to[g], v.fr[k]);
    assert k < g ==> Disj(v.to[k], v.to[g]);
  }

  /** Between collections the check visits every object once. */
  lemma AllObjsAre(v: View)
    requires HeapOk(v.cfg, v.mem, v.to, v.fr)
    ensures (forall a :: a in AllObjs(v.to) <==> a in v.mem) && AllDifferent(AllObjs(v.to))
  {
    hide Age2Gen, Metered;
    ObjsAreDifferent(v.to, v.fr, |v.to|);
    assert v.to[..|v.to|] == v.to;
    hide Apart, AllOk;
    forall a | a in v.mem ensures a in AllObjs(v.to) { assert AtHome(v.cfg, v.to, v.mem[a], a); }
  }

  lemma {:induction false} ObjsAreDifferent(to: seq<Space>, fr: seq<Space>, n: nat)
    requires Apart(to, fr) && AllOk(to) && n <= |to|
    ensures AllDifferent(AllObjs(to[..n]))
  {
    if 0 < n {
      ObjsAreDifferent(to, fr, n - 1);
      var s, t := AllObjs(to[..n - 1]), to[n - 1].objs;
      assert to[..n][..n - 1] == to[..n - 1] && to[n - 1].Ok();
      assert AllObjs(to[..n]) == s + t;
      forall i, j | 0 <= i < |s| && 0 <= j < |t| ensures s[i] != t[j] {
        assert s[i] in s;
        var g :| 0 <= g < n - 1 && s[i] in to[..n - 1][g].objs;
        assert to[g].Ok() && Disj(to[g], to[n - 1]);
      }
    }
  }

  /** The fields of root objects that hold pointers to objects, or none. */
  ghost function RootSlots(mem: Mem<Hdr>, vars: map<nat, Addr>, rootv: seq<nat>, owned: bool): (r: set<(nat, nat)>)
    requires forall q :: q in rootv ==> q in vars
    ensures forall p :: p in r <==>
      p.0 < |rootv| && vars[rootv[p.0]] in mem && mem[vars[rootv[p.0]]].Obj? &&
      p.1 < |mem[vars[rootv[p.0]]].fields| && (mem[vars[rootv[p.0]]].fields[p.1] in mem <==> owned)
  {
    set i: nat, j: nat | i < |rootv| && j < |FieldsOf(mem, vars[rootv[i]])| &&
      (FieldsOf(mem, vars[rootv[i]])[j] in mem <==> owned) :: (i, j)
  }

  /** The fields of objects in memory that hold such pointers. */
  ghost function ObjectSlots(mem: Mem<Hdr>, owned: bool): (r: set<(Addr, nat)>)
    ensures forall p :: p in r <==>
      p.0 in mem && mem[p.0].Obj? && p.1 < |mem[p.0].fields| && (mem[p.0].fields[p.1] in mem <==> owned)
  {
    set a, j: nat | a in mem && j < |FieldsOf(mem, a)| && (FieldsOf(mem, a)[j] in mem <==> owned) :: (a, j)
  }

  /** Between collections pointers to objects are of the right age, and all others are external. */
  lemma HealthyNumbers(v: View, vars: map<nat, Addr>, rootv: seq<nat>, owned: bool)
    requires HeapOk(v.cfg, v.mem, v.to, v.fr) && forall r :: r in rootv ==> r in vars
    ensures NumberOf(v, Contents(vars, rootv) + AllObjs(v.to), if owned then AgeOk else External) ==
      |RootSlots(v.mem, vars, rootv, owned)| + |ObjectSlots(v.mem, owned)|
  {
    hide HeapOk, AllObjs, Contents, AllFieldsOf, Count, NumberOf, Readable, Judge, RootSlots, ObjectSlots, AllHits;
    hide HitsByAddress;
    var roots, objs, verdict := Contents(vars, rootv), AllObjs(v.to), if owned then AgeOk else External;
    HeapIsReadable(v, roots);
    AllObjsAre(v);
    CountTogether(v, roots, objs, verdict);
    CountIsAllHits(v, roots, verdict);
    CountIsByAddress(v, objs, verdict);
    RootHits(v, vars, rootv, owned);
    ObjectHits(v, owned);
  }

  lemma HitsAreOwned(v: View, owned: bool)
    requires HeapOk(v.cfg, v.mem, v.to, v.fr)
    ensures forall a, j: nat | a in v.mem && v.mem[a].Obj? && j < |v.mem[a].fields| ::
      Hit(v, v.mem[a].fields, j, if owned then AgeOk else External) <==> (v.mem[a].fields[j] in v.mem <==> owned)
  {
    hide HeapOk, Judge, Readable;
    forall a, j: nat | a in v.mem && v.mem[a].Obj? && j < |v.mem[a].fields|
      ensures Hit(v, v.mem[a].fields, j, if owned then AgeOk else External) <==>
        (v.mem[a].fields[j] in v.mem <==> owned)
    {
      FieldIsKnown(v, a, j);
      GenerationAtHome(v, v.mem[a].fields[j]);
    }
  }

  lemma RootHits(v: View, vars: map<nat, Addr>, rootv: seq<nat>, owned: bool)
    requires HeapOk(v.cfg, v.mem, v.to, v.fr) && forall r :: r in rootv ==> r in vars
    ensures AllHits(v, Contents(vars, rootv), if owned then AgeOk else External) ==
      RootSlots(v.mem, vars, rootv, owned)
  {
    HitsAreOwned(v, owned);
    NoHitOutside(v, if owned then AgeOk else External);
    hide HeapOk, Hit, AllHits, RootSlots, Contents;
  }

  lemma ObjectHits(v: View, owned: bool)
    requires HeapOk(v.cfg, v.mem, v.to, v.fr)
    ensures HitsByAddress(v, AllObjs(v.to), if owned then AgeOk else External) == ObjectSlots(v.mem, owned)
  {
    HitsAreOwned(v, owned);
    AllObjsAre(v);
    NoHitOutside(v, if owned then AgeOk else External);
    hide HeapOk, Hit, HitsByAddress, ObjectSlots, AllObjs;
  }

  lemma NoHitOutside(v: View, verdict: Verdict)
    ensures forall s: seq<Addr>, j: nat :: Hit(v, s, j, verdict) ==> j < |s|
  {
  }

  lemma FieldIsKnown(v: View, a: Addr, j: nat)
    requires HeapOk(v.cfg, v.mem, v.to, v.fr) && a in v.mem && v.mem[a].Obj? && j < |v.mem[a].fields|
    ensures v.mem[a].fields[j] in v.mem || Foreign(v.to, v.fr, v.mem[a].fields[j])
  {
  }

  lemma SlotsSpelledOut(mem: Mem<Hdr>, vars: map<nat, Addr>, rootv: seq<nat>)
    requires forall r :: r in rootv ==> r in vars
    ensures |RootSlots(mem, vars, rootv, true)| == |set i: nat, j: nat | i < |rootv| && rootv[i] in vars &&
      vars[rootv[i]] in mem && mem[vars[rootv[i]]].Obj? && j < |mem[vars[rootv[i]]].fields| &&
      mem[vars[rootv[i]]].fields[j] in mem :: (i, j)|
    ensures |RootSlots(mem, vars, rootv, false)| == |set i: nat, j: nat | i < |rootv| && rootv[i] in vars &&
      vars[rootv[i]] in mem && mem[vars[rootv[i]]].Obj? && j < |mem[vars[rootv[i]]].fields| &&
      mem[vars[rootv[i]]].fields[j] !in mem :: (i, j)|
    ensures |ObjectSlots(mem, true)| == |set a, j: nat | a in mem && mem[a].Obj? && j < |mem[a].fields| &&
      mem[a].fields[j] in mem :: (a, j)|
    ensures |ObjectSlots(mem, false)| == |set a, j: nat | a in mem && mem[a].Obj? && j < |mem[a].fields| &&
      mem[a].fields[j] !in mem :: (a, j)|
  {
    hide RootSlots, ObjectSlots;
    var A := set i: nat, j: nat | i < |rootv| && rootv[i] in vars &&
      vars[rootv[i]] in mem && mem[vars[rootv[i]]].Obj? && j < |mem[vars[rootv[i]]].fields| &&
      mem[vars[rootv[i]]].fields[j] in mem :: (i, j);
    var B := set i: nat, j: nat | i < |rootv| && rootv[i] in vars &&
      vars[rootv[i]] in mem && mem[vars[rootv[i]]].Obj? && j < |mem[vars[rootv[i]]].fields| &&
      mem[vars[rootv[i]]].fields[j] !in mem :: (i, j);
    var C := set a, j: nat | a in mem && mem[a].Obj? && j < |mem[a].fields| && mem[a].fields[j] in mem :: (a, j);
    var D := set a, j: nat | a in mem && mem[a].Obj? && j < |mem[a].fields| && mem[a].fields[j] !in mem :: (a, j);
    assert RootSlots(mem, vars, rootv, true) == A;
    assert RootSlots(mem, vars, rootv, false) == B;
    assert ObjectSlots(mem, true) == C;
    assert ObjectSlots(mem, false) == D;
  }
}
