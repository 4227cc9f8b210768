/**
 * The mutation logs of the N-generation collector: which pointers must be
 * remembered between collections, and what becomes of a log entry while the
 * objects it mentions are being moved.
 */
module Logs {
  import opened Evacuation
  import opened Stores
  import opened Retirement
  import opened Recursion

  /** A logged store: field slot of parent was made to point to snap. */
  datatype MEntry = MEntry(parent: Addr, slot: nat, snap: Addr)

  function GenOf(cfg: Config, mem: Mem<Hdr>, a: Addr): (g: nat)
    requires a in mem && mem[a].Obj?
    ensures g < cfg.n
  {
    Age2Gen(cfg, mem[a].hdr.age)
  }

  // ---------------------------------------------------------------------------
  // Between collections
  // ---------------------------------------------------------------------------

  /** What the collector reads of an entry in the log for generation k is there. */
  predicate EntryOk(cfg: Config, mem: Mem<Hdr>, k: nat, en: MEntry) {
    && en.parent in mem && mem[en.parent].Obj? && en.slot < |mem[en.parent].fields| && k <= GenOf(cfg, mem, en.parent)
    && en.snap in mem && mem[en.snap].Obj? && k <= GenOf(cfg, mem, en.snap)
  }

  ghost predicate LogsOk(cfg: Config, mem: Mem<Hdr>, logs: seq<seq<MEntry>>) {
    |logs| == cfg.n - 1 && forall k, en :: 0 <= k < |logs| && en in logs[k] ==> EntryOk(cfg, mem, k, en)
  }

  /** A pointer from p to c must be remembered: c is younger, and not in the last generation. */
  predicate MustRemember(cfg: Config, mem: Mem<Hdr>, p: Addr, c: Addr) {
    && p in mem && mem[p].Obj? && c in mem && mem[c].Obj?
    && GenOf(cfg, mem, c) + 1 < cfg.n && GenOf(cfg, mem, c) < GenOf(cfg, mem, p)
  }

  /** en is in a log that is worked through whenever generation g is collected. */
  ghost predicate InLogs(logs: seq<seq<MEntry>>, g: nat, en: MEntry) {
    exists k :: 0 <= k <= g && k < |logs| && en in logs[k]
  }

  /**
   * The stores the write barrier logs: of a pointer to an object that is not in the last generation
   * and is younger than the parent.
   */
  predicate MustLog(cfg: Config, mem: Mem<Hdr>, p: Addr, x: Addr) {
    && p in mem && mem[p].Obj? && x in mem && mem[x].Obj?
    && GenOf(cfg, mem, x) + 1 < cfg.n
    && (GenOf(cfg, mem, x) < GenOf(cfg, mem, p)
        || (GenOf(cfg, mem, x) == GenOf(cfg, mem, p) && mem[x].hdr.age < mem[p].hdr.age))
  }

  /**
   * Pointers whose entry must not be lost. A pointer to a younger object of the
   * same generation is among them, since the older object may be promoted first;
   * but if nothing lives long enough to be promoted, no entry is ever needed.
   */
  predicate Owed(cfg: Config, mem: Mem<Hdr>, p: Addr, x: Addr) {
    cfg.survive <= MAX_AGE && MustLog(cfg, mem, p, x)
  }

  ghost predicate Remembered(cfg: Config, mem: Mem<Hdr>, logs: seq<seq<MEntry>>) {
    forall a, i :: a in mem && mem[a].Obj? && 0 <= i < |mem[a].fields| && Owed(cfg, mem, a, mem[a].fields[i]) ==>
      InLogs(logs, GenOf(cfg, mem, mem[a].fields[i]), MEntry(a, i, mem[a].fields[i]))
  }

  /**
   * Every pointer from an older to a younger generation has an entry: then the young generations can
   * be collected alone.
   */
  ghost predicate Complete(cfg: Config, mem: Mem<Hdr>, logs: seq<seq<MEntry>>) {
    forall a, i ::
      a in mem && mem[a].Obj? && 0 <= i < |mem[a].fields| && MustRemember(cfg, mem, a, mem[a].fields[i]) ==>
      InLogs(logs, GenOf(cfg, mem, mem[a].fields[i]), MEntry(a, i, mem[a].fields[i]))
  }

  lemma RememberedIsComplete(cfg: Config, mem: Mem<Hdr>, logs: seq<seq<MEntry>>)
    requires Remembered(cfg, mem, logs) && forall a :: a in mem && mem[a].Obj? ==> mem[a].hdr.age <= MAX_AGE
    ensures Complete(cfg, mem, logs)
  {
    hide Age2Gen;
    forall a, i | a in mem && mem[a].Obj? && 0 <= i < |mem[a].fields| && MustRemember(cfg, mem, a, mem[a].fields[i])
      ensures InLogs(logs, GenOf(cfg, mem, mem[a].fields[i]), MEntry(a, i, mem[a].fields[i]))
    {
      CrossingIsOwed(cfg, mem, a, mem[a].fields[i]);
    }
  }

  /** A pointer from an older to a younger generation is one whose entry must be there. */
  lemma CrossingIsOwed(cfg: Config, mem: Mem<Hdr>, p: Addr, x: Addr)
    requires MustRemember(cfg, mem, p, x) && mem[p].hdr.age <= MAX_AGE
    ensures Owed(cfg, mem, p, x)
  {
    if MAX_AGE < cfg.survive { DivFacts(mem[p].hdr.age, cfg.survive); }
  }

  // ---------------------------------------------------------------------------
  // During a collection
  // ---------------------------------------------------------------------------

  predicate Sound(e: Evac<Hdr>, en0: MEntry) {
    && en0.parent in e.mem0 && e.mem0[en0.parent].Obj? && en0.slot < |e.mem0[en0.parent].fields|
    && en0.snap in e.mem0
  }

  /** The entry tells what the field held when the collection began: no later store has superseded it. */
  predicate Active(e: Evac<Hdr>, en0: MEntry)
    requires Sound(e, en0)
  {
    e.mem0[en0.parent].fields[en0.slot] == en0.snap
  }

  /** Wherever the parent is now, the field is there. */
  predicate HasField(e: Evac<Hdr>, en0: MEntry) {
    var p := Phi(e.mem, en0.parent);
    p in e.mem && e.mem[p].Obj? && en0.slot < |e.mem[p].fields|
  }

  function FieldNow(e: Evac<Hdr>, en0: MEntry): Addr
    requires HasField(e, en0)
  {
    e.mem[Phi(e.mem, en0.parent)].fields[en0.slot]
  }

  /** en is what has become of the entry en0: the parent or the snapshot may have been followed to where they moved. */
  ghost predicate Version(e: Evac<Hdr>, en0: MEntry, en: MEntry) {
    && en.slot == en0.slot && HasField(e, en0)
    && (en.parent == en0.parent || (en.parent == Phi(e.mem, en0.parent) && en.parent !in e.from))
    && (en.snap == en0.snap || (en.snap == Phi(e.mem, en0.snap) && en.snap !in e.from && FieldNow(e, en0) == en.snap))
  }

  lemma FieldIsThere(e: Evac<Hdr>, en0: MEntry)
    requires Inv(e) && Sound(e, en0)
    ensures HasField(e, en0) && FieldOk(e, e.mem0[en0.parent].fields[en0.slot], FieldNow(e, en0))
    ensures Phi(e.mem, en0.parent) == en0.parent || Phi(e.mem, en0.parent) !in e.from
  {
    var p := Phi(e.mem, en0.parent);
    if en0.parent in e.from {
      assert Accounted(e, en0.parent);
      assert Faithful(e, p);
    } else {
      PhiOfOutside(e, en0.parent);
      assert Faithful(e, p);
    }
  }

  /** A field that points out of from-space does not change any more, even if its object moves. */
  lemma FieldNowStays(e: Evac<Hdr>, to: seq<Space>, e': Evac<Hdr>, to': seq<Space>, en0: MEntry)
    requires Later(e, to, e', to') && Inv(e) && Inv(e') && HasField(e, en0) && en0.parent in e.mem
    ensures HasField(e', en0) && FieldStays(e.from, FieldNow(e, en0), FieldNow(e', en0))
    ensures Phi(e.mem, en0.parent) !in e.from ==> Phi(e'.mem, en0.parent) == Phi(e.mem, en0.parent)
  {
    hide AllFaithful, OnlyLive;
    var p := Phi(e.mem, en0.parent);
    assert CellStays(e.from, p, e.mem[p], e'.mem);
    if p != en0.parent {
      assert CellStays(e.from, en0.parent, e.mem[en0.parent], e'.mem);
      if en0.parent in e.from { assert Accounted(e, en0.parent); } else { PhiOfOutside(e, en0.parent); }
      FromIsInMemory(e);
      PhiOfOutside(e', p);
    }
    if p !in e.from { PhiOfOutside(e', p); }
  }

  lemma VersionStays(e: Evac<Hdr>, to: seq<Space>, e': Evac<Hdr>, to': seq<Space>, en0: MEntry, en: MEntry)
    requires Later(e, to, e', to') && Inv(e) && Inv(e') && Sound(e, en0) && Version(e, en0, en)
    ensures Version(e', en0, en)
  {
    hide Inv, Later;
    ForwardsOf(e);
    FromIsInMemory(e);
    SrcStays(e, to, e', to');
    FieldNowStays(e, to, e', to', en0);
    if en.parent == Phi(e.mem, en0.parent) && en.parent !in e.from { PhiStays(e, to, e', to', en0.parent); }
    if en.snap == Phi(e.mem, en0.snap) && en.snap !in e.from { PhiStays(e, to, e', to', en0.snap); }
  }

  // ---------------------------------------------------------------------------
  // Recognising superseded entries
  // ---------------------------------------------------------------------------

  /** Forwarding maps different pointers of the original heap to different ones, moved or not. */
  lemma PhiIsInjective(c: Turn, e: Evac<Hdr>, to: seq<Space>, x: Addr, y: Addr)
    requires Moving(c, e, to) && Phi(e.mem, x) == Phi(e.mem, y)
    requires x in e.mem0 || Foreign(to, c.fr, x)
    requires y in e.mem0 || Foreign(to, c.fr, y)
    ensures x == y
  {
    hide Originals, Copies, InUse, Pointers, AllFaithful, OnlyLive;
    NotACopy(c, e, to, x);
    NotACopy(c, e, to, y);
    hide Foreign, Spaces;
    if x in e.from { assert Accounted(e, x); } else { PhiOfOutsideIn(c, e, to, x); }
    if y in e.from { assert Accounted(e, y); } else { PhiOfOutsideIn(c, e, to, y); }
  }

  lemma PhiOfOutsideIn(c: Turn, e: Evac<Hdr>, to: seq<Space>, x: Addr)
    requires Moving(c, e, to) && x !in e.from
    ensures Phi(e.mem, x) == x
  {
    PhiOfOutside(e, x);
  }

  /** A field, and the snapshot of an entry, both name what they named at first, as far as forwarding goes. */
  lemma SameTarget(c: Turn, e: Evac<Hdr>, to: seq<Space>, x0: Addr, x: Addr)
    requires Moving(c, e, to) && (x == x0 || (x == Phi(e.mem, x0) && x !in e.from))
    ensures Phi(e.mem, x) == Phi(e.mem, x0)
  {
    if x !in e.from { PhiOfOutside(e, x); }
  }

  /**
   * Whether an entry is superseded can be told by comparing the field with the
   * snapshot, once a snapshot that has moved was compared with both addresses.
   */
  lemma SnapshotTells(c: Turn, e: Evac<Hdr>, to: seq<Space>, en0: MEntry, en: MEntry)
    requires Moving(c, e, to) && Sound(e, en0) && Version(e, en0, en)
    requires en.snap in e.mem && e.mem[en.snap].Fwd? ==>
      FieldNow(e, en0) != en.snap && FieldNow(e, en0) != Phi(e.mem, en.snap)
    ensures FieldNow(e, en0) == en.snap <==> Active(e, en0)
  {
    var f0, f := e.mem0[en0.parent].fields[en0.slot], FieldNow(e, en0);
    FieldIsOk(c, e, to, en0);
    SameTarget(c, e, to, f0, f);
    SameTarget(c, e, to, en0.snap, en.snap);
    hide Moving;
    if Phi(e.mem, f) == Phi(e.mem, en.snap) && f != en.snap {
      PhiIsInjective(c, e, to, f0, en0.snap);
      NotACopy(c, e, to, en0.snap);
    }
    if Phi(e.mem, f0) == Phi(e.mem, en0.snap) { PhiIsInjective(c, e, to, f0, en0.snap); }
  }

  lemma FieldIsOk(c: Turn, e: Evac<Hdr>, to: seq<Space>, en0: MEntry)
    requires Moving(c, e, to) && Sound(e, en0)
    ensures HasField(e, en0) && FieldOk(e, e.mem0[en0.parent].fields[en0.slot], FieldNow(e, en0))
    ensures Phi(e.mem, en0.parent) == en0.parent || Phi(e.mem, en0.parent) !in e.from
    ensures var f0 := e.mem0[en0.parent].fields[en0.slot]; f0 in e.mem0 || Foreign(to, c.fr, f0)
    ensures en0.parent in e.mem && en0.snap in e.mem
  {
    FieldIsThere(e, en0);
    FromIsInMemory(e);
  }

  // ---------------------------------------------------------------------------
  // The state of the logs while they are worked through
  // ---------------------------------------------------------------------------

  /** The three logs of each generation but the last, by role. */
  datatype MutationLogs = MutationLogs(to: seq<seq<MEntry>>, fr: seq<seq<MEntry>>, triage: seq<seq<MEntry>>)

  /**
   * What the proof remembers: the logs when the collection began, and of each entry not dealt with,
   * what it was then.
   */
  datatype LogHistory = LogHistory(start: seq<seq<MEntry>>, fr: seq<seq<MEntry>>, triage: seq<seq<MEntry>>)

  /** An entry has been dealt with: its field points out of from-space, and is remembered if it must be. */
  ghost predicate Settled(cfg: Config, e: Evac<Hdr>, log: seq<MEntry>, en0: MEntry) {
    && HasField(e, en0)
    && var p, x := Phi(e.mem, en0.parent), FieldNow(e, en0);
    && p !in e.from && x !in e.from && x in e.mem
    && (MustRemember(cfg, e.mem, p, x) ==> MEntry(p, en0.slot, x) in log)
  }

  /** A kept entry is current, of use, and in a log not above the generation of what it points to. */
  ghost predicate KeepOk(cfg: Config, e: Evac<Hdr>, k: nat, en: MEntry) {
    && en.parent in e.mem && en.parent !in e.from && e.mem[en.parent].Obj? && en.slot < |e.mem[en.parent].fields|
    && e.mem[en.parent].fields[en.slot] == en.snap && en.snap !in e.from
    && MustRemember(cfg, e.mem, en.parent, en.snap) && k <= GenOf(cfg, e.mem, en.snap)
  }

  /** What becomes of an entry that is kept: parent and child are named where they are now. */
  function Relocated(e: Evac<Hdr>, en0: MEntry): MEntry {
    MEntry(Phi(e.mem, en0.parent), en0.slot, Phi(e.mem, en0.snap))
  }

  /** en is what has become of a current entry whose parent and child are in their places. */
  ghost predicate KeptFor(e: Evac<Hdr>, en0: MEntry, en: MEntry) {
    && Sound(e, en0) && Active(e, en0) && en == Relocated(e, en0)
    && Phi(e.mem, en0.parent) !in e.from && Phi(e.mem, en0.snap) !in e.from
  }

  /** Every kept entry was a current one when the collection began. */
  ghost predicate Traced(e: Evac<Hdr>, start: seq<MEntry>, log: seq<MEntry>) {
    forall en :: en in log ==> exists en0 :: en0 in start && KeptFor(e, en0, en)
  }

  lemma TracedStays(e: Evac<Hdr>, to: seq<Space>, e': Evac<Hdr>, to': seq<Space>, start: seq<MEntry>, log: seq<MEntry>)
    requires Later(e, to, e', to') && Inv(e) && Inv(e') && Traced(e, start, log)
    ensures Traced(e', start, log)
  {
    hide Inv, Later;
    SrcStays(e, to, e', to');
    forall en | en in log ensures exists en0 :: en0 in start && KeptFor(e', en0, en) {
      var en0 :| en0 in start && KeptFor(e, en0, en);
      PhiStays(e, to, e', to', en0.parent);
      PhiStays(e, to, e', to', en0.snap);
      assert KeptFor(e', en0, en);
    }
  }

  lemma TracedMore(e: Evac<Hdr>, start: seq<MEntry>, log: seq<MEntry>, en0: MEntry, ens: seq<MEntry>)
    requires Traced(e, start, log) && en0 in start && forall en :: en in ens ==> KeptFor(e, en0, en)
    ensures Traced(e, start, log + ens)
  {
    hide KeptFor;
  }

  ghost predicate Matches(cfg: Config, e: Evac<Hdr>, k: nat, was: seq<MEntry>, log: seq<MEntry>) {
    |was| == |log| && forall j :: 0 <= j < |log| ==> EntryOk(cfg, e.mem0, k, was[j]) && Version(e, was[j], log[j])
  }

  ghost predicate Dealt(cfg: Config, e: Evac<Hdr>, log: seq<MEntry>, en0: MEntry) {
    Sound(e, en0) && (Active(e, en0) ==> Settled(cfg, e, log, en0))
  }

  /** Log k of a collected generation; if it is log g, the first i incoming entries have been dealt with. */
  ghost predicate LogOkAt(c: Turn, e: Evac<Hdr>, ml: MutationLogs, h: LogHistory, k: nat, g: nat, i: nat)
    requires k < |ml.to| == |ml.fr| == |ml.triage| == |h.start| == |h.fr| == |h.triage|
  {
    && |h.fr[k]| == |ml.fr[k]| && |h.triage[k]| == |ml.triage[k]| && (k == g ==> i <= |h.fr[k]|)
    && Matches(c.cfg, e, k, h.fr[k], ml.fr[k]) && Matches(c.cfg, e, k, h.triage[k], ml.triage[k])
    && (forall en :: en in ml.to[k] ==> KeepOk(c.cfg, e, k, en)) && Traced(e, h.start[k], ml.to[k])
    && (forall en0 :: en0 in h.fr[k] || en0 in h.triage[k] ==> en0 in h.start[k])
    && (forall en0 :: en0 in h.start[k] ==>
          Dealt(c.cfg, e, ml.to[k], en0) || en0 in h.fr[k][if k == g then i else 0..] || en0 in h.triage[k])
  }

  predicate Sizes(c: Turn, ml: MutationLogs, h: LogHistory) {
    |ml.to| == |ml.fr| == |ml.triage| == |h.start| == |h.fr| == |h.triage| == c.cfg.n - 1
  }

  /** All the logs; of log g, the first i incoming entries have been dealt with. */
  ghost predicate LogState(c: Turn, e: Evac<Hdr>, ml: MutationLogs, h: LogHistory, g: nat, i: nat) {
    && Sizes(c, ml, h)
    && (forall k :: 0 <= k < |ml.to| && k < c.upto ==> LogOkAt(c, e, ml, h, k, g, i))
    && (forall k :: 0 <= k < |ml.to| && c.upto <= k ==> ml.to[k] == h.start[k] && ml.fr[k] == [] && h.fr[k] == [])
  }

  lemma KeepOkStays(c: Turn, e: Evac<Hdr>, to: seq<Space>, e': Evac<Hdr>, to': seq<Space>, k: nat, en: MEntry)
    requires Later(e, to, e', to') && Inv(e) && Inv(e') && KeepOk(c.cfg, e, k, en)
    ensures KeepOk(c.cfg, e', k, en)
  {
    hide AllFaithful, OnlyLive, Age2Gen;
    assert CellStays(e.from, en.parent, e.mem[en.parent], e'.mem);
    assert CellStays(e.from, en.snap, e.mem[en.snap], e'.mem);
    SrcStays(e, to, e', to');
    OutsideIsObject(e', en.parent);
    OutsideIsObject(e', en.snap);
  }

  lemma SettledStays(
      c: Turn, e: Evac<Hdr>, to: seq<Space>, e': Evac<Hdr>, to': seq<Space>, log: seq<MEntry>, en0: MEntry)
    requires Later(e, to, e', to') && Inv(e) && Inv(e') && Sound(e, en0) && Settled(c.cfg, e, log, en0)
    ensures Settled(c.cfg, e', log, en0)
  {
    hide Inv, Age2Gen;
    ForwardsOf(e);
    FromIsInMemory(e);
    FieldNowStays(e, to, e', to', en0);
    SrcStays(e, to, e', to');
    var p, x := Phi(e.mem, en0.parent), FieldNow(e, en0);
    MustRememberStays(c, e, to, e', to', p, x);
  }

  lemma MustRememberStays(c: Turn, e: Evac<Hdr>, to: seq<Space>, e': Evac<Hdr>, to': seq<Space>, p: Addr, x: Addr)
    requires Later(e, to, e', to') && Inv(e) && Inv(e') && p in e.mem && p !in e.from && x in e.mem && x !in e.from
    ensures MustRemember(c.cfg, e'.mem, p, x) == MustRemember(c.cfg, e.mem, p, x)
  {
    hide AllFaithful, OnlyLive, Age2Gen;
    HdrStays(e, to, e', to', p);
    HdrStays(e, to, e', to', x);
  }

  lemma HdrStays(e: Evac<Hdr>, to: seq<Space>, e': Evac<Hdr>, to': seq<Space>, d: Addr)
    requires Later(e, to, e', to') && Inv(e) && Inv(e') && d in e.mem && d !in e.from
    ensures d in e'.mem && d !in e'.from && e.mem[d].Obj? && e'.mem[d].Obj? && e'.mem[d].hdr == e.mem[d].hdr
  {
    hide Inv;
    SrcStays(e, to, e', to');
    assert CellStays(e.from, d, e.mem[d], e'.mem);
    OutsideIsObject(e, d);
    OutsideIsObject(e', d);
  }

  lemma MatchesStays(
      c: Turn, e: Evac<Hdr>, to: seq<Space>, e': Evac<Hdr>, to': seq<Space>, k: nat, was: seq<MEntry>, log: seq<MEntry>)
    requires Later(e, to, e', to') && Inv(e) && Inv(e') && Matches(c.cfg, e, k, was, log)
    ensures Matches(c.cfg, e', k, was, log)
  {
    hide Inv, Age2Gen, Version, Later;
    SrcStays(e, to, e', to');
    forall j | 0 <= j < |log| ensures EntryOk(c.cfg, e'.mem0, k, was[j]) && Version(e', was[j], log[j]) {
      VersionStays(e, to, e', to', was[j], log[j]);
    }
  }

  lemma DealtStays(c: Turn, e: Evac<Hdr>, to: seq<Space>, e': Evac<Hdr>, to': seq<Space>, log: seq<MEntry>, en0: MEntry)
    requires Later(e, to, e', to') && Inv(e) && Inv(e') && Dealt(c.cfg, e, log, en0)
    ensures Dealt(c.cfg, e', log, en0)
  {
    hide Inv, Settled, Later;
    SrcStays(e, to, e', to');
    if Active(e, en0) { SettledStays(c, e, to, e', to', log, en0); }
  }

  /** Moving objects and redirecting fields disturbs nothing the logs know. */
  lemma LogStateStays(
      c: Turn, e: Evac<Hdr>, to: seq<Space>, e': Evac<Hdr>, to': seq<Space>, ml: MutationLogs, h: LogHistory, g: nat,
      i: nat)
    requires Later(e, to, e', to') && Inv(e) && Inv(e') && LogState(c, e, ml, h, g, i)
    ensures LogState(c, e', ml, h, g, i)
  {
    hide Inv, Later, Matches, KeepOk, Dealt, Traced;
    forall k | 0 <= k < |ml.to| && k < c.upto ensures LogOkAt(c, e', ml, h, k, g, i) {
      assert LogOkAt(c, e, ml, h, k, g, i);
      TracedStays(e, to, e', to', h.start[k], ml.to[k]);
      MatchesStays(c, e, to, e', to', k, h.fr[k], ml.fr[k]);
      MatchesStays(c, e, to, e', to', k, h.triage[k], ml.triage[k]);
      forall en | en in ml.to[k] ensures KeepOk(c.cfg, e', k, en) { KeepOkStays(c, e, to, e', to', k, en); }
      forall en0 | en0 in h.start[k] && Dealt(c.cfg, e, ml.to[k], en0) ensures Dealt(c.cfg, e', ml.to[k], en0) {
        DealtStays(c, e, to, e', to', ml.to[k], en0);
      }
    }
  }

  /** The next entry of log g has been dealt with, perhaps by keeping the entry ens. */
  lemma EntryDealt(c: Turn, e: Evac<Hdr>, ml: MutationLogs, h: LogHistory, g: nat, i: nat, ens: seq<MEntry>)
    requires LogState(c, e, ml, h, g, i) && g < |ml.to| && g < c.upto && i < |h.fr[g]|
    requires forall en :: en in ens ==> KeepOk(c.cfg, e, g, en)
    requires Dealt(c.cfg, e, ml.to[g] + ens, h.fr[g][i]) && forall en :: en in ens ==> KeptFor(e, h.fr[g][i], en)
    ensures LogState(c, e, ml.(to := ml.to[g := ml.to[g] + ens]), h, g, i + 1)
  {
    hide Matches, KeepOk, Settled, Dealt, Traced, KeptFor;
    var ml' := ml.(to := ml.to[g := ml.to[g] + ens]);
    assert LogOkAt(c, e, ml, h, g, g, i);
    TracedMore(e, h.start[g], ml.to[g], h.fr[g][i], ens);
    assert h.fr[g][i..] == [h.fr[g][i]] + h.fr[g][i + 1..];
    forall en0 | en0 in h.start[g]
      ensures Dealt(c.cfg, e, ml'.to[g], en0) || en0 in h.fr[g][i + 1..] || en0 in h.triage[g]
    {
      if Dealt(c.cfg, e, ml.to[g], en0) { SettledMore(c.cfg, e, ml.to[g], ens, en0); }
    }
    var next := i + 1;
    forall k | 0 <= k < |ml'.to| && k < c.upto ensures LogOkAt(c, e, ml', h, k, g, next) {
      assert LogOkAt(c, e, ml, h, k, g, i);
    }
  }

  /** The same while objects are being moved. */
  lemma EntryKept(
      c: Turn, e: Evac<Hdr>, to: seq<Space>, e': Evac<Hdr>, to': seq<Space>,
      ml: MutationLogs, h: LogHistory, g: nat, i: nat, ens: seq<MEntry>)
    requires Moving(c, e, to) && Moving(c, e', to') && Later(e, to, e', to') && LogState(c, e, ml, h, g, i)
    requires g < |ml.to| && g < |h.fr| && g < c.upto && i < |h.fr[g]|
    requires forall en :: en in ens ==> KeepOk(c.cfg, e', g, en) && KeptFor(e', h.fr[g][i], en)
    requires Dealt(c.cfg, e', ml.to[g] + ens, h.fr[g][i])
    ensures LogState(c, e', ml.(to := ml.to[g := ml.to[g] + ens]), h, g, i + 1)
  {
    hide Moving, Later, LogState, KeepOk, KeptFor, Dealt, Inv;
    InvOf(c, e, to);
    InvOf(c, e', to');
    LogStateStays(c, e, to, e', to', ml, h, g, i);
    EntryDealt(c, e', ml, h, g, i, ens);
  }

  lemma SettledMore(cfg: Config, e: Evac<Hdr>, log: seq<MEntry>, ens: seq<MEntry>, en0: MEntry)
    requires Dealt(cfg, e, log, en0)
    ensures Dealt(cfg, e, log + ens, en0)
  {
  }

  /** The next entry of log g is put aside. */
  lemma EntryTriaged(c: Turn, e: Evac<Hdr>, ml: MutationLogs, h: LogHistory, g: nat, i: nat, en: MEntry)
    requires LogState(c, e, ml, h, g, i) && g < |ml.to| && g < c.upto && i < |h.fr[g]|
    requires Version(e, h.fr[g][i], en)
    ensures LogState(c, e, ml.(triage := ml.triage[g := ml.triage[g] + [en]]),
              h.(triage := h.triage[g := h.triage[g] + [h.fr[g][i]]]), g, i + 1)
  {
    hide Version, KeepOk, Dealt, Age2Gen, Traced;
    assert LogOkAt(c, e, ml, h, g, g, i);
    assert h.fr[g][i..] == [h.fr[g][i]] + h.fr[g][i + 1..];
    var ml', h' := ml.(triage := ml.triage[g := ml.triage[g] + [en]]),
      h.(triage := h.triage[g := h.triage[g] + [h.fr[g][i]]]);
    var next := i + 1;
    forall k | 0 <= k < |ml'.to| && k < c.upto ensures LogOkAt(c, e, ml', h', k, g, next) {
      assert LogOkAt(c, e, ml, h, k, g, i);
    }
  }

  /** Log g has been worked through: its triage becomes the incoming log. */
  lemma LogDone(c: Turn, e: Evac<Hdr>, ml: MutationLogs, h: LogHistory, g: nat)
    requires g < |ml.to| && g < |ml.fr| && g < c.upto && LogState(c, e, ml, h, g, |ml.fr[g]|)
    ensures LogState(c, e, ml.(fr := ml.fr[g := ml.triage[g]], triage := ml.triage[g := []]),
              h.(fr := h.fr[g := h.triage[g]], triage := h.triage[g := []]), g + 1, 0)
  {
    hide Version, KeepOk, Dealt, Age2Gen, Traced;
    var ml' := ml.(fr := ml.fr[g := ml.triage[g]], triage := ml.triage[g := []]);
    var h' := h.(fr := h.fr[g := h.triage[g]], triage := h.triage[g := []]);
    var i := |ml.fr[g]|;
    assert LogOkAt(c, e, ml, h, g, g, i);
    assert h.fr[g][i..] == [] && h'.fr[g][0..] == h.triage[g];
    var next := g + 1;
    forall k | 0 <= k < |ml'.to| && k < c.upto ensures LogOkAt(c, e, ml', h', k, next, 0) {
      assert LogOkAt(c, e, ml, h, k, g, i);
    }
  }

  // ---------------------------------------------------------------------------
  // Steps of the log phase
  // ---------------------------------------------------------------------------

  /** Every copy stays white while only fields are redirected. */
  lemma WhiteStaysOn(e: Evac<Hdr>, to: seq<Space>, e': Evac<Hdr>, to': seq<Space>)
    requires Later(e, to, e', to') && White(e) && e'.src == e.src && Inv(e) && Inv(e')
    ensures White(e')
  {
    hide Inv, Later, Scanned;
    ForwardsOf(e);
    FromIsInMemory(e);
    ForwardsOf(e);
    ForwardsOf(e');
    forall d | d in e'.src ensures Scanned(e', d) {
      CopyIsOutside(e, d);
      ScannedStays(e, to, e', to', d);
    }
  }

  lemma CopyIsOutside(e: Evac<Hdr>, d: Addr)
    requires Inv(e) && d in e.src
    ensures d !in e.from
  {
  }

  /** After redirecting a field to where its target, the snapshot, has moved. */
  lemma SnapshotFollowed(e: Evac<Hdr>, en0: MEntry, en: MEntry, e': Evac<Hdr>)
    requires Inv(e) && Sound(e, en0) && Version(e, en0, en) && en.parent == Phi(e.mem, en0.parent)
    requires en.snap == FieldNow(e, en0) && en.snap in e.from && Phi(e.mem, en.snap) !in e.from
    requires e' == SetField(e, en.parent, en.slot, Phi(e.mem, en.snap))
    ensures Version(e', en0, en.(snap := Phi(e.mem, en.snap))) && FieldNow(e', en0) == Phi(e.mem, en.snap)
    ensures forall x :: Phi(e'.mem, x) == Phi(e.mem, x)
  {
    hide Inv, Forwards, Phi;
    ForwardsOf(e);
    PhisStayOn(e, en.parent, en.slot, Phi(e.mem, en.snap));
  }

  lemma PhisStayOn(e: Evac<Hdr>, d: Addr, i: nat, v: Addr)
    requires Forwards(e) && d in e.mem && e.mem[d].Obj? && i < |e.mem[d].fields|
    ensures forall x :: Phi(SetField(e, d, i, v).mem, x) == Phi(e.mem, x)
  {
    FixKeepsForwards(e, d, i, v);
  }

  /**
   * Following the snapshot of a current entry can redirect a field of a parent
   * that is still to be moved: what such an entry names must lead to short chains.
   */
  ghost predicate EntryShallow(mem: Mem<Hdr>, from: set<Addr>, starts: set<Addr>, f: nat, en: MEntry) {
    RepairsEarly(mem, from, starts, en) ==> Returns(mem, en.snap, f)
  }

  /** The entry is current, and both its live parent and its child are to be moved. */
  ghost predicate RepairsEarly(mem: Mem<Hdr>, from: set<Addr>, starts: set<Addr>, en: MEntry) {
    && Live(mem, from, starts, en.parent) && en.parent in from && en.snap in from && en.parent in mem
    && mem[en.parent].Obj?
    && en.slot < |mem[en.parent].fields| && mem[en.parent].fields[en.slot] == en.snap
  }

  lemma RepairIsShallow(c: Turn, e: Evac<Hdr>, to: seq<Space>, en0: MEntry, en: MEntry, f: nat)
    requires Moving(c, e, to) && Sound(e, en0) && Version(e, en0, en) && en.parent == Phi(e.mem, en0.parent)
    requires FieldNow(e, en0) == en.snap && en.snap in e.mem && e.mem[en.snap].Fwd?
    requires EntryShallow(e.mem0, e.from, e.starts, f, en0)
    ensures en.parent in e.from && Live(e.mem0, e.from, e.starts, en.parent) ==>
      e.mem[en.snap].dest in e.mem && Short(e, f, e.mem[en.snap].dest)
  {
    FieldIsOk(c, e, to, en0);
    hide Moving, Live;
    ForwardedMeans(c, e, to, en.snap);
  }

  /**
   * Redirecting a field keeps a collection from overrunning the stack if the object does not move, or
   * leads to short chains.
   */
  lemma RepairKeepsCalm(c: Turn, e: Evac<Hdr>, to: seq<Space>, e': Evac<Hdr>, d: Addr, i: nat, v: Addr, f: nat)
    requires Moving(c, e, to) && Moving(c, e', to) && Later(e, to, e', to) && Calm(c, e, to, f)
    requires d in e.mem && e.mem[d].Obj? && i < |e.mem[d].fields| && e' == SetField(e, d, i, v)
    requires d in e.from && Live(e.mem0, e.from, e.starts, d) ==> v in e.mem && Short(e, f, v)
    ensures Calm(c, e', to, f)
  {
    hide Moving, Later, CellPlain, Foreign, Short, Plain, Returns, Live;
    MemoryOf(c, e, to);
    forall a | a in e'.from && a in e'.mem && e'.mem[a].Obj? && Live(e'.mem0, e'.from, e'.starts, a)
      ensures CellPlain(c, e', to, f, a)
    {
      assert CellPlain(c, e, to, f, a);
      if a != d {
        CellPlainStays(c, e, to, e', to, f, a, a);
      } else {
        RepairedIsPlain(c, e, to, e', d, i, v, f);
      }
    }
  }

  /** After the field of an entry has been made to follow its snapshot. */
  lemma SnapshotWasFollowed(
      c: Turn, e: Evac<Hdr>, e': Evac<Hdr>, to: seq<Space>, en0: MEntry, en: MEntry, snapTo: Addr, f: nat)
    requires Moving(c, e, to) && Moving(c, e', to) && Later(e, to, e', to) && White(e) && Sound(e, en0)
    requires Version(e, en0, en)
    requires en.parent == Phi(e.mem, en0.parent) && FieldNow(e, en0) == en.snap && en.snap in e.mem
    requires e.mem[en.snap] == Fwd(snapTo)
    requires en.snap in e.from && snapTo !in e.from && e' == SetField(e, en.parent, en.slot, snapTo)
    ensures White(e') && Unmoved(e') == Unmoved(e)
    ensures Version(e', en0, en.(snap := snapTo)) && en.parent == Phi(e'.mem, en0.parent) && snapTo in e'.mem
    ensures e'.mem[snapTo].Obj?
    ensures Calm(c, e, to, f) && EntryShallow(e.mem0, e.from, e.starts, f, en0) ==> Calm(c, e', to, f)
  {
    hide Moving, Later, White, Unmoved, Calm, EntryShallow, Short, Live;
    InvOf(c, e, to);
    InvOf(c, e', to);
    SnapshotFollowed(e, en0, en, e');
    WhiteStaysOn(e, to, e', to);
    RedirectMovesNothing(e, e');
    ForwardedMeans(c, e, to, en.snap);
    hide Inv;
    CopyIsNotForwarded(c, e', to, snapTo);
    if Calm(c, e, to, f) && EntryShallow(e.mem0, e.from, e.starts, f, en0) {
      RepairIsShallow(c, e, to, en0, en, f);
      RepairKeepsCalm(c, e, to, e', en.parent, en.slot, snapTo, f);
    }
  }

  lemma RepairedIsPlain(c: Turn, e: Evac<Hdr>, to: seq<Space>, e': Evac<Hdr>, d: Addr, i: nat, v: Addr, f: nat)
    requires Moving(c, e, to) && Moving(c, e', to) && Later(e, to, e', to)
    requires d in e.mem && e.mem[d].Obj? && i < |e.mem[d].fields| && e' == SetField(e, d, i, v)
    requires v in e.mem && Short(e, f, v) && CellPlain(c, e, to, f, d)
    ensures CellPlain(c, e', to, f, d)
  {
    hide Moving, Later, Foreign;
    assert Plain(c, e, to, f, v);
    hide Plain, Short;
    forall j | 0 <= j < |e'.mem[d].fields| ensures Plain(c, e', to, f, e'.mem[d].fields[j]) {
      PlainStays(c, e, to, e', to, f, if j == i then v else e.mem[d].fields[j]);
    }
  }

  lemma ParentFollowed(e: Evac<Hdr>, en0: MEntry, en: MEntry)
    requires Version(e, en0, en) && (Phi(e.mem, en0.parent) == en0.parent || Phi(e.mem, en0.parent) !in e.from)
    ensures HasField(e, en0) && en.slot == en0.slot && Version(e, en0, en.(parent := Phi(e.mem, en0.parent)))
  {
  }

  lemma SnapshotCaughtUp(e: Evac<Hdr>, en0: MEntry, en: MEntry)
    requires Version(e, en0, en) && en.snap in e.from && Phi(e.mem, en.snap) !in e.from
    requires FieldNow(e, en0) == Phi(e.mem, en.snap)
    ensures Version(e, en0, en.(snap := Phi(e.mem, en.snap)))
  {
  }

  /**
   * The child of a live parent has been preserved and the field redirected: the entry is settled if it
   * is kept when needed.
   */
  lemma PreservedIsSettled(
      c: Turn, e: Evac<Hdr>, to: seq<Space>, k: nat, en0: MEntry, en: MEntry, log: seq<MEntry>, keep: bool)
    requires Moving(c, e, to) && EntryOk(c.cfg, e.mem0, k, en0) && Version(e, en0, en)
    requires en.parent == Phi(e.mem, en0.parent) && en.parent !in e.from
    requires FieldNow(e, en0) == Phi(e.mem, en0.snap) && Phi(e.mem, en0.snap) !in e.from
    requires keep <==> MustRemember(c.cfg, e.mem, en.parent, FieldNow(e, en0))
    ensures var en' := en.(snap := FieldNow(e, en0));
      && Dealt(c.cfg, e, log + (if keep then [en'] else []), en0)
      && (keep ==> KeepOk(c.cfg, e, k, en')) && (Active(e, en0) ==> KeptFor(e, en0, en'))
  {
    hide Moving, Age2Gen;
    GenRises(c, e, to, en0.snap);
  }

  /** Deciding by address and threshold is deciding by generation. */
  lemma NeedIsMustRemember(c: Turn, e: Evac<Hdr>, to: seq<Space>, p: Addr, x: Addr)
    requires Moving(c, e, to) && p in e.mem && p !in e.from && x in e.mem && x !in e.from
    ensures GenerationOf(to, p) < c.cfg.n && GenerationOf(to, x) < c.cfg.n
    ensures MustRemember(c.cfg, e.mem, p, x) <==>
      GenerationOf(to, x) + 1 < c.cfg.n && GenerationOf(to, p) * c.cfg.survive > GenerationOf(to, x) * c.cfg.survive
  {
    hide Moving, Age2Gen, GenerationOf;
    GenerationByAge(c, e, to, p);
    GenerationByAge(c, e, to, x);
    TimesIsMonotone(GenerationOf(to, x), GenerationOf(to, p), c.cfg.survive);
  }

  lemma TimesIsMonotone(a: nat, b: nat, s: nat)
    requires 0 < s
    ensures a < b <==> a * s < b * s
  {
    assert b * s - a * s == s * (b - a);
    TimesSign(s, b - a);
  }

  lemma TimesSign(s: nat, k: int)
    requires 0 < s
    ensures 0 < k <==> 0 < s * k
  {
    if k <= 0 { assert s * k <= 0; } else { assert s * k == s * (k - 1) + s; }
  }

  /** These entries are current, but their parents lie in from-space and have not been moved. */
  ghost predicate Stuck(e: Evac<Hdr>, was: seq<MEntry>) {
    forall en0 :: en0 in was ==> Sound(e, en0) && Active(e, en0) && en0.parent in e.from && en0.parent in Unmoved(e)
  }

  lemma StuckStays(e: Evac<Hdr>, to: seq<Space>, e': Evac<Hdr>, to': seq<Space>, was: seq<MEntry>)
    requires Later(e, to, e', to') && Unmoved(e') == Unmoved(e) && Stuck(e, was)
    ensures Stuck(e', was)
  {
    hide Unmoved;
  }

  lemma RedirectMovesNothing(e: Evac<Hdr>, e': Evac<Hdr>)
    requires e'.from == e.from && e'.mem.Keys == e.mem.Keys
    requires forall a :: a in e.mem ==> e'.mem[a].Fwd? == e.mem[a].Fwd?
    ensures Unmoved(e') == Unmoved(e)
  {
  }

  /** The total number of entries waiting. */
  function TotalSize(logs: seq<seq<MEntry>>): nat {
    if logs == [] then 0 else |logs[0]| + TotalSize(logs[1..])
  }

  lemma {:induction false} TotalSizeUpdate(logs: seq<seq<MEntry>>, k: nat, log: seq<MEntry>)
    requires k < |logs|
    ensures TotalSize(logs[k := log]) + |logs[k]| == TotalSize(logs) + |log|
  {
    if k == 0 {
      assert logs[k := log][1..] == logs[1..];
    } else {
      TotalSizeUpdate(logs[1..], k - 1, log);
      assert logs[k := log][1..] == logs[1..][k - 1 := log];
    }
  }

  /** The parent of an entry, once followed, is a whole object with the field. */
  lemma EntryIsThere(c: Turn, e: Evac<Hdr>, to: seq<Space>, en0: MEntry, en: MEntry)
    requires Moving(c, e, to) && Sound(e, en0) && Version(e, en0, en)
    ensures en.parent in e.mem && Phi(e.mem, en.parent) == Phi(e.mem, en0.parent) && en.snap in e.mem
    ensures Phi(e.mem, en0.parent) == en0.parent || Phi(e.mem, en0.parent) !in e.from
  {
    FieldIsOk(c, e, to, en0);
    SameTarget(c, e, to, en0.parent, en.parent);
    hide Moving;
    if en.snap != en0.snap { PhiIsInMemory(c, e, to, en0.snap); }
  }

  lemma PhiIsInMemory(c: Turn, e: Evac<Hdr>, to: seq<Space>, x: Addr)
    requires Moving(c, e, to) && x in e.mem
    ensures Phi(e.mem, x) in e.mem
  {
    hide Moving;
    if e.mem[x].Fwd? { ForwardedMeans(c, e, to, x); }
  }

  lemma CopyIsNotForwarded(c: Turn, e: Evac<Hdr>, to: seq<Space>, x: Addr)
    requires Moving(c, e, to) && x !in e.from && x in e.mem
    ensures e.mem[x].Obj?
  {
    OutsideIsObject(e, x);
  }

  /** What an active entry's field may hold: what the snapshot named, wherever that is now. */
  lemma FieldStartsThere(c: Turn, e: Evac<Hdr>, to: seq<Space>, en0: MEntry)
    requires Moving(c, e, to) && Sound(e, en0) && Active(e, en0)
    ensures HasField(e, en0)
    ensures (FieldNow(e, en0) == en0.snap || (FieldNow(e, en0) == Phi(e.mem, en0.snap) && FieldNow(e, en0) !in e.from))
    ensures FieldNow(e, en0) in e.mem
  {
    FieldIsOk(c, e, to, en0);
    hide Moving;
    PhiIsInMemory(c, e, to, en0.snap);
  }

  /** In a collection of everything, a field of an object outside from-space was forwarded by the scan. */
  lemma CopyFieldIsClean(c: Turn, e: Evac<Hdr>, to: seq<Space>, d: Addr, i: nat)
    requires Moving(c, e, to) && White(e) && e.from == e.mem0.Keys && d in e.mem && d !in e.from && e.mem[d].Obj?
    requires i < |e.mem[d].fields|
    ensures e.mem[d].fields[i] !in e.from
  {
    hide Originals, Copies, InUse, Pointers, Spaces, AllFaithful, OnlyLive;
    assert d in e.src;
  }

  /** After the child has been evacuated, the parent is where it was and its field names the child, moved or not. */
  lemma ChildWasEvacuated(
      c: Turn, e: Evac<Hdr>, to: seq<Space>, e': Evac<Hdr>, to': seq<Space>, en0: MEntry, en: MEntry, x: Addr)
    requires Moving(c, e, to) && Moving(c, e', to') && Later(e, to, e', to') && Sound(e, en0) && Version(e, en0, en)
    requires Active(e, en0)
    requires en.parent == Phi(e.mem, en0.parent) && en.parent !in e.from && x == FieldNow(e, en0)
    requires Phi(e'.mem, x) !in e.from
    ensures Sound(e', en0) && Active(e', en0) && Version(e', en0, en) && en.parent == Phi(e'.mem, en0.parent)
    ensures e'.from == e.from
    ensures FieldNow(e', en0) == x || FieldNow(e', en0) == Phi(e'.mem, x)
    ensures Phi(e'.mem, x) == Phi(e'.mem, en0.snap) && Phi(e'.mem, x) in e'.mem
  {
    InvOf(c, e, to);
    InvOf(c, e', to');
    SrcStays(e, to, e', to');
    VersionStays(e, to, e', to', en0, en);
    ForwardsOf(e);
    FromIsInMemory(e);
    FieldNowStays(e, to, e', to', en0);
    FieldStartsThere(c, e, to, en0);
    FieldStartsThere(c, e', to', en0);
    hide Moving, Inv, Later, Version;
    if x != en0.snap { ResultStays(c, e, to, e', to', en0.snap, x); }
    SameTarget(c, e', to', en0.snap, FieldNow(e', en0));
    SameTarget(c, e', to', en0.snap, x);
    ForwardsOf(e');
    FromIsInMemory(e');
    PhiIsInMemory(c, e', to', en0.snap);
  }

  /** After the parent's field was made to name the child where it is now. */
  lemma FieldRedirected(c: Turn, e: Evac<Hdr>, e': Evac<Hdr>, to: seq<Space>, en0: MEntry, en: MEntry, child: Addr)
    requires Moving(c, e, to) && Sound(e, en0) && Version(e, en0, en) && en.parent == Phi(e.mem, en0.parent)
    requires child == Phi(e.mem, en0.snap) && child !in e.from
    requires e' == SetField(e, en.parent, en.slot, child)
    ensures Version(e', en0, en) && en.parent == Phi(e'.mem, en0.parent)
    ensures FieldNow(e', en0) == child == Phi(e'.mem, en0.snap)
  {
    hide Moving, Phi;
    EntryIsThere(c, e, to, en0, en);
    PhisStay(c, e, to, en.parent, en.slot, child);
  }

  lemma PhisStay(c: Turn, e: Evac<Hdr>, to: seq<Space>, d: Addr, i: nat, v: Addr)
    requires Moving(c, e, to) && d in e.mem && e.mem[d].Obj? && i < |e.mem[d].fields|
    ensures forall x :: Phi(SetField(e, d, i, v).mem, x) == Phi(e.mem, x)
  {
    ForwardsOf(e);
    PhisStayOn(e, d, i, v);
  }

  lemma SetSameField(e: Evac<Hdr>, d: Addr, i: nat)
    requires d in e.mem && e.mem[d].Obj? && i < |e.mem[d].fields|
    ensures SetField(e, d, i, e.mem[d].fields[i]) == e
  {
    var f := e.mem[d].fields;
    assert f[i := f[i]] == f;
    assert e.mem[d := e.mem[d]] == e.mem;
  }

  lemma VersionMeans(e: Evac<Hdr>, en0: MEntry, en: MEntry)
    requires Version(e, en0, en)
    ensures HasField(e, en0) && en.slot == en0.slot
  {
  }

  /** What is not where it was lay in from-space. */
  lemma MovedFrom(c: Turn, e: Evac<Hdr>, to: seq<Space>, x: Addr)
    requires Moving(c, e, to) && x in e.mem && Phi(e.mem, x) != x
    ensures x in e.from
  {
    hide Moving;
    ForwardedMeans(c, e, to, x);
  }

  /** An object that is not moved keeps its generation. */
  lemma GenerationStays(c: Turn, e: Evac<Hdr>, to: seq<Space>, e': Evac<Hdr>, to': seq<Space>, d: Addr)
    requires Moving(c, e, to) && Moving(c, e', to') && Later(e, to, e', to') && d in e.mem && d !in e.from
    ensures GenerationOf(to', d) == GenerationOf(to, d)
  {
    InvOf(c, e, to);
    InvOf(c, e', to');
    HdrStays(e, to, e', to', d);
    hide Moving, Later, Inv, Age2Gen, GenerationOf;
    GenerationByAge(c, e, to, d);
    GenerationByAge(c, e', to', d);
  }

  lemma SupersededIsDealt(cfg: Config, e: Evac<Hdr>, log: seq<MEntry>, en0: MEntry)
    requires Sound(e, en0) && !Active(e, en0)
    ensures Dealt(cfg, e, log + [], en0)
  {
  }

  lemma NothingAppended(ml: MutationLogs, k: nat)
    requires k < |ml.to|
    ensures ml.(to := ml.to[k := ml.to[k] + []]) == ml
  {
    assert ml.to[k] + [] == ml.to[k];
    assert ml.to[k := ml.to[k]] == ml.to;
  }

  /** A parent that is in no to-space is in from-space and has not moved. */
  lemma ParentIsStuck(c: Turn, e: Evac<Hdr>, to: seq<Space>, en0: MEntry, en: MEntry, was: seq<MEntry>)
    requires Moving(c, e, to) && Sound(e, en0) && Version(e, en0, en) && en.parent == Phi(e.mem, en0.parent)
    requires GenerationOf(to, en.parent) == c.cfg.n && Active(e, en0)
    ensures Stuck(e, was) ==> Stuck(e, was + [en0])
  {
    hide Moving, GenerationOf, Version, Phi, Age2Gen;
    EntryIsThere(c, e, to, en0, en);
    GenerationByAge(c, e, to, en.parent);
    if e.mem[en.parent].Fwd? { ForwardedMeans(c, e, to, en.parent); }
  }

  lemma LogSizes(c: Turn, e: Evac<Hdr>, ml: MutationLogs, h: LogHistory, g: nat, i: nat)
    requires LogState(c, e, ml, h, g, i)
    ensures Sizes(c, ml, h)
    ensures g < |ml.to| && g < c.upto ==> |h.fr[g]| == |ml.fr[g]| && |h.triage[g]| == |ml.triage[g]| && i <= |ml.fr[g]|
  {
    if g < |ml.to| && g < c.upto { assert LogOkAt(c, e, ml, h, g, g, i); }
  }

  lemma NextEntry(c: Turn, e: Evac<Hdr>, ml: MutationLogs, h: LogHistory, g: nat, i: nat)
    requires LogState(c, e, ml, h, g, i) && g < |ml.to| && g < |ml.fr| && g < c.upto && i < |ml.fr[g]|
    ensures g < |h.fr| && i < |h.fr[g]| && EntryOk(c.cfg, e.mem0, g, h.fr[g][i]) && Version(e, h.fr[g][i], ml.fr[g][i])
    ensures g < |h.start| && h.fr[g][i] in h.start[g]
  {
    hide Version, Age2Gen;
    assert LogOkAt(c, e, ml, h, g, g, i);
  }

  lemma NothingIsStuck(e: Evac<Hdr>)
    ensures Stuck(e, [])
  {
  }

  /** Nothing comes in for generations that are not collected. */
  lemma OldLogsAreEmpty(c: Turn, e: Evac<Hdr>, ml: MutationLogs, h: LogHistory, g: nat, i: nat)
    requires LogState(c, e, ml, h, g, i)
    ensures forall k :: 0 <= k < |ml.fr| && c.upto <= k ==> ml.fr[k] == []
    ensures forall k :: 0 <= k < |ml.fr| && ml.fr[k] == [] ==> h.fr[k] == []
  {
    forall k | 0 <= k < |ml.fr| && k < c.upto && ml.fr[k] == [] ensures h.fr[k] == [] {
      assert LogOkAt(c, e, ml, h, k, g, i);
    }
  }

  /** Between two logs it does not matter which is next. */
  lemma NextLog(c: Turn, e: Evac<Hdr>, ml: MutationLogs, h: LogHistory, g: nat, g': nat)
    requires LogState(c, e, ml, h, g, 0)
    ensures LogState(c, e, ml, h, g', 0)
  {
    hide Matches, KeepOk, Dealt, Traced;
    forall k | 0 <= k < |ml.to| && k < c.upto ensures LogOkAt(c, e, ml, h, k, g', 0) {
      assert LogOkAt(c, e, ml, h, k, g, 0);
    }
  }
}
