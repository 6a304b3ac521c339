/** Several threads translating at once. Lookup, walk and TLB fill are separate critical
    sections, so the steps of different threads interleave between them. */
module Interleaving {
  import opened Bits
  import opened PageTable
  import opened FrameLaws
  import opened WalkLaws
  import opened Boot
  import Frames
  import opened Tlb
  import opened Translation

  /** Where a thread is: before a lookup; after a miss; or after a walk, holding its frame, with
      the TLB's flush count when the walk ended. */
  datatype Pc = Idle | Missed(addr: nat) | Walked(addr: nat, frame: nat, seen: nat)

  datatype World = World(mmu: Mmu, threads: map<nat, Pc>)

  datatype Action = LookUp(tid: nat, addr: nat) | DoWalk(tid: nat) | Fill(tid: nat)

  function PcOf(w: World, tid: nat): Pc {
    if tid in w.threads then w.threads[tid] else Idle
  }

  predicate Enabled(w: World, a: Action) {
    match a
    case LookUp(tid, _) => PcOf(w, tid).Idle?
    case DoWalk(tid) => PcOf(w, tid).Missed?
    case Fill(tid) => PcOf(w, tid).Walked?
  }

  predicate Sane(p: nat, w: World) {
    p >= 2 && Shape(w.mmu.vm) && |w.mmu.vm.rows| == Entries(p) && w.mmu.tlb.sets != []
  }

  /** One critical section of one thread. */
  function Act(p: nat, w: World, a: Action): (w': World)
    requires Sane(p, w) && Enabled(w, a)
    ensures Sane(p, w')
  {
    var vm, tlb := w.mmu.vm, w.mmu.tlb;
    match a
    case LookUp(tid, addr) =>
      var vpn := Shr(addr, p);
      var pc := if Lookup(tlb, vpn) != 0 then Idle else Missed(addr);
      World(Mmu(vm, Probe(tlb, vpn)), w.threads[tid := pc])
    case DoWalk(tid) =>
      var addr := w.threads[tid].addr;
      var out := WalkPage(p, vm, Shr(addr, p));
      var flushed := Flush(tlb, |out.evicted|);
      World(Mmu(out.vm, flushed), w.threads[tid := Walked(addr, out.frame, flushed.flushes)])
    case Fill(tid) =>
      var pc := w.threads[tid];
      World(Mmu(vm, Insert(tlb, Shr(pc.addr, p), pc.frame)), w.threads[tid := Idle])
  }

  /** The sections of one thread, with no other thread between them, are one whole translation. */
  lemma AloneIsStep(p: nat, w: World, tid: nat, addr: nat)
    requires Sane(p, w) && PcOf(w, tid).Idle?
    ensures var looked := Act(p, w, LookUp(tid, addr));
      if PcOf(looked, tid).Idle? then looked.mmu == Step(p, w.mmu, addr).0
      else
        var walked := Act(p, looked, DoWalk(tid));
        Act(p, walked, Fill(tid)).mmu == Step(p, w.mmu, addr).0
  {
  }

  /** A thread that walked before the last flush may hold a stale frame; one that walked since
      holds the frame of its page. */
  ghost predicate ThreadAgrees(p: nat, w: World, tid: nat)
    requires Sane(p, w)
  {
    var pc := PcOf(w, tid);
    pc.Walked? && pc.frame != 0 ==>
      && pc.seen <= w.mmu.tlb.flushes
      && (pc.seen == w.mmu.tlb.flushes ==> FrameOf(p, w.mmu.vm, Shr(pc.addr, p)) == pc.frame)
  }

  ghost predicate Steady(p: nat, pool: set<nat>, w: World) {
    && Sane(p, w) && Settled(w.mmu.vm, pool) && w.mmu.tlb.ways >= 1
    && forall tid :: ThreadAgrees(p, w, tid)
  }

  /** Whatever the interleaving, the page table and its frames keep their invariant, every walk
      still succeeds exactly with three frames or more, and a thread's frame can be stale only
      if the TLB was flushed since its walk. */
  lemma ActKeepsSteady(p: nat, pool: set<nat>, w: World, a: Action)
    requires Steady(p, pool, w) && Enabled(w, a)
    ensures Steady(p, pool, Act(p, w, a))
    ensures a.DoWalk? ==> (PcOf(Act(p, w, a), a.tid).frame != 0 <==> |pool| >= 3)
  {
    var w' := Act(p, w, a);
    if a.DoWalk? {
      var vpn := Shr(w.threads[a.tid].addr, p);
      WalkKeeps(w.mmu.vm, pool, L1Index(p, vpn), L2Index(p, vpn));
    }
    forall tid ensures ThreadAgrees(p, w', tid) {
      assert ThreadAgrees(p, w, tid);
      var pc := PcOf(w, tid);
      if a.DoWalk? && tid != a.tid && pc.Walked? && pc.frame != 0 {
        var vpn := Shr(w.threads[a.tid].addr, p);
        var out := WalkPage(p, w.mmu.vm, vpn);
        if out.evicted == [] && pc.seen == w.mmu.tlb.flushes {
          MappedNeedsThree(w.mmu.vm, pool, L1Index(p, Shr(pc.addr, p)), L2Index(p, Shr(pc.addr, p)));
          StillMapped(p, pool, w.mmu.vm, vpn, Shr(pc.addr, p));
        }
      }
    }
  }

  /** Lookups and walks of any thread keep the TLB coherent. */
  lemma ActKeepsCoherent(p: nat, pool: set<nat>, w: World, a: Action)
    requires Steady(p, pool, w) && Enabled(w, a) && !a.Fill? && Coherent(p, w.mmu)
    ensures Coherent(p, Act(p, w, a).mmu)
  {
    if a.LookUp? {
      ProbeAgrees(p, w.mmu, Shr(a.addr, p));
    } else {
      WalkAgrees(p, pool, w.mmu, Shr(w.threads[a.tid].addr, p));
    }
  }

  /** A fill keeps the TLB coherent exactly when the thread's frame is not stale, that is when
      the walk failed or the page table still maps the page to the frame. */
  lemma FillCoherentExactly(p: nat, pool: set<nat>, w: World, tid: nat)
    requires Steady(p, pool, w) && Enabled(w, Fill(tid)) && Coherent(p, w.mmu)
    ensures var pc := PcOf(w, tid);
      Coherent(p, Act(p, w, Fill(tid)).mmu) <==>
        pc.frame == 0 || FrameOf(p, w.mmu.vm, Shr(pc.addr, p)) == pc.frame
  {
    var pc := w.threads[tid];
    var vpn, t := Shr(pc.addr, p), w.mmu.tlb;
    if pc.frame != 0 {
      var n := |t.sets|;
      var s, tag := Low(vpn, n), High(vpn, n);
      var line := Line(tag, pc.frame);
      var filled := UseLine(t, vpn, pc.frame);
      PageOfSetAndTag(n, vpn);
      assert filled.sets[s][0] == line;
      if Coherent(p, Act(p, w, Fill(tid)).mmu) {
        assert line in filled.sets[s];
        assert LineAgrees(p, w.mmu.vm, n, s, line);
      }
      if FrameOf(p, w.mmu.vm, vpn) == pc.frame {
        UseLineAgrees(p, w.mmu, vpn);
      }
    }
  }

  /** A run of actions, each enabled when it happens. */
  ghost predicate Possible(p: nat, w: World, run: seq<Action>)
    requires Sane(p, w)
    decreases |run|
  {
    run == [] || (Enabled(w, run[0]) && Possible(p, Act(p, w, run[0]), run[1..]))
  }

  function After(p: nat, w: World, run: seq<Action>): (w': World)
    requires Sane(p, w) && Possible(p, w, run)
    ensures Sane(p, w')
    decreases |run|
  {
    if run == [] then w else After(p, Act(p, w, run[0]), run[1..])
  }

  /** Every fill of the run finds the flush count its walk left behind. */
  ghost predicate NoFlushBeforeFill(p: nat, w: World, run: seq<Action>)
    requires Sane(p, w) && Possible(p, w, run)
    decreases |run|
  {
    run == [] ||
    ((run[0].Fill? ==> PcOf(w, run[0].tid).seen == w.mmu.tlb.flushes)
     && NoFlushBeforeFill(p, Act(p, w, run[0]), run[1..]))
  }

  /** The page-table and frame invariants survive every interleaving. */
  lemma {:induction false} RunKeepsSteady(p: nat, pool: set<nat>, w: World, run: seq<Action>)
    requires Steady(p, pool, w) && Possible(p, w, run)
    ensures Steady(p, pool, After(p, w, run))
    decreases |run|
  {
    if run != [] {
      ActKeepsSteady(p, pool, w, run[0]);
      RunKeepsSteady(p, pool, Act(p, w, run[0]), run[1..]);
    }
  }

  /** At every fill of the run the thread's walk failed, or the page table still maps the page
      to the thread's frame. */
  ghost predicate FillsFresh(p: nat, w: World, run: seq<Action>)
    requires Sane(p, w) && Possible(p, w, run)
    decreases |run|
  {
    run == [] || (FillFresh(p, w, run[0]) && FillsFresh(p, Act(p, w, run[0]), run[1..]))
  }

  ghost predicate FillFresh(p: nat, w: World, a: Action)
    requires Sane(p, w) && Enabled(w, a)
  {
    a.Fill? ==>
      var pc := PcOf(w, a.tid);
      pc.frame == 0 || FrameOf(p, w.mmu.vm, Shr(pc.addr, p)) == pc.frame
  }

  /** The TLB is coherent in every state of the run. */
  ghost predicate CoherentThroughout(p: nat, w: World, run: seq<Action>)
    requires Sane(p, w) && Possible(p, w, run)
    decreases |run|
  {
    Coherent(p, w.mmu) && (run == [] || CoherentThroughout(p, Act(p, w, run[0]), run[1..]))
  }

  lemma ActCoherentExactly(p: nat, pool: set<nat>, w: World, a: Action)
    requires Steady(p, pool, w) && Enabled(w, a) && Coherent(p, w.mmu)
    ensures Coherent(p, Act(p, w, a).mmu) <==> FillFresh(p, w, a)
  {
    if a.Fill? {
      FillCoherentExactly(p, pool, w, a.tid);
    } else {
      ActKeepsCoherent(p, pool, w, a);
    }
  }

  /** Along a run the TLB stays coherent exactly when every fill is fresh. */
  lemma {:induction false} RunCoherentExactly(p: nat, pool: set<nat>, w: World, run: seq<Action>)
    requires Steady(p, pool, w) && Possible(p, w, run) && Coherent(p, w.mmu)
    ensures CoherentThroughout(p, w, run) <==> FillsFresh(p, w, run)
    decreases |run|
  {
    if run != [] {
      ActKeepsSteady(p, pool, w, run[0]);
      ActCoherentExactly(p, pool, w, run[0]);
      if FillFresh(p, w, run[0]) {
        RunCoherentExactly(p, pool, Act(p, w, run[0]), run[1..]);
      }
    }
  }

  /** The tool's start, with no thread under way. */
  function StartWorld(p: nat, logPoolSize: nat, logNumRows: nat, ways: nat): (w: World)
    requires p >= 2
    ensures Sane(p, w)
  {
    World(Initial(p, logPoolSize, logNumRows, ways), map[])
  }

  lemma StartSteady(p: nat, logPoolSize: nat, logNumRows: nat, ways: nat)
    requires p >= 2 && ways >= 1
    ensures var w := StartWorld(p, logPoolSize, logNumRows, ways);
      Steady(p, PoolOf(p, logPoolSize), w) && Coherent(p, w.mmu)
  {
    InitialGood(p, logPoolSize, logNumRows, ways);
  }

  /** ... and so from the start of the tool, for all sizes. */
  lemma CoherentExactlyFromStart(p: nat, logPoolSize: nat, logNumRows: nat, ways: nat, run: seq<Action>)
    requires p >= 2 && ways >= 1
    requires Possible(p, StartWorld(p, logPoolSize, logNumRows, ways), run)
    ensures var w := StartWorld(p, logPoolSize, logNumRows, ways);
      CoherentThroughout(p, w, run) <==> FillsFresh(p, w, run)
  {
    StartSteady(p, logPoolSize, logNumRows, ways);
    RunCoherentExactly(p, PoolOf(p, logPoolSize), StartWorld(p, logPoolSize, logNumRows, ways), run);
  }

  lemma {:induction false} UnflushedIsFresh(p: nat, pool: set<nat>, w: World, run: seq<Action>)
    requires Steady(p, pool, w) && Possible(p, w, run) && NoFlushBeforeFill(p, w, run)
    ensures FillsFresh(p, w, run)
    decreases |run|
  {
    if run != [] {
      ActKeepsSteady(p, pool, w, run[0]);
      assert ThreadAgrees(p, w, run[0].tid);
      UnflushedIsFresh(p, pool, Act(p, w, run[0]), run[1..]);
    }
  }

  /** In particular it stays coherent when no flush falls between a thread's walk and its fill. */
  lemma RunKeepsCoherent(p: nat, pool: set<nat>, w: World, run: seq<Action>)
    requires Steady(p, pool, w) && Possible(p, w, run)
    requires Coherent(p, w.mmu) && NoFlushBeforeFill(p, w, run)
    ensures CoherentThroughout(p, w, run) && Coherent(p, After(p, w, run).mmu)
  {
    UnflushedIsFresh(p, pool, w, run);
    RunCoherentExactly(p, pool, w, run);
    LastCoherent(p, w, run);
  }

  lemma {:induction false} LastCoherent(p: nat, w: World, run: seq<Action>)
    requires Sane(p, w) && Possible(p, w, run) && CoherentThroughout(p, w, run)
    ensures Coherent(p, After(p, w, run).mmu)
    decreases |run|
  {
    if run != [] {
      LastCoherent(p, Act(p, w, run[0]), run[1..]);
    }
  }

  // ----- a run that goes wrong

  const TABLE_A: Vm := Vm(32, [Table(24, [16, 0]), NoTable], [8], [], 0, 0)
  const TABLE_B: Vm := Vm(32, [Table(24, [16, 8]), NoTable], [], [], 0, 0)
  const TABLE_C: Vm := Vm(32, [NoTable, Table(16, [24, 0])], [], [8], 1, 0)

  lemma SmallStart()
    ensures Start(3, 2) == Vm(32, [NoTable, NoTable], [8, 16, 24], [], 0, 0) && Pow2(0) == 1
  {
    assert Pow2(1) == 2 && Pow2(2) == 4 && Pow2(3) == 8;
    assert Frames.Addresses(8, 1) == [8];
    assert Frames.Addresses(8, 2) == [8, 16];
    assert Frames.Addresses(8, 3) == [8, 16, 24];
  }

  lemma SmallIndices()
    ensures Entries(3) == 2
    ensures Shr(0, 3) == 0 && Shr(8, 3) == 1 && Shr(16, 3) == 2
    ensures L1Index(3, 0) == 0 && L2Index(3, 0) == 0
    ensures L1Index(3, 1) == 0 && L2Index(3, 1) == 1
    ensures L1Index(3, 2) == 1 && L2Index(3, 2) == 0
  {
    assert Pow2(1) == 2 && Pow2(2) == 4 && Pow2(3) == 8;
    Multiple(8, 0); Multiple(8, 1); Multiple(8, 2);
    Multiple(2, 0); Multiple(2, 1);
  }

  lemma WalkOne()
    ensures Walk(Vm(32, [NoTable, NoTable], [8, 16, 24], [], 0, 0), 0, 0) == Outcome(TABLE_A, 16, [])
  {
    var vm := Vm(32, [NoTable, NoTable], [8, 16, 24], [], 0, 0);
    var linked := Vm(32, [Table(24, [0, 0]), NoTable], [8, 16], [], 0, 0);
    assert seq(2, _ => 0) == [0, 0];
    assert [8, 16, 24][..2] == [8, 16] && [8, 16][..1] == [8];
    assert [NoTable, NoTable][0 := Table(24, [0, 0])] == linked.rows;
    assert EnsureTable(vm, 0) == Outcome(linked, 24, []);
    assert [0, 0][0 := 16] == [16, 0];
    assert linked.rows[0 := Table(24, [16, 0])] == TABLE_A.rows;
    assert EnsurePage(linked, 0, 0) == Outcome(TABLE_A, 16, []);
  }

  lemma WalkTwo()
    ensures Walk(TABLE_A, 0, 1) == Outcome(TABLE_B, 8, [])
  {
    assert [16, 0][1 := 8] == [16, 8];
    assert TABLE_A.rows[0 := Table(24, [16, 8])] == TABLE_B.rows;
    assert EnsurePage(TABLE_A, 0, 1) == Outcome(TABLE_B, 8, []);
  }

  lemma WalkThree()
    ensures Walk(TABLE_B, 1, 0) == Outcome(TABLE_C, 24, [(0, 0), (0, 1)])
  {
    var half := Vm(32, [Table(24, [0, 8]), Table(16, [0, 0])], [], [], 0, 1);
    FirstEviction();
    SecondEviction();
    assert [0, 0][0 := 24] == [24, 0];
    assert EnsurePage(half, 1, 0) == Outcome(TABLE_C, 24, [(0, 1)]);
  }

  lemma FirstEviction()
    ensures var half := Vm(32, [Table(24, [0, 8]), Table(16, [0, 0])], [], [], 0, 1);
      EnsureTable(TABLE_B, 1) == Outcome(half, 16, [(0, 0)])
  {
    var row := Table(24, [16, 8]);
    assert TABLE_B.rows[0] == row && row.slots[0] != 0;
    assert Mapped(TABLE_B.rows[Cyc(0, 0, 2)]);
    assert FirstRow(TABLE_B, 0) == 0 && AnyMapped(TABLE_B) && VictimRow(TABLE_B) == 0;
    assert FirstSlot(row.slots, 0, 0) == 0 && VictimCol(TABLE_B) == 0;
    assert [16, 8][0 := 0] == [0, 8];
    var evicted := Vm(32, [Table(24, [0, 8]), NoTable], [], [16], 0, 1);
    assert !AllZero([0, 8]) by { assert [0, 8][1] == 8; }
    assert TABLE_B.rows[0 := Table(24, [0, 8])] == evicted.rows;
    assert EvictOne(TABLE_B, 1) == evicted;
    assert [16][..0] == [];
    assert seq(2, _ => 0) == [0, 0];
  }

  lemma SecondEviction()
    ensures var half := Vm(32, [Table(24, [0, 8]), Table(16, [0, 0])], [], [], 0, 1);
      Obtain(half, 1) == Outcome(Vm(32, [NoTable, Table(16, [0, 0])], [], [8], 1, 0), 24, [(0, 1)])
  {
    var half := Vm(32, [Table(24, [0, 8]), Table(16, [0, 0])], [], [], 0, 1);
    assert half.rows[0].slots[1] != 0;
    assert Mapped(half.rows[Cyc(0, 0, 2)]);
    assert FirstRow(half, 0) == 0 && AnyMapped(half) && VictimRow(half) == 0;
    assert FirstSlot([0, 8], 1, 0) == 0 && VictimCol(half) == 1;
    assert [0, 8][1 := 0] == [0, 0];
    var evicted := Vm(32, [NoTable, Table(16, [0, 0])], [], [8, 24], 1, 0);
    assert half.rows[0 := NoTable] == evicted.rows;
    assert EvictOne(half, 1) == evicted;
    assert [8, 24][..1] == [8];
  }

  /** A thread that misses and walks, without filling the TLB yet. */
  function MissAndWalk(tid: nat, addr: nat): seq<Action> {
    [LookUp(tid, addr), DoWalk(tid)]
  }

  /** Three threads on a pool of four 8-byte frames: thread 1 walks page 0 and gets frame 16;
      thread 2 maps page 1; thread 3's walk of page 2 evicts both and makes frame 16 a level-2
      table; then thread 1 fills the TLB. */
  function StaleRun(): seq<Action> {
    MissAndWalk(1, 0) + (MissAndWalk(2, 8) + (MissAndWalk(3, 16) + [Fill(1)]))
  }

  lemma {:induction false} Continue(p: nat, w: World, run: seq<Action>, more: seq<Action>)
    requires Sane(p, w) && Possible(p, w, run) && Possible(p, After(p, w, run), more)
    ensures Possible(p, w, run + more) && After(p, w, run + more) == After(p, After(p, w, run), more)
    decreases |run|
  {
    if run == [] {
      assert run + more == more;
    } else {
      var whole := run + more;
      assert whole[0] == run[0] && whole[1..] == run[1..] + more;
      Continue(p, Act(p, w, whole[0]), whole[1..|run|], more);
      assert whole[1..|run|] == run[1..];
    }
  }

  ghost predicate EmptyTlb(w: World) {
    w.mmu.tlb.sets == [[]] && w.mmu.tlb.ways == 2
  }

  lemma Missing(w: World, tid: nat, addr: nat, out: Outcome)
    requires Sane(3, w) && EmptyTlb(w) && PcOf(w, tid).Idle? && out == WalkPage(3, w.mmu.vm, Shr(addr, 3))
    ensures var run := MissAndWalk(tid, addr);
      && Possible(3, w, run)
      && var w' := After(3, w, run);
      && EmptyTlb(w') && w'.mmu.vm == out.vm
      && PcOf(w', tid).Walked? && PcOf(w', tid).addr == addr && PcOf(w', tid).frame == out.frame
      && forall other | other != tid :: PcOf(w', other) == PcOf(w, other)
  {
    var w1 := Act(3, w, LookUp(tid, addr));
    assert Find(LinesFor(w.mmu.tlb, Shr(addr, 3)), High(Shr(addr, 3), 1)) == 0;
    assert w1.mmu.tlb.sets == [[]];
    var w2 := Act(3, w1, DoWalk(tid));
    assert w2.mmu.tlb.sets == [[]];
    var run := MissAndWalk(tid, addr);
    assert run[1..] == [DoWalk(tid)] && run[1..][1..] == [];
    assert Possible(3, w2, []) && After(3, w2, []) == w2;
    assert Possible(3, w1, [DoWalk(tid)]) && After(3, w1, [DoWalk(tid)]) == w2;
  }

  /** Coherence is not an invariant of the interleaved machine: after this run the TLB gives
      page 0 the frame of a level-2 table, while the page table does not map the page at all. */
  lemma StaleFill()
    ensures var w := StartWorld(3, 2, 0, 2);
      && Possible(3, w, StaleRun())
      && var last := After(3, w, StaleRun()).mmu;
      && Lookup(last.tlb, 0) == 16 && FrameOf(3, last.vm, 0) == 0
      && last.vm.rows[1].Table? && last.vm.rows[1].addr == 16
      && !Coherent(3, last)
  {
    SmallStart();
    SmallIndices();
    var w0 := StartWorld(3, 2, 0, 2);
    assert w0.mmu.tlb.sets == [[]];
    WalkOne();
    Missing(w0, 1, 0, Outcome(TABLE_A, 16, []));
    StaleFromA(After(3, w0, MissAndWalk(1, 0)));
    Continue(3, w0, MissAndWalk(1, 0), MissAndWalk(2, 8) + (MissAndWalk(3, 16) + [Fill(1)]));
  }

  ghost predicate Stale(mmu: Mmu) {
    && Fits(3, mmu.vm) && mmu.tlb.sets != []
    && Lookup(mmu.tlb, 0) == 16 && FrameOf(3, mmu.vm, 0) == 0
    && mmu.vm.rows[1].Table? && mmu.vm.rows[1].addr == 16
    && !Coherent(3, mmu)
  }

  lemma StaleFromA(w: World)
    requires Sane(3, w) && EmptyTlb(w) && w.mmu.vm == TABLE_A
    requires PcOf(w, 1).Walked? && PcOf(w, 1).addr == 0 && PcOf(w, 1).frame == 16 && PcOf(w, 2).Idle? && PcOf(w, 3).Idle?
    ensures var run := MissAndWalk(2, 8) + (MissAndWalk(3, 16) + [Fill(1)]);
      Possible(3, w, run) && Stale(After(3, w, run).mmu)
  {
    SmallIndices();
    WalkTwo();
    Missing(w, 2, 8, Outcome(TABLE_B, 8, []));
    var w' := After(3, w, MissAndWalk(2, 8));
    StaleFromB(w');
    Continue(3, w, MissAndWalk(2, 8), MissAndWalk(3, 16) + [Fill(1)]);
  }

  lemma OneFill(w: World)
    requires Sane(3, w) && Enabled(w, Fill(1))
    ensures Possible(3, w, [Fill(1)]) && After(3, w, [Fill(1)]) == Act(3, w, Fill(1))
  {
    var last := Act(3, w, Fill(1));
    assert [Fill(1)][1..] == [];
    assert Possible(3, last, []) && After(3, last, []) == last;
  }

  lemma StaleFromB(w: World)
    requires Sane(3, w) && EmptyTlb(w) && w.mmu.vm == TABLE_B
    requires PcOf(w, 1).Walked? && PcOf(w, 1).addr == 0 && PcOf(w, 1).frame == 16 && PcOf(w, 3).Idle?
    ensures var run := MissAndWalk(3, 16) + [Fill(1)];
      Possible(3, w, run) && Stale(After(3, w, run).mmu)
  {
    SmallIndices();
    WalkThree();
    Missing(w, 3, 16, Outcome(TABLE_C, 24, [(0, 0), (0, 1)]));
    var w' := After(3, w, MissAndWalk(3, 16));
    OneFill(w');
    StaleLine(w', Act(3, w', Fill(1)));
    Continue(3, w, MissAndWalk(3, 16), [Fill(1)]);
  }

  lemma StaleLine(w: World, w': World)
    requires Sane(3, w) && w.mmu.vm == TABLE_C && w.mmu.tlb.sets == [[]] && w.mmu.tlb.ways == 2
    requires Enabled(w, Fill(1)) && PcOf(w, 1).addr == 0 && PcOf(w, 1).frame == 16 && w' == Act(3, w, Fill(1))
    ensures Lookup(w'.mmu.tlb, 0) == 16 && FrameOf(3, w'.mmu.vm, 0) == 0 && !Coherent(3, w'.mmu)
  {
    SmallIndices();
    var t := w'.mmu.tlb;
    assert t.sets[0] == [Line(0, 16)];
    HitIsLine(t);
    if Coherent(3, w'.mmu) {
      HitAgrees(3, w'.mmu, 0);
    }
  }

  lemma HitIsLine(t: Tlb)
    requires |t.sets| == 1 && t.sets[0] == [Line(0, 16)]
    ensures Cached(t, 0) && Lookup(t, 0) == 16
  {
    var k := Find(t.sets[0], 0);
    assert TagsOf(t.sets[0]) == [0];
  }
}
