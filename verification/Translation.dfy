/** Whole translations: TLB lookup, walk, TLB fill; and the machine without a TLB. */
module Translation {
  import opened Bits
  import opened Recency
  import opened PageTable
  import opened FrameLaws
  import opened WalkLaws
  import opened Boot
  import opened Tlb

  datatype Mmu = Mmu(vm: Vm, tlb: Tlb)

  /** The state fits page size `p`. */
  ghost predicate Fits(p: nat, vm: Vm) {
    p >= 2 && Shape(vm) && |vm.rows| == Entries(p)
  }

  /** The frame of virtual page `vpn`, 0 when it is not mapped. */
  function FrameOf(p: nat, vm: Vm, vpn: nat): nat
    requires p >= 2 && Shape(vm) && |vm.rows| == Entries(p)
  {
    FrameAt(vm, L1Index(p, vpn), L2Index(p, vpn))
  }

  function WalkPage(p: nat, vm: Vm, vpn: nat): (r: Outcome)
    requires p >= 2 && Shape(vm) && |vm.rows| == Entries(p)
    ensures Shape(r.vm) && |r.vm.rows| == |vm.rows|
  {
    Walk(vm, L1Index(p, vpn), L2Index(p, vpn))
  }

  /** One translation: the new state and the frame, 0 when the walk fails. */
  function Step(p: nat, st: Mmu, virtualAddr: nat): (r: (Mmu, nat))
    requires p >= 2 && Shape(st.vm) && |st.vm.rows| == Entries(p) && st.tlb.sets != []
    ensures Shape(r.0.vm) && |r.0.vm.rows| == |st.vm.rows| && |r.0.tlb.sets| == |st.tlb.sets|
  {
    var vpn := Shr(virtualAddr, p);
    var cached, probed := Lookup(st.tlb, vpn), Probe(st.tlb, vpn);
    if cached != 0 then (Mmu(st.vm, probed), cached)
    else
      var w := WalkPage(p, st.vm, vpn);
      (Mmu(w.vm, Insert(Flush(probed, |w.evicted|), vpn, w.frame)), w.frame)
  }

  /** The translations of a whole trace. */
  function Run(p: nat, st: Mmu, trace: seq<nat>): (r: (Mmu, seq<nat>))
    requires p >= 2 && Shape(st.vm) && |st.vm.rows| == Entries(p) && st.tlb.sets != []
    ensures Shape(r.0.vm) && |r.0.vm.rows| == |st.vm.rows| && |r.0.tlb.sets| == |st.tlb.sets|
    ensures |r.1| == |trace|
    decreases |trace|
  {
    if trace == [] then (st, [])
    else
      var (next, frame) := Step(p, st, trace[0]);
      var (last, frames) := Run(p, next, trace[1..]);
      (last, [frame] + frames)
  }

  /** The machine without a TLB walks every time. */
  function RunWalks(p: nat, vm: Vm, trace: seq<nat>): (r: (Vm, seq<nat>))
    requires p >= 2 && Shape(vm) && |vm.rows| == Entries(p)
    ensures |r.1| == |trace|
    decreases |trace|
  {
    if trace == [] then (vm, [])
    else
      var w := WalkPage(p, vm, Shr(trace[0], p));
      var (last, frames) := RunWalks(p, w.vm, trace[1..]);
      (last, [w.frame] + frames)
  }

  // ----- coherence

  /** The virtual page that a set and a tag stand for. */
  function PageOf(numSets: nat, s: nat, tag: nat): nat {
    numSets * tag + s
  }

  /** A cached frame is the one the page table gives for the page of its set and tag. */
  ghost predicate LineAgrees(p: nat, vm: Vm, numSets: nat, s: nat, line: Line)
    requires Fits(p, vm)
  {
    line.ppn != 0 && line.ppn == FrameOf(p, vm, PageOf(numSets, s, line.tag))
  }

  ghost predicate Coherent(p: nat, st: Mmu)
    requires Fits(p, st.vm)
  {
    forall s, line | 0 <= s < |st.tlb.sets| && line in st.tlb.sets[s] ::
      LineAgrees(p, st.vm, |st.tlb.sets|, s, line)
  }

  /** What holds between translations. */
  ghost predicate Good(p: nat, pool: set<nat>, st: Mmu) {
    && Fits(p, st.vm) && Settled(st.vm, pool)
    && st.tlb.sets != [] && st.tlb.ways >= 1
    && Coherent(p, st)
  }

  lemma PageOfSetAndTag(numSets: nat, vpn: nat)
    requires numSets > 0
    ensures PageOf(numSets, Low(vpn, numSets), High(vpn, numSets)) == vpn
  {
    LowHigh(vpn, numSets);
  }

  /** A hit returns the page table's frame. */
  lemma HitAgrees(p: nat, st: Mmu, vpn: nat)
    requires Fits(p, st.vm) && Coherent(p, st) && st.tlb.sets != []
    ensures Cached(st.tlb, vpn) <==> Lookup(st.tlb, vpn) != 0
    ensures Cached(st.tlb, vpn) ==> Lookup(st.tlb, vpn) == FrameOf(p, st.vm, vpn)
  {
    var n := |st.tlb.sets|;
    var lines, tag := LinesFor(st.tlb, vpn), High(vpn, n);
    var k := Find(lines, tag);
    if k < |lines| {
      assert lines[k] in st.tlb.sets[Low(vpn, n)];
      PageOfSetAndTag(n, vpn);
    }
  }

  lemma UseElems<T>(s: seq<T>, k: nat, x: T, cap: nat, y: T)
    requires y in Use(s, k, x, cap)
    ensures y == x || y in s
  {
  }

  /** Caching the page table's own frame keeps the TLB coherent. */
  lemma UseLineAgrees(p: nat, st: Mmu, vpn: nat)
    requires Fits(p, st.vm) && Coherent(p, st) && st.tlb.sets != [] && FrameOf(p, st.vm, vpn) != 0
    ensures Coherent(p, Mmu(st.vm, UseLine(st.tlb, vpn, FrameOf(p, st.vm, vpn))))
  {
    var n := |st.tlb.sets|;
    var lines, tag := LinesFor(st.tlb, vpn), High(vpn, n);
    var t := UseLine(st.tlb, vpn, FrameOf(p, st.vm, vpn));
    forall s, line | 0 <= s < n && line in t.sets[s] ensures LineAgrees(p, st.vm, n, s, line) {
      if s == Low(vpn, n) {
        UseElems(lines, Find(lines, tag), Line(tag, FrameOf(p, st.vm, vpn)), t.ways, line);
        PageOfSetAndTag(n, vpn);
      }
    }
  }

  /** The walk's own frame is the mapping of the page, and any page it drops flushes the TLB. */
  lemma WalkAgrees(p: nat, pool: set<nat>, st: Mmu, vpn: nat)
    requires Good(p, pool, st)
    ensures var w := WalkPage(p, st.vm, vpn);
      && Fits(p, w.vm) && Settled(w.vm, pool)
      && (w.frame != 0 ==> w.frame == FrameOf(p, w.vm, vpn))
      && Coherent(p, Mmu(w.vm, Flush(st.tlb, |w.evicted|)))
  {
    var i, j := L1Index(p, vpn), L2Index(p, vpn);
    var w := WalkPage(p, st.vm, vpn);
    WalkKeeps(st.vm, pool, i, j);
    if w.evicted == [] {
      if w.frame != 0 {
        WalkEffect(st.vm, pool, i, j);
        forall s, line | 0 <= s < |st.tlb.sets| && line in st.tlb.sets[s]
          ensures LineAgrees(p, w.vm, |st.tlb.sets|, s, line)
        {
          var other := PageOf(|st.tlb.sets|, s, line.tag);
          assert LineAgrees(p, st.vm, |st.tlb.sets|, s, line);
          StillMapped(p, pool, st.vm, vpn, other);
        }
      } else {
        FailedWalk(p, pool, st.vm, vpn);
        NothingCached(p, pool, st);
      }
    }
  }

  /** A walk without evictions leaves every mapped page where it was. */
  lemma StillMapped(p: nat, pool: set<nat>, vm: Vm, vpn: nat, other: nat)
    requires Fits(p, vm) && Settled(vm, pool) && |pool| >= 3
    requires WalkPage(p, vm, vpn).evicted == [] && FrameOf(p, vm, other) != 0
    ensures FrameOf(p, WalkPage(p, vm, vpn).vm, other) == FrameOf(p, vm, other)
  {
    var i, j := L1Index(p, vpn), L2Index(p, vpn);
    WalkEffect(vm, pool, i, j);
    if L1Index(p, other) == i && L2Index(p, other) == j {
      WalkPageOfMapped(p, pool, vm, vpn);
    }
  }

  lemma WalkPageOfMapped(p: nat, pool: set<nat>, vm: Vm, vpn: nat)
    requires Fits(p, vm) && Settled(vm, pool) && FrameOf(p, vm, vpn) != 0
    ensures WalkPage(p, vm, vpn) == Outcome(vm, FrameOf(p, vm, vpn), [])
  {
    TablesApart(vm, pool, L1Index(p, vpn));
    WalkOfMapped(vm, L1Index(p, vpn), L2Index(p, vpn));
  }

  /** A walk fails only in a pool of at most two frames, where nothing is ever mapped. */
  lemma FailedWalk(p: nat, pool: set<nat>, vm: Vm, vpn: nat)
    requires Fits(p, vm) && Settled(vm, pool) && WalkPage(p, vm, vpn).frame == 0
    ensures |pool| < 3
  {
    WalkKeeps(vm, pool, L1Index(p, vpn), L2Index(p, vpn));
  }

  lemma NothingCached(p: nat, pool: set<nat>, st: Mmu)
    requires Good(p, pool, st) && |pool| < 3
    ensures forall s, line | 0 <= s < |st.tlb.sets| :: line !in st.tlb.sets[s]
  {
    forall s, line | 0 <= s < |st.tlb.sets| && line in st.tlb.sets[s] ensures false {
      assert LineAgrees(p, st.vm, |st.tlb.sets|, s, line);
      var vpn := PageOf(|st.tlb.sets|, s, line.tag);
      MappedNeedsThree(st.vm, pool, L1Index(p, vpn), L2Index(p, vpn));
    }
  }

  // ----- whole runs

  lemma ProbeAgrees(p: nat, st: Mmu, vpn: nat)
    requires Fits(p, st.vm) && Coherent(p, st) && st.tlb.sets != []
    ensures Coherent(p, Mmu(st.vm, Probe(st.tlb, vpn)))
  {
    HitAgrees(p, st, vpn);
    if Cached(st.tlb, vpn) {
      UseLineAgrees(p, st, vpn);
    }
  }

  /** One translation keeps the machine coherent and does to the page table, the stacks and the
      cursors exactly what a walk would do; it returns what the walk would return. */
  lemma StepIsWalk(p: nat, pool: set<nat>, st: Mmu, virtualAddr: nat)
    requires Good(p, pool, st)
    ensures var (st', frame) := Step(p, st, virtualAddr);
      var w := WalkPage(p, st.vm, Shr(virtualAddr, p));
      && Good(p, pool, st')
      && st'.vm == w.vm && frame == w.frame
      && st'.tlb.flushes == st.tlb.flushes + |w.evicted|
      && st'.tlb.hits + st'.tlb.misses == st.tlb.hits + st.tlb.misses + 1
  {
    var vpn := Shr(virtualAddr, p);
    HitAgrees(p, st, vpn);
    ProbeAgrees(p, st, vpn);
    if Cached(st.tlb, vpn) {
      WalkPageOfMapped(p, pool, st.vm, vpn);
    } else {
      var probed := Mmu(st.vm, Probe(st.tlb, vpn));
      var w := WalkPage(p, st.vm, vpn);
      WalkAgrees(p, pool, probed, vpn);
      if w.frame != 0 {
        UseLineAgrees(p, Mmu(w.vm, Flush(probed.tlb, |w.evicted|)), vpn);
      }
    }
  }

  /** Coherence and the frame split hold after every trace. */
  lemma {:induction false} RunKeepsGood(p: nat, pool: set<nat>, st: Mmu, trace: seq<nat>)
    requires Good(p, pool, st)
    ensures Good(p, pool, Run(p, st, trace).0)
    decreases |trace|
  {
    if trace != [] {
      StepIsWalk(p, pool, st, trace[0]);
      RunKeepsGood(p, pool, Step(p, st, trace[0]).0, trace[1..]);
    }
  }

  /** A run of one access more. */
  lemma {:induction false} RunOneMore(p: nat, st: Mmu, trace: seq<nat>, addr: nat)
    requires p >= 2 && Shape(st.vm) && |st.vm.rows| == Entries(p) && st.tlb.sets != []
    ensures var (mid, frames) := Run(p, st, trace);
      var (next, frame) := Step(p, mid, addr);
      Run(p, st, trace + [addr]) == (next, frames + [frame])
    decreases |trace|
  {
    if trace == [] {
      var (next, frame) := Step(p, st, addr);
      assert trace + [addr] == [addr] && [addr][1..] == [];
      assert Run(p, next, [addr][1..]) == (next, []) && Run(p, st, trace) == (st, []);
      assert [frame] + [] == [frame];
      assert Run(p, st, [addr]) == (next, [frame]);
      assert [] + [frame] == [frame];
    } else {
      var whole := trace + [addr];
      var (next, first) := Step(p, st, trace[0]);
      assert whole[0] == trace[0] && whole[1..] == trace[1..] + [addr];
      RunOneMore(p, next, trace[1..], addr);
      var (mid, frames) := Run(p, next, trace[1..]);
      var last := Step(p, mid, addr).1;
      assert [first] + (frames + [last]) == ([first] + frames) + [last];
    }
  }

  /** Pages evicted over a whole trace, as the page table alone tells. */
  function RunEvictions(p: nat, vm: Vm, trace: seq<nat>): nat
    requires p >= 2 && Shape(vm) && |vm.rows| == Entries(p)
    decreases |trace|
  {
    if trace == [] then 0
    else
      var vpn := Shr(trace[0], p);
      var w := WalkPage(p, vm, vpn);
      (if w.frame == 0 then 0 else Evictions(vm, L1Index(p, vpn), L2Index(p, vpn))) + RunEvictions(p, w.vm, trace[1..])
  }

  /** The flushes of a run are exactly its evictions. */
  lemma {:induction false} FlushesExact(p: nat, pool: set<nat>, st: Mmu, trace: seq<nat>)
    requires Good(p, pool, st)
    ensures Run(p, st, trace).0.tlb.flushes == st.tlb.flushes + RunEvictions(p, st.vm, trace)
    decreases |trace|
  {
    if trace != [] {
      var vpn := Shr(trace[0], p);
      StepIsWalk(p, pool, st, trace[0]);
      WalkEvictions(st.vm, pool, L1Index(p, vpn), L2Index(p, vpn));
      FlushesExact(p, pool, Step(p, st, trace[0]).0, trace[1..]);
    }
  }

  /** TLB transparency: on every trace the machine gives the translations, and ends with the
      page table, frame stacks and cursors, of the machine that walks every time. */
  lemma {:induction false} Transparent(p: nat, pool: set<nat>, st: Mmu, trace: seq<nat>)
    requires Good(p, pool, st)
    ensures Run(p, st, trace).1 == RunWalks(p, st.vm, trace).1
    ensures Run(p, st, trace).0.vm == RunWalks(p, st.vm, trace).0
    decreases |trace|
  {
    if trace != [] {
      StepIsWalk(p, pool, st, trace[0]);
      Transparent(p, pool, Step(p, st, trace[0]).0, trace[1..]);
    }
  }

  /** The state the tool starts in. */
  function Initial(p: nat, logPoolSize: nat, logNumRows: nat, ways: nat): (st: Mmu)
    requires p >= 2
    ensures Shape(st.vm) && |st.vm.rows| == Entries(p) && st.tlb.sets != []
  {
    Mmu(Start(p, logPoolSize), Fresh(Pow2(logNumRows), ways))
  }

  lemma InitialGood(p: nat, logPoolSize: nat, logNumRows: nat, ways: nat)
    requires p >= 2 && ways >= 1
    ensures Good(p, PoolOf(p, logPoolSize), Initial(p, logPoolSize, logNumRows, ways))
  {
    StartSettled(p, logPoolSize);
  }

  /** Progress: every translation of every run succeeds exactly when the pool has at least
      three frames; with one or two every translation fails. */
  lemma {:induction false} Progress(p: nat, pool: set<nat>, st: Mmu, trace: seq<nat>)
    requires Good(p, pool, st)
    ensures forall frame | frame in Run(p, st, trace).1 :: frame != 0 <==> |pool| >= 3
    decreases |trace|
  {
    if trace != [] {
      StepIsWalk(p, pool, st, trace[0]);
      StepProgress(p, pool, st, trace[0]);
      var (next, first) := Step(p, st, trace[0]);
      Progress(p, pool, next, trace[1..]);
      var rest := Run(p, next, trace[1..]).1;
      forall frame | frame in Run(p, st, trace).1 ensures frame != 0 <==> |pool| >= 3 {
        assert frame == first || frame in rest;
      }
    }
  }

  lemma StepProgress(p: nat, pool: set<nat>, st: Mmu, virtualAddr: nat)
    requires Good(p, pool, st)
    ensures Step(p, st, virtualAddr).1 != 0 <==> |pool| >= 3
  {
    var vpn := Shr(virtualAddr, p);
    StepIsWalk(p, pool, st, virtualAddr);
    WalkKeeps(st.vm, pool, L1Index(p, vpn), L2Index(p, vpn));
  }

  /** The pool is a power of two, so this is four frames or more. */
  lemma ProgressFromStart(p: nat, logPoolSize: nat, logNumRows: nat, ways: nat, trace: seq<nat>)
    requires p >= 2 && ways >= 1
    ensures forall frame | frame in Run(p, Initial(p, logPoolSize, logNumRows, ways), trace).1 ::
              frame != 0 <==> logPoolSize >= 2
  {
    InitialGood(p, logPoolSize, logNumRows, ways);
    PoolSize(p, logPoolSize);
    Progress(p, PoolOf(p, logPoolSize), Initial(p, logPoolSize, logNumRows, ways), trace);
    if logPoolSize >= 2 {
      Pow2Grows(2, logPoolSize);
    } else {
      Pow2Grows(logPoolSize, 1);
    }
    assert Pow2(1) == 2 && Pow2(2) == 4;
  }

  // ----- more ways never cost hits

  /** The smaller TLB holds the most recent lines of the larger one, over the same page table. */
  ghost predicate Narrower(a: Tlb, b: Tlb) {
    && |a.sets| == |b.sets| && a.ways <= b.ways && a.flushes == b.flushes
    && a.hits <= b.hits && a.hits + a.misses == b.hits + b.misses
    && forall s | 0 <= s < |a.sets| :: |b.sets[s]| <= b.ways && a.sets[s] == Take(b.sets[s], a.ways)
  }

  lemma FindPrefix(lines: seq<Line>, tag: nat, a: nat)
    ensures var k := Find(lines, tag);
      Find(Take(lines, a), tag) == if k < a then k else |Take(lines, a)|
  {
    var k, j := Find(lines, tag), Find(Take(lines, a), tag);
    assert forall i | 0 <= i < |Take(lines, a)| :: Take(lines, a)[i] == lines[i];
    if k < a && k < |lines| {
      assert Take(lines, a)[k].tag == tag;
    }
  }

  lemma UseLineNarrower(a: Tlb, b: Tlb, vpn: nat, ppn: nat)
    requires Narrower(a, b) && a.sets != []
    ensures Narrower(UseLine(a, vpn, ppn), UseLine(b, vpn, ppn))
  {
    var s, tag := Low(vpn, |b.sets|), High(vpn, |b.sets|);
    var lines := b.sets[s];
    FindPrefix(lines, tag, a.ways);
    UseKeepsPrefix(lines, Find(lines, tag), Line(tag, ppn), a.ways, b.ways);
  }

  lemma HitNarrower(a: Tlb, b: Tlb, vpn: nat)
    requires Narrower(a, b) && a.sets != []
    ensures Cached(a, vpn) ==> Cached(b, vpn) && Lookup(a, vpn) == Lookup(b, vpn)
  {
    FindPrefix(b.sets[Low(vpn, |b.sets|)], High(vpn, |b.sets|), a.ways);
  }

  lemma StepNarrower(p: nat, pool: set<nat>, a: Mmu, b: Mmu, virtualAddr: nat)
    requires Good(p, pool, a) && Good(p, pool, b) && a.vm == b.vm && Narrower(a.tlb, b.tlb)
    ensures var a', b' := Step(p, a, virtualAddr).0, Step(p, b, virtualAddr).0;
      a'.vm == b'.vm && Narrower(a'.tlb, b'.tlb)
  {
    var vpn := Shr(virtualAddr, p);
    HitAgrees(p, a, vpn);
    HitAgrees(p, b, vpn);
    HitNarrower(a.tlb, b.tlb, vpn);
    if Cached(b.tlb, vpn) {
      WalkPageOfMapped(p, pool, b.vm, vpn);
      UseLineNarrower(a.tlb, b.tlb, vpn, FrameOf(p, b.vm, vpn));
    } else {
      var w := WalkPage(p, b.vm, vpn);
      MissNarrower(a.tlb, b.tlb, vpn, w.frame, |w.evicted|);
    }
  }

  lemma MissNarrower(a: Tlb, b: Tlb, vpn: nat, frame: nat, flushes: nat)
    requires Narrower(a, b) && a.sets != [] && !Cached(a, vpn) && !Cached(b, vpn)
    ensures Narrower(Insert(Flush(Probe(a, vpn), flushes), vpn, frame), Insert(Flush(Probe(b, vpn), flushes), vpn, frame))
  {
    var a', b' := Flush(Probe(a, vpn), flushes), Flush(Probe(b, vpn), flushes);
    assert Narrower(a', b');
    UseLineNarrower(a', b', vpn, frame);
  }

  /** Way-monotonicity: on every trace, a TLB with more ways has no fewer hits and flushes as
      often, and the smaller one's lines are always the most recent lines of the larger one. */
  lemma {:induction false} RunNarrower(p: nat, pool: set<nat>, a: Mmu, b: Mmu, trace: seq<nat>)
    requires Good(p, pool, a) && Good(p, pool, b) && a.vm == b.vm && Narrower(a.tlb, b.tlb)
    ensures Narrower(Run(p, a, trace).0.tlb, Run(p, b, trace).0.tlb)
    decreases |trace|
  {
    if trace != [] {
      StepNarrower(p, pool, a, b, trace[0]);
      StepIsWalk(p, pool, a, trace[0]);
      StepIsWalk(p, pool, b, trace[0]);
      RunNarrower(p, pool, Step(p, a, trace[0]).0, Step(p, b, trace[0]).0, trace[1..]);
    }
  }

  lemma MoreWaysMoreHits(p: nat, logPoolSize: nat, logNumRows: nat, few: nat, many: nat, trace: seq<nat>)
    requires p >= 2 && 1 <= few <= many
    ensures var a := Run(p, Initial(p, logPoolSize, logNumRows, few), trace).0.tlb;
      var b := Run(p, Initial(p, logPoolSize, logNumRows, many), trace).0.tlb;
      a.hits <= b.hits && a.flushes == b.flushes
  {
    InitialGood(p, logPoolSize, logNumRows, few);
    InitialGood(p, logPoolSize, logNumRows, many);
    RunNarrower(p, PoolOf(p, logPoolSize), Initial(p, logPoolSize, logNumRows, few),
                Initial(p, logPoolSize, logNumRows, many), trace);
  }

  // ----- which pages share a translation

  /** No two pages of the 32-bit address space share both table indices. */
  ghost predicate IndicesIdentify(p: nat)
    requires p >= 2
  {
    forall u: nat, v: nat | u < Pow2(32) && v < Pow2(32) && SameIndices(p, Shr(u, p), Shr(v, p)) ::
      Shr(u, p) == Shr(v, p)
  }

  predicate SameIndices(p: nat, x: nat, y: nat)
    requires p >= 2
  {
    L1Index(p, x) == L1Index(p, y) && L2Index(p, x) == L2Index(p, y)
  }

  /** The indices identify the page exactly from 4 KB pages on; with smaller pages two pages
      of the address space always share their translation. */
  lemma IndicesIdentifyFrom12(p: nat)
    requires p >= 2
    ensures IndicesIdentify(p) <==> p >= 12
  {
    if p >= 12 {
      forall u: nat, v: nat | u < Pow2(32) && v < Pow2(32) && SameIndices(p, Shr(u, p), Shr(v, p))
        ensures Shr(u, p) == Shr(v, p)
      {
        SamePage(p, u, v);
      }
    } else {
      var u := Pow2(3 * p - 4);
      Pow2Grows(3 * p - 4, 32);
      Aliases(p);
      assert 0 < Pow2(32) && u < Pow2(32) && SameIndices(p, Shr(u, p), Shr(0, p)) && Shr(u, p) != Shr(0, p);
    }
  }

  lemma SamePage(p: nat, u: nat, v: nat)
    requires p >= 12 && u < Pow2(32) && v < Pow2(32) && SameIndices(p, Shr(u, p), Shr(v, p))
    ensures Shr(u, p) == Shr(v, p)
  {
    var e := Entries(p);
    PageFitsIndices(p, u);
    PageFitsIndices(p, v);
    LowOfSmall(High(Shr(u, p), e), e);
    LowOfSmall(High(Shr(v, p), e), e);
    DivModUnique(Shr(u, p), Shr(v, p), e);
  }

  /** The bytes that two indices and a page offset can tell apart. */
  lemma SpaceSize(p: nat)
    requires p >= 2
    ensures Pow2(3 * p - 4) == Pow2(p) * (Entries(p) * Entries(p))
  {
    Pow2Adds(p - 2, p - 2);
    Pow2Adds(p, 2 * p - 4);
    assert p + (2 * p - 4) == 3 * p - 4 && p - 2 + (p - 2) == 2 * p - 4;
  }

  lemma InSpan(p: nat, u: nat, k: nat)
    requires p >= 2 && k <= 3 * p - 4 && u < Pow2(k)
    ensures u < Pow2(p) * (Entries(p) * Entries(p))
  {
    SpaceSize(p);
    Pow2Grows(k, 3 * p - 4);
  }

  lemma PageFitsIndices(p: nat, u: nat)
    requires p >= 12 && u < Pow2(32)
    ensures High(Shr(u, p), Entries(p)) < Entries(p)
  {
    InSpan(p, u, 32);
    TwoDigits(u, Pow2(p), Entries(p));
  }

  lemma Aliases(p: nat)
    requires 2 <= p
    ensures SameIndices(p, Shr(Pow2(3 * p - 4), p), Shr(0, p)) && Shr(Pow2(3 * p - 4), p) != Shr(0, p)
  {
    var e := Entries(p);
    SpaceSize(p);
    Multiple(Pow2(p), e * e);
    Multiple(e, e);
    Multiple(e, 1);
  }

  /** In every state of every run, two virtual pages that translate to the same frame have the
      same indices; from 4 KB pages on they are the same page. */
  lemma TranslationInjective(p: nat, pool: set<nat>, st: Mmu, u: nat, v: nat)
    requires p >= 2 && Good(p, pool, st)
    requires FrameOf(p, st.vm, Shr(u, p)) == FrameOf(p, st.vm, Shr(v, p)) != 0
    ensures SameIndices(p, Shr(u, p), Shr(v, p))
    ensures p >= 12 && u < Pow2(32) && v < Pow2(32) ==> Shr(u, p) == Shr(v, p)
  {
    var x, y := Shr(u, p), Shr(v, p);
    PagesApart(st.vm, pool, L1Index(p, x), L2Index(p, x), L1Index(p, y), L2Index(p, y));
    if p >= 12 && u < Pow2(32) && v < Pow2(32) {
      SamePage(p, u, v);
    }
  }
}
