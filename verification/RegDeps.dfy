/** The register-dependency histogram: a streaming count and its declarative meaning. */
module RegDeps {
  import opened Recency

  /** Registers are numbered up to `last`; one number stands for "no register". */
  type Reg = nat

  datatype Info = Info(rregs: seq<Reg>, wregs: seq<Reg>)

  /** One read: the instruction's time and the register. */
  datatype Read = Read(time: nat, reg: Reg)

  // ----- meaning

  /** The time of the latest write of `r` in the trace; 0 when there is none. Time starts at 1. */
  function LastWrite(trace: seq<Info>, r: Reg): (t: nat)
    ensures t <= |trace|
    ensures t > 0 ==> r in trace[t - 1].wregs
    ensures forall k | t <= k < |trace| :: r !in trace[k].wregs
  {
    if trace == [] then 0
    else if r in trace[|trace| - 1].wregs then |trace|
    else LastWrite(trace[..|trace| - 1], r)
  }

  /** The registers that the next instruction reads at distance `d` from their last write. */
  function ReadAt(trace: seq<Info>, invalid: Reg, regs: seq<Reg>, d: int): set<Reg> {
    set r | r in regs && r != invalid && |trace| + 1 - LastWrite(trace, r) == d
  }

  /** All (time, register) pairs of the trace read at distance `d`. */
  ghost function Pairs(trace: seq<Info>, invalid: Reg, d: int): set<Read> {
    set t, r | 0 <= t < |trace| && r in ReadAt(trace[..t], invalid, trace[t].rregs, d) :: Read(t + 1, r)
  }

  lemma InPairs(trace: seq<Info>, invalid: Reg, d: int, p: Read)
    ensures p in Pairs(trace, invalid, d) <==>
            1 <= p.time <= |trace| && p.reg in ReadAt(trace[..p.time - 1], invalid, trace[p.time - 1].rregs, d)
  {
    if 1 <= p.time <= |trace| && p.reg in ReadAt(trace[..p.time - 1], invalid, trace[p.time - 1].rregs, d) {
      assert p == Read(p.time - 1 + 1, p.reg);
    }
  }

  /** What a distance means: the register was written that many instructions before, at the time of
      the read less the distance, and not since; or never, and the distance is the time. */
  lemma PairsMeaning(trace: seq<Info>, invalid: Reg, d: nat, t: nat, r: Reg)
    requires 1 <= t <= |trace|
    ensures Read(t, r) in Pairs(trace, invalid, d) <==>
            && r in trace[t - 1].rregs && r != invalid && 1 <= d <= t
            && (d < t ==> r in trace[t - d - 1].wregs)
            && forall k | t - d <= k < t - 1 :: r !in trace[k].wregs
  {
    var before := trace[..t - 1];
    var w := LastWrite(before, r);
    InPairs(trace, invalid, d, Read(t, r));
    assert w > 0 ==> before[w - 1] == trace[w - 1];
    forall k | w <= k < t - 1 ensures r !in trace[k].wregs {
      assert before[k] == trace[k];
    }
  }

  lemma PairsGrow(trace: seq<Info>, invalid: Reg, info: Info, d: int)
    ensures Pairs(trace + [info], invalid, d)
            == Pairs(trace, invalid, d) + ReadsAt(|trace| + 1, ReadAt(trace, invalid, info.rregs, d))
  {
    var more := trace + [info];
    forall p: Read
      ensures p in Pairs(more, invalid, d) <==>
              p in Pairs(trace, invalid, d) || p in ReadsAt(|trace| + 1, ReadAt(trace, invalid, info.rregs, d))
    {
      InPairs(trace, invalid, d, p);
      InPairs(more, invalid, d, p);
      if 1 <= p.time <= |trace| {
        assert more[..p.time - 1] == trace[..p.time - 1];
      } else if p.time == |trace| + 1 {
        assert more[..p.time - 1] == trace;
      }
    }
  }

  lemma PairsStep(trace: seq<Info>, invalid: Reg, info: Info, d: int)
    ensures |Pairs(trace + [info], invalid, d)| == |Pairs(trace, invalid, d)| + |ReadAt(trace, invalid, info.rregs, d)|
  {
    var regs := ReadAt(trace, invalid, info.rregs, d);
    var before, now := Pairs(trace, invalid, d), ReadsAt(|trace| + 1, regs);
    PairsGrow(trace, invalid, info, d);
    assert before !! now;
    assert |before + now| == |before| + |now|;
    Tagged(|trace| + 1, regs);
  }

  ghost function ReadsAt(t: nat, regs: set<Reg>): set<Read> {
    set r | r in regs :: Read(t, r)
  }

  lemma {:induction false} Tagged(t: nat, regs: set<Reg>)
    ensures |ReadsAt(t, regs)| == |regs|
  {
    if regs != {} {
      var r :| r in regs;
      Tagged(t, regs - {r});
      assert ReadsAt(t, regs) == ReadsAt(t, regs - {r}) + {Read(t, r)};
    }
  }

  lemma ReadAtStep(trace: seq<Info>, invalid: Reg, regs: seq<Reg>, k: nat, d: int)
    requires Distinct(regs) && k < |regs|
    ensures |ReadAt(trace, invalid, regs[..k + 1], d)| == |ReadAt(trace, invalid, regs[..k], d)|
              + if regs[k] != invalid && |trace| + 1 - LastWrite(trace, regs[k]) == d then 1 else 0
  {
    PrefixStep(regs, k);
    OneMoreRead(trace, invalid, regs[..k], regs[k], d);
  }

  lemma PrefixStep(regs: seq<Reg>, k: nat)
    requires Distinct(regs) && k < |regs|
    ensures regs[..k + 1] == regs[..k] + [regs[k]] && regs[k] !in regs[..k]
  {
    assert forall i | 0 <= i < k :: regs[..k][i] == regs[i];
  }

  lemma OneMoreRead(trace: seq<Info>, invalid: Reg, front: seq<Reg>, r: Reg, d: int)
    requires r !in front
    ensures |ReadAt(trace, invalid, front + [r], d)| == |ReadAt(trace, invalid, front, d)|
              + if r != invalid && |trace| + 1 - LastWrite(trace, r) == d then 1 else 0
  {
    var before, after := ReadAt(trace, invalid, front, d), ReadAt(trace, invalid, front + [r], d);
    if r != invalid && |trace| + 1 - LastWrite(trace, r) == d {
      assert after == before + {r};
    } else {
      assert after == before;
    }
  }

  // ----- the stream

  class ThreadState {
    var icount: nat
    const lastWrite: array<nat>
    const hist: array<nat>

    /** The instructions counted so far. */
    ghost var trace: seq<Info>
    ghost const invalid: Reg

    /** The arrays hold the latest write of every register and, for each distance below the
        bound, the number of reads at that distance. */
    ghost predicate Valid()
      reads this, lastWrite, hist
    {
      && lastWrite != hist && icount == |trace|
      && (forall r | 0 <= r < lastWrite.Length && r != invalid :: lastWrite[r] == LastWrite(trace, r))
      && forall d | 0 <= d < hist.Length :: hist[d] == |Pairs(trace, invalid, d)|
    }

    constructor (n: nat, last: Reg, ghost noRegister: Reg)
      ensures Valid() && fresh(lastWrite) && fresh(hist)
      ensures trace == [] && invalid == noRegister && hist.Length == n && lastWrite.Length == last + 1
    {
      icount := 0;
      lastWrite := new nat[last + 1](_ => 0);
      hist := new nat[n](_ => 0);
      trace := [];
      invalid := noRegister;
    }

    /** Counts the reads of one instruction, then records its writes: an instruction that reads
        and writes a register is at a distance from the write before it. */
    method UpdateSpacingInfo(info: Info, noRegister: Reg)
      requires Valid() && noRegister == invalid && Distinct(info.rregs)
      requires forall r | r in info.rregs || r in info.wregs :: r < lastWrite.Length
      modifies `icount, `trace, lastWrite, hist
      ensures Valid() && trace == old(trace) + [info]
    {
      icount := icount + 1;
      var cur := icount;
      CountReads(info, noRegister, cur);
      RecordWrites(info, noRegister, cur);
      forall d | 0 <= d < hist.Length ensures hist[d] == |Pairs(trace + [info], invalid, d)| {
        PairsStep(trace, invalid, info, d);
      }
      forall r | 0 <= r < lastWrite.Length && r != invalid ensures lastWrite[r] == LastWrite(trace + [info], r) {
        assert (trace + [info])[..|trace|] == trace;
      }
      trace := trace + [info];
    }

    method CountReads(info: Info, noRegister: Reg, cur: nat)
      requires lastWrite != hist && cur == |trace| + 1 && noRegister == invalid && Distinct(info.rregs)
      requires forall r | r in info.rregs :: r < lastWrite.Length
      requires forall r | 0 <= r < lastWrite.Length && r != invalid :: lastWrite[r] == LastWrite(trace, r)
      modifies hist
      ensures forall d | 0 <= d < hist.Length :: hist[d] == old(hist[d]) + |ReadAt(trace, invalid, info.rregs, d)|
    {
      for k := 0 to |info.rregs|
        invariant forall d | 0 <= d < hist.Length ::
                    hist[d] == old(hist[d]) + |ReadAt(trace, invalid, info.rregs[..k], d)|
      {
        forall d ensures |ReadAt(trace, invalid, info.rregs[..k + 1], d)| == |ReadAt(trace, invalid, info.rregs[..k], d)|
              + if info.rregs[k] != invalid && cur - LastWrite(trace, info.rregs[k]) == d then 1 else 0
        {
          ReadAtStep(trace, invalid, info.rregs, k, d);
        }
        var r := info.rregs[k];
        if r == noRegister {
          continue;
        }
        assert r in info.rregs;
        var lw := lastWrite[r];
        if cur > lw {
          var dist := cur - lw;
          if dist < hist.Length {
            hist[dist] := hist[dist] + 1;
          }
        }
      }
      assert info.rregs[..|info.rregs|] == info.rregs;
    }

    method RecordWrites(info: Info, noRegister: Reg, cur: nat)
      requires forall r | r in info.wregs :: r < lastWrite.Length
      modifies lastWrite
      ensures forall r | 0 <= r < lastWrite.Length && r != noRegister ::
                lastWrite[r] == if r in info.wregs then cur else old(lastWrite[r])
    {
      for k := 0 to |info.wregs|
        invariant forall r | 0 <= r < lastWrite.Length && r != noRegister ::
                    lastWrite[r] == if r in info.wregs[..k] then cur else old(lastWrite[r])
      {
        var w := info.wregs[k];
        assert info.wregs[..k + 1] == info.wregs[..k] + [w];
        if w == noRegister {
          continue;
        }
        assert w in info.wregs;
        lastWrite[w] := cur;
      }
      assert info.wregs[..|info.wregs|] == info.wregs;
    }

    /** A thread's exit: its histogram is added to the shared one. */
    method Merge(spacing: array<nat>)
      requires Valid() && spacing.Length == hist.Length && spacing != hist && spacing != lastWrite
      modifies spacing
      ensures forall d | 0 <= d < spacing.Length :: spacing[d] == old(spacing[d]) + |Pairs(trace, invalid, d)|
    {
      for i := 0 to hist.Length
        invariant forall d | 0 <= d < hist.Length ::
                    spacing[d] == old(spacing[d]) + if d < i then |Pairs(trace, invalid, d)| else 0
      {
        spacing[i] := spacing[i] + hist[i];
      }
    }
  }

  /** A thread from its start to its exit: its histogram is added to the shared one. */
  method RunThread(trace: seq<Info>, last: Reg, invalid: Reg, spacing: array<nat>)
    requires forall info | info in trace :: Distinct(info.rregs) && forall r | r in info.rregs || r in info.wregs :: r <= last
    modifies spacing
    ensures forall d | 0 <= d < spacing.Length :: spacing[d] == old(spacing[d]) + |Pairs(trace, invalid, d)|
  {
    var ts := new ThreadState(spacing.Length, last, invalid);
    for k := 0 to |trace|
      invariant fresh(ts) && fresh(ts.lastWrite) && fresh(ts.hist)
      invariant ts.Valid() && ts.trace == trace[..k] && spacing[..] == old(spacing[..])
    {
      assert trace[k] in trace;
      ts.UpdateSpacingInfo(trace[k], invalid);
      assert trace[..k + 1] == trace[..k] + [trace[k]];
    }
    assert trace[..|trace|] == trace;
    ts.Merge(spacing);
  }

  // ----- instrumentation and threads

  /** Builds an instruction's register lists: full names without repetition and without the
      missing register. An instruction that names no register at all is not counted. */
  method Instrument(regsRead: seq<Reg>, regsWritten: seq<Reg>, fullName: Reg -> Reg, invalid: Reg)
    returns (counted: bool, info: Info)
    ensures Distinct(info.rregs) && Distinct(info.wregs)
    ensures forall r :: r in info.rregs <==>
              exists i :: 0 <= i < |regsRead| && regsRead[i] != invalid && fullName(regsRead[i]) == r && r != invalid
    ensures forall r :: r in info.wregs <==>
              exists i :: 0 <= i < |regsWritten| && regsWritten[i] != invalid && fullName(regsWritten[i]) == r && r != invalid
    ensures counted <==> info.rregs != [] || info.wregs != []
  {
    var rset := CollectNames(regsRead, fullName, invalid);
    var wset := CollectNames(regsWritten, fullName, invalid);
    var rregs := Listing(rset);
    var wregs := Listing(wset);
    Some(rregs);
    Some(wregs);
    counted := !(rset == {} && wset == {});
    info := Info(rregs, wregs);
  }

  /** The list holds exactly the full names of the registers that are registers before and after
      renaming. */
  ghost predicate Lists(list: seq<Reg>, regs: seq<Reg>, fullName: Reg -> Reg, invalid: Reg) {
    forall r :: r in list <==>
      exists i :: 0 <= i < |regs| && regs[i] != invalid && fullName(regs[i]) == r && r != invalid
  }

  function FullNames(regs: seq<Reg>, fullName: Reg -> Reg, invalid: Reg): set<Reg> {
    set r | r in regs && r != invalid && fullName(r) != invalid :: fullName(r)
  }

  lemma NamesAreImages(regs: seq<Reg>, fullName: Reg -> Reg, invalid: Reg)
    ensures forall r :: r in FullNames(regs, fullName, invalid) <==>
              exists i :: 0 <= i < |regs| && regs[i] != invalid && fullName(regs[i]) == r && r != invalid
  {
    forall r | r in FullNames(regs, fullName, invalid)
      ensures exists i :: 0 <= i < |regs| && regs[i] != invalid && fullName(regs[i]) == r && r != invalid
    {
      var q :| q in regs && q != invalid && fullName(q) != invalid && fullName(q) == r;
      var i :| 0 <= i < |regs| && regs[i] == q;
    }
  }

  /** Registers that instrumentation does not tell apart. */
  predicate SameName(r: Reg, q: Reg, fullName: Reg -> Reg, invalid: Reg) {
    var none, other := r == invalid || fullName(r) == invalid, q == invalid || fullName(q) == invalid;
    (none <==> other) && (!none ==> fullName(r) == fullName(q))
  }

  predicate SameNames(regs: seq<Reg>, others: seq<Reg>, fullName: Reg -> Reg, invalid: Reg) {
    |regs| == |others| && forall i | 0 <= i < |regs| :: SameName(regs[i], others[i], fullName, invalid)
  }

  lemma SameNamesList(list: seq<Reg>, other: seq<Reg>, regs: seq<Reg>, others: seq<Reg>, fullName: Reg -> Reg, invalid: Reg)
    requires SameNames(regs, others, fullName, invalid)
    requires Lists(list, regs, fullName, invalid) && Lists(other, others, fullName, invalid)
    ensures forall r :: r in list <==> r in other
  {
    forall r ensures r in list <==> r in other {
      if r in list {
        var i :| 0 <= i < |regs| && regs[i] != invalid && fullName(regs[i]) == r && r != invalid;
        assert SameName(regs[i], others[i], fullName, invalid);
      }
      if r in other {
        var i :| 0 <= i < |others| && others[i] != invalid && fullName(others[i]) == r && r != invalid;
        assert SameName(regs[i], others[i], fullName, invalid);
      }
    }
  }

  /** The registers an instruction reads and writes, as the program names them. */
  datatype Operands = Operands(regsRead: seq<Reg>, regsWritten: seq<Reg>)

  predicate SameOperands(a: Operands, b: Operands, fullName: Reg -> Reg, invalid: Reg) {
    SameNames(a.regsRead, b.regsRead, fullName, invalid) && SameNames(a.regsWritten, b.regsWritten, fullName, invalid)
  }

  ghost predicate Names(info: Info, a: Operands, fullName: Reg -> Reg, invalid: Reg) {
    Lists(info.rregs, a.regsRead, fullName, invalid) && Lists(info.wregs, a.regsWritten, fullName, invalid)
  }

  /** The lists name the same registers. */
  ghost predicate SameRegs(a: Info, b: Info) {
    (forall r :: r in a.rregs <==> r in b.rregs) && (forall r :: r in a.wregs <==> r in b.wregs)
  }

  lemma {:induction false} LastWriteOfSame(a: seq<Info>, b: seq<Info>, r: Reg)
    requires |a| == |b| && forall i | 0 <= i < |a| :: SameRegs(a[i], b[i])
    ensures LastWrite(a, r) == LastWrite(b, r)
  {
    if a != [] {
      LastWriteOfSame(a[..|a| - 1], b[..|b| - 1], r);
      assert SameRegs(a[|a| - 1], b[|b| - 1]);
    }
  }

  /** Counts depend on the registers named, not on how they are listed. */
  lemma PairsOfSame(a: seq<Info>, b: seq<Info>, invalid: Reg, d: int)
    requires |a| == |b| && forall i | 0 <= i < |a| :: SameRegs(a[i], b[i])
    ensures Pairs(a, invalid, d) == Pairs(b, invalid, d)
  {
    forall p: Read ensures p in Pairs(a, invalid, d) <==> p in Pairs(b, invalid, d) {
      InPairs(a, invalid, d, p);
      InPairs(b, invalid, d, p);
      if 1 <= p.time <= |a| {
        assert SameRegs(a[p.time - 1], b[p.time - 1]);
        LastWriteOfSame(a[..p.time - 1], b[..p.time - 1], p.reg);
      }
    }
  }

  /** Replacing registers by others of the same full name changes no entry of the histogram. */
  lemma RenamingKeepsCounts(p: seq<Operands>, q: seq<Operands>, a: seq<Info>, b: seq<Info>, fullName: Reg -> Reg, invalid: Reg, d: int)
    requires |p| == |q| == |a| == |b|
    requires forall i | 0 <= i < |p| :: SameOperands(p[i], q[i], fullName, invalid)
    requires forall i | 0 <= i < |p| :: Names(a[i], p[i], fullName, invalid) && Names(b[i], q[i], fullName, invalid)
    ensures Pairs(a, invalid, d) == Pairs(b, invalid, d)
  {
    forall i | 0 <= i < |a| ensures SameRegs(a[i], b[i]) {
      assert SameOperands(p[i], q[i], fullName, invalid);
      SameNamesList(a[i].rregs, b[i].rregs, p[i].regsRead, q[i].regsRead, fullName, invalid);
      SameNamesList(a[i].wregs, b[i].wregs, p[i].regsWritten, q[i].regsWritten, fullName, invalid);
    }
    PairsOfSame(a, b, invalid, d);
  }

  /** Which instructions are counted is not changed either. */
  lemma RenamingKeepsCounted(p: Operands, q: Operands, a: Info, b: Info, fullName: Reg -> Reg, invalid: Reg)
    requires SameOperands(p, q, fullName, invalid) && Names(a, p, fullName, invalid) && Names(b, q, fullName, invalid)
    ensures a.rregs != [] || a.wregs != [] <==> b.rregs != [] || b.wregs != []
  {
    SameNamesList(a.rregs, b.rregs, p.regsRead, q.regsRead, fullName, invalid);
    SameNamesList(a.wregs, b.wregs, p.regsWritten, q.regsWritten, fullName, invalid);
    Some(a.rregs);
    Some(a.wregs);
    Some(b.rregs);
    Some(b.wregs);
  }

  lemma Some(list: seq<Reg>)
    ensures list != [] <==> exists r :: r in list
  {
    if list != [] {
      assert list[0] in list;
    }
  }

  method CollectNames(regs: seq<Reg>, fullName: Reg -> Reg, invalid: Reg) returns (names: set<Reg>)
    ensures names == FullNames(regs, fullName, invalid)
    ensures forall r :: r in names <==>
              exists i :: 0 <= i < |regs| && regs[i] != invalid && fullName(regs[i]) == r && r != invalid
  {
    names := {};
    for i := 0 to |regs|
      invariant names == FullNames(regs[..i], fullName, invalid)
    {
      var r := regs[i];
      assert regs[..i + 1] == regs[..i] + [r];
      if r == invalid {
        continue;
      }
      var full := fullName(r);
      if full != invalid {
        names := names + {full};
      }
    }
    assert regs[..|regs|] == regs;
    NamesAreImages(regs, fullName, invalid);
  }

  /** The elements of a set in some order. */
  method Listing(regs: set<Reg>) returns (list: seq<Reg>)
    ensures Distinct(list) && forall r :: r in list <==> r in regs
  {
    list := [];
    var rest := regs;
    while rest != {}
      invariant rest <= regs && Distinct(list)
      invariant forall r :: r in list <==> r in regs - rest
      decreases rest
    {
      var r :| r in rest;
      assert forall i | 0 <= i < |list| :: list[i] in list;
      list, rest := list + [r], rest - {r};
    }
  }

  /** Totals at distance `d` over finished threads, in order of exit. */
  ghost function Total(finished: seq<seq<Info>>, invalid: Reg, d: int): nat {
    if finished == [] then 0 else |Pairs(finished[0], invalid, d)| + Total(finished[1..], invalid, d)
  }

  lemma {:induction false} TotalSplit(a: seq<seq<Info>>, b: seq<seq<Info>>, invalid: Reg, d: int)
    ensures Total(a + b, invalid, d) == Total(a, invalid, d) + Total(b, invalid, d)
  {
    if a == [] {
      assert a + b == b;
    } else {
      assert (a + b)[1..] == a[1..] + b;
      TotalSplit(a[1..], b, invalid, d);
    }
  }

  /** What happens to the threads: each starts, executes and exits on its own. */
  datatype Event = Start(tid: nat) | Exec(tid: nat, info: Info) | Exit(tid: nat)

  /** The live threads' traces, and the shared histogram. */
  datatype Tool = Tool(live: map<nat, seq<Info>>, spacing: seq<nat>)

  ghost function Handle(t: Tool, e: Event, invalid: Reg): (r: Tool)
    ensures |r.spacing| == |t.spacing|
  {
    match e
    case Start(tid) => t.(live := t.live[tid := []])
    case Exec(tid, info) => if tid in t.live then t.(live := t.live[tid := t.live[tid] + [info]]) else t
    case Exit(tid) =>
      if tid !in t.live then t
      else Tool(t.live - {tid},
                seq(|t.spacing|, d requires 0 <= d < |t.spacing| => t.spacing[d] + |Pairs(t.live[tid], invalid, d)|))
  }

  ghost function RunEvents(n: nat, invalid: Reg, events: seq<Event>): (t: Tool)
    ensures |t.spacing| == n
  {
    if events == [] then Tool(map[], seq(n, _ => 0))
    else Handle(RunEvents(n, invalid, events[..|events| - 1]), events[|events| - 1], invalid)
  }

  /** A thread as its own events tell: not running, or running with what it has executed; and
      the traces it completed. */
  datatype Life = Life(running: bool, trace: seq<Info>, done: seq<seq<Info>>)

  /** The life of one thread depends on its own events only. */
  ghost function LifeOf(events: seq<Event>, tid: nat): Life {
    if events == [] then Life(false, [], [])
    else
      var e, l := events[|events| - 1], LifeOf(events[..|events| - 1], tid);
      if e.tid != tid then l
      else match e
        case Start(_) => Life(true, [], l.done)
        case Exec(_, info) => if l.running then l.(trace := l.trace + [info]) else l
        case Exit(_) => if l.running then Life(false, [], l.done + [l.trace]) else l
  }

  /** Totals over the completed traces of the threads below `tids`. */
  ghost function LifeTotal(events: seq<Event>, invalid: Reg, d: int, tids: nat): nat {
    if tids == 0 then 0
    else LifeTotal(events, invalid, d, tids - 1) + Total(LifeOf(events, tids - 1).done, invalid, d)
  }

  lemma {:induction false} LiveIsLife(n: nat, invalid: Reg, events: seq<Event>, tid: nat)
    ensures var t, l := RunEvents(n, invalid, events), LifeOf(events, tid);
      (tid in t.live <==> l.running) && (l.running ==> t.live[tid] == l.trace)
  {
    if events != [] {
      LiveIsLife(n, invalid, events[..|events| - 1], tid);
    }
  }

  lemma {:induction false} LifeTotalStep(front: seq<Event>, e: Event, invalid: Reg, d: int, tids: nat)
    ensures var l := LifeOf(front, e.tid);
      LifeTotal(front + [e], invalid, d, tids) == LifeTotal(front, invalid, d, tids)
        + if e.Exit? && e.tid < tids && l.running then |Pairs(l.trace, invalid, d)| else 0
  {
    if tids > 0 {
      LifeTotalStep(front, e, invalid, d, tids - 1);
      assert (front + [e])[..|front|] == front;
      if e.tid == tids - 1 && e.Exit? {
        var l := LifeOf(front, e.tid);
        if l.running {
          TotalSplit(l.done, [l.trace], invalid, d);
        }
      }
    }
  }

  /** For every interleaving of the threads' events, the shared histogram is the sum over the
      threads of what each one's own events give: interleaving and exit order play no part. */
  lemma {:induction false} SpacingIsSum(n: nat, invalid: Reg, events: seq<Event>, tids: nat, d: nat)
    requires d < n && forall e | e in events :: e.tid < tids
    ensures RunEvents(n, invalid, events).spacing[d] == LifeTotal(events, invalid, d, tids)
  {
    if events == [] {
      NoLife(invalid, d, tids);
    } else {
      var front, e := events[..|events| - 1], events[|events| - 1];
      assert events == front + [e];
      SpacingIsSum(n, invalid, front, tids, d);
      LiveIsLife(n, invalid, front, e.tid);
      LifeTotalStep(front, e, invalid, d, tids);
    }
  }

  lemma {:induction false} NoLife(invalid: Reg, d: int, tids: nat)
    ensures LifeTotal([], invalid, d, tids) == 0
  {
    if tids > 0 {
      NoLife(invalid, d, tids - 1);
    }
  }
}
