/** Laws of the simulated caches over whole traces. */
module CacheLaws {
  import opened Bits
  import opened Recency
  import opened Caches

  /** One access as the replacement sees it. */
  datatype Ref = Ref(index: nat, tag: nat, isWrite: bool)

  predicate InRows(trace: seq<Ref>, rows: nat) {
    forall a | a in trace :: a.index < rows
  }

  /** The cache after a trace, starting empty. */
  function RunRefs(rows: nat, ways: nat, trace: seq<Ref>): (c: Cache)
    requires InRows(trace, rows)
    ensures |c.sets| == rows && c.ways == ways
  {
    if trace == [] then Empty(rows, ways)
    else
      var a := trace[|trace| - 1];
      Accessed(RunRefs(rows, ways, trace[..|trace| - 1]), a.index, a.tag, a.isWrite)
  }

  /** The tags that one set sees. */
  function Seen(trace: seq<Ref>, index: nat): seq<nat> {
    if trace == [] then []
    else
      var a := trace[|trace| - 1];
      Seen(trace[..|trace| - 1], index) + (if a.index == index then [a.tag] else [])
  }

  /** Each set is the bounded most-recently-used list of the tags it saw. */
  lemma {:induction false} SetIsLru(rows: nat, ways: nat, trace: seq<Ref>, index: nat)
    requires InRows(trace, rows) && index < rows
    ensures RunRefs(rows, ways, trace).sets[index] == Lru(Seen(trace, index), ways)
  {
    if trace != [] {
      var front, a := trace[..|trace| - 1], trace[|trace| - 1];
      SetIsLru(rows, ways, front, index);
      if a.index == index {
        var seen := Seen(front, index);
        assert Seen(trace, index) == seen + [a.tag];
        assert (seen + [a.tag])[..|seen|] == seen;
      } else {
        assert Seen(trace, index) == Seen(front, index);
      }
    }
  }

  /** Reuse distance: after any trace, an access hits exactly when its tag was accessed in its
      set before and fewer distinct other tags than there are ways were accessed in the set since. */
  lemma HitExactly(rows: nat, ways: nat, trace: seq<Ref>, index: nat, tag: nat)
    requires InRows(trace, rows) && index < rows
    ensures tag in RunRefs(rows, ways, trace).sets[index] <==>
            tag in Seen(trace, index) && |Elems(Since(Seen(trace, index), tag))| < ways
  {
    SetIsLru(rows, ways, trace, index);
    ReuseDistance(Seen(trace, index), tag, ways);
  }

  function Hits(c: Cache): nat {
    c.readHits + c.writeHits
  }

  /** LRU inclusion over whole traces: with more ways every set holds what it held before, in
      the same order of use, and neither loads nor stores hit less often. */
  lemma {:induction false} MoreWays(rows: nat, a: nat, b: nat, trace: seq<Ref>)
    requires InRows(trace, rows) && a <= b
    ensures var x, y := RunRefs(rows, a, trace), RunRefs(rows, b, trace);
      && (forall i | 0 <= i < rows :: x.sets[i] == Take(y.sets[i], a))
      && x.readHits <= y.readHits && x.writeHits <= y.writeHits
      && x.readReqs == y.readReqs && x.writeReqs == y.writeReqs
  {
    if trace != [] {
      MoreWays(rows, a, b, trace[..|trace| - 1]);
    }
    forall i | 0 <= i < rows
      ensures RunRefs(rows, a, trace).sets[i] == Take(RunRefs(rows, b, trace).sets[i], a)
    {
      SetIsLru(rows, a, trace, i);
      SetIsLru(rows, b, trace, i);
      Inclusion(Seen(trace, i), a, b);
    }
  }

  ghost function Sum(f: nat -> nat, n: nat): nat {
    if n == 0 then 0 else Sum(f, n - 1) + f(n - 1)
  }

  lemma {:induction false} SumOneMore(f: nat -> nat, g: nat -> nat, n: nat, k: nat)
    requires forall i: nat :: f(i) == g(i) + if i == k then 1 else 0
    ensures Sum(f, n) == Sum(g, n) + if k < n then 1 else 0
  {
    if n > 0 {
      SumOneMore(f, g, n - 1, k);
    }
  }

  lemma {:induction false} SumCompare(f: nat -> nat, g: nat -> nat, n: nat)
    requires forall i: nat | i < n :: f(i) >= g(i)
    ensures Sum(f, n) >= Sum(g, n)
    ensures (forall i: nat | i < n :: f(i) == g(i)) ==> Sum(f, n) == Sum(g, n)
  {
    if n > 0 {
      SumCompare(f, g, n - 1);
    }
  }

  ghost function MissesOf(trace: seq<Ref>, ways: nat): nat -> nat {
    (i: nat) => Misses(Seen(trace, i), ways)
  }

  ghost function BlocksOf(trace: seq<Ref>): nat -> nat {
    (i: nat) => |Elems(Seen(trace, i))|
  }

  /** Misses of the trace, summed over the sets. */
  ghost function MissSum(trace: seq<Ref>, rows: nat, ways: nat): nat {
    Sum(MissesOf(trace, ways), rows)
  }

  /** Distinct blocks of the trace, summed over the sets. */
  ghost function BlockSum(trace: seq<Ref>, rows: nat): nat {
    Sum(BlocksOf(trace), rows)
  }

  lemma MissesStep(seen: seq<nat>, tag: nat, ways: nat)
    ensures Misses(seen + [tag], ways) == Misses(seen, ways) + if tag in Lru(seen, ways) then 0 else 1
  {
    assert (seen + [tag])[..|seen|] == seen;
  }

  /** Whether the access misses after the trace `front`. */
  predicate Missing(front: seq<Ref>, a: Ref, ways: nat) {
    a.tag !in Lru(Seen(front, a.index), ways)
  }

  lemma SeenStep(front: seq<Ref>, a: Ref, index: nat, ways: nat)
    ensures a.index == index && Missing(front, a, ways) ==>
              Misses(Seen(front + [a], index), ways) == Misses(Seen(front, index), ways) + 1
    ensures !(a.index == index && Missing(front, a, ways)) ==>
              Misses(Seen(front + [a], index), ways) == Misses(Seen(front, index), ways)
  {
    assert (front + [a])[..|front|] == front;
    var seen := Seen(front, index);
    if a.index == index {
      assert Seen(front + [a], index) == seen + [a.tag];
      MissesStep(seen, a.tag, ways);
    } else {
      assert Seen(front + [a], index) == seen;
    }
  }

  lemma MissSumStep(front: seq<Ref>, a: Ref, rows: nat, ways: nat)
    requires a.index < rows
    ensures MissSum(front + [a], rows, ways) == MissSum(front, rows, ways) + if Missing(front, a, ways) then 1 else 0
  {
    forall i: nat ensures MissesOf(front + [a], ways)(i) ==
        MissesOf(front, ways)(i) + if i == a.index && Missing(front, a, ways) then 1 else 0
    {
      SeenStep(front, a, i, ways);
    }
    if Missing(front, a, ways) {
      SumOneMore(MissesOf(front + [a], ways), MissesOf(front, ways), rows, a.index);
    } else {
      SumCompare(MissesOf(front + [a], ways), MissesOf(front, ways), rows);
    }
  }

  /** The four counters account for every access: requests are the accesses, and requests less
      hits are the misses of the sets. */
  lemma {:induction false} CountersExact(rows: nat, ways: nat, trace: seq<Ref>)
    requires InRows(trace, rows)
    ensures var c := RunRefs(rows, ways, trace);
      && c.readReqs + c.writeReqs == |trace|
      && c.readHits <= c.readReqs && c.writeHits <= c.writeReqs
      && |trace| == Hits(c) + MissSum(trace, rows, ways)
  {
    if trace == [] {
      SumCompare(MissesOf([], ways), (i: nat) => 0, rows);
      SumOfZeros(rows);
    } else {
      var front, a := trace[..|trace| - 1], trace[|trace| - 1];
      CountersExact(rows, ways, front);
      SetIsLru(rows, ways, front, a.index);
      assert trace == front + [a];
      MissSumStep(front, a, rows, ways);
      assert Missing(front, a, ways) <==> a.tag !in RunRefs(rows, ways, front).sets[a.index];
    }
  }

  lemma {:induction false} SumOfZeros(n: nat)
    ensures Sum((i: nat) => 0, n) == 0
  {
    if n > 0 {
      SumOfZeros(n - 1);
    }
  }

  /** Compulsory misses: there are never fewer misses than distinct blocks, and exactly as many
      when no set sees more tags than it has ways. */
  lemma ColdMissSum(trace: seq<Ref>, rows: nat, ways: nat)
    ensures MissSum(trace, rows, ways) >= BlockSum(trace, rows)
    ensures (forall i: nat | i < rows :: |Elems(Seen(trace, i))| <= ways) ==>
              MissSum(trace, rows, ways) == BlockSum(trace, rows)
  {
    forall i: nat
      ensures MissesOf(trace, ways)(i) >= BlocksOf(trace)(i)
      ensures |Elems(Seen(trace, i))| <= ways ==> MissesOf(trace, ways)(i) == BlocksOf(trace)(i)
    {
      ColdMisses(Seen(trace, i), ways);
    }
    SumCompare(MissesOf(trace, ways), BlocksOf(trace), rows);
  }

  /** In terms of the counters that the tool reports. */
  lemma CompulsoryMisses(rows: nat, ways: nat, trace: seq<Ref>)
    requires InRows(trace, rows)
    ensures |trace| >= Hits(RunRefs(rows, ways, trace)) + BlockSum(trace, rows)
    ensures (forall i: nat | i < rows :: |Elems(Seen(trace, i))| <= ways) ==>
              |trace| == Hits(RunRefs(rows, ways, trace)) + BlockSum(trace, rows)
  {
    CountersExact(rows, ways, trace);
    ColdMissSum(trace, rows, ways);
  }

  /** Whether an access finds its tag again soon enough, in terms of the accesses before it. */
  ghost predicate Reused(before: seq<Ref>, a: Ref, ways: nat) {
    var seen := Seen(before, a.index);
    a.tag in seen && |Elems(Since(seen, a.tag))| < ways
  }

  /** The loads, or the stores, among the accesses. */
  function Requests(trace: seq<Ref>, isWrite: bool): nat {
    if trace == [] then 0
    else Requests(trace[..|trace| - 1], isWrite) + if trace[|trace| - 1].isWrite == isWrite then 1 else 0
  }

  /** Those of them that find their tag again soon enough. */
  ghost function Reuses(trace: seq<Ref>, isWrite: bool, ways: nat): nat {
    if trace == [] then 0
    else
      var front, a := trace[..|trace| - 1], trace[|trace| - 1];
      Reuses(front, isWrite, ways) + if a.isWrite == isWrite && Reused(front, a, ways) then 1 else 0
  }

  /** Each of the four counters, exactly. */
  lemma {:induction false} EachCounterExact(rows: nat, ways: nat, trace: seq<Ref>)
    requires InRows(trace, rows)
    ensures var c := RunRefs(rows, ways, trace);
      && c.readReqs == Requests(trace, false) && c.writeReqs == Requests(trace, true)
      && c.readHits == Reuses(trace, false, ways) && c.writeHits == Reuses(trace, true, ways)
  {
    if trace != [] {
      var front, a := trace[..|trace| - 1], trace[|trace| - 1];
      EachCounterExact(rows, ways, front);
      HitExactly(rows, ways, front, a.index, a.tag);
    }
  }

  // ----- the three models side by side

  /** A load or store as instrumented. */
  datatype MemOp = MemOp(addr: nat, isWrite: bool)

  function RunOps(scheme: Scheme, g: Geometry, frames: nat -> nat, ways: nat, ops: seq<MemOp>): (c: Cache)
    ensures |c.sets| == Pow2(g.logNumRows)
  {
    if ops == [] then Empty(Pow2(g.logNumRows), ways)
    else
      var op := ops[|ops| - 1];
      Requested(scheme, g, frames, RunOps(scheme, g, frames, ways, ops[..|ops| - 1]), Aligned(op.addr), op.isWrite)
  }

  lemma OneMoreOp(scheme: Scheme, g: Geometry, frames: nat -> nat, ways: nat, ops: seq<MemOp>, op: MemOp)
    ensures RunOps(scheme, g, frames, ways, ops + [op])
            == Requested(scheme, g, frames, RunOps(scheme, g, frames, ways, ops), Aligned(op.addr), op.isWrite)
  {
    assert (ops + [op])[..|ops|] == ops;
  }

  /** What a model sees of the operations. */
  function Refs(scheme: Scheme, g: Geometry, frames: nat -> nat, ops: seq<MemOp>): (r: seq<Ref>)
    ensures |r| == |ops| && InRows(r, Pow2(g.logNumRows))
  {
    if ops == [] then []
    else
      var op := ops[|ops| - 1];
      Refs(scheme, g, frames, ops[..|ops| - 1])
      + [Ref(IndexFor(scheme, g, frames, Aligned(op.addr)), TagFor(scheme, g, frames, Aligned(op.addr)), op.isWrite)]
  }

  /** The laws above apply to every model: a run of operations is a run of what the model sees. */
  lemma {:induction false} OpsAreRefs(scheme: Scheme, g: Geometry, frames: nat -> nat, ways: nat, ops: seq<MemOp>)
    ensures RunOps(scheme, g, frames, ways, ops) == RunRefs(Pow2(g.logNumRows), ways, Refs(scheme, g, frames, ops))
  {
    if ops != [] {
      var front := ops[..|ops| - 1];
      OpsAreRefs(scheme, g, frames, ways, front);
      var refs := Refs(scheme, g, frames, front);
      assert Refs(scheme, g, frames, ops)[..|ops| - 1] == refs;
    }
  }

  lemma LowOfSum(n: nat, k: nat, y: nat)
    requires n > 0
    ensures Low(n * k + y, n) == Low(y, n) && High(n * k + y, n) == k + High(y, n)
  {
    LowHigh(y, n);
    assert n * (k + High(y, n)) == n * k + n * High(y, n);
    LowHigh(n * k + y, n);
    QuotientUnique(n * k + y, n, k + High(y, n), Low(y, n));
  }

  /** Index bits below the page offset come from the offset alone. */
  lemma IndexFromOffset(g: Geometry, q: nat, offset: nat)
    requires g.logBlockSize + g.logNumRows <= g.logPageSize
    ensures RowIndex(g, Pow2(g.logPageSize) * q + offset) == RowIndex(g, offset)
  {
    var b, r, p := g.logBlockSize, g.logNumRows, g.logPageSize;
    var x := Pow2(p - b - r) * q;
    SplitPower(b, r, p - b - r, q);
    LowOfSum(Pow2(b), Pow2(r) * x, offset);
    LowOfSum(Pow2(r), x, High(offset, Pow2(b)));
  }

  lemma SplitPower(b: nat, r: nat, k: nat, q: nat)
    ensures Pow2(b + r + k) * q == Pow2(b) * (Pow2(r) * (Pow2(k) * q))
  {
    Pow2Adds(r, k);
    Pow2Adds(b, r + k);
    assert b + (r + k) == b + r + k;
    Associate(Pow2(b), Pow2(r), Pow2(k), q);
  }

  lemma Associate(a: nat, b: nat, c: nat, d: nat)
    ensures a * (b * c) * d == a * (b * (c * d))
  {
    assert a * (b * c) * d == a * ((b * c) * d);
    assert (b * c) * d == b * (c * d);
  }

  /** There is one row, or the index lies in the page offset. */
  predicate PageIndexed(g: Geometry) {
    g.logNumRows == 0 || g.logBlockSize + g.logNumRows <= g.logPageSize
  }

  lemma SameIndex(g: Geometry, frames: nat -> nat, va: nat)
    requires PageIndexed(g)
    ensures IndexFor(PIPT, g, frames, va) == IndexFor(VIPT, g, frames, va)
  {
    if g.logNumRows > 0 {
      var page := Pow2(g.logPageSize);
      LowHigh(va, page);
      IndexFromOffset(g, frames(Shr(va, g.logPageSize)), Low(va, page));
      IndexFromOffset(g, High(va, page), Low(va, page));
    } else {
      assert Pow2(0) == 1;
    }
  }

  /** The two physically tagged models put every operation in the same row. */
  ghost predicate SameRows(g: Geometry, frames: nat -> nat, ops: seq<MemOp>) {
    forall op | op in ops ::
      IndexFor(PIPT, g, frames, Aligned(op.addr)) == IndexFor(VIPT, g, frames, Aligned(op.addr))
  }

  lemma {:induction false} SameRowsAgree(g: Geometry, frames: nat -> nat, ways: nat, ops: seq<MemOp>)
    requires SameRows(g, frames, ops)
    ensures RunOps(PIPT, g, frames, ways, ops) == RunOps(VIPT, g, frames, ways, ops)
  {
    if ops != [] {
      SameRowsAgree(g, frames, ways, ops[..|ops| - 1]);
      assert ops[|ops| - 1] in ops;
    }
  }

  /** Where the index lies in the page offset, the two physically tagged models agree in every
      tag, every order of use and every counter, at every step. */
  lemma ModelsAgree(g: Geometry, frames: nat -> nat, ways: nat, ops: seq<MemOp>)
    requires PageIndexed(g)
    ensures RunOps(PIPT, g, frames, ways, ops) == RunOps(VIPT, g, frames, ways, ops)
  {
    forall op | op in ops
      ensures IndexFor(PIPT, g, frames, Aligned(op.addr)) == IndexFor(VIPT, g, frames, Aligned(op.addr))
    {
      SameIndex(g, frames, Aligned(op.addr));
    }
    SameRowsAgree(g, frames, ways, ops);
  }

  /** For every page map into `2^m` frames and all operations the two models count alike. */
  ghost predicate CountAlike(g: Geometry, m: nat, ways: nat) {
    forall frames: nat -> nat, ops: seq<MemOp> | Bounded(frames, m) && InSpace(ops) ::
      var x, y := RunOps(PIPT, g, frames, ways, ops), RunOps(VIPT, g, frames, ways, ops);
      x.readHits == y.readHits && x.writeHits == y.writeHits
  }

  ghost predicate Bounded(frames: nat -> nat, m: nat) {
    forall v: nat :: frames(v) < Pow2(m)
  }

  /** Addresses are 32 bits wide. */
  predicate InSpace(ops: seq<MemOp>) {
    forall op | op in ops :: op.addr < Pow2(32)
  }

  /** The index bits lie below word alignment and above all physical addresses: every word is in
      row 0 either way. */
  predicate NoIndexBits(g: Geometry, m: nat) {
    g.logBlockSize + g.logNumRows <= 2 && g.logPageSize + m <= g.logBlockSize
  }

  /** The models count alike for every page map and all operations exactly when there is one row,
      or the index lies in the page offset, or no word has an index bit set. */
  lemma CountAlikeExactly(g: Geometry, m: nat, ways: nat)
    requires g.logPageSize <= 31 && g.logBlockSize <= 31 && m >= 1 && ways >= 1
    ensures CountAlike(g, m, ways) <==> PageIndexed(g) || NoIndexBits(g, m)
  {
    if PageIndexed(g) || NoIndexBits(g, m) {
      forall frames: nat -> nat, ops: seq<MemOp> | Bounded(frames, m) && InSpace(ops)
        ensures RunOps(PIPT, g, frames, ways, ops) == RunOps(VIPT, g, frames, ways, ops)
      {
        if PageIndexed(g) {
          ModelsAgree(g, frames, ways, ops);
        } else {
          NoBitsAgree(g, frames, m, ways, ops);
        }
      }
    } else if g.logBlockSize + g.logNumRows > 2 {
      NotAlike(g, m, ways);
    } else {
      NotAlikeSmall(g, m, ways);
    }
  }

  /** A physical address under a page map into `2^m` frames has page bits plus `m` bits. */
  lemma PhysicalInRange(g: Geometry, frames: nat -> nat, m: nat, virtualAddr: nat)
    requires frames(Shr(virtualAddr, g.logPageSize)) < Pow2(m)
    ensures PhysicalAddr(g, frames, virtualAddr) < Pow2(g.logPageSize + m)
  {
    var n, f := Pow2(g.logPageSize), frames(Shr(virtualAddr, g.logPageSize));
    Pow2Adds(g.logPageSize, m);
    OneMore(n, f, Pow2(m));
  }

  /** Rows below word alignment: a word is in row 0. */
  lemma WordInRowZero(g: Geometry, x: nat)
    requires g.logBlockSize + g.logNumRows <= 2
    ensures RowIndex(g, 4 * x) == 0
  {
    var b, r := g.logBlockSize, g.logNumRows;
    var rest := Pow2(2 - b - r) * x;
    assert Pow2(1) == 2 && Pow2(2) == 4;
    SplitPower(b, r, 2 - b - r, x);
    Multiple(Pow2(b), Pow2(r) * rest);
    Multiple(Pow2(r), rest);
  }

  lemma NoBitsAgree(g: Geometry, frames: nat -> nat, m: nat, ways: nat, ops: seq<MemOp>)
    requires NoIndexBits(g, m) && Bounded(frames, m)
    ensures RunOps(PIPT, g, frames, ways, ops) == RunOps(VIPT, g, frames, ways, ops)
  {
    forall op | op in ops
      ensures IndexFor(PIPT, g, frames, Aligned(op.addr)) == IndexFor(VIPT, g, frames, Aligned(op.addr))
    {
      WordInRowZero(g, High(op.addr, 4));
      PhysicalInRange(g, frames, m, Aligned(op.addr));
      Pow2Grows(g.logPageSize + m, g.logBlockSize);
    }
    SameRowsAgree(g, frames, ways, ops);
  }

  /** The page map with page 0 in frame 0 and every other page in frame `f`. */
  function TwoFrameMap(f: nat): nat -> nat {
    (v: nat) => if v == 0 then 0 else f
  }

  lemma TwoFrameBounded(f: nat, m: nat)
    requires f < Pow2(m)
    ensures Bounded(TwoFrameMap(f), m)
  {
  }

  /** The lowest bit above both page offset and block offset, and from the word offset up. */
  function LowestBit(g: Geometry, least: nat): (k: nat)
    ensures k >= g.logPageSize && k >= g.logBlockSize && k >= least
    ensures k == g.logPageSize || k == g.logBlockSize || k == least
  {
    var k := if g.logBlockSize <= g.logPageSize then g.logPageSize else g.logBlockSize;
    if k < least then least else k
  }

  lemma NotAlike(g: Geometry, m: nat, ways: nat)
    requires g.logPageSize <= 31 && g.logBlockSize <= 31 && ways >= 1
    requires !PageIndexed(g) && g.logBlockSize + g.logNumRows > 2
    ensures !CountAlike(g, m, ways)
  {
    TwoFrameBounded(0, m);
    LoadsInSpace(LowestBit(g, 2));
    CountersDiffer(g, ways);
  }

  lemma LoadsInSpace(high: nat)
    requires high < 32
    ensures InSpace([MemOp(0, false), MemOp(Pow2(high), false)])
  {
    Pow2Grows(high, 32);
  }

  /** With every page in frame 0, the second of two loads hits the physically indexed model and
      misses the virtually indexed one. */
  lemma CountersDiffer(g: Geometry, ways: nat)
    requires !PageIndexed(g) && g.logBlockSize + g.logNumRows > 2 && ways >= 1
    ensures var frames, ops := TwoFrameMap(0), [MemOp(0, false), MemOp(Pow2(LowestBit(g, 2)), false)];
      RunOps(PIPT, g, frames, ways, ops).readHits == 1 && RunOps(VIPT, g, frames, ways, ops).readHits == 0
  {
    var frames := TwoFrameMap(0);
    var first, second := MemOp(0, false), MemOp(Pow2(LowestBit(g, 2)), false);
    AddressSplits(g, LowestBit(g, 2));
    TwoLoads(PIPT, g, frames, ways, first, second);
    TwoLoads(VIPT, g, frames, ways, first, second);
  }

  lemma NotAlikeSmall(g: Geometry, m: nat, ways: nat)
    requires !PageIndexed(g) && g.logBlockSize + g.logNumRows <= 2 && !NoIndexBits(g, m) && m >= 1 && ways >= 1
    ensures !CountAlike(g, m, ways)
  {
    var k := LowestBit(g, 0);
    Pow2Grows(k - g.logPageSize, m);
    TwoFrameBounded(Pow2(k - g.logPageSize), m);
    LoadsInSpace(2);
    CountersDifferSmall(g, ways);
  }

  /** Pages and rows smaller than a word: with two frames in use, the second of two loads misses
      the physically indexed model and hits the virtually indexed one. */
  lemma CountersDifferSmall(g: Geometry, ways: nat)
    requires !PageIndexed(g) && g.logBlockSize + g.logNumRows <= 2 && ways >= 1
    ensures var frames, ops := TwoFrameMap(Pow2(LowestBit(g, 0) - g.logPageSize)), [MemOp(0, false), MemOp(Pow2(2), false)];
      RunOps(PIPT, g, frames, ways, ops).readHits == 0 && RunOps(VIPT, g, frames, ways, ops).readHits == 1
  {
    var frames := TwoFrameMap(Pow2(LowestBit(g, 0) - g.logPageSize));
    var first, second := MemOp(0, false), MemOp(Pow2(2), false);
    SmallSplits(g);
    WordInRowZero(g, 0);
    WordInRowZero(g, 1);
    TwoLoads(PIPT, g, frames, ways, first, second);
    TwoLoads(VIPT, g, frames, ways, first, second);
  }

  lemma SmallSplits(g: Geometry)
    requires !PageIndexed(g) && g.logBlockSize + g.logNumRows <= 2
    ensures var k, frames := LowestBit(g, 0), TwoFrameMap(Pow2(LowestBit(g, 0) - g.logPageSize));
      && Pow2(2) == 4 && Aligned(4) == 4 && Aligned(0) == 0
      && PhysicalAddr(g, frames, 4) == Pow2(k) && PhysicalAddr(g, frames, 0) == 0
      && RowIndex(g, Pow2(k)) != 0 == RowIndex(g, 0)
      && TagBits(g, Pow2(k)) == TagBits(g, 0)
  {
    var p, k := g.logPageSize, LowestBit(g, 0);
    assert Pow2(1) == 2 && Pow2(2) == 4;
    Pow2Adds(p, 2 - p);
    Multiple(Pow2(p), Pow2(2 - p));
    Pow2Adds(p, k - p);
    BitInIndex(g, k);
  }

  /** An address with one bit set, an index bit: its row is not 0, its tag is. */
  lemma BitInIndex(g: Geometry, k: nat)
    requires g.logBlockSize <= k < g.logBlockSize + g.logNumRows
    ensures RowIndex(g, Pow2(k)) != 0 == RowIndex(g, 0)
    ensures TagBits(g, Pow2(k)) == TagBits(g, 0)
  {
    BitInRow(g.logBlockSize, g.logNumRows, k);
    Pow2Grows(k, g.logBlockSize + g.logNumRows);
    NoTag(g, Pow2(k));
    NoTag(g, 0);
  }

  lemma BitInRow(b: nat, r: nat, k: nat)
    requires b <= k < b + r
    ensures Low(Shr(Pow2(k), b), Pow2(r)) == Pow2(k - b) && Low(Shr(0, b), Pow2(r)) == 0
  {
    Pow2Adds(b, k - b);
    Multiple(Pow2(b), Pow2(k - b));
    Pow2Grows(k - b, r);
  }

  lemma NoTag(g: Geometry, x: nat)
    requires x < Pow2(g.logBlockSize + g.logNumRows)
    ensures TagBits(g, x) == 0
  {
  }

  lemma TwoLoads(scheme: Scheme, g: Geometry, frames: nat -> nat, ways: nat, first: MemOp, second: MemOp)
    requires ways >= 1 && !first.isWrite && !second.isWrite
    ensures var i, j := IndexFor(scheme, g, frames, Aligned(first.addr)), IndexFor(scheme, g, frames, Aligned(second.addr));
      var s, t := TagFor(scheme, g, frames, Aligned(first.addr)), TagFor(scheme, g, frames, Aligned(second.addr));
      RunOps(scheme, g, frames, ways, [first, second]).readHits == if i == j && s == t then 1 else 0
  {
    var i, s := IndexFor(scheme, g, frames, Aligned(first.addr)), TagFor(scheme, g, frames, Aligned(first.addr));
    var rows := Pow2(g.logNumRows);
    assert [first, second][..1] == [first] && [first][..0] == [];
    assert RunOps(scheme, g, frames, ways, [first]) == Accessed(Empty(rows, ways), i, s, false);
    assert Touch([], s, ways) == [s];
  }

  lemma AddressSplits(g: Geometry, high: nat)
    requires !PageIndexed(g) && g.logBlockSize + g.logNumRows > 2 && high == LowestBit(g, 2)
    ensures Aligned(Pow2(high)) == Pow2(high) && Aligned(0) == 0
    ensures PhysicalAddr(g, TwoFrameMap(0), Pow2(high)) == 0 == PhysicalAddr(g, TwoFrameMap(0), 0)
    ensures RowIndex(g, Pow2(high)) != 0 == RowIndex(g, 0)
  {
    var p := g.logPageSize;
    Pow2Adds(2, high - 2);
    assert Pow2(2) == 4;
    Multiple(4, Pow2(high - 2));
    Pow2Adds(p, high - p);
    Multiple(Pow2(p), Pow2(high - p));
    BitInIndex(g, high);
  }

  // ----- addresses in arithmetic

  /** The aligned word is the multiple of 4 at or just below the address. */
  lemma AlignedIsWord(u: nat)
    ensures Aligned(u) <= u < Aligned(u) + 4 && Aligned(u) % 4 == 0
  {
    LowHigh(u, 4);
  }

  /** `x` keeps the offset of `u` within its page of `page` bytes and lies in the frame that the map
      gives that page. */
  ghost predicate IsPhysical(page: nat, frames: nat -> nat, u: nat, x: nat)
    requires page > 0
  {
    x / page == frames(u / page) && x % page == u % page
  }

  /** Translation replaces the page number and keeps the offset. */
  lemma PhysicalParts(g: Geometry, frames: nat -> nat, u: nat)
    ensures IsPhysical(Pow2(g.logPageSize), frames, u, PhysicalAddr(g, frames, u))
  {
    var page := Pow2(g.logPageSize);
    LowHigh(u, page);
    QuotientUnique(PhysicalAddr(g, frames, u), page, frames(u / page), u % page);
  }

  /** Row and tag of an address. */
  lemma RowAndTag(g: Geometry, u: nat)
    ensures RowIndex(g, u) == u / Pow2(g.logBlockSize) % Pow2(g.logNumRows)
    ensures TagBits(g, u) == u / Pow2(g.logBlockSize + g.logNumRows) % Pow2(32)
  {
    LowHigh(u, Pow2(g.logBlockSize));
    LowHigh(Shr(u, g.logBlockSize), Pow2(g.logNumRows));
    LowHigh(u, Pow2(g.logBlockSize + g.logNumRows));
    LowHigh(Shr(u, g.logBlockSize + g.logNumRows), Pow2(32));
  }

  lemma PhysicalIsUnique(g: Geometry, frames: nat -> nat, u: nat, x: nat)
    ensures IsPhysical(Pow2(g.logPageSize), frames, u, x) <==> x == PhysicalAddr(g, frames, u)
  {
    PhysicalParts(g, frames, u);
    if IsPhysical(Pow2(g.logPageSize), frames, u, x) {
      SameParts(x, PhysicalAddr(g, frames, u), Pow2(g.logPageSize));
    }
  }

  /** Which address each model takes its row bits and its tag bits from. */
  lemma SchemeBits(g: Geometry, frames: nat -> nat, u: nat, x: nat)
    requires IsPhysical(Pow2(g.logPageSize), frames, u, x)
    ensures IndexFor(PIPT, g, frames, u) == RowIndex(g, x) && TagFor(PIPT, g, frames, u) == TagBits(g, x)
    ensures IndexFor(VIPT, g, frames, u) == RowIndex(g, u) && TagFor(VIPT, g, frames, u) == TagBits(g, x)
    ensures IndexFor(VIVT, g, frames, u) == RowIndex(g, u) && TagFor(VIVT, g, frames, u) == TagBits(g, u)
  {
    PhysicalIsUnique(g, frames, u, x);
  }

  lemma SameParts(x: nat, y: nat, n: nat)
    requires n > 0 && x / n == y / n && x % n == y % n
    ensures x == y
  {
    LowHigh(x, n);
    LowHigh(y, n);
  }

  /** Consecutive blocks lie in consecutive rows. */
  lemma NextRow(g: Geometry, u: nat)
    ensures RowIndex(g, u + Pow2(g.logBlockSize)) ==
            if RowIndex(g, u) + 1 < Pow2(g.logNumRows) then RowIndex(g, u) + 1 else 0
  {
    var block, rows := Pow2(g.logBlockSize), Pow2(g.logNumRows);
    assert High(u + block, block) == 1 + High(u, block);
    NextLow(High(u, block), rows);
  }

  lemma {:induction false} NextLow(x: nat, n: nat)
    requires n > 0
    ensures Low(x + 1, n) == if Low(x, n) + 1 < n then Low(x, n) + 1 else 0
  {
    if x >= n {
      NextLow(x - n, n);
    }
  }

  // ----- what a line stands for

  /** Physically indexed lines are physical blocks: as long as the tag fits its 32 bits, two
      addresses share row and tag exactly when they lie in the same block. */
  lemma LineIsBlock(g: Geometry, x: nat, y: nat)
    requires x < Pow2(g.logBlockSize + g.logNumRows + 32) && y < Pow2(g.logBlockSize + g.logNumRows + 32)
    ensures RowIndex(g, x) == RowIndex(g, y) && TagBits(g, x) == TagBits(g, y) <==>
            Shr(x, g.logBlockSize) == Shr(y, g.logBlockSize)
  {
    TagIsHigh(g, x);
    TagIsHigh(g, y);
    if RowIndex(g, x) == RowIndex(g, y) && TagBits(g, x) == TagBits(g, y) {
      DivModUnique(Shr(x, g.logBlockSize), Shr(y, g.logBlockSize), Pow2(g.logNumRows));
    }
  }

  lemma TagIsHigh(g: Geometry, x: nat)
    requires x < Pow2(g.logBlockSize + g.logNumRows + 32)
    ensures TagBits(g, x) == High(Shr(x, g.logBlockSize), Pow2(g.logNumRows))
  {
    NoneCut(x, g.logBlockSize + g.logNumRows, 32);
    ShiftTwice(x, g.logBlockSize, g.logNumRows);
  }

  lemma ShiftTwice(x: nat, b: nat, r: nat)
    ensures Shr(x, b + r) == High(Shr(x, b), Pow2(r))
  {
    Pow2Adds(b, r);
    HighHigh(x, Pow2(b), Pow2(r));
  }

  lemma Regroup(m: nat, n: nat, t: nat, s: nat)
    ensures m * (n * t + s) == m * n * t + m * s
  {
    assert m * (n * t + s) == m * (n * t) + m * s;
    assert m * (n * t) == m * n * t;
  }

  lemma NestedDigits(x: nat, m: nat, n: nat, t: nat, s: nat, r: nat)
    requires x == m * (n * t + s) + r && r < m && s < n && m * n > 0
    ensures x / (m * n) == t
  {
    Regroup(m, n, t, s);
    OneMore(m, s, n);
    QuotientUnique(x, m * n, t, m * s + r);
  }

  lemma HighHigh(x: nat, m: nat, n: nat)
    requires m > 0 && n > 0 && m * n > 0
    ensures High(x, m * n) == High(High(x, m), n)
  {
    var q, r := High(x, m), Low(x, m);
    LowHigh(x, m);
    LowHigh(q, n);
    NestedDigits(x, m, n, High(q, n), Low(q, n), r);
    HighIsQuotient(x, m * n);
  }

  lemma HighIsQuotient(x: nat, n: nat)
    requires n > 0
    ensures High(x, n) == x / n
  {
    LowHigh(x, n);
  }
}
