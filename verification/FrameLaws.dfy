/** Who owns each physical frame, and what every operation of the walker keeps. */
module FrameLaws {
  import opened PageTable

  // ----- frames by role

  /** The words of a table that are in use, with multiplicity. */
  ghost function InUse(slots: seq<nat>): multiset<nat> {
    multiset(slots)[0 := 0]
  }

  ghost function TableFrame(row: Row): multiset<nat> {
    if row.Table? then multiset{row.addr} else multiset{}
  }

  ghost function PageFrames(row: Row): multiset<nat> {
    if row.Table? then InUse(row.slots) else multiset{}
  }

  ghost function Collect(rows: seq<Row>, f: Row -> multiset<nat>): multiset<nat> {
    if rows == [] then multiset{} else f(rows[0]) + Collect(rows[1..], f)
  }

  ghost function TableFrames(vm: Vm): multiset<nat> {
    Collect(vm.rows, TableFrame)
  }

  ghost function DataFrames(vm: Vm): multiset<nat> {
    Collect(vm.rows, PageFrames)
  }

  /** Every frame the machine knows of: root, never used, spare, level-2 tables, data. */
  ghost function Owned(vm: Vm): multiset<nat> {
    multiset{vm.root} + multiset(vm.frees) + multiset(vm.spares) + TableFrames(vm) + DataFrames(vm)
  }

  /** The frames of `pool`, none of them 0, are split among the five roles without overlap,
      and spare frames wait only once the never-used ones are gone. */
  ghost predicate Inv(vm: Vm, pool: set<nat>) {
    && Shape(vm)
    && 0 !in pool
    && Owned(vm) == multiset(pool)
    && (vm.frees != [] ==> vm.spares == [])
  }

  // ----- multiset algebra

  lemma AddBoth(x: multiset<nat>, a: multiset<nat>, b: multiset<nat>, c: multiset<nat>, d: multiset<nat>)
    requires a + b == c + d
    ensures (x + a) + b == (x + c) + d
  {
    assert (x + a) + b == x + (a + b);
    assert (x + c) + d == x + (c + d);
  }

  lemma Cancel(a: multiset<nat>, b: multiset<nat>, c: multiset<nat>, d: multiset<nat>, x: multiset<nat>)
    requires a + b == c + d && d + x == b
    ensures a + x == c
  {
    forall y ensures (a + x)[y] == c[y] {
      assert (a + b)[y] == (c + d)[y];
      assert (d + x)[y] == b[y];
    }
  }

  lemma SameWhole(a: multiset<nat>, c: multiset<nat>, b: multiset<nat>)
    requires a + b == c + b
    ensures a == c
  {
    forall y ensures a[y] == c[y] {
      assert (a + b)[y] == (c + b)[y];
    }
  }

  lemma MoveToSpare(r: multiset<nat>, f: multiset<nat>, s: multiset<nat>, t: multiset<nat>, d: multiset<nat>,
                    x: multiset<nat>, y: multiset<nat>)
    ensures r + f + (s + x + y) + t + d == r + f + s + (t + y) + (d + x)
  {
  }

  lemma OnePart(r: multiset<nat>, f: multiset<nat>, s: multiset<nat>, t: multiset<nat>, d: multiset<nat>, x: multiset<nat>)
    ensures r + (f + x) + s + t + d == (r + f + s + t + d) + x
    ensures r + f + (s + x) + t + d == (r + f + s + t + d) + x
    ensures r + f + s + (t + x) + d == (r + f + s + t + d) + x
    ensures r + f + s + t + (d + x) == (r + f + s + t + d) + x
  {
  }

  lemma PoolWithout(pool: set<nat>, x: nat)
    requires x in pool
    ensures multiset(pool) == multiset(pool - {x}) + multiset{x}
  {
  }

  // ----- update of one row

  lemma {:induction false} CollectUpdate(rows: seq<Row>, f: Row -> multiset<nat>, i: nat, r: Row)
    requires i < |rows|
    ensures Collect(rows[i := r], f) + f(rows[i]) == Collect(rows, f) + f(r)
  {
    if i == 0 {
      assert rows[0 := r][1..] == rows[1..];
    } else {
      assert rows[i := r][1..] == rows[1..][i - 1 := r];
      CollectUpdate(rows[1..], f, i - 1, r);
      AddBoth(f(rows[0]), Collect(rows[1..][i - 1 := r], f), f(rows[i]), Collect(rows[1..], f), f(r));
    }
  }

  lemma {:induction false} CollectNothing(rows: seq<Row>, f: Row -> multiset<nat>)
    requires forall i | 0 <= i < |rows| :: f(rows[i]) == multiset{}
    ensures Collect(rows, f) == multiset{}
  {
    if rows != [] {
      CollectNothing(rows[1..], f);
    }
  }

  /** What row `i` contributes is part of the whole. */
  lemma CollectPart(rows: seq<Row>, f: Row -> multiset<nat>, i: nat)
    requires i < |rows| && f(NoTable) == multiset{}
    ensures Collect(rows, f) == Collect(rows[i := NoTable], f) + f(rows[i])
  {
    CollectUpdate(rows, f, i, NoTable);
  }

  lemma InUseUpdate(slots: seq<nat>, j: nat, x: nat)
    requires j < |slots|
    ensures InUse(slots[j := x]) + (if slots[j] != 0 then multiset{slots[j]} else multiset{})
            == InUse(slots) + (if x != 0 then multiset{x} else multiset{})
  {
    assert multiset(slots[j := x]) == multiset(slots) - multiset{slots[j]} + multiset{x};
  }

  lemma InUseOfZeros(slots: seq<nat>)
    requires AllZero(slots)
    ensures InUse(slots) == multiset{}
  {
    forall x ensures InUse(slots)[x] == 0 {
      if x in multiset(slots) {
        assert x in slots;
      }
    }
  }

  // ----- every operation keeps the split

  lemma EvictKeeps(vm: Vm, pool: set<nat>, keep: nat, ei: nat, ej: nat)
    requires Inv(vm, pool) && vm.frees == []
    requires ei < |vm.rows| && ej < |vm.rows| && FrameAt(vm, ei, ej) != 0
    ensures Inv(EvictAt(vm, keep, ei, ej), pool)
    ensures |DataFrames(EvictAt(vm, keep, ei, ej))| == |DataFrames(vm)| - 1
  {
    var vm' := EvictAt(vm, keep, ei, ej);
    var row, row' := vm.rows[ei], vm'.rows[ei];
    var slots := row.slots[ej := 0];
    InUseUpdate(row.slots, ej, 0);
    if AllZero(slots) {
      InUseOfZeros(slots);
    }
    CollectUpdate(vm.rows, TableFrame, ei, row');
    CollectUpdate(vm.rows, PageFrames, ei, row');
    var d := multiset{row.slots[ej]};
    var t := if row'.NoTable? then multiset{row.addr} else multiset{};
    Cancel(DataFrames(vm'), PageFrames(row), DataFrames(vm), PageFrames(row'), d);
    Cancel(TableFrames(vm'), TableFrame(row), TableFrames(vm), TableFrame(row'), t);
    assert multiset(vm'.spares) == multiset(vm.spares) + d + t;
    MoveToSpare(multiset{vm.root}, multiset(vm.frees), multiset(vm.spares), TableFrames(vm'), DataFrames(vm'), d, t);
  }

  lemma GetFrameKeeps(vm: Vm, pool: set<nat>)
    requires Inv(vm, pool)
    ensures var (vm', f) := GetFrame(vm);
      if f == 0 then vm' == vm && vm.frees == [] && vm.spares == []
      else f in pool && Inv(vm', pool - {f}) && vm'.rows == vm.rows
  {
    var (vm', f) := GetFrame(vm);
    if vm.frees != [] || vm.spares != [] {
      TakeLast(if vm.frees != [] then vm.frees else vm.spares);
      OnePart(multiset{vm.root}, multiset(vm'.frees), multiset(vm'.spares), TableFrames(vm), DataFrames(vm), multiset{f});
      Release(vm', vm, pool, f);
    }
  }

  lemma Release(vm': Vm, vm: Vm, pool: set<nat>, f: nat)
    requires Owned(vm) == multiset(pool) && Owned(vm) == Owned(vm') + multiset{f}
    ensures f in pool && Owned(vm') == multiset(pool - {f})
  {
    assert f in Owned(vm);
    PoolWithout(pool, f);
    Cancel(Owned(vm'), multiset{f}, multiset(pool - {f}), multiset{f}, multiset{});
  }

  lemma TakeLast(s: seq<nat>)
    requires s != []
    ensures multiset(s) == multiset(s[..|s| - 1]) + multiset{s[|s| - 1]}
  {
    assert s == s[..|s| - 1] + [s[|s| - 1]];
  }

  lemma LinkKeeps(vm: Vm, pool: set<nat>, i: nat, frame: nat)
    requires Inv(vm, pool - {frame}) && frame in pool && frame != 0 && i < |vm.rows| && vm.rows[i].NoTable?
    requires 0 !in pool
    ensures Inv(LinkTable(vm, i, frame), pool)
  {
    var vm' := LinkTable(vm, i, frame);
    var row' := vm'.rows[i];
    InUseOfZeros(row'.slots);
    CollectUpdate(vm.rows, TableFrame, i, row');
    CollectUpdate(vm.rows, PageFrames, i, row');
    assert PageFrames(row') == multiset{};
    Cancel(TableFrames(vm), TableFrame(row'), TableFrames(vm'), multiset{}, multiset{frame});
    SameWhole(DataFrames(vm), DataFrames(vm'), multiset{});
    OnePart(multiset{vm.root}, multiset(vm.frees), multiset(vm.spares), TableFrames(vm), DataFrames(vm), multiset{frame});
    PoolWithout(pool, frame);
  }

  lemma StoreKeeps(vm: Vm, pool: set<nat>, i: nat, j: nat, frame: nat)
    requires Inv(vm, pool - {frame}) && frame in pool && 0 !in pool
    requires i < |vm.rows| && j < |vm.rows| && vm.rows[i].Table? && vm.rows[i].slots[j] == 0
    ensures Inv(StorePage(vm, i, j, frame), pool)
  {
    var vm' := StorePage(vm, i, j, frame);
    var row, row' := vm.rows[i], vm'.rows[i];
    InUseUpdate(row.slots, j, frame);
    CollectUpdate(vm.rows, TableFrame, i, row');
    CollectUpdate(vm.rows, PageFrames, i, row');
    Cancel(DataFrames(vm), PageFrames(row'), DataFrames(vm'), PageFrames(row), multiset{frame});
    Cancel(TableFrames(vm), TableFrame(row'), TableFrames(vm'), TableFrame(row), multiset{});
    OnePart(multiset{vm.root}, multiset(vm.frees), multiset(vm.spares), TableFrames(vm), DataFrames(vm), multiset{frame});
    PoolWithout(pool, frame);
  }

  /** After an eviction there is a frame to hand out. */
  lemma EvictedFrame(vm: Vm, pool: set<nat>, keep: nat)
    requires Inv(vm, pool) && vm.frees == [] && AnyMapped(vm)
    ensures GetFrame(EvictOne(vm, keep)).1 != 0
  {
    EvictKeeps(vm, pool, keep, VictimRow(vm), VictimCol(vm));
    GetFrameKeeps(EvictOne(vm, keep), pool);
  }

  /** Frames that can be handed out without evicting a page. */
  function Waiting(vm: Vm): nat {
    |vm.frees| + |vm.spares|
  }

  /** An allocation either takes one frame out of the pool and keeps the rest split, or finds
      no frame and no page to evict and changes nothing. It evicts only from empty stacks. */
  lemma ObtainKeeps(vm: Vm, pool: set<nat>, keep: nat)
    requires Inv(vm, pool)
    ensures var got := Obtain(vm, keep);
      && (got.frame == 0 ==> got == Outcome(vm, 0, []) && vm.frees == [] && vm.spares == [] && !AnyMapped(vm))
      && (got.frame != 0 ==> got.frame in pool && Inv(got.vm, pool - {got.frame}))
      && (got.evicted == [] ==> got.vm.rows == vm.rows)
      && (got.evicted != [] ==>
            && vm.frees == [] && vm.spares == [] && AnyMapped(vm)
            && got.evicted == [(VictimRow(vm), VictimCol(vm))]
            && got.vm.rows == EvictOne(vm, keep).rows)
      && (got.frame != 0 && got.evicted == [] ==> Waiting(got.vm) == Waiting(vm) - 1)
      && (|vm.spares| <= 1 ==> |got.vm.spares| <= 1)
  {
    GetFrameKeeps(vm, pool);
    var (vm1, f) := GetFrame(vm);
    if f == 0 && AnyMapped(vm) {
      EvictKeeps(vm, pool, keep, VictimRow(vm), VictimCol(vm));
      GetFrameKeeps(EvictOne(vm, keep), pool);
    }
  }

  // ----- distinct roles mean distinct frames

  lemma TwoPlaces(s: seq<nat>, j: nat, k: nat)
    requires j < k < |s| && s[j] == s[k]
    ensures multiset(s)[s[j]] >= 2
  {
    assert s == s[..j] + [s[j]] + s[j + 1..k] + [s[k]] + s[k + 1..];
  }

  lemma CollectTwo(rows: seq<Row>, f: Row -> multiset<nat>, i: nat, k: nat, x: nat)
    requires i < |rows| && k < |rows| && i != k && f(NoTable) == multiset{}
    ensures Collect(rows, f)[x] >= f(rows[i])[x] + f(rows[k])[x]
  {
    CollectPart(rows, f, i);
    CollectPart(rows[i := NoTable], f, k);
  }

  /** Two different pages never share a frame. */
  lemma PagesApart(vm: Vm, pool: set<nat>, i: nat, j: nat, k: nat, l: nat)
    requires Inv(vm, pool) && i < |vm.rows| && j < |vm.rows| && k < |vm.rows| && l < |vm.rows|
    requires FrameAt(vm, i, j) == FrameAt(vm, k, l) != 0
    ensures i == k && j == l
  {
    var x := FrameAt(vm, i, j);
    assert Owned(vm)[x] <= 1;
    if i != k {
      CollectTwo(vm.rows, PageFrames, i, k, x);
    } else if j != l {
      TwoPlaces(vm.rows[i].slots, if j < l then j else l, if j < l then l else j);
      CollectPart(vm.rows, PageFrames, i);
    }
  }

  /** A data frame is neither a page-table frame nor waiting on a stack. */
  lemma DataApart(vm: Vm, pool: set<nat>, i: nat, j: nat)
    requires Inv(vm, pool) && i < |vm.rows| && j < |vm.rows| && FrameAt(vm, i, j) != 0
    ensures var x := FrameAt(vm, i, j);
      && x in pool && x != vm.root && x !in vm.frees && x !in vm.spares
      && forall k | 0 <= k < |vm.rows| && vm.rows[k].Table? :: vm.rows[k].addr != x
  {
    var x := FrameAt(vm, i, j);
    CollectPart(vm.rows, PageFrames, i);
    assert DataFrames(vm)[x] >= 1;
    assert Owned(vm)[x] <= 1 && x in Owned(vm);
    assert x in multiset(vm.frees) <==> x in vm.frees;
    assert x in multiset(vm.spares) <==> x in vm.spares;
    forall k | 0 <= k < |vm.rows| && vm.rows[k].Table? ensures vm.rows[k].addr != x {
      CollectPart(vm.rows, TableFrame, k);
    }
  }

  /** Table frames: in the pool, in no stack, not the root, all different. */
  lemma TablesApart(vm: Vm, pool: set<nat>, i: nat)
    requires Inv(vm, pool) && i < |vm.rows| && vm.rows[i].Table?
    ensures var x := vm.rows[i].addr;
      && x in pool && x != vm.root && x !in vm.frees && x !in vm.spares
      && forall k | 0 <= k < |vm.rows| && k != i && vm.rows[k].Table? :: vm.rows[k].addr != x
  {
    var x := vm.rows[i].addr;
    CollectPart(vm.rows, TableFrame, i);
    assert TableFrames(vm)[x] >= 1;
    assert Owned(vm)[x] <= 1 && x in Owned(vm);
    assert x in multiset(vm.frees) <==> x in vm.frees;
    assert x in multiset(vm.spares) <==> x in vm.spares;
    forall k | 0 <= k < |vm.rows| && k != i && vm.rows[k].Table? ensures vm.rows[k].addr != x {
      CollectTwo(vm.rows, TableFrame, i, k, x);
    }
  }

  lemma RootApart(vm: Vm, pool: set<nat>)
    requires Inv(vm, pool)
    ensures vm.root in pool && vm.root !in vm.frees && vm.root !in vm.spares
  {
    var x := vm.root;
    assert Owned(vm)[x] <= 1 && x in Owned(vm);
    assert x in multiset(vm.frees) <==> x in vm.frees;
    assert x in multiset(vm.spares) <==> x in vm.spares;
  }

  /** The root and the level-2 tables lie in different frames of `pool`, none of them free. */
  ghost predicate Apart(vm: Vm, pool: set<nat>) {
    && Shape(vm)
    && vm.root in pool && vm.root !in vm.frees
    && (forall i | 0 <= i < |vm.rows| && vm.rows[i].Table? ::
          vm.rows[i].addr in pool && vm.rows[i].addr != vm.root && vm.rows[i].addr !in vm.frees)
    && (forall i, k | 0 <= i < k < |vm.rows| && vm.rows[i].Table? && vm.rows[k].Table? ::
          vm.rows[i].addr != vm.rows[k].addr)
  }

  lemma InvApart(vm: Vm, pool: set<nat>)
    requires Inv(vm, pool)
    ensures Apart(vm, pool)
  {
    RootApart(vm, pool);
    forall i | 0 <= i < |vm.rows| && vm.rows[i].Table?
      ensures vm.rows[i].addr in pool && vm.rows[i].addr != vm.root && vm.rows[i].addr !in vm.frees
      ensures forall k | 0 <= k < |vm.rows| && k != i && vm.rows[k].Table? :: vm.rows[k].addr != vm.rows[i].addr
    {
      TablesApart(vm, pool, i);
    }
  }

  lemma FreesInPool(vm: Vm, pool: set<nat>, x: nat)
    requires Inv(vm, pool) && x in vm.frees
    ensures x in pool
  {
    assert x in multiset(vm.frees);
    assert x in Owned(vm);
  }

  /** An obtained frame lies outside the table and the stack. */
  ghost predicate Outside(got: Outcome, pool: set<nat>) {
    got.frame != 0 ==>
      && got.frame in pool && got.frame !in got.vm.frees
      && Apart(got.vm, pool - {got.frame}) && Apart(got.vm, pool)
  }

  /** What an allocation for row `keep` relies on: an eviction leaves a frame to hand out, and
      a frame handed out lies outside the table. */
  ghost predicate Ready(vm: Vm, pool: set<nat>, keep: nat) {
    && Apart(vm, pool)
    && (GetFrame(vm).1 == 0 ==> GetFrame(vm).0 == vm && (AnyMapped(vm) ==> GetFrame(EvictOne(vm, keep)).1 != 0))
    && Outside(Obtain(vm, keep), pool)
  }

  lemma InvReady(vm: Vm, pool: set<nat>, keep: nat)
    requires Inv(vm, pool)
    ensures Ready(vm, pool, keep)
  {
    InvApart(vm, pool);
    GetFrameKeeps(vm, pool);
    if GetFrame(vm).1 == 0 && AnyMapped(vm) {
      EvictedFrame(vm, pool, keep);
    }
    ObtainedApart(vm, pool, keep);
  }

  lemma ObtainedApart(vm: Vm, pool: set<nat>, keep: nat)
    requires Inv(vm, pool)
    ensures Outside(Obtain(vm, keep), pool)
  {
    ObtainKeeps(vm, pool, keep);
    var got := Obtain(vm, keep);
    if got.frame != 0 {
      InvApart(got.vm, pool - {got.frame});
      if got.frame in got.vm.frees {
        FreesInPool(got.vm, pool - {got.frame}, got.frame);
      }
    }
  }

  lemma DropPageApart(vm: Vm, pool: set<nat>, ei: nat, ej: nat)
    requires Apart(vm, pool) && ei < |vm.rows| && ej < |vm.rows| && vm.rows[ei].Table?
    ensures Apart(DropPage(vm, ei, ej), pool)
  {
  }

  // ----- idle tables and progress

  /** Every level-2 table other than that of row `i` maps a page. */
  ghost predicate IdleOnly(vm: Vm, i: nat) {
    forall k | 0 <= k < |vm.rows| && k != i && vm.rows[k].Table? :: Mapped(vm.rows[k])
  }

  ghost predicate NoneIdle(vm: Vm) {
    forall k | 0 <= k < |vm.rows| && vm.rows[k].Table? :: Mapped(vm.rows[k])
  }

  /** What holds between walks. */
  ghost predicate Settled(vm: Vm, pool: set<nat>) {
    && Inv(vm, pool)
    && |vm.spares| <= 1
    && (|pool| >= 3 ==> NoneIdle(vm))
  }

  lemma EvictKeepsIdle(vm: Vm, keep: nat)
    requires Shape(vm) && AnyMapped(vm) && IdleOnly(vm, keep)
    ensures IdleOnly(EvictOne(vm, keep), keep)
  {
    var vm' := EvictOne(vm, keep);
    forall k | 0 <= k < |vm'.rows| && k != keep && vm'.rows[k].Table? ensures Mapped(vm'.rows[k]) {
      if k != VictimRow(vm) {
        assert vm'.rows[k] == vm.rows[k];
      }
    }
  }

  lemma NothingMapped(vm: Vm)
    requires Shape(vm) && !AnyMapped(vm)
    ensures DataFrames(vm) == multiset{}
  {
    forall k | 0 <= k < |vm.rows| ensures PageFrames(vm.rows[k]) == multiset{} {
      if vm.rows[k].Table? {
        assert !Mapped(vm.rows[k]);
        InUseOfZeros(vm.rows[k].slots);
      }
    }
    CollectNothing(vm.rows, PageFrames);
  }

  lemma OnlyTable(vm: Vm, i: nat)
    requires Shape(vm) && !AnyMapped(vm) && i < |vm.rows| && vm.rows[i].Table? && IdleOnly(vm, i)
    ensures TableFrames(vm) == multiset{vm.rows[i].addr}
  {
    CollectNothing(vm.rows[i := NoTable], TableFrame);
    CollectPart(vm.rows, TableFrame, i);
  }

  /** With nothing mapped and empty stacks, the pool is the root and the idle tables. */
  lemma NothingLeft(vm: Vm, pool: set<nat>)
    requires Inv(vm, pool) && vm.frees == [] && vm.spares == [] && !AnyMapped(vm)
    ensures NoneIdle(vm) ==> |pool| == 1
    ensures forall i | 0 <= i < |vm.rows| && vm.rows[i].Table? && IdleOnly(vm, i) :: |pool| == 2
  {
    NothingMapped(vm);
    assert |multiset(pool)| == |pool|;
    if NoneIdle(vm) {
      CollectNothing(vm.rows, TableFrame);
      assert Owned(vm) == multiset{vm.root};
    }
    forall i | 0 <= i < |vm.rows| && vm.rows[i].Table? && IdleOnly(vm, i) ensures |pool| == 2 {
      OnlyTable(vm, i);
      assert Owned(vm) == multiset{vm.root, vm.rows[i].addr};
    }
  }

  /** A mapped page needs three frames: root, level-2 table, data. */
  lemma MappedNeedsThree(vm: Vm, pool: set<nat>, i: nat, j: nat)
    requires Inv(vm, pool) && i < |vm.rows| && j < |vm.rows| && FrameAt(vm, i, j) != 0
    ensures |pool| >= 3
  {
    DataApart(vm, pool, i, j);
    TablesApart(vm, pool, i);
    RootApart(vm, pool);
    var three := {vm.root, vm.rows[i].addr, FrameAt(vm, i, j)};
    assert |three| == 3;
    assert pool == three + (pool - three);
    assert |pool| == |three| + |pool - three|;
  }
}
