/** The page-table walker as a machine on values: a two-level table, the never-used frames,
    the spare frames and the two eviction cursors. A slot or row word of 0 means unmapped. */
module PageTable {
  import opened Bits

  /** One root entry: no level-2 table, or the frame of one together with its words. */
  datatype Row = NoTable | Table(addr: nat, slots: seq<nat>)

  datatype Vm = Vm(root: nat, rows: seq<Row>, frees: seq<nat>, spares: seq<nat>, c1: nat, c2: nat)

  predicate Shape(vm: Vm) {
    && vm.c1 < |vm.rows| && vm.c2 < |vm.rows|
    && forall i | 0 <= i < |vm.rows| && vm.rows[i].Table? :: |vm.rows[i].slots| == |vm.rows|
  }

  /** The frame of a page, 0 when it is not mapped. */
  function FrameAt(vm: Vm, i: nat, j: nat): nat
    requires Shape(vm) && i < |vm.rows| && j < |vm.rows|
  {
    if vm.rows[i].Table? then vm.rows[i].slots[j] else 0
  }

  predicate Mapped(row: Row) {
    row.Table? && exists j :: 0 <= j < |row.slots| && row.slots[j] != 0
  }

  predicate AnyMapped(vm: Vm) {
    exists i :: 0 <= i < |vm.rows| && Mapped(vm.rows[i])
  }

  // ----- the round-robin search

  /** The position `offset` steps after `start`, cyclically in a range of `n`. */
  function Cyc(start: nat, offset: nat, n: nat): nat {
    if start + offset < n then start + offset else if start + offset < n + n then start + offset - n else 0
  }

  lemma CycIsMask(start: nat, offset: nat, n: nat)
    requires start < n && offset <= n
    ensures Cyc(start, offset, n) == Low(start + offset, n)
  {
    if start + offset >= n {
      assert start + offset == n * 1 + (start + offset - n);
    }
  }

  function StartCol(vm: Vm, i: nat): nat {
    if i == vm.c1 then vm.c2 else 0
  }

  /** The first offset from `j` on whose slot, counted cyclically from `start`, is in use. */
  function FirstSlot(slots: seq<nat>, start: nat, j: nat): (k: nat)
    requires start < |slots| && j <= |slots|
    ensures j <= k <= |slots|
    ensures forall l | j <= l < k :: slots[Cyc(start, l, |slots|)] == 0
    ensures k < |slots| ==> slots[Cyc(start, k, |slots|)] != 0
    decreases |slots| - j
  {
    if j == |slots| || slots[Cyc(start, j, |slots|)] != 0 then j else FirstSlot(slots, start, j + 1)
  }

  /** The first offset from `i` on whose row, counted cyclically from the cursor, maps a page. */
  function FirstRow(vm: Vm, i: nat): (k: nat)
    requires Shape(vm) && i <= |vm.rows|
    ensures i <= k <= |vm.rows|
    ensures forall l | i <= l < k :: !Mapped(vm.rows[Cyc(vm.c1, l, |vm.rows|)])
    ensures k < |vm.rows| ==> Mapped(vm.rows[Cyc(vm.c1, k, |vm.rows|)])
    decreases |vm.rows| - i
  {
    if i == |vm.rows| || Mapped(vm.rows[Cyc(vm.c1, i, |vm.rows|)]) then i else FirstRow(vm, i + 1)
  }

  /** Cyclic distance from `start` up to `a`. */
  function Ahead(start: nat, a: nat, n: nat): nat
    requires start < n && a < n
  {
    if start <= a then a - start else a + n - start
  }

  lemma SlotSearchComplete(slots: seq<nat>, start: nat)
    requires start < |slots|
    ensures FirstSlot(slots, start, 0) < |slots| <==> exists j :: 0 <= j < |slots| && slots[j] != 0
    ensures forall j | 0 <= j < |slots| && slots[j] != 0 :: FirstSlot(slots, start, 0) <= Ahead(start, j, |slots|)
  {
    forall j | 0 <= j < |slots| && slots[j] != 0
      ensures FirstSlot(slots, start, 0) <= Ahead(start, j, |slots|) < |slots|
    {
      assert Cyc(start, Ahead(start, j, |slots|), |slots|) == j;
    }
  }

  lemma RowSearchComplete(vm: Vm)
    requires Shape(vm)
    ensures FirstRow(vm, 0) < |vm.rows| <==> AnyMapped(vm)
    ensures forall i | 0 <= i < |vm.rows| && Mapped(vm.rows[i]) :: FirstRow(vm, 0) <= Ahead(vm.c1, i, |vm.rows|)
  {
    var n := |vm.rows|;
    forall i | 0 <= i < n && Mapped(vm.rows[i])
      ensures FirstRow(vm, 0) <= Ahead(vm.c1, i, n) < n
    {
      assert Cyc(vm.c1, Ahead(vm.c1, i, n), n) == i;
    }
  }

  /** One step of the row search: a row without pages is passed over, any other one ends it. */
  lemma RowSearchStep(vm: Vm, i: nat)
    requires Shape(vm) && i < |vm.rows|
    ensures if Mapped(vm.rows[Cyc(vm.c1, i, |vm.rows|)]) then FirstRow(vm, i) == i else FirstRow(vm, i) == FirstRow(vm, i + 1)
  {
  }

  function VictimRow(vm: Vm): (i: nat)
    requires Shape(vm) && AnyMapped(vm)
    ensures i < |vm.rows| && Mapped(vm.rows[i])
  {
    RowSearchComplete(vm);
    Cyc(vm.c1, FirstRow(vm, 0), |vm.rows|)
  }

  function VictimCol(vm: Vm): (j: nat)
    requires Shape(vm) && AnyMapped(vm)
    ensures j < |vm.rows| && vm.rows[VictimRow(vm)].slots[j] != 0
  {
    var i := VictimRow(vm);
    SlotSearchComplete(vm.rows[i].slots, StartCol(vm, i));
    Cyc(StartCol(vm, i), FirstSlot(vm.rows[i].slots, StartCol(vm, i), 0), |vm.rows|)
  }

  /** The victim is the first mapped slot in cyclic order: rows from the row cursor, columns
      from the column cursor in the cursor's own row and from 0 in the others. */
  lemma VictimIsFirst(vm: Vm, i: nat, j: nat)
    requires Shape(vm) && i < |vm.rows| && j < |vm.rows| && FrameAt(vm, i, j) != 0
    ensures AnyMapped(vm) && FrameAt(vm, VictimRow(vm), VictimCol(vm)) != 0
    ensures var n, r, c := |vm.rows|, VictimRow(vm), VictimCol(vm);
      || Ahead(vm.c1, r, n) < Ahead(vm.c1, i, n)
      || (r == i && Ahead(StartCol(vm, r), c, n) <= Ahead(StartCol(vm, i), j, n))
  {
    assert Mapped(vm.rows[i]);
    RowSearchComplete(vm);
    SlotSearchComplete(vm.rows[i].slots, StartCol(vm, i));
  }

  /** With a page mapped in the cursor's row the victim lies there: the first mapped column
      counted cyclically from the column cursor. */
  lemma VictimFromCursor(vm: Vm, j: nat)
    requires Shape(vm) && j < |vm.rows| && FrameAt(vm, vm.c1, j) != 0
    ensures AnyMapped(vm) && VictimRow(vm) == vm.c1
    ensures var n, c := |vm.rows|, VictimCol(vm);
      if vm.c2 <= j then vm.c2 <= c <= j
      else c >= vm.c2 || c <= j
  {
    assert Mapped(vm.rows[vm.c1]);
    RowSearchComplete(vm);
    SlotSearchComplete(vm.rows[vm.c1].slots, vm.c2);
  }

  /** With none there, the victim is the first mapped column of its row, counted from 0. */
  lemma VictimElsewhere(vm: Vm, j: nat)
    requires Shape(vm) && AnyMapped(vm) && j < |vm.rows|
    requires forall k: nat | k < |vm.rows| :: FrameAt(vm, vm.c1, k) == 0
    requires FrameAt(vm, VictimRow(vm), j) != 0
    ensures VictimRow(vm) != vm.c1 && VictimCol(vm) <= j
  {
    var i := VictimRow(vm);
    assert FrameAt(vm, i, VictimCol(vm)) != 0;
    SlotSearchComplete(vm.rows[i].slots, StartCol(vm, i));
  }

  /** Round robin within a row: after the page at `(r, c)` was evicted the next victim is the page
      at `(r, c + 1)`, whatever else was mapped in between. */
  lemma NextVictim(vm: Vm, keep: nat, later: Vm)
    requires Shape(vm) && AnyMapped(vm) && Shape(later) && |later.rows| == |vm.rows|
    requires later.c1 == EvictOne(vm, keep).c1 && later.c2 == EvictOne(vm, keep).c2
    requires VictimCol(vm) + 1 < |vm.rows| && FrameAt(later, VictimRow(vm), VictimCol(vm) + 1) != 0
    ensures AnyMapped(later) && VictimRow(later) == VictimRow(vm) && VictimCol(later) == VictimCol(vm) + 1
  {
    VictimFromCursor(later, VictimCol(vm) + 1);
  }

  /** ... and behind the last column the search goes on with the next row. */
  lemma NextRow(vm: Vm, keep: nat, later: Vm, j: nat)
    requires Shape(vm) && AnyMapped(vm) && Shape(later) && |later.rows| == |vm.rows|
    requires later.c1 == EvictOne(vm, keep).c1 && later.c2 == EvictOne(vm, keep).c2
    requires VictimCol(vm) + 1 == |vm.rows| && j < |vm.rows|
    requires var r := VictimRow(vm) + 1; FrameAt(later, if r < |vm.rows| then r else 0, j) != 0
    ensures var r := VictimRow(vm) + 1;
      AnyMapped(later) && VictimRow(later) == (if r < |vm.rows| then r else 0) && VictimCol(later) <= j
  {
    VictimFromCursor(later, j);
  }

  predicate AllZero(slots: seq<nat>) {
    forall k | 0 <= k < |slots| :: slots[k] == 0
  }

  /** Row `i` still has the level-2 table it had. */
  predicate KeepsTable(vm: Vm, vm': Vm, i: nat) {
    i < |vm.rows| && vm.rows[i].Table? ==>
      i < |vm'.rows| && vm'.rows[i].Table? && vm'.rows[i].addr == vm.rows[i].addr
  }

  /** Evicts the victim's page: its frame becomes spare, and so does the frame of its level-2
      table when that is now empty and is not the table in use, row `keep`. */
  function EvictOne(vm: Vm, keep: nat): (r: Vm)
    requires Shape(vm) && AnyMapped(vm)
    ensures Shape(r) && |r.rows| == |vm.rows|
    ensures KeepsTable(vm, r, keep)
  {
    EvictAt(vm, keep, VictimRow(vm), VictimCol(vm))
  }

  function EvictAt(vm: Vm, keep: nat, ei: nat, ej: nat): (r: Vm)
    requires Shape(vm) && ei < |vm.rows| && ej < |vm.rows| && FrameAt(vm, ei, ej) != 0
    ensures Shape(r) && |r.rows| == |vm.rows|
    ensures KeepsTable(vm, r, keep)
  {
    var n, row := |vm.rows|, vm.rows[ei];
    var slots := row.slots[ej := 0];
    var reclaim := ei != keep && AllZero(slots);
    Vm(vm.root,
       vm.rows[ei := if reclaim then NoTable else Table(row.addr, slots)],
       vm.frees,
       vm.spares + [row.slots[ej]] + (if reclaim then [row.addr] else []),
       if Cyc(ej, 1, n) == 0 then Cyc(ei, 1, n) else ei,
       Cyc(ej, 1, n))
  }

  /** The eviction as the source performs it: page, then table, then cursors. */
  lemma EvictInSteps(vm: Vm, keep: nat, ei: nat, ej: nat)
    requires Shape(vm) && ei < |vm.rows| && ej < |vm.rows| && FrameAt(vm, ei, ej) != 0
    ensures var taken := DropPage(vm, ei, ej);
      EvictAt(vm, keep, ei, ej) == MoveCursors(DropTable(taken, keep, ei), ei, ej)
  {
  }

  function DropPage(vm: Vm, ei: nat, ej: nat): (r: Vm)
    requires Shape(vm) && ei < |vm.rows| && ej < |vm.rows| && vm.rows[ei].Table?
    ensures Shape(r)
  {
    StorePage(vm, ei, ej, 0).(spares := vm.spares + [vm.rows[ei].slots[ej]])
  }

  function DropTable(vm: Vm, keep: nat, ei: nat): (r: Vm)
    requires Shape(vm) && ei < |vm.rows| && vm.rows[ei].Table?
    ensures Shape(r)
  {
    if ei != keep && AllZero(vm.rows[ei].slots)
    then vm.(rows := vm.rows[ei := NoTable], spares := vm.spares + [vm.rows[ei].addr])
    else vm
  }

  function MoveCursors(vm: Vm, ei: nat, ej: nat): (r: Vm)
    requires Shape(vm) && ei < |vm.rows| && ej < |vm.rows|
    ensures Shape(r)
  {
    var n := |vm.rows|;
    vm.(c1 := if Cyc(ej, 1, n) == 0 then Cyc(ei, 1, n) else ei, c2 := Cyc(ej, 1, n))
  }

  /** Round robin: counting the slots row by row, the cursors move to the slot behind the victim,
      and from the last slot to the first. */
  lemma CursorsAdvance(vm: Vm, keep: nat, ei: nat, ej: nat)
    requires Shape(vm) && ei < |vm.rows| && ej < |vm.rows| && FrameAt(vm, ei, ej) != 0
    ensures var vm', n := EvictAt(vm, keep, ei, ej), |vm.rows|;
      n * vm'.c1 + vm'.c2 == if n * ei + ej + 1 == n * n then 0 else n * ei + ej + 1
  {
    var n := |vm.rows|;
    OneMore(n, ei, n);
    if ej + 1 == n && ei + 1 < n {
      OneMore(n, ei + 1, n);
      assert n * (ei + 1) == n * ei + n;
    }
  }

  // ----- frames

  /** A never-used frame if there is one, else the latest spare one, else 0. */
  function GetFrame(vm: Vm): (Vm, nat) {
    var n, m := |vm.frees|, |vm.spares|;
    if n > 0 then (vm.(frees := vm.frees[..n - 1]), vm.frees[n - 1])
    else if m > 0 then (vm.(spares := vm.spares[..m - 1]), vm.spares[m - 1])
    else (vm, 0)
  }

  /** The outcome of an allocation or a walk: the frame, 0 on failure, and the pages evicted. */
  datatype Outcome = Outcome(vm: Vm, frame: nat, evicted: seq<(nat, nat)>)

  /** Allocates a frame on behalf of row `keep`, evicting a page when none is left. */
  function Obtain(vm: Vm, keep: nat): (r: Outcome)
    requires Shape(vm)
    ensures Shape(r.vm) && |r.vm.rows| == |vm.rows|
    ensures KeepsTable(vm, r.vm, keep)
  {
    var (vm1, f) := GetFrame(vm);
    if f != 0 || !AnyMapped(vm1) then Outcome(vm1, f, [])
    else
      var (vm2, g) := GetFrame(EvictOne(vm1, keep));
      Outcome(vm2, g, [(VictimRow(vm1), VictimCol(vm1))])
  }

  function LinkTable(vm: Vm, i: nat, frame: nat): (r: Vm)
    requires Shape(vm) && i < |vm.rows|
    ensures Shape(r)
  {
    vm.(rows := vm.rows[i := Table(frame, seq(|vm.rows|, _ => 0))])
  }

  function StorePage(vm: Vm, i: nat, j: nat, frame: nat): (r: Vm)
    requires Shape(vm) && i < |vm.rows| && j < |vm.rows| && vm.rows[i].Table?
    ensures Shape(r)
  {
    vm.(rows := vm.rows[i := Table(vm.rows[i].addr, vm.rows[i].slots[j := frame])])
  }

  /** First half of a walk: make sure that row `i` has a level-2 table. */
  function EnsureTable(vm: Vm, i: nat): (r: Outcome)
    requires Shape(vm) && i < |vm.rows|
    ensures Shape(r.vm) && |r.vm.rows| == |vm.rows|
    ensures r.frame != 0 ==> r.vm.rows[i].Table?
  {
    if vm.rows[i].Table? then Outcome(vm, vm.rows[i].addr, [])
    else
      var got := Obtain(vm, i);
      if got.frame == 0 then got else got.(vm := LinkTable(got.vm, i, got.frame))
  }

  /** Second half: make sure that slot `j` of row `i` maps a page. */
  function EnsurePage(vm: Vm, i: nat, j: nat): (r: Outcome)
    requires Shape(vm) && i < |vm.rows| && j < |vm.rows| && vm.rows[i].Table?
    ensures Shape(r.vm) && |r.vm.rows| == |vm.rows|
    ensures KeepsTable(vm, r.vm, i)
  {
    if vm.rows[i].slots[j] != 0 then Outcome(vm, vm.rows[i].slots[j], [])
    else
      var got := Obtain(vm, i);
      if got.frame == 0 then got
      else got.(vm := StorePage(got.vm, i, j, got.frame))
  }

  function Walk(vm: Vm, i: nat, j: nat): (r: Outcome)
    requires Shape(vm) && i < |vm.rows| && j < |vm.rows|
    ensures Shape(r.vm) && |r.vm.rows| == |vm.rows|
  {
    var table := EnsureTable(vm, i);
    if table.frame == 0 then table
    else
      var page := EnsurePage(table.vm, i, j);
      page.(evicted := table.evicted + page.evicted)
  }
}
