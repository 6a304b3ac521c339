/** Laws of a whole page-table walk: what it keeps, when it succeeds, and its exact effect. */
module WalkLaws {
  import opened PageTable
  import opened FrameLaws

  // ----- the two halves

  lemma ObtainKeepsIdle(vm: Vm, pool: set<nat>, keep: nat)
    requires Inv(vm, pool) && IdleOnly(vm, keep)
    ensures IdleOnly(Obtain(vm, keep).vm, keep)
  {
    ObtainKeeps(vm, pool, keep);
    if AnyMapped(vm) {
      EvictKeepsIdle(vm, keep);
    }
  }

  lemma EnsureTableKeeps(vm: Vm, pool: set<nat>, i: nat)
    requires Settled(vm, pool) && i < |vm.rows|
    ensures var r := EnsureTable(vm, i);
      && Inv(r.vm, pool) && |r.vm.spares| <= 1
      && (|pool| >= 3 ==> r.frame != 0 && IdleOnly(r.vm, i))
      && (r.frame == 0 ==> r == Outcome(vm, 0, []) && |pool| < 3)
  {
    if vm.rows[i].Table? {
      TablesApart(vm, pool, i);
    } else {
      NewTableKeeps(vm, pool, i);
    }
  }

  lemma NewTableKeeps(vm: Vm, pool: set<nat>, i: nat)
    requires Settled(vm, pool) && i < |vm.rows| && vm.rows[i].NoTable?
    ensures var r := EnsureTable(vm, i);
      && Inv(r.vm, pool) && |r.vm.spares| <= 1
      && (|pool| >= 3 ==> r.frame != 0 && IdleOnly(r.vm, i))
      && (r.frame == 0 ==> r == Outcome(vm, 0, []) && |pool| < 3)
  {
    ObtainKeeps(vm, pool, i);
    var got := Obtain(vm, i);
    if got.frame == 0 {
      NothingLeft(vm, pool);
    } else {
      NoTableStays(vm, i);
      LinkKeeps(got.vm, pool, i, got.frame);
      if |pool| >= 3 {
        ObtainKeepsIdle(vm, pool, i);
        LinkKeepsIdle(got.vm, i, got.frame);
      }
    }
  }

  lemma LinkKeepsIdle(vm: Vm, i: nat, frame: nat)
    requires Shape(vm) && i < |vm.rows| && IdleOnly(vm, i)
    ensures IdleOnly(LinkTable(vm, i, frame), i)
  {
    forall k | 0 <= k < |vm.rows| && k != i && LinkTable(vm, i, frame).rows[k].Table?
      ensures Mapped(LinkTable(vm, i, frame).rows[k])
    {
      assert LinkTable(vm, i, frame).rows[k] == vm.rows[k];
    }
  }

  lemma NoTableStays(vm: Vm, i: nat)
    requires Shape(vm) && i < |vm.rows| && vm.rows[i].NoTable?
    ensures Obtain(vm, i).vm.rows[i].NoTable?
  {
  }

  lemma StoreSettles(vm: Vm, i: nat, j: nat, frame: nat)
    requires Shape(vm) && i < |vm.rows| && j < |vm.rows| && vm.rows[i].Table? && frame != 0
    ensures FrameAt(StorePage(vm, i, j, frame), i, j) == frame
    ensures IdleOnly(vm, i) ==> NoneIdle(StorePage(vm, i, j, frame))
  {
    var vm' := StorePage(vm, i, j, frame);
    assert vm'.rows[i].slots[j] == frame;
    forall k | 0 <= k < |vm.rows| && vm'.rows[k].Table? && IdleOnly(vm, i) ensures Mapped(vm'.rows[k]) {
      assert k != i ==> vm'.rows[k] == vm.rows[k];
    }
  }

  lemma EnsurePageKeeps(vm: Vm, pool: set<nat>, i: nat, j: nat)
    requires Inv(vm, pool) && |vm.spares| <= 1 && i < |vm.rows| && j < |vm.rows| && vm.rows[i].Table?
    requires |pool| >= 3 ==> IdleOnly(vm, i)
    ensures var r := EnsurePage(vm, i, j);
      && Settled(r.vm, pool)
      && (|pool| >= 3 ==> r.frame != 0)
      && (r.frame != 0 ==> FrameAt(r.vm, i, j) == r.frame)
      && (r.frame == 0 ==> r == Outcome(vm, 0, []) && |pool| < 3)
  {
    if vm.rows[i].slots[j] != 0 {
      assert Mapped(vm.rows[i]);
    } else {
      NewPageKeeps(vm, pool, i, j);
    }
  }

  lemma NewPageKeeps(vm: Vm, pool: set<nat>, i: nat, j: nat)
    requires Inv(vm, pool) && |vm.spares| <= 1 && i < |vm.rows| && j < |vm.rows| && vm.rows[i].Table?
    requires |pool| >= 3 ==> IdleOnly(vm, i)
    requires vm.rows[i].slots[j] == 0
    ensures var r := EnsurePage(vm, i, j);
      && Settled(r.vm, pool)
      && (|pool| >= 3 ==> r.frame != 0)
      && (r.frame != 0 ==> FrameAt(r.vm, i, j) == r.frame)
      && (r.frame == 0 ==> r == Outcome(vm, 0, []) && |pool| < 3)
  {
    ObtainKeeps(vm, pool, i);
    var got := Obtain(vm, i);
    if got.frame == 0 {
      if |pool| >= 3 {
        NothingLeft(vm, pool);
      }
    } else {
      SlotStaysEmpty(vm, i, j);
      StoreKeeps(got.vm, pool, i, j, got.frame);
      if |pool| >= 3 {
        ObtainKeepsIdle(vm, pool, i);
      }
      StoreSettles(got.vm, i, j, got.frame);
    }
  }

  lemma SlotStaysEmpty(vm: Vm, i: nat, j: nat)
    requires Shape(vm) && i < |vm.rows| && j < |vm.rows| && vm.rows[i].Table? && vm.rows[i].slots[j] == 0
    ensures Obtain(vm, i).vm.rows[i].Table? && Obtain(vm, i).vm.rows[i].slots[j] == 0
  {
  }

  /** The walk is its two halves, and the split holds in between. */
  lemma WalkHalves(vm: Vm, pool: set<nat>, i: nat, j: nat)
    requires Settled(vm, pool) && i < |vm.rows| && j < |vm.rows|
    ensures var table := EnsureTable(vm, i);
      && Inv(table.vm, pool)
      && (table.frame == 0 ==> Walk(vm, i, j) == table)
      && (table.frame != 0 ==>
            var page := EnsurePage(table.vm, i, j);
            Walk(vm, i, j) == page.(evicted := table.evicted + page.evicted))
  {
    EnsureTableKeeps(vm, pool, i);
  }

  /** Between walks the frames stay split among the five roles, at most one frame is spare and,
      with three frames or more, every level-2 table maps a page. A walk of any page succeeds
      exactly when the pool has at least three frames. */
  lemma WalkKeeps(vm: Vm, pool: set<nat>, i: nat, j: nat)
    requires Settled(vm, pool) && i < |vm.rows| && j < |vm.rows|
    ensures Settled(Walk(vm, i, j).vm, pool)
    ensures Walk(vm, i, j).frame != 0 <==> |pool| >= 3
    ensures Walk(vm, i, j).frame != 0 ==> FrameAt(Walk(vm, i, j).vm, i, j) == Walk(vm, i, j).frame
  {
    EnsureTableKeeps(vm, pool, i);
    var table := EnsureTable(vm, i);
    if table.frame != 0 {
      EnsurePageKeeps(table.vm, pool, i, j);
      var page := EnsurePage(table.vm, i, j);
      if page.frame != 0 {
        MappedNeedsThree(page.vm, pool, i, j);
      }
    }
  }

  // ----- exact effect

  /** Frames that a walk of the page must allocate. */
  function Needed(vm: Vm, i: nat, j: nat): nat
    requires Shape(vm) && i < |vm.rows| && j < |vm.rows|
  {
    if vm.rows[i].NoTable? then 2 else if vm.rows[i].slots[j] == 0 then 1 else 0
  }

  /** `vm'` maps what `vm` mapped, less the pages `gone`. */
  ghost predicate Loses(vm: Vm, vm': Vm, gone: seq<(nat, nat)>)
    requires Shape(vm) && Shape(vm') && |vm.rows| == |vm'.rows|
  {
    forall a: nat, b: nat | a < |vm.rows| && b < |vm.rows| ::
      FrameAt(vm', a, b) == if (a, b) in gone then 0 else FrameAt(vm, a, b)
  }

  /** ... and in addition maps page `(i, j)` to `frame`. */
  ghost predicate Gains(vm: Vm, vm': Vm, gone: seq<(nat, nat)>, i: nat, j: nat, frame: nat)
    requires Shape(vm) && Shape(vm') && |vm.rows| == |vm'.rows|
  {
    forall a: nat, b: nat | a < |vm.rows| && b < |vm.rows| ::
      FrameAt(vm', a, b) == if a == i && b == j then frame else if (a, b) in gone then 0 else FrameAt(vm, a, b)
  }

  ghost predicate AllMapped(vm: Vm, pages: seq<(nat, nat)>)
    requires Shape(vm)
  {
    forall e | e in pages :: e.0 < |vm.rows| && e.1 < |vm.rows| && FrameAt(vm, e.0, e.1) != 0
  }

  lemma EvictEffect(vm: Vm, keep: nat, ei: nat, ej: nat)
    requires Shape(vm) && ei < |vm.rows| && ej < |vm.rows| && FrameAt(vm, ei, ej) != 0
    ensures Loses(vm, EvictAt(vm, keep, ei, ej), [(ei, ej)])
  {
    var vm' := EvictAt(vm, keep, ei, ej);
    var slots := vm.rows[ei].slots[ej := 0];
    forall a: nat, b: nat | a < |vm.rows| && b < |vm.rows|
      ensures FrameAt(vm', a, b) == if (a, b) in [(ei, ej)] then 0 else FrameAt(vm, a, b)
    {
      assert (a, b) in [(ei, ej)] <==> a == ei && b == ej;
      assert a == ei && b != ej ==> slots[b] == vm.rows[ei].slots[b];
    }
  }

  lemma ObtainEffect(vm: Vm, pool: set<nat>, keep: nat)
    requires Inv(vm, pool)
    ensures Loses(vm, Obtain(vm, keep).vm, Obtain(vm, keep).evicted) && AllMapped(vm, Obtain(vm, keep).evicted)
  {
    ObtainKeeps(vm, pool, keep);
    var got := Obtain(vm, keep);
    if got.evicted != [] {
      EvictEffect(vm, keep, VictimRow(vm), VictimCol(vm));
      SameRows(vm, EvictOne(vm, keep), got.vm, got.evicted);
    } else {
      SameRows(vm, vm, got.vm, []);
    }
  }

  lemma SameRows(vm: Vm, vm1: Vm, vm2: Vm, gone: seq<(nat, nat)>)
    requires Shape(vm) && Shape(vm1) && Shape(vm2) && vm1.rows == vm2.rows && |vm.rows| == |vm1.rows|
    requires Loses(vm, vm1, gone)
    ensures Loses(vm, vm2, gone)
  {
  }

  lemma TableEffect(vm: Vm, pool: set<nat>, i: nat)
    requires Settled(vm, pool) && |pool| >= 3 && i < |vm.rows| && vm.rows[i].NoTable?
    ensures var r := EnsureTable(vm, i);
      && Loses(vm, r.vm, r.evicted) && AllMapped(vm, r.evicted)
      && |r.evicted| <= (if Waiting(vm) == 0 then 1 else 0)
      && (Waiting(vm) > 0 ==> Waiting(r.vm) == Waiting(vm) - 1)
  {
    EnsureTableKeeps(vm, pool, i);
    ObtainKeeps(vm, pool, i);
    ObtainEffect(vm, pool, i);
    NoTableStays(vm, i);
    LinkEffect(vm, Obtain(vm, i), i);
  }

  lemma LinkEffect(vm: Vm, got: Outcome, i: nat)
    requires Shape(vm) && Shape(got.vm) && |vm.rows| == |got.vm.rows|
    requires i < |vm.rows| && got.vm.rows[i].NoTable? && Loses(vm, got.vm, got.evicted)
    ensures Loses(vm, LinkTable(got.vm, i, got.frame), got.evicted)
  {
    var linked := LinkTable(got.vm, i, got.frame);
    forall a: nat, b: nat | a < |vm.rows| && b < |vm.rows| ensures FrameAt(linked, a, b) == FrameAt(got.vm, a, b) {
    }
  }

  lemma PageEffect(vm: Vm, pool: set<nat>, i: nat, j: nat)
    requires Inv(vm, pool) && |vm.spares| <= 1 && i < |vm.rows| && j < |vm.rows| && vm.rows[i].Table?
    requires |pool| >= 3 && IdleOnly(vm, i)
    ensures var r := EnsurePage(vm, i, j);
      && Gains(vm, r.vm, r.evicted, i, j, r.frame) && AllMapped(vm, r.evicted)
      && |r.evicted| <= (if Waiting(vm) == 0 && FrameAt(vm, i, j) == 0 then 1 else 0)
  {
    EnsurePageKeeps(vm, pool, i, j);
    if vm.rows[i].slots[j] == 0 {
      ObtainKeeps(vm, pool, i);
      ObtainEffect(vm, pool, i);
      SlotStaysEmpty(vm, i, j);
      StoreEffect(vm, Obtain(vm, i), i, j);
    }
  }

  lemma StoreEffect(vm: Vm, got: Outcome, i: nat, j: nat)
    requires Shape(vm) && Shape(got.vm) && |vm.rows| == |got.vm.rows|
    requires i < |vm.rows| && j < |vm.rows| && got.vm.rows[i].Table? && Loses(vm, got.vm, got.evicted)
    ensures Gains(vm, StorePage(got.vm, i, j, got.frame), got.evicted, i, j, got.frame)
  {
    var stored := StorePage(got.vm, i, j, got.frame);
    forall a: nat, b: nat | a < |vm.rows| && b < |vm.rows|
      ensures FrameAt(stored, a, b) == if a == i && b == j then got.frame else FrameAt(got.vm, a, b)
    {
    }
  }

  lemma SuccessEffect(vm: Vm, pool: set<nat>, i: nat, j: nat)
    requires Settled(vm, pool) && |pool| >= 3 && i < |vm.rows| && j < |vm.rows|
    ensures var r := Walk(vm, i, j);
      && Gains(vm, r.vm, r.evicted, i, j, r.frame)
      && AllMapped(vm, r.evicted)
      && (i, j) !in r.evicted
      && (|r.evicted| == 2 ==> r.evicted[0] != r.evicted[1])
      && (r.evicted != [] ==> |r.evicted| + Waiting(vm) <= Needed(vm, i, j) <= 2)
      && KeepsTable(vm, r.vm, i)
  {
    EnsureTableKeeps(vm, pool, i);
    var table := EnsureTable(vm, i);
    var page := EnsurePage(table.vm, i, j);
    PageEffect(table.vm, pool, i, j);
    if vm.rows[i].Table? {
      assert table.evicted + page.evicted == page.evicted;
    } else {
      TableEffect(vm, pool, i);
      EffectsAdd(vm, table, page, i, j);
    }
  }

  /** A pool of at most two frames maps nothing. */
  lemma SmallPool(vm: Vm, pool: set<nat>)
    requires Inv(vm, pool) && |pool| < 3
    ensures !AnyMapped(vm)
    ensures forall a: nat, b: nat | a < |vm.rows| && b < |vm.rows| :: FrameAt(vm, a, b) == 0
  {
    if i :| 0 <= i < |vm.rows| && Mapped(vm.rows[i]) {
      var j :| 0 <= j < |vm.rows[i].slots| && vm.rows[i].slots[j] != 0;
      MappedNeedsThree(vm, pool, i, j);
    }
    forall a: nat, b: nat | a < |vm.rows| && b < |vm.rows| ensures FrameAt(vm, a, b) == 0 {
      if FrameAt(vm, a, b) != 0 {
        MappedNeedsThree(vm, pool, a, b);
      }
    }
  }

  lemma FailureEffect(vm: Vm, pool: set<nat>, i: nat, j: nat)
    requires Settled(vm, pool) && |pool| < 3 && i < |vm.rows| && j < |vm.rows|
    ensures var r := Walk(vm, i, j);
      r.frame == 0 && r.evicted == [] && Loses(vm, r.vm, []) && KeepsTable(vm, r.vm, i)
  {
    EnsureTableKeeps(vm, pool, i);
    WalkKeeps(vm, pool, i, j);
    SmallPool(vm, pool);
    SmallPool(EnsureTable(vm, i).vm, pool);
    SmallPool(Walk(vm, i, j).vm, pool);
    ObtainKeeps(vm, pool, i);
    ObtainKeeps(EnsureTable(vm, i).vm, pool, i);
  }

  /** The mapping after a walk that succeeds is the old one less the evicted pages plus the
      requested page; at most two pages go, all of them were mapped, none of them is the
      requested one, and pages go only as far as the frames waiting on the two stacks do not
      suffice. A walk that fails evicts nothing and leaves the mapping as it was. Either way the
      table in use stays linked where it was. */
  lemma WalkEffect(vm: Vm, pool: set<nat>, i: nat, j: nat)
    requires Settled(vm, pool) && i < |vm.rows| && j < |vm.rows|
    ensures var r := Walk(vm, i, j);
      && AllMapped(vm, r.evicted)
      && (i, j) !in r.evicted
      && (|r.evicted| == 2 ==> r.evicted[0] != r.evicted[1])
      && (r.evicted != [] ==> |r.evicted| + Waiting(vm) <= Needed(vm, i, j) <= 2)
      && KeepsTable(vm, r.vm, i)
      && if r.frame != 0 then Gains(vm, r.vm, r.evicted, i, j, r.frame)
         else r.evicted == [] && Loses(vm, r.vm, [])
  {
    WalkKeeps(vm, pool, i, j);
    if |pool| >= 3 {
      SuccessEffect(vm, pool, i, j);
    } else {
      FailureEffect(vm, pool, i, j);
    }
  }

  lemma EffectsAdd(vm: Vm, table: Outcome, page: Outcome, i: nat, j: nat)
    requires Shape(vm) && Shape(table.vm) && Shape(page.vm) && |vm.rows| == |table.vm.rows| == |page.vm.rows|
    requires i < |vm.rows| && j < |vm.rows| && FrameAt(vm, i, j) == 0
    requires Loses(vm, table.vm, table.evicted) && AllMapped(vm, table.evicted)
    requires Gains(table.vm, page.vm, page.evicted, i, j, page.frame) && AllMapped(table.vm, page.evicted)
    ensures Gains(vm, page.vm, table.evicted + page.evicted, i, j, page.frame)
    ensures AllMapped(vm, table.evicted + page.evicted) && (i, j) !in table.evicted + page.evicted
    ensures forall e | e in page.evicted :: e !in table.evicted
  {
    forall e | e in page.evicted
      ensures e.0 < |vm.rows| && e.1 < |vm.rows| && FrameAt(vm, e.0, e.1) != 0 && e !in table.evicted
    {
      assert FrameAt(table.vm, e.0, e.1) != 0;
    }
  }

  // ----- which frames are handed out

  /** The frame handed out after an eviction is the victim's, or that of its level-2 table when
      that was freed too; the victim's own frame then stays spare. */
  lemma ReusedFrame(vm: Vm, keep: nat)
    requires Shape(vm) && AnyMapped(vm) && vm.frees == [] && vm.spares == []
    ensures var r, c := VictimRow(vm), VictimCol(vm);
      var page, table := FrameAt(vm, r, c), vm.rows[r].addr;
      var alone := r != keep && forall k: nat | k < |vm.rows| && k != c :: FrameAt(vm, r, k) == 0;
      var (after, frame) := GetFrame(EvictOne(vm, keep));
      if alone then frame == table && after.spares == [page] else frame == page && after.spares == []
  {
    var r, c := VictimRow(vm), VictimCol(vm);
    var slots := vm.rows[r].slots[c := 0];
    assert FrameAt(vm, r, c) != 0;
    if AllZero(slots) {
      assert forall k: nat | k < |vm.rows| && k != c :: slots[k] == vm.rows[r].slots[k];
    } else {
      var k: nat :| k < |slots| && slots[k] != 0;
      assert FrameAt(vm, r, k) != 0;
    }
  }

  /** Never-used frames are handed out last pushed first: to the level-2 table, then to the page. */
  lemma FreshFrames(vm: Vm, i: nat, j: nat)
    requires Shape(vm) && i < |vm.rows| && j < |vm.rows| && vm.rows[i].NoTable? && |vm.frees| >= 2
    requires forall f | f in vm.frees :: f != 0
    ensures var r, n := Walk(vm, i, j), |vm.frees|;
      && r.frame == vm.frees[n - 2] && r.evicted == [] && r.vm.frees == vm.frees[..n - 2]
      && r.vm.rows[i].Table? && r.vm.rows[i].addr == vm.frees[n - 1]
  {
    var n := |vm.frees|;
    assert vm.frees[n - 1] in vm.frees && vm.frees[n - 2] in vm.frees;
    assert vm.frees[..n - 1][..n - 2] == vm.frees[..n - 2];
  }

  // ----- how many pages a walk evicts

  /** The victim is the only page of its level-2 table. */
  predicate LonelyVictim(vm: Vm)
    requires Shape(vm) && AnyMapped(vm)
  {
    AllZero(vm.rows[VictimRow(vm)].slots[VictimCol(vm) := 0])
  }

  /** The evictions of a successful walk: none when the waiting frames suffice; one when two are
      short but the first eviction frees a table as well; else as many as frames are short. */
  function Evictions(vm: Vm, i: nat, j: nat): nat
    requires Shape(vm) && i < |vm.rows| && j < |vm.rows|
  {
    if Needed(vm, i, j) <= Waiting(vm) then 0
    else if Needed(vm, i, j) - Waiting(vm) == 2 && AnyMapped(vm) && LonelyVictim(vm) then 1
    else Needed(vm, i, j) - Waiting(vm)
  }

  /** An eviction for the sake of a row without a table leaves one spare frame, or two when the
      victim was alone. */
  lemma SparesLeft(vm: Vm, keep: nat)
    requires Shape(vm) && AnyMapped(vm) && vm.spares == [] && keep < |vm.rows| && vm.rows[keep].NoTable?
    ensures |EvictOne(vm, keep).spares| == if LonelyVictim(vm) then 2 else 1
  {
  }

  /** Whether an allocation evicts. */
  lemma ObtainEvicts(vm: Vm, pool: set<nat>, keep: nat)
    requires Inv(vm, pool) && Obtain(vm, keep).frame != 0
    ensures |Obtain(vm, keep).evicted| == if Waiting(vm) > 0 then 0 else 1
  {
    ObtainKeeps(vm, pool, keep);
    GetFrameKeeps(vm, pool);
  }

  /** Frames waiting after an allocation for a row without a table. */
  lemma WaitingAfterObtain(vm: Vm, pool: set<nat>, keep: nat)
    requires Inv(vm, pool) && keep < |vm.rows| && vm.rows[keep].NoTable? && Obtain(vm, keep).frame != 0
    ensures Waiting(Obtain(vm, keep).vm) ==
            if Waiting(vm) > 0 then Waiting(vm) - 1 else if AnyMapped(vm) && LonelyVictim(vm) then 1 else 0
  {
    ObtainKeeps(vm, pool, keep);
    GetFrameKeeps(vm, pool);
    if Waiting(vm) == 0 {
      SparesLeft(vm, keep);
      EvictedFrame(vm, pool, keep);
    }
  }

  /** Frames waiting once a row got its table. */
  lemma WaitingAfterTable(vm: Vm, pool: set<nat>, i: nat)
    requires Settled(vm, pool) && |pool| >= 3 && i < |vm.rows| && vm.rows[i].NoTable?
    ensures var r := EnsureTable(vm, i);
      && |r.evicted| == (if Waiting(vm) > 0 then 0 else 1)
      && Waiting(r.vm) == if Waiting(vm) > 0 then Waiting(vm) - 1 else if AnyMapped(vm) && LonelyVictim(vm) then 1 else 0
  {
    EnsureTableKeeps(vm, pool, i);
    ObtainEvicts(vm, pool, i);
    WaitingAfterObtain(vm, pool, i);
  }

  /** The number of pages that a walk evicts, exactly. */
  lemma WalkEvictions(vm: Vm, pool: set<nat>, i: nat, j: nat)
    requires Settled(vm, pool) && i < |vm.rows| && j < |vm.rows|
    ensures |Walk(vm, i, j).evicted| == if Walk(vm, i, j).frame == 0 then 0 else Evictions(vm, i, j)
  {
    WalkKeeps(vm, pool, i, j);
    if |pool| < 3 {
      FailureEffect(vm, pool, i, j);
    } else {
      EnsureTableKeeps(vm, pool, i);
      var table := EnsureTable(vm, i);
      EnsurePageKeeps(table.vm, pool, i, j);
      if vm.rows[i].NoTable? {
        WaitingAfterTable(vm, pool, i);
        FreshTableEmpty(vm, i, j);
      }
      if table.vm.rows[i].slots[j] == 0 {
        ObtainEvicts(table.vm, pool, i);
      }
    }
  }

  lemma FreshTableEmpty(vm: Vm, i: nat, j: nat)
    requires Shape(vm) && i < |vm.rows| && j < |vm.rows| && vm.rows[i].NoTable? && EnsureTable(vm, i).frame != 0
    ensures EnsureTable(vm, i).vm.rows[i].Table? && EnsureTable(vm, i).vm.rows[i].slots[j] == 0
  {
  }

  /** Walking a page that is mapped changes nothing and returns its frame. */
  lemma WalkOfMapped(vm: Vm, i: nat, j: nat)
    requires Shape(vm) && i < |vm.rows| && j < |vm.rows| && FrameAt(vm, i, j) != 0 && vm.rows[i].addr != 0
    ensures Walk(vm, i, j) == Outcome(vm, FrameAt(vm, i, j), [])
  {
  }

  /** The data frames shrink by exactly one with each eviction. */
  lemma EvictOneShrinks(vm: Vm, pool: set<nat>, keep: nat)
    requires Inv(vm, pool) && vm.frees == [] && AnyMapped(vm)
    ensures Inv(EvictOne(vm, keep), pool)
    ensures |DataFrames(EvictOne(vm, keep))| == |DataFrames(vm)| - 1
    ensures |vm.spares| == 0 ==> 1 <= |EvictOne(vm, keep).spares| <= 2
  {
    EvictKeeps(vm, pool, keep, VictimRow(vm), VictimCol(vm));
  }
}
