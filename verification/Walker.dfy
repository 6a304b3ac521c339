/** The page-table walk in place: words of frames, the two frame stacks, the cursors. */
module Walker {
  import opened Bits
  import opened Frames
  import opened PageTable
  import opened FrameLaws
  import opened WalkLaws
  import opened Backing
  import opened Boot
  import opened Translation
  import Tlb

  class PageTableWalker {
    const logPageSize: nat
    const entriesPerTable: nat
    const tlb: Tlb.LruTlb
    const allocator: PageAllocator
    const rootPage: Page
    var rootInitialized: bool
    var spareFrames: seq<nat>
    var evictL1: nat
    var evictL2: nat

    /** The value-level state that the fields and frames stand for. */
    ghost var vm: Vm

    ghost function Pool(): set<nat> {
      allocator.pageMap.Keys
    }

    /** A frame is a page, and a table fills a frame with four-byte words. */
    ghost predicate Sized() {
      tlb.logPageSize == logPageSize && entriesPerTable == Entries(logPageSize) && logPageSize >= 2
    }

    /** What never changes: a table fills a frame, and the root lies in the pool. */
    ghost predicate Fixed() {
      && allocator.MapValid() && tlb.Fixed()
      && entriesPerTable == allocator.wordsPerFrame >= 1
      && rootPage.address in Pool() && allocator.pageMap[rootPage.address] == rootPage
    }

    /** Before the first walk the root frame is unwritten and the table is empty. */
    ghost predicate LaidOut()
      reads `vm, `rootInitialized, allocator`memory
    {
      if rootInitialized then Backs(allocator.memory, vm.root, vm.rows)
      else forall i | 0 <= i < |vm.rows| :: vm.rows[i].NoTable?
    }

    /** The fields and frames are exactly the state `vm`. */
    ghost predicate Valid()
      requires Fixed()
      reads this, allocator, allocator.pages, allocator.buffers
    {
      && allocator.Valid()
      && |vm.rows| == entriesPerTable
      && vm == Vm(rootPage.address, vm.rows, allocator.frameStack, spareFrames, evictL1, evictL2)
      && LaidOut()
    }

    constructor (pages: PageAllocator, root: Page, cache: Tlb.LruTlb, logPageSize: nat, ghost start: Vm)
      requires pages.MapValid() && pages.Valid() && root.address in pages.pageMap && pages.pageMap[root.address] == root
      requires logPageSize >= 2 && Entries(logPageSize) == pages.wordsPerFrame == |start.rows| >= 1
      requires cache.Fixed() && cache.logPageSize == logPageSize
      requires forall i | 0 <= i < |start.rows| :: start.rows[i].NoTable?
      requires start == Vm(root.address, start.rows, pages.frameStack, [], 0, 0)
      ensures Fixed() && Sized() && Valid() && vm == start
      ensures allocator == pages && rootPage == root && tlb == cache && this.logPageSize == logPageSize
    {
      this.logPageSize := logPageSize;
      entriesPerTable := Entries(logPageSize);
      allocator, rootPage, tlb := pages, root, cache;
      rootInitialized, spareFrames, evictL1, evictL2 := false, [], 0, 0;
      vm := start;
    }

    static method TakeRoot(logPageSize: nat, logPoolSize: nat) returns (pages: PageAllocator, root: Page)
      ensures pages.MapValid() && pages.Valid() && pages.wordsPerFrame == Entries(logPageSize)
      ensures pages.pageMap.Keys == PoolOf(logPageSize, logPoolSize)
      ensures root.address in pages.pageMap && pages.pageMap[root.address] == root
      ensures root.address == Start(logPageSize, logPoolSize).root && pages.frameStack == Start(logPageSize, logPoolSize).frees
      ensures fresh(pages) && fresh(pages.pages) && fresh(pages.buffers)
    {
      StartPops(logPageSize, logPoolSize);
      pages := new PageAllocator(logPageSize, logPoolSize);
      var rootAddress := pages.RequestPage();
      root := pages.PageAtAddress(rootAddress);
    }

    /** The tool's start: an allocator whose last frame becomes the root, and an empty TLB. */
    static method Create(logPageSize: nat, logPoolSize: nat, logNumRows: nat, associativity: nat)
      returns (walker: PageTableWalker)
      requires logPageSize >= 2 && logPageSize + logPoolSize <= 31 && associativity >= 1
      ensures fresh(walker) && fresh(walker.allocator) && fresh(walker.allocator.pages) && fresh(walker.allocator.buffers)
      ensures fresh(walker.tlb) && fresh(walker.tlb.sets)
      ensures walker.Fixed() && walker.Sized() && walker.Valid() && walker.tlb.Valid()
      ensures walker.Pool() == PoolOf(logPageSize, logPoolSize)
      ensures Mmu(walker.vm, walker.tlb.model) == Initial(logPageSize, logPoolSize, logNumRows, associativity)
      ensures walker.logPageSize == logPageSize && Good(logPageSize, walker.Pool(), Mmu(walker.vm, walker.tlb.model))
    {
      InitialGood(logPageSize, logPoolSize, logNumRows, associativity);
      var pages, root := TakeRoot(logPageSize, logPoolSize);
      var cache := new Tlb.LruTlb(logPageSize, logNumRows, associativity);
      walker := new PageTableWalker(pages, root, cache, logPageSize, Start(logPageSize, logPoolSize));
    }

    /** The page of a level-2 table in use exists and is not free. */
    lemma TablePage(i: nat)
      requires Fixed() && Valid() && Apart(vm, Pool()) && i < entriesPerTable && vm.rows[i].Table?
      ensures vm.rows[i].addr in Pool()
      ensures var page := allocator.pageMap[vm.rows[i].addr];
        page.size == entriesPerTable && page.address == vm.rows[i].addr && !page.isFree
    {
    }

    lemma RootInUse()
      requires Fixed() && Valid() && vm.root !in vm.frees
      ensures rootPage.size == entriesPerTable && !rootPage.isFree
    {
    }

    /** A level-2 table in use is readable: its page exists, is not free, and is written. */
    lemma TableReadable(i: nat)
      requires Fixed() && Valid() && rootInitialized && Apart(vm, Pool()) && i < entriesPerTable && vm.rows[i].Table?
      ensures vm.rows[i].addr in Pool()
      ensures var page := allocator.pageMap[vm.rows[i].addr];
        && page.Valid() && page.size == entriesPerTable && page.address == vm.rows[i].addr && !page.isFree && page != rootPage
        && forall j | 0 <= j < entriesPerTable :: page.data[j] == Written(vm.rows[i].slots[j])
    {
      assert Holds(allocator.memory, vm.rows[i].addr, vm.rows[i].slots);
      var page := allocator.pageMap[vm.rows[i].addr];
      assert forall j | 0 <= j < entriesPerTable :: page.data[j] == page.data[..][j];
    }

    lemma RootReadable()
      requires Fixed() && Valid() && vm.root !in vm.frees
      ensures rootPage.Valid() && rootPage.size == entriesPerTable && !rootPage.isFree
      ensures rootInitialized ==> forall i | 0 <= i < entriesPerTable :: rootPage.data[i] == Written(RootWord(vm.rows[i]))
    {
      assert rootInitialized ==> Holds(allocator.memory, vm.root, RootWords(vm.rows));
      assert forall j | 0 <= j < entriesPerTable :: rootPage.data[j] == rootPage.data[..][j];
    }

    /** One word written through a page pointer is one word of memory. */
    method Write(page: Page, word: nat, index: nat)
      requires Fixed() && allocator.Valid() && page.address in Pool() && allocator.pageMap[page.address] == page
      requires !page.isFree && index < page.size
      modifies page.data, allocator`memory
      ensures allocator.Valid()
      ensures allocator.memory == Poke(old(allocator.memory), page.address, index, word)
    {
      page.SetWordAt(word, index);
      allocator.memory := Poke(allocator.memory, page.address, index, word);
    }

    /** Writes a word of the root or of a level-2 table: the table it makes is known. */
    method Rewrite(page: Page, word: nat, index: nat, ghost rows: seq<Row>)
      requires Fixed() && Valid() && rootInitialized && tlb.Valid()
      requires page.address in Pool() && allocator.pageMap[page.address] == page && !page.isFree && index < page.size
      requires |rows| == entriesPerTable && Backs(Poke(allocator.memory, page.address, index, word), vm.root, rows)
      modifies `vm, page.data, allocator`memory
      ensures Valid() && vm == old(vm).(rows := rows)
      ensures tlb.Valid() && tlb.model == old(tlb.model)
    {
      Write(page, word, index);
      vm := vm.(rows := rows);
    }

    /** Clears every word of a page. */
    method Clear(page: Page)
      requires Fixed() && allocator.Valid() && page.address in Pool() && allocator.pageMap[page.address] == page
      requires !page.isFree
      modifies page.data, allocator`memory
      ensures allocator.Valid()
      ensures allocator.memory == old(allocator.memory)[page.address := seq(page.size, _ => Written(0))]
    {
      ghost var before := allocator.memory;
      for idx := 0 to page.size
        invariant allocator.Valid()
        invariant allocator.memory == before[page.address := allocator.memory[page.address]]
        invariant forall k | 0 <= k < idx :: allocator.memory[page.address][k] == Written(0)
      {
        Write(page, 0, idx);
      }
      assert allocator.memory[page.address] == seq(page.size, _ => Written(0));
    }

    method GetFrame() returns (addr: nat)
      requires Fixed() && Valid() && tlb.Valid()
      modifies `vm, `spareFrames, allocator`frameStack, allocator.pages
      ensures addr == old(PageTable.GetFrame(vm)).1 && vm == old(PageTable.GetFrame(vm)).0
      ensures Valid() && tlb.Valid() && tlb.model == old(tlb.model)
    {
      addr := allocator.RequestPage();
      vm := PageTable.GetFrame(vm).0;
      if addr == 0 && spareFrames != [] {
        addr := spareFrames[|spareFrames| - 1];
        spareFrames := spareFrames[..|spareFrames| - 1];
      }
    }

    /** Scans one level-2 table for its first word in use, cyclically from `startJ`. */
    method ScanTable(ei: nat, l2P: Page, startJ: nat) returns (found: bool, ej: nat)
      requires Fixed() && Valid() && rootInitialized && Apart(vm, Pool())
      requires ei < entriesPerTable && startJ < entriesPerTable && vm.rows[ei].Table?
      requires allocator.pageMap[vm.rows[ei].addr] == l2P
      ensures found == Mapped(vm.rows[ei])
      ensures found ==> ej == Cyc(startJ, FirstSlot(vm.rows[ei].slots, startJ, 0), entriesPerTable)
    {
      ghost var slots := vm.rows[ei].slots;
      TableReadable(ei);
      SlotSearchComplete(slots, startJ);
      for j := 0 to entriesPerTable
        invariant FirstSlot(slots, startJ, j) == FirstSlot(slots, startJ, 0)
      {
        CycIsMask(startJ, j, entriesPerTable);
        ej := Low(startJ + j, entriesPerTable);
        var d := l2P.WordAt(ej);
        if d != 0 {
          return true, ej;
        }
      }
      return false, 0;
    }

    /** Scans one row: its level-2 table, if it has one, from the cursor's column in the cursor's
        own row and from column 0 in the others. */
    method ScanRow(ei: nat) returns (found: bool, ej: nat)
      requires Fixed() && Valid() && rootInitialized && Apart(vm, Pool()) && ei < entriesPerTable
      ensures found == Mapped(vm.rows[ei])
      ensures found ==>
        vm.rows[ei].Table? && ej == Cyc(StartCol(vm, ei), FirstSlot(vm.rows[ei].slots, StartCol(vm, ei), 0), entriesPerTable)
    {
      RootReadable();
      var l2Addr := rootPage.WordAt(ei);
      if l2Addr == 0 {
        return false, 0;
      }
      var l2P := allocator.PageAtAddress(l2Addr);
      found, ej := ScanTable(ei, l2P, if ei == evictL1 then evictL2 else 0);
    }

    /** Scans the rows cyclically from the cursor for one that maps a page. */
    method FindVictim() returns (found: bool, ei: nat, ej: nat)
      requires Fixed() && Valid() && rootInitialized && Apart(vm, Pool())
      ensures found == (FirstRow(vm, 0) < entriesPerTable)
      ensures found ==>
        && ei == Cyc(vm.c1, FirstRow(vm, 0), entriesPerTable)
        && vm.rows[ei].Table?
        && ej == Cyc(StartCol(vm, ei), FirstSlot(vm.rows[ei].slots, StartCol(vm, ei), 0), entriesPerTable)
    {
      for i := 0 to entriesPerTable
        invariant FirstRow(vm, i) == FirstRow(vm, 0)
      {
        CycIsMask(evictL1, i, entriesPerTable);
        RowSearchStep(vm, i);
        ei := Low(evictL1 + i, entriesPerTable);
        found, ej := ScanRow(ei);
        if found {
          return;
        }
      }
      return false, 0, 0;
    }

    /** Evicts one page, for the sake of row `l1Idx`, and flushes the TLB. */
    method EvictOne(l1Idx: nat) returns (ok: bool)
      requires Fixed() && Valid() && rootInitialized && Apart(vm, Pool()) && tlb.Valid() && l1Idx < entriesPerTable
      modifies `vm, `spareFrames, `evictL1, `evictL2, allocator.buffers, allocator`memory, tlb, tlb.sets
      ensures Valid() && tlb.Valid()
      ensures ok == old(AnyMapped(vm))
      ensures ok ==> vm == old(PageTable.EvictOne(vm, l1Idx)) && tlb.model == Tlb.Flush(old(tlb.model), 1)
      ensures !ok ==> vm == old(vm) && tlb.model == old(tlb.model)
    {
      RowSearchComplete(vm);
      var ei, ej;
      ok, ei, ej := FindVictim();
      if ok {
        assert ei == VictimRow(vm) && ej == VictimCol(vm);
        EvictSlot(l1Idx, ei, ej);
      }
    }

    method EvictSlot(l1Idx: nat, ei: nat, ej: nat)
      requires Fixed() && Valid() && rootInitialized && Apart(vm, Pool()) && tlb.Valid()
      requires ei < entriesPerTable && ej < entriesPerTable && FrameAt(vm, ei, ej) != 0
      modifies `vm, `spareFrames, `evictL1, `evictL2, allocator.buffers, allocator`memory, tlb, tlb.sets
      ensures Valid() && tlb.Valid()
      ensures vm == old(EvictAt(vm, l1Idx, ei, ej)) && tlb.model == Tlb.Flush(old(tlb.model), 1)
    {
      EvictInSteps(vm, l1Idx, ei, ej);
      DropPageApart(vm, Pool(), ei, ej);
      UnmapPage(ei, ej);
      Reclaim(l1Idx, ei);
      SetCursors(ei, ej);
    }

    /** The words of the level-2 table of row `i`. */
    ghost function TableBuffer(i: nat): array<Word>
      requires Apart(vm, Pool()) && i < |vm.rows| && vm.rows[i].Table?
      reads `vm
    {
      allocator.pageMap[vm.rows[i].addr].data
    }

    /** Unmaps a page and flushes the TLB. */
    method UnmapPage(ei: nat, ej: nat)
      requires Fixed() && Valid() && rootInitialized && Apart(vm, Pool()) && tlb.Valid()
      requires ei < entriesPerTable && ej < entriesPerTable && FrameAt(vm, ei, ej) != 0
      modifies `vm, `spareFrames, TableBuffer(ei), allocator`memory, tlb, tlb.sets
      ensures Valid() && tlb.Valid()
      ensures vm == old(DropPage(vm, ei, ej)) && tlb.model == Tlb.Flush(old(tlb.model), 1)
    {
      TakePage(ei, ej);
      tlb.FlushNoLock();
    }

    /** Unmaps a page; its frame becomes spare. */
    method TakePage(ei: nat, ej: nat)
      requires Fixed() && Valid() && rootInitialized && Apart(vm, Pool()) && tlb.Valid()
      requires ei < entriesPerTable && ej < entriesPerTable && FrameAt(vm, ei, ej) != 0
      modifies `vm, `spareFrames, TableBuffer(ei), allocator`memory
      ensures Valid() && tlb.Valid() && tlb.model == old(tlb.model)
      ensures vm == old(DropPage(vm, ei, ej))
    {
      var l2Addr, d := ReadSlot(ei, ej);
      spareFrames := spareFrames + [d];
      vm := vm.(spares := vm.spares + [d]);
      Store(l2Addr, ei, ej, 0);
    }

    /** The address of a level-2 table and one of its words. */
    method ReadSlot(ei: nat, ej: nat) returns (l2Addr: nat, d: nat)
      requires Fixed() && Valid() && rootInitialized && Apart(vm, Pool())
      requires ei < entriesPerTable && ej < entriesPerTable && vm.rows[ei].Table?
      ensures l2Addr == vm.rows[ei].addr && d == vm.rows[ei].slots[ej]
    {
      TableReadable(ei);
      RootReadable();
      l2Addr := rootPage.WordAt(ei);
      var l2P := allocator.PageAtAddress(l2Addr);
      d := l2P.WordAt(ej);
    }

    /** Unlinks a level-2 table that is empty and not in use; its frame becomes spare. */
    method Reclaim(l1Idx: nat, ei: nat)
      requires Fixed() && Valid() && rootInitialized && Apart(vm, Pool()) && ei < entriesPerTable && vm.rows[ei].Table?
      requires tlb.Valid()
      modifies `vm, `spareFrames, rootPage.data, allocator`memory
      ensures Valid() && vm == old(DropTable(vm, l1Idx, ei))
      ensures tlb.Valid() && tlb.model == old(tlb.model)
    {
      if ei != l1Idx {
        var empty := IsEmpty(ei);
        if empty {
          TakeTable(ei);
        }
      }
    }

    /** Unlinks a level-2 table; its frame becomes spare. */
    method TakeTable(ei: nat)
      requires Fixed() && Valid() && rootInitialized && Apart(vm, Pool()) && ei < entriesPerTable && vm.rows[ei].Table?
      requires tlb.Valid()
      modifies `vm, `spareFrames, rootPage.data, allocator`memory
      ensures Valid() && tlb.Valid() && tlb.model == old(tlb.model)
      ensures vm == old(vm.(rows := vm.rows[ei := NoTable], spares := vm.spares + [vm.rows[ei].addr]))
    {
      RootReadable();
      var l2Addr := rootPage.WordAt(ei);
      spareFrames := spareFrames + [l2Addr];
      vm := vm.(spares := vm.spares + [l2Addr]);
      UnlinkRoot(ei);
    }

    method UnlinkRoot(ei: nat)
      requires Fixed() && Valid() && rootInitialized && Apart(vm, Pool()) && ei < entriesPerTable
      requires tlb.Valid()
      modifies `vm, rootPage.data, allocator`memory
      ensures Valid() && tlb.Valid() && tlb.model == old(tlb.model)
      ensures vm == old(vm.(rows := vm.rows[ei := NoTable]))
    {
      RootInUse();
      PokeUnlink(allocator.memory, vm, Pool(), ei);
      Rewrite(rootPage, 0, ei, vm.rows[ei := NoTable]);
    }

    /** The next search starts behind the victim; only past the last column does the row advance. */
    method SetCursors(ei: nat, ej: nat)
      requires Fixed() && Valid() && Shape(vm) && ei < entriesPerTable && ej < entriesPerTable && tlb.Valid()
      modifies `vm, `evictL1, `evictL2
      ensures Valid() && tlb.Valid() && tlb.model == old(tlb.model)
      ensures vm == old(MoveCursors(vm, ei, ej))
    {
      evictL1, evictL2 := Behind(ei, ej, entriesPerTable);
      vm := MoveCursors(vm, ei, ej);
    }

    static method Behind(ei: nat, ej: nat, entries: nat) returns (l1: nat, l2: nat)
      requires ei < entries && ej < entries
      ensures l1 == (if Cyc(ej, 1, entries) == 0 then Cyc(ei, 1, entries) else ei) && l2 == Cyc(ej, 1, entries)
    {
      CycIsMask(ej, 1, entries);
      CycIsMask(ei, 1, entries);
      l1 := ei;
      l2 := Low(ej + 1, entries);
      if l2 == 0 {
        l1 := Low(l1 + 1, entries);
      }
    }

    /** Whether no word of the level-2 table of row `ei` is in use. */
    method IsEmpty(ei: nat) returns (empty: bool)
      requires Fixed() && Valid() && rootInitialized && Apart(vm, Pool()) && ei < entriesPerTable && vm.rows[ei].Table?
      ensures empty == AllZero(vm.rows[ei].slots)
    {
      TableReadable(ei);
      RootReadable();
      var l2Addr := rootPage.WordAt(ei);
      var l2P := allocator.PageAtAddress(l2Addr);
      empty := true;
      for k := 0 to entriesPerTable
        invariant empty && forall m | 0 <= m < k :: vm.rows[ei].slots[m] == 0
      {
        var word := l2P.WordAt(k);
        if word != 0 {
          empty := false;
          break;
        }
      }
    }

    /** Evicts one page, if there is one, and takes the frame that this leaves. */
    method EvictAndGet(l1Idx: nat) returns (ok: bool, frame: nat)
      requires Fixed() && Valid() && rootInitialized && Apart(vm, Pool())
      requires tlb.Valid() && l1Idx < entriesPerTable
      modifies `vm, `spareFrames, `evictL1, `evictL2
      modifies allocator`frameStack, allocator`memory, allocator.pages, allocator.buffers, tlb, tlb.sets
      ensures Valid() && tlb.Valid()
      ensures ok == old(AnyMapped(vm))
      ensures ok ==> (vm, frame) == PageTable.GetFrame(PageTable.EvictOne(old(vm), l1Idx))
      ensures ok ==> tlb.model == Tlb.Flush(old(tlb.model), 1)
      ensures !ok ==> vm == old(vm) && tlb.model == old(tlb.model) && frame == 0
    {
      frame := 0;
      ok := EvictOne(l1Idx);
      if ok {
        frame := GetFrame();
      }
    }

    /** With no frame waiting: evicts until there is one, or nothing is left to evict. */
    method EvictUntilFrame(l1Idx: nat) returns (frame: nat, ghost evicted: seq<(nat, nat)>)
      requires Fixed() && Valid() && rootInitialized && tlb.Valid() && l1Idx < entriesPerTable
      requires Ready(vm, Pool(), l1Idx) && PageTable.GetFrame(vm).1 == 0
      modifies `vm, `spareFrames, `evictL1, `evictL2
      modifies allocator`frameStack, allocator`memory, allocator.pages, allocator.buffers, tlb, tlb.sets
      ensures Valid() && tlb.Valid()
      ensures Outcome(vm, frame, evicted) == Obtain(old(vm), l1Idx)
      ensures tlb.model == Tlb.Flush(old(tlb.model), |evicted|)
    {
      ghost var before, cached := vm, tlb.model;
      frame, evicted := 0, [];
      while frame == 0
        invariant Valid() && tlb.Valid()
        invariant if frame == 0 then vm == before && evicted == [] && tlb.model == cached
                  else Outcome(vm, frame, evicted) == Obtain(before, l1Idx) && tlb.model == Tlb.Flush(cached, |evicted|)
        decreases frame == 0
      {
        var ok;
        ok, frame := EvictAndGet(l1Idx);
        if !ok {
          break;
        }
        evicted := Obtain(before, l1Idx).evicted;
      }
    }

    /** Takes a frame for row `l1Idx`, evicting while none is left. */
    method Allocate(l1Idx: nat) returns (frame: nat, ghost evicted: seq<(nat, nat)>)
      requires Fixed() && Valid() && rootInitialized && tlb.Valid() && l1Idx < entriesPerTable
      requires Ready(vm, Pool(), l1Idx)
      modifies `vm, `spareFrames, `evictL1, `evictL2
      modifies allocator`frameStack, allocator`memory, allocator.pages, allocator.buffers, tlb, tlb.sets
      ensures Valid() && tlb.Valid()
      ensures Outcome(vm, frame, evicted) == Obtain(old(vm), l1Idx)
      ensures tlb.model == Tlb.Flush(old(tlb.model), |evicted|)
    {
      evicted := [];
      frame := GetFrame();
      if frame == 0 {
        frame, evicted := EvictUntilFrame(l1Idx);
      }
    }

    /** Page fault for a level-2 table: links a cleared frame into the root. */
    method NewTable(l1Idx: nat) returns (l2PageAddr: nat, ghost evicted: seq<(nat, nat)>)
      requires Fixed() && Valid() && rootInitialized && tlb.Valid()
      requires l1Idx < entriesPerTable && vm.rows[l1Idx].NoTable?
      requires Ready(vm, Pool(), l1Idx)
      modifies `vm, `spareFrames, `evictL1, `evictL2
      modifies allocator`frameStack, allocator`memory, allocator.pages, allocator.buffers, tlb, tlb.sets
      ensures Valid() && tlb.Valid()
      ensures Outcome(vm, l2PageAddr, evicted) == EnsureTable(old(vm), l1Idx)
      ensures tlb.model == Tlb.Flush(old(tlb.model), |evicted|)
    {
      ghost var got := Obtain(vm, l1Idx);
      assert EnsureTable(vm, l1Idx) == if got.frame == 0 then got else got.(vm := LinkTable(got.vm, l1Idx, got.frame));
      l2PageAddr, evicted := Allocate(l1Idx);
      if l2PageAddr != 0 {
        Link(l1Idx, l2PageAddr);
      }
    }

    method Link(l1Idx: nat, frame: nat)
      requires Fixed() && Valid() && rootInitialized && l1Idx < entriesPerTable
      requires frame in Pool() && frame !in vm.frees && Apart(vm, Pool() - {frame})
      requires tlb.Valid()
      modifies `vm, allocator`memory, rootPage.data, allocator.pageMap[frame].data
      ensures Valid() && vm == LinkTable(old(vm), l1Idx, frame)
      ensures tlb.Valid() && tlb.model == old(tlb.model)
    {
      ClearFrame(frame);
      LinkRoot(l1Idx, frame);
    }

    method ClearFrame(frame: nat)
      requires Fixed() && Valid() && rootInitialized
      requires frame in Pool() && frame !in vm.frees && Apart(vm, Pool() - {frame})
      requires tlb.Valid()
      modifies allocator`memory, allocator.pageMap[frame].data
      ensures Valid() && Holds(allocator.memory, frame, seq(entriesPerTable, _ => 0))
      ensures tlb.Valid() && tlb.model == old(tlb.model)
    {
      var newL2 := allocator.PageAtAddress(frame);
      FillElsewhere(allocator.memory, vm, Pool() - {frame}, frame, seq(entriesPerTable, _ => Written(0)));
      Clear(newL2);
    }

    method LinkRoot(l1Idx: nat, frame: nat)
      requires Fixed() && Valid() && rootInitialized && l1Idx < entriesPerTable
      requires frame in Pool() && Apart(vm, Pool() - {frame})
      requires Holds(allocator.memory, frame, seq(entriesPerTable, _ => 0))
      requires tlb.Valid()
      modifies `vm, allocator`memory, rootPage.data
      ensures Valid() && vm == LinkTable(old(vm), l1Idx, frame)
      ensures tlb.Valid() && tlb.model == old(tlb.model)
    {
      RootInUse();
      PokeLink(allocator.memory, vm, Pool() - {frame}, l1Idx, frame);
      Rewrite(rootPage, frame, l1Idx, LinkTable(vm, l1Idx, frame).rows);
    }

    /** Page fault for a data page: stores its frame in the level-2 table. */
    method NewPage(l2PageAddr: nat, l1Idx: nat, l2Idx: nat) returns (physAddr: nat, ghost evicted: seq<(nat, nat)>)
      requires Fixed() && Valid() && rootInitialized && tlb.Valid()
      requires l1Idx < entriesPerTable && l2Idx < entriesPerTable
      requires vm.rows[l1Idx].Table? && vm.rows[l1Idx].addr == l2PageAddr && vm.rows[l1Idx].slots[l2Idx] == 0
      requires Ready(vm, Pool(), l1Idx)
      modifies `vm, `spareFrames, `evictL1, `evictL2
      modifies allocator`frameStack, allocator`memory, allocator.pages, allocator.buffers, tlb, tlb.sets
      ensures Valid() && tlb.Valid()
      ensures Outcome(vm, physAddr, evicted) == EnsurePage(old(vm), l1Idx, l2Idx)
      ensures tlb.model == Tlb.Flush(old(tlb.model), |evicted|)
    {
      physAddr, evicted := Allocate(l1Idx);
      if physAddr != 0 {
        Store(l2PageAddr, l1Idx, l2Idx, physAddr);
      }
    }

    method Store(l2PageAddr: nat, l1Idx: nat, l2Idx: nat, frame: nat)
      requires Fixed() && Valid() && rootInitialized && Apart(vm, Pool())
      requires l1Idx < entriesPerTable && l2Idx < entriesPerTable
      requires vm.rows[l1Idx].Table? && vm.rows[l1Idx].addr == l2PageAddr
      requires tlb.Valid()
      modifies `vm, allocator`memory, allocator.pageMap[l2PageAddr].data
      ensures Valid() && vm == StorePage(old(vm), l1Idx, l2Idx, frame)
      ensures tlb.Valid() && tlb.model == old(tlb.model)
    {
      TablePage(l1Idx);
      var l2Page := allocator.PageAtAddress(l2PageAddr);
      PokeSlot(allocator.memory, vm, Pool(), l1Idx, l2Idx, frame);
      Rewrite(l2Page, frame, l2Idx, StorePage(vm, l1Idx, l2Idx, frame).rows);
    }

    /** The first walk clears the root frame. */
    method InitializeRoot()
      requires Fixed() && Valid() && vm.root !in vm.frees && tlb.Valid()
      modifies `rootInitialized, allocator`memory, rootPage.data
      ensures Valid() && rootInitialized && vm == old(vm)
      ensures tlb.Valid() && tlb.model == old(tlb.model)
    {
      RootReadable();
      if !rootInitialized {
        Clear(rootPage);
        rootInitialized := true;
      }
    }

    /** The page-table walk: the frame of the page, after allocating a level-2 table and a data
        page where they are missing; 0 when no frame can be found. */
    method PageTableWalk(virtualAddr: nat) returns (physAddr: nat, ghost evicted: seq<(nat, nat)>)
      requires Fixed() && Sized() && Valid() && Settled(vm, Pool()) && tlb.Valid()
      modifies `vm, `rootInitialized, `spareFrames, `evictL1, `evictL2
      modifies allocator`frameStack, allocator`memory, allocator.pages, allocator.buffers, tlb, tlb.sets
      ensures Valid() && tlb.Valid()
      ensures Outcome(vm, physAddr, evicted) == WalkPage(logPageSize, old(vm), Shr(virtualAddr, logPageSize))
      ensures tlb.model == Tlb.Flush(old(tlb.model), |evicted|)
    {
      RootApart(vm, Pool());
      InitializeRoot();
      var vpn := Shr(virtualAddr, logPageSize);
      var l2Idx := Low(vpn, entriesPerTable);
      var l1Idx := Low(Shr(vpn, logPageSize - 2), entriesPerTable);
      WalkHalves(vm, Pool(), l1Idx, l2Idx);
      InvReady(vm, Pool(), l1Idx);
      InvReady(EnsureTable(vm, l1Idx).vm, Pool(), l1Idx);
      physAddr, evicted := WalkAt(l1Idx, l2Idx);
    }

    method WalkAt(l1Idx: nat, l2Idx: nat) returns (physAddr: nat, ghost evicted: seq<(nat, nat)>)
      requires Fixed() && Valid() && rootInitialized && tlb.Valid()
      requires l1Idx < entriesPerTable && l2Idx < entriesPerTable
      requires Ready(vm, Pool(), l1Idx) && Ready(EnsureTable(vm, l1Idx).vm, Pool(), l1Idx)
      modifies `vm, `spareFrames, `evictL1, `evictL2
      modifies allocator`frameStack, allocator`memory, allocator.pages, allocator.buffers, tlb, tlb.sets
      ensures Valid() && tlb.Valid()
      ensures Outcome(vm, physAddr, evicted) == Walk(old(vm), l1Idx, l2Idx)
      ensures tlb.model == Tlb.Flush(old(tlb.model), |evicted|)
    {
      ghost var table, cached := EnsureTable(vm, l1Idx), tlb.model;
      physAddr, evicted := FindTable(l1Idx);
      if physAddr != 0 {
        physAddr, evicted := FinishWalk(table, cached, physAddr, l1Idx, l2Idx);
      }
    }

    /** The second half of a walk, after the first half had the outcome `table` and flushed the
        TLB `cached` as often as it evicted. */
    method FinishWalk(ghost table: Outcome, ghost cached: Tlb.Tlb, l2PageAddr: nat, l1Idx: nat, l2Idx: nat)
      returns (physAddr: nat, ghost evicted: seq<(nat, nat)>)
      requires Fixed() && Valid() && rootInitialized && tlb.Valid()
      requires l1Idx < entriesPerTable && l2Idx < entriesPerTable
      requires vm == table.vm && vm.rows[l1Idx].Table? && vm.rows[l1Idx].addr == l2PageAddr
      requires tlb.model == Tlb.Flush(cached, |table.evicted|)
      requires Ready(vm, Pool(), l1Idx)
      modifies `vm, `spareFrames, `evictL1, `evictL2
      modifies allocator`frameStack, allocator`memory, allocator.pages, allocator.buffers, tlb, tlb.sets
      ensures Valid() && tlb.Valid()
      ensures var page := EnsurePage(table.vm, l1Idx, l2Idx);
        Outcome(vm, physAddr, evicted) == page.(evicted := table.evicted + page.evicted)
      ensures tlb.model == Tlb.Flush(cached, |evicted|)
    {
      physAddr, evicted := FindPage(l2PageAddr, l1Idx, l2Idx);
      Tlb.FlushTwice(cached, |table.evicted|, |evicted|);
      evicted := table.evicted + evicted;
    }

    /** The level-2 table of a row, from the root word or newly linked. */
    method FindTable(l1Idx: nat) returns (l2PageAddr: nat, ghost evicted: seq<(nat, nat)>)
      requires Fixed() && Valid() && rootInitialized && tlb.Valid() && l1Idx < entriesPerTable
      requires Ready(vm, Pool(), l1Idx)
      modifies `vm, `spareFrames, `evictL1, `evictL2
      modifies allocator`frameStack, allocator`memory, allocator.pages, allocator.buffers, tlb, tlb.sets
      ensures Valid() && tlb.Valid()
      ensures Outcome(vm, l2PageAddr, evicted) == EnsureTable(old(vm), l1Idx)
      ensures l2PageAddr != 0 ==> vm.rows[l1Idx].Table? && vm.rows[l1Idx].addr == l2PageAddr
      ensures tlb.model == Tlb.Flush(old(tlb.model), |evicted|)
    {
      RootReadable();
      l2PageAddr := rootPage.WordAt(l1Idx);
      evicted := [];
      if l2PageAddr == 0 {
        l2PageAddr, evicted := NewTable(l1Idx);
      }
    }

    /** The frame of a page, from its level-2 table or newly stored there. */
    method FindPage(l2PageAddr: nat, l1Idx: nat, l2Idx: nat) returns (physAddr: nat, ghost evicted: seq<(nat, nat)>)
      requires Fixed() && Valid() && rootInitialized && tlb.Valid()
      requires l1Idx < entriesPerTable && l2Idx < entriesPerTable
      requires vm.rows[l1Idx].Table? && vm.rows[l1Idx].addr == l2PageAddr
      requires Ready(vm, Pool(), l1Idx)
      modifies `vm, `spareFrames, `evictL1, `evictL2
      modifies allocator`frameStack, allocator`memory, allocator.pages, allocator.buffers, tlb, tlb.sets
      ensures Valid() && tlb.Valid()
      ensures Outcome(vm, physAddr, evicted) == EnsurePage(old(vm), l1Idx, l2Idx)
      ensures tlb.model == Tlb.Flush(old(tlb.model), |evicted|)
    {
      TableReadable(l1Idx);
      var l2Page := allocator.PageAtAddress(l2PageAddr);
      physAddr := l2Page.WordAt(l2Idx);
      evicted := [];
      if physAddr == 0 {
        physAddr, evicted := NewPage(l2PageAddr, l1Idx, l2Idx);
      }
    }

    /** TLB lookup; the page table is not touched. */
    method LookUp(virtualAddr: nat) returns (translation: nat)
      requires Fixed() && Sized() && Valid() && tlb.Valid()
      modifies tlb, tlb.sets
      ensures Valid() && tlb.Valid()
      ensures translation == Tlb.Lookup(old(tlb.model), Shr(virtualAddr, logPageSize))
      ensures tlb.model == Tlb.Probe(old(tlb.model), Shr(virtualAddr, logPageSize))
    {
      translation := tlb.PhysicalPage(virtualAddr);
    }

    /** TLB fill; the page table is not touched. */
    method Fill(virtualAddr: nat, translation: nat)
      requires Fixed() && Sized() && Valid() && tlb.Valid()
      modifies tlb, tlb.sets
      ensures Valid() && tlb.Valid()
      ensures tlb.model == Tlb.Insert(old(tlb.model), Shr(virtualAddr, logPageSize), translation)
    {
      tlb.CacheTranslation(virtualAddr, translation);
    }

    /** One memory access: TLB, then on a miss the walk and the TLB fill. The result is the
        translation that the source keeps in a local. */
    method TranslateAddress(virtualAddr: nat) returns (translation: nat)
      requires Fixed() && Sized() && Valid() && tlb.Valid() && Good(logPageSize, Pool(), Mmu(vm, tlb.model))
      modifies `vm, `rootInitialized, `spareFrames, `evictL1, `evictL2
      modifies allocator`frameStack, allocator`memory, allocator.pages, allocator.buffers, tlb, tlb.sets
      ensures Valid() && tlb.Valid()
      ensures (Mmu(vm, tlb.model), translation) == Step(logPageSize, old(Mmu(vm, tlb.model)), virtualAddr)
      ensures Good(logPageSize, Pool(), Mmu(vm, tlb.model))
    {
      StepIsWalk(logPageSize, Pool(), Mmu(vm, tlb.model), virtualAddr);
      translation := LookUp(virtualAddr);
      if translation == 0 {
        ghost var evicted;
        translation, evicted := PageTableWalk(virtualAddr);
        Fill(virtualAddr, translation);
      }
    }

    /** The accesses of a trace, one after the other. */
    method TranslateAll(trace: seq<nat>) returns (frames: seq<nat>)
      requires Fixed() && Sized() && Valid() && tlb.Valid() && Good(logPageSize, Pool(), Mmu(vm, tlb.model))
      modifies this, allocator, allocator.pages, allocator.buffers, tlb, tlb.sets
      ensures Valid() && tlb.Valid() && Good(logPageSize, Pool(), Mmu(vm, tlb.model))
      ensures (Mmu(vm, tlb.model), frames) == Run(logPageSize, old(Mmu(vm, tlb.model)), trace)
    {
      frames := [];
      ghost var start := Mmu(vm, tlb.model);
      for k := 0 to |trace|
        invariant Valid() && tlb.Valid() && Good(logPageSize, Pool(), Mmu(vm, tlb.model))
        invariant (Mmu(vm, tlb.model), frames) == Run(logPageSize, start, trace[..k])
      {
        RunOneMore(logPageSize, start, trace[..k], trace[k]);
        assert trace[..k + 1] == trace[..k] + [trace[k]];
        var frame := TranslateAddress(trace[k]);
        frames := frames + [frame];
      }
      assert trace[..|trace|] == trace;
    }

    /** The tool from its start over a whole trace of accesses. */
    static method Simulate(logPageSize: nat, logPoolSize: nat, logNumRows: nat, associativity: nat, trace: seq<nat>)
      returns (walker: PageTableWalker, frames: seq<nat>)
      requires logPageSize >= 2 && logPageSize + logPoolSize <= 31 && associativity >= 1
      ensures walker.Fixed() && walker.Valid() && walker.tlb.Valid()
      ensures (Mmu(walker.vm, walker.tlb.model), frames)
              == Run(logPageSize, Initial(logPageSize, logPoolSize, logNumRows, associativity), trace)
    {
      walker := Create(logPageSize, logPoolSize, logNumRows, associativity);
      frames := walker.TranslateAll(trace);
    }
  }
}
