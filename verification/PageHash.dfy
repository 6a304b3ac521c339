/** The page map of the cache tool: a mixing function on 32-bit numbers, cut to the memory's
    frames. */
module PageHash {
  import opened Bits
  import opened Caches
  import opened CacheLaws

  /** `key >> k` on a signed 32-bit number. */
  function Sar(key: bv32, k: nat): bv32
    requires k < 32
  {
    if key & 0x8000_0000 == 0 then key >> k else !(!key >> k)
  }

  /** A number folded onto itself, shifted down by `k` with its sign. */
  function Fold(key: bv32, k: nat): bv32
    requires k < 32
  {
    key ^ Sar(key, k)
  }

  /** What enters the three folds. */
  function First(vpn: bv32): bv32 {
    !vpn + (vpn << 15)
  }

  function Second(vpn: bv32): bv32 {
    var key := Fold(First(vpn), 12);
    key + (key << 2)
  }

  function Third(vpn: bv32): bv32 {
    Fold(Second(vpn), 4) * 2057
  }

  function Mix(vpn: bv32): bv32 {
    Fold(Third(vpn), 16)
  }

  /** The frame of a virtual page lies below the number of frames. */
  function PhysicalPageNumber(vpn: nat, logPhysicalMemSize: nat): (f: nat)
    requires 1 <= logPhysicalMemSize <= 32
    ensures f < Pow2(logPhysicalMemSize)
  {
    Low(Mix((vpn % 0x1_0000_0000) as bv32) as nat, Pow2(logPhysicalMemSize))
  }

  function PageMap(logPhysicalMemSize: nat): nat -> nat
    requires 1 <= logPhysicalMemSize <= 32
  {
    (vpn: nat) => PhysicalPageNumber(vpn, logPhysicalMemSize)
  }

  lemma InTagRange(g: Geometry, frames: nat -> nat, m: nat, virtualAddr: nat)
    requires frames(Shr(virtualAddr, g.logPageSize)) < Pow2(m)
    requires g.logPageSize + m <= g.logBlockSize + g.logNumRows + 32
    ensures PhysicalAddr(g, frames, virtualAddr) < Pow2(g.logBlockSize + g.logNumRows + 32)
  {
    PhysicalInRange(g, frames, m, virtualAddr);
    Pow2Grows(g.logPageSize + m, g.logBlockSize + g.logNumRows + 32);
  }

  lemma PhysicalLines(g: Geometry, frames: nat -> nat, m: nat, u: nat, v: nat)
    requires frames(Shr(u, g.logPageSize)) < Pow2(m) && frames(Shr(v, g.logPageSize)) < Pow2(m)
    requires g.logPageSize + m <= g.logBlockSize + g.logNumRows + 32
    ensures SameLine(PIPT, g, frames, u, v) <==> SameBlock(g, frames, u, v)
  {
    InTagRange(g, frames, m, u);
    InTagRange(g, frames, m, v);
    LineIsBlock(g, PhysicalAddr(g, frames, u), PhysicalAddr(g, frames, v));
  }

  /** The model gives both addresses the same row and tag. */
  predicate SameLine(scheme: Scheme, g: Geometry, frames: nat -> nat, u: nat, v: nat) {
    && IndexFor(scheme, g, frames, u) == IndexFor(scheme, g, frames, v)
    && TagFor(scheme, g, frames, u) == TagFor(scheme, g, frames, v)
  }

  predicate SameBlock(g: Geometry, frames: nat -> nat, u: nat, v: nat) {
    Shr(PhysicalAddr(g, frames, u), g.logBlockSize) == Shr(PhysicalAddr(g, frames, v), g.logBlockSize)
  }

  /** With the tool's page map, as long as its physical addresses fit the tag, two addresses
      share a line of the physically indexed model exactly when they share a physical block; so
      they do in the virtually indexed model where the index lies in the page offset. */
  lemma ToolLineIsBlock(g: Geometry, m: nat, u: nat, v: nat)
    requires 1 <= m <= 32 && g.logPageSize + m <= g.logBlockSize + g.logNumRows + 32
    ensures SameLine(PIPT, g, PageMap(m), u, v) <==> SameBlock(g, PageMap(m), u, v)
    ensures PageIndexed(g) ==> (SameLine(VIPT, g, PageMap(m), u, v) <==> SameBlock(g, PageMap(m), u, v))
  {
    PhysicalLines(g, PageMap(m), m, u, v);
    if PageIndexed(g) {
      SameIndex(g, PageMap(m), u);
      SameIndex(g, PageMap(m), v);
    }
  }

  /** Over all page maps into `2^m` frames, lines of the physically indexed model are blocks. */
  ghost predicate LinesAreBlocks(g: Geometry, m: nat) {
    forall frames: nat -> nat, u: nat, v: nat | Bounded(frames, m) && u < Pow2(32) && v < Pow2(32) ::
      SameLine(PIPT, g, frames, u, v) <==> SameBlock(g, frames, u, v)
  }

  /** They are exactly when physical addresses fit block, row and tag bits. */
  lemma LinesAreBlocksExactly(g: Geometry, m: nat)
    requires g.logPageSize <= 31
    ensures LinesAreBlocks(g, m) <==> g.logPageSize + m <= g.logBlockSize + g.logNumRows + 32
  {
    if g.logPageSize + m <= g.logBlockSize + g.logNumRows + 32 {
      forall frames: nat -> nat, u: nat, v: nat | Bounded(frames, m) && u < Pow2(32) && v < Pow2(32)
        ensures SameLine(PIPT, g, frames, u, v) <==> SameBlock(g, frames, u, v)
      {
        PhysicalLines(g, frames, m, u, v);
      }
    } else {
      var k := g.logBlockSize + g.logNumRows + 32;
      Pow2Grows(k - g.logPageSize, m);
      Pow2Grows(g.logPageSize, 32);
      TwoFrameBounded(Pow2(k - g.logPageSize), m);
      TagCutOff(g, TwoFrameMap(Pow2(k - g.logPageSize)), k);
      assert !(SameLine(PIPT, g, TwoFrameMap(Pow2(k - g.logPageSize)), 0, Pow2(g.logPageSize))
               <==> SameBlock(g, TwoFrameMap(Pow2(k - g.logPageSize)), 0, Pow2(g.logPageSize)));
    }
  }

  /** Two pages whose physical addresses differ in the first bit that the tag loses. */
  lemma TagCutOff(g: Geometry, frames: nat -> nat, k: nat)
    requires k == g.logBlockSize + g.logNumRows + 32 && g.logPageSize <= k
    requires frames == TwoFrameMap(Pow2(k - g.logPageSize))
    ensures SameLine(PIPT, g, frames, 0, Pow2(g.logPageSize)) && !SameBlock(g, frames, 0, Pow2(g.logPageSize))
  {
    var p := g.logPageSize;
    Multiple(Pow2(p), 1);
    Multiple(Pow2(p), 0);
    Pow2Adds(p, k - p);
    assert PhysicalAddr(g, frames, Pow2(p)) == Pow2(k) && PhysicalAddr(g, frames, 0) == 0;
    BitAboveTag(g, k, 32);
  }

  lemma BitAboveTag(g: Geometry, k: nat, tagBits: nat)
    requires k == g.logBlockSize + g.logNumRows + tagBits
    ensures Shr(Pow2(k), g.logBlockSize) > 0 == Shr(0, g.logBlockSize)
    ensures RowIndex(g, Pow2(k)) == 0 == RowIndex(g, 0)
    ensures Low(Shr(Pow2(k), g.logBlockSize + g.logNumRows), Pow2(tagBits)) == 0
  {
    var b, r := g.logBlockSize, g.logNumRows;
    Pow2Adds(b, r + tagBits);
    Multiple(Pow2(b), Pow2(r + tagBits));
    Pow2Adds(r, tagBits);
    Multiple(Pow2(r), Pow2(tagBits));
    Pow2Adds(b + r, tagBits);
    Multiple(Pow2(b + r), Pow2(tagBits));
    assert b + (r + tagBits) == k && b + r + tagBits == k;
  }

  // ----- the default knobs

  /** Pages of 4 KB, blocks of 32 bytes, 1024 rows. */
  const DEFAULTS: Geometry := Geometry(12, 5, 10)

  lemma MixOf97()
    ensures Mix(97) == 0xCD7_EB8A
  {
    assert !(97 as bv32) + ((97 as bv32) << 15) == 0x30_7F9E;
    assert (0x30_7F9E as bv32) ^ Sar(0x30_7F9E, 12) == 0x30_7C99;
    assert (0x30_7C99 as bv32) + ((0x30_7C99 as bv32) << 2) == 0xF2_6EFD;
    assert (0xF2_6EFD as bv32) ^ Sar(0xF2_6EFD, 4) == 0xFD_4812;
    assert (0xFD_4812 as bv32) * 2057 == 0xF328_18A2;
    assert (0xF328_18A2 as bv32) ^ Sar(0xF328_18A2, 16) == 0xCD7_EB8A;
  }

  lemma MixOf542()
    ensures Mix(542) == 0x1E68_EB8A
  {
    assert !(542 as bv32) + ((542 as bv32) << 15) == 0x10E_FDE1;
    assert (0x10E_FDE1 as bv32) ^ Sar(0x10E_FDE1, 12) == 0x10E_ED0E;
    assert (0x10E_ED0E as bv32) + ((0x10E_ED0E as bv32) << 2) == 0x54A_A146;
    assert (0x54A_A146 as bv32) ^ Sar(0x54A_A146, 4) == 0x51E_0B52;
    assert (0x51E_0B52 as bv32) * 2057 == 0x1E68_F5E2;
    assert (0x1E68_F5E2 as bv32) ^ Sar(0x1E68_F5E2, 16) == 0x1E68_EB8A;
  }

  lemma SmallPowers()
    ensures Pow2(5) == 32 && Pow2(10) == 1024 && Pow2(12) == 4096 && Pow2(16) == 65536
  {
    assert Pow2(1) == 2 && Pow2(2) == 4 && Pow2(3) == 8 && Pow2(4) == 16;
    assert Pow2(6) == 64 && Pow2(8) == 256;
    Pow2Adds(8, 8);
  }

  lemma FrameIs(vpn: nat, w: bv32, key: nat, m: nat)
    requires 1 <= m <= 32 && (vpn % 0x1_0000_0000) as bv32 == w && Mix(w) as nat == key
    ensures PhysicalPageNumber(vpn, m) == key % Pow2(m)
  {
    LowHigh(key, Pow2(m));
  }

  lemma FrameOf97()
    ensures PhysicalPageNumber(97, 16) == 60298
  {
    SmallPowers();
    MixOf97();
    FrameIs(97, 97, 0xCD7_EB8A, 16);
  }

  lemma FrameOf542()
    ensures PhysicalPageNumber(542, 16) == 60298
  {
    SmallPowers();
    MixOf542();
    FrameIs(542, 542, 0x1E68_EB8A, 16);
  }

  /** Physical address and virtual row of a page's first word. */
  lemma FirstWord(frames: nat -> nat, page: nat)
    ensures var word := page * 4096;
      && Aligned(word) == word
      && PhysicalAddr(DEFAULTS, frames, word) == 4096 * frames(page)
      && RowIndex(DEFAULTS, word) == 128 * (page % 8)
  {
    SmallPowers();
    Multiple(4, page * 1024);
    Multiple(4096, page);
    Multiple(32, page * 128);
    LowHigh(page * 128, 1024);
    QuotientUnique(page * 128, 1024, page / 8, 128 * (page % 8));
  }

  /** Any two pages of the address space in one frame whose first words differ in row. */
  lemma PagesCollide(frames: nat -> nat, u: nat, v: nat, ways: nat)
    requires frames(u) == frames(v) && u % 8 != v % 8 && ways >= 1
    requires u < 0x10_0000 && v < 0x10_0000
    ensures var ops := [MemOp(u * 4096, false), MemOp(v * 4096, false)];
      && InSpace(ops)
      && RunOps(PIPT, DEFAULTS, frames, ways, ops).readHits == 1
      && RunOps(VIPT, DEFAULTS, frames, ways, ops).readHits == 0
  {
    var first, second := MemOp(u * 4096, false), MemOp(v * 4096, false);
    InAddressSpace(u);
    InAddressSpace(v);
    FirstWord(frames, u);
    FirstWord(frames, v);
    TwoLoads(PIPT, DEFAULTS, frames, ways, first, second);
    TwoLoads(VIPT, DEFAULTS, frames, ways, first, second);
  }

  lemma SharedFrame(u: nat, v: nat, m: nat)
    requires m == 16 && u == 97 && v == 542
    ensures PageMap(m)(u) == PageMap(m)(v) && u % 8 != v % 8
  {
    FrameOf97();
    FrameOf542();
  }

  lemma InAddressSpace(page: nat)
    requires page < 0x10_0000
    ensures page * 4096 < Pow2(32)
  {
    SmallPowers();
    Pow2Adds(16, 16);
  }

  /** The models part with the tool's own page map at the default knobs: of loads from pages 97
      and 542 the second hits the physically indexed model and misses the virtually indexed one. */
  lemma DefaultsDiffer(m: nat, u: nat, v: nat, ways: nat)
    requires m == 16 && u == 97 && v == 542 && ways >= 1
    ensures var ops := [MemOp(u * 4096, false), MemOp(v * 4096, false)];
      && InSpace(ops)
      && RunOps(PIPT, DEFAULTS, PageMap(m), ways, ops).readHits == 1
      && RunOps(VIPT, DEFAULTS, PageMap(m), ways, ops).readHits == 0
  {
    SharedFrame(u, v, m);
    PagesCollide(PageMap(m), u, v, ways);
  }

  // ----- what the mix loses

  /** A fold drops the sign: half of the 32-bit numbers are no page's mix. */
  lemma MixIsNotNegative(vpn: bv32)
    ensures Mix(vpn) < 0x8000_0000
  {
    FoldDropsSign(Third(vpn));
  }

  lemma FoldDropsSign(key: bv32)
    ensures Fold(key, 16) < 0x8000_0000
  {
    if key & 0x8000_0000 == 0 {
      assert Sar(key, 16) == key >> 16;
    } else {
      assert Sar(key, 16) == !(!key >> 16);
    }
  }

  /** Pages that mix alike share a frame, whatever the memory size. */
  lemma SameMix(u: nat, v: nat, m: nat)
    requires 1 <= m <= 32
    requires Mix((u % 0x1_0000_0000) as bv32) == Mix((v % 0x1_0000_0000) as bv32)
    ensures PhysicalPageNumber(u, m) == PhysicalPageNumber(v, m)
  {
  }

  /** Pages 125499 and 183277 of the default address space do. */
  lemma PagesMerge()
    ensures Mix(125499) == Mix(183277)
  {
    MixOf125499();
    MixOf183277();
  }

  lemma MixOf125499()
    ensures Mix(125499) == 0x62EE_D128
  {
  }

  lemma MixOf183277()
    ensures Mix(183277) == 0x62EE_D128
  {
  }
}
