/** Virtual against physical tags: renaming tags one to one changes no hit. */
module SchemeLaws {
  import opened Bits
  import opened Recency
  import opened Caches
  import opened CacheLaws
  import opened PageHash

  // ----- lists

  /** The two traces repeat items at the same places. */
  ghost predicate Matches(s: seq<nat>, t: seq<nat>) {
    |s| == |t| && forall i, j | 0 <= i < |s| && 0 <= j < |s| :: s[i] == s[j] <==> t[i] == t[j]
  }

  lemma MatchesPart(s: seq<nat>, t: seq<nat>, i: nat, j: nat)
    requires Matches(s, t) && i <= j <= |s|
    ensures Matches(s[i..j], t[i..j])
  {
  }

  lemma LastRepeats(s: seq<nat>, t: seq<nat>)
    requires Matches(s, t) && s != []
    ensures var n := |s| - 1; s[n] in s[..n] <==> t[n] in t[..n]
  {
    var n := |s| - 1;
    if s[n] in s[..n] {
      var i :| 0 <= i < n && s[..n][i] == s[n];
      assert t[i] == t[n] && t[..n][i] == t[i];
    }
    if t[n] in t[..n] {
      var i :| 0 <= i < n && t[..n][i] == t[n];
      assert s[i] == s[n] && s[..n][i] == s[i];
    }
  }

  lemma {:induction false} SameNumber(s: seq<nat>, t: seq<nat>)
    requires Matches(s, t)
    ensures |Elems(s)| == |Elems(t)|
  {
    if s != [] {
      var n := |s| - 1;
      MatchesPart(s, t, 0, n);
      SameNumber(s[..n], t[..n]);
      LastRepeats(s, t);
      ElemsOfLast(s);
      ElemsOfLast(t);
    }
  }

  lemma ElemsOfLast(s: seq<nat>)
    requires s != []
    ensures var n := |s| - 1; |Elems(s)| == |Elems(s[..n])| + if s[n] in s[..n] then 0 else 1
  {
    var n := |s| - 1;
    assert s == s[..n] + [s[n]];
    assert Elems(s) == Elems(s[..n]) + {s[n]};
    if s[n] in s[..n] {
      assert Elems(s) == Elems(s[..n]);
    }
  }

  lemma {:induction false} SinceIsSlice(s: seq<nat>, x: nat)
    ensures |Since(s, x)| <= |s| && Since(s, x) == s[|s| - |Since(s, x)|..]
  {
    if s != [] {
      SinceIsSlice(s[..|s| - 1], x);
    }
  }

  /** What was accessed since the last access to the next item matches too. */
  lemma {:induction false} SameSince(s: seq<nat>, t: seq<nat>, x: nat, y: nat)
    requires Matches(s + [x], t + [y])
    ensures |Since(s, x)| == |Since(t, y)|
  {
    if s != [] {
      var n := |s| - 1;
      assert (s + [x])[n] == s[n] && (s + [x])[n + 1] == x && (t + [y])[n] == t[n] && (t + [y])[n + 1] == y;
      MatchesSkip(s, t, x, y);
      SameSince(s[..n], t[..n], x, y);
    }
  }

  lemma MatchesSkip(s: seq<nat>, t: seq<nat>, x: nat, y: nat)
    requires Matches(s + [x], t + [y]) && s != []
    ensures Matches(s[..|s| - 1] + [x], t[..|s| - 1] + [y])
  {
    var n := |s| - 1;
    var a, b, c, d := s + [x], t + [y], s[..n] + [x], t[..n] + [y];
    assert forall i | 0 <= i <= n :: c[i] == a[if i < n then i else n + 1] && d[i] == b[if i < n then i else n + 1];
  }

  /** Matching traces hit alike. */
  lemma SameHit(s: seq<nat>, t: seq<nat>, x: nat, y: nat, cap: nat)
    requires Matches(s + [x], t + [y])
    ensures x in Lru(s, cap) <==> y in Lru(t, cap)
  {
    var n := |s|;
    LastRepeats(s + [x], t + [y]);
    assert (s + [x])[..n] == s && (t + [y])[..n] == t;
    SameSince(s, t, x, y);
    SinceIsSlice(s, x);
    SinceIsSlice(t, y);
    MatchesPart(s + [x], t + [y], 0, n);
    MatchesPart(s, t, n - |Since(s, x)|, n);
    SameNumber(Since(s, x), Since(t, y));
    ReuseDistance(s, x, cap);
    ReuseDistance(t, y, cap);
  }

  // ----- caches

  /** The same rows and kinds of access, and within a row the same tags repeated. */
  ghost predicate Renamed(a: seq<Ref>, b: seq<Ref>) {
    && |a| == |b|
    && (forall i | 0 <= i < |a| :: a[i].index == b[i].index && a[i].isWrite == b[i].isWrite)
    && forall i, j | 0 <= i < |a| && 0 <= j < |a| && a[i].index == a[j].index ::
         a[i].tag == a[j].tag <==> b[i].tag == b[j].tag
  }

  /** Row `r` of the first trace sees the accesses that row `q` of the second sees, with the same
      tags repeated. */
  ghost predicate RowRenamed(a: seq<Ref>, b: seq<Ref>, r: nat, q: nat) {
    && |a| == |b|
    && (forall i | 0 <= i < |a| :: a[i].index == r <==> b[i].index == q)
    && forall i, j | 0 <= i < |a| && 0 <= j < |a| && a[i].index == r && a[j].index == r ::
         a[i].tag == a[j].tag <==> b[i].tag == b[j].tag
  }

  /** Every tag that a row sees comes from one access, the same one in both traces. */
  lemma {:induction false} SeenSource(a: seq<Ref>, b: seq<Ref>, r: nat, q: nat, k: nat) returns (i: nat)
    requires RowRenamed(a, b, r, q) && k < |Seen(a, r)|
    ensures |Seen(a, r)| == |Seen(b, q)|
    ensures i < |a| && a[i].index == r && a[i].tag == Seen(a, r)[k] && b[i].tag == Seen(b, q)[k]
  {
    var n := |a| - 1;
    SeenLength(a, b, r, q);
    SeenLength(a[..n], b[..n], r, q);
    if k < |Seen(a[..n], r)| {
      i := SeenSource(a[..n], b[..n], r, q, k);
    } else {
      i := n;
    }
  }

  lemma {:induction false} SeenLength(a: seq<Ref>, b: seq<Ref>, r: nat, q: nat)
    requires |a| == |b| && forall i | 0 <= i < |a| :: a[i].index == r <==> b[i].index == q
    ensures |Seen(a, r)| == |Seen(b, q)|
  {
    if a != [] {
      SeenLength(a[..|a| - 1], b[..|a| - 1], r, q);
    }
  }

  lemma SeenMatches(a: seq<Ref>, b: seq<Ref>, r: nat, q: nat)
    requires RowRenamed(a, b, r, q)
    ensures Matches(Seen(a, r), Seen(b, q))
  {
    var s, t := Seen(a, r), Seen(b, q);
    SeenLength(a, b, r, q);
    forall k, l | 0 <= k < |s| && 0 <= l < |s| ensures s[k] == s[l] <==> t[k] == t[l] {
      var i := SeenSource(a, b, r, q, k);
      var j := SeenSource(a, b, r, q, l);
    }
  }

  lemma {:induction false} RenamedAlike(a: seq<Ref>, b: seq<Ref>, rows: nat, ways: nat)
    requires Renamed(a, b) && InRows(a, rows) && InRows(b, rows)
    ensures var x, y := RunRefs(rows, ways, a), RunRefs(rows, ways, b);
      x.readHits == y.readHits && x.writeHits == y.writeHits
  {
    if a != [] {
      var n := |a| - 1;
      RenamedAlike(a[..n], b[..n], rows, ways);
      SameLastHit(a, b, rows, ways);
    }
  }

  lemma SameLastHit(a: seq<Ref>, b: seq<Ref>, rows: nat, ways: nat)
    requires Renamed(a, b) && a != [] && InRows(a, rows) && InRows(b, rows)
    ensures var n, i := |a| - 1, a[|a| - 1].index;
      a[n].tag in RunRefs(rows, ways, a[..n]).sets[i] <==> b[n].tag in RunRefs(rows, ways, b[..n]).sets[i]
  {
    var n, i := |a| - 1, a[|a| - 1].index;
    SeenMatches(a, b, i, i);
    SetIsLru(rows, ways, a[..n], i);
    SetIsLru(rows, ways, b[..n], i);
    SameHit(Seen(a[..n], i), Seen(b[..n], i), a[n].tag, b[n].tag, ways);
  }

  // ----- virtually and physically tagged models

  /** Within a row, two words of `addrs` share their physical tag exactly when they share their
      virtual one. */
  ghost predicate TagsCorrespond(g: Geometry, frames: nat -> nat, addrs: set<nat>) {
    forall u, v | u in addrs && v in addrs && RowIndex(g, Aligned(u)) == RowIndex(g, Aligned(v)) ::
      TagFor(VIPT, g, frames, Aligned(u)) == TagFor(VIPT, g, frames, Aligned(v)) <==>
      TagFor(VIVT, g, frames, Aligned(u)) == TagFor(VIVT, g, frames, Aligned(v))
  }

  /** On all loads and stores at `addrs` the two virtually indexed models count alike. */
  ghost predicate CountAlikeAt(g: Geometry, frames: nat -> nat, ways: nat, addrs: set<nat>) {
    forall ops: seq<MemOp> | At(ops, addrs) ::
      var x, y := RunOps(VIPT, g, frames, ways, ops), RunOps(VIVT, g, frames, ways, ops);
      x.readHits == y.readHits && x.writeHits == y.writeHits
  }

  predicate At(ops: seq<MemOp>, addrs: set<nat>) {
    forall op | op in ops :: op.addr in addrs
  }

  lemma {:induction false} RefAt(scheme: Scheme, g: Geometry, frames: nat -> nat, ops: seq<MemOp>, i: nat)
    requires i < |ops|
    ensures var word := Aligned(ops[i].addr);
      Refs(scheme, g, frames, ops)[i] == Ref(IndexFor(scheme, g, frames, word), TagFor(scheme, g, frames, word), ops[i].isWrite)
  {
    if i < |ops| - 1 {
      RefAt(scheme, g, frames, ops[..|ops| - 1], i);
    }
  }

  lemma RefsRenamed(g: Geometry, frames: nat -> nat, addrs: set<nat>, ops: seq<MemOp>)
    requires TagsCorrespond(g, frames, addrs) && At(ops, addrs)
    ensures Renamed(Refs(VIPT, g, frames, ops), Refs(VIVT, g, frames, ops))
  {
    forall i | 0 <= i < |ops|
      ensures Refs(VIPT, g, frames, ops)[i] ==
              Ref(RowIndex(g, Aligned(ops[i].addr)), TagFor(VIPT, g, frames, Aligned(ops[i].addr)), ops[i].isWrite)
      ensures Refs(VIVT, g, frames, ops)[i] ==
              Ref(RowIndex(g, Aligned(ops[i].addr)), TagFor(VIVT, g, frames, Aligned(ops[i].addr)), ops[i].isWrite)
      ensures ops[i].addr in addrs
    {
      RefAt(VIPT, g, frames, ops, i);
      RefAt(VIVT, g, frames, ops, i);
      assert ops[i] in ops;
    }
  }

  /** For any page map and any addresses: the two virtually indexed models count alike on all loads
      and stores there exactly when within each row physical and virtual tags correspond. */
  lemma VirtualAlikeExactly(g: Geometry, frames: nat -> nat, ways: nat, addrs: set<nat>)
    requires ways >= 1
    ensures CountAlikeAt(g, frames, ways, addrs) <==> TagsCorrespond(g, frames, addrs)
  {
    if TagsCorrespond(g, frames, addrs) {
      forall ops: seq<MemOp> | At(ops, addrs)
        ensures RunOps(VIPT, g, frames, ways, ops).readHits == RunOps(VIVT, g, frames, ways, ops).readHits
        ensures RunOps(VIPT, g, frames, ways, ops).writeHits == RunOps(VIVT, g, frames, ways, ops).writeHits
      {
        RefsRenamed(g, frames, addrs, ops);
        OpsAreRefs(VIPT, g, frames, ways, ops);
        OpsAreRefs(VIVT, g, frames, ways, ops);
        RenamedAlike(Refs(VIPT, g, frames, ops), Refs(VIVT, g, frames, ops), Pow2(g.logNumRows), ways);
      }
    }
    if CountAlikeAt(g, frames, ways, addrs) {
      forall u, v | u in addrs && v in addrs && RowIndex(g, Aligned(u)) == RowIndex(g, Aligned(v))
        ensures TagFor(VIPT, g, frames, Aligned(u)) == TagFor(VIPT, g, frames, Aligned(v)) <==>
                TagFor(VIVT, g, frames, Aligned(u)) == TagFor(VIVT, g, frames, Aligned(v))
      {
        var ops := [MemOp(u, false), MemOp(v, false)];
        assert At(ops, addrs);
        TwoLoads(VIPT, g, frames, ways, ops[0], ops[1]);
        TwoLoads(VIVT, g, frames, ways, ops[0], ops[1]);
      }
    }
  }

  // ----- the virtual model alone

  /** Lines of the virtual model are virtual blocks, whatever the page map. */
  lemma VirtualLineIsBlock(g: Geometry, frames: nat -> nat, u: nat, v: nat)
    requires u < Pow2(32) && v < Pow2(32)
    ensures SameLine(VIVT, g, frames, u, v) <==> u / Pow2(g.logBlockSize) == v / Pow2(g.logBlockSize)
  {
    WithinTag(g, u, 32);
    WithinTag(g, v, 32);
    LineIsBlock(g, u, v);
    LowHigh(u, Pow2(g.logBlockSize));
    LowHigh(v, Pow2(g.logBlockSize));
  }

  lemma WithinTag(g: Geometry, u: nat, k: nat)
    requires u < Pow2(k)
    ensures u < Pow2(g.logBlockSize + g.logNumRows + k)
  {
    Pow2Grows(k, g.logBlockSize + g.logNumRows + k);
  }

  /** The page map plays no part in it. */
  lemma {:induction false} VirtualIgnoresMap(g: Geometry, frames: nat -> nat, others: nat -> nat, ways: nat, ops: seq<MemOp>)
    ensures RunOps(VIVT, g, frames, ways, ops) == RunOps(VIVT, g, others, ways, ops)
  {
    if ops != [] {
      VirtualIgnoresMap(g, frames, others, ways, ops[..|ops| - 1]);
    }
  }

  // ----- pages in different frames

  /** No two visited pages share a frame. */
  ghost predicate Injective(g: Geometry, frames: nat -> nat, addrs: set<nat>) {
    forall u, v | u in addrs && v in addrs ::
      frames(Shr(Aligned(u), g.logPageSize)) == frames(Shr(Aligned(v), g.logPageSize)) ==>
      Shr(Aligned(u), g.logPageSize) == Shr(Aligned(v), g.logPageSize)
  }

  /** The block of an address: the page's blocks before it, and its own place in the page. */
  lemma BlockInPage(g: Geometry, q: nat, offset: nat)
    requires g.logBlockSize <= g.logPageSize && offset < Pow2(g.logPageSize)
    ensures var n, k := Pow2(g.logPageSize - g.logBlockSize), Shr(offset, g.logBlockSize);
      k < n && High(Shr(Pow2(g.logPageSize) * q + offset, g.logBlockSize), n) == q
      && Low(Shr(Pow2(g.logPageSize) * q + offset, g.logBlockSize), n) == k
  {
    var b, d := g.logBlockSize, g.logPageSize - g.logBlockSize;
    var n, k := Pow2(d), Shr(offset, b);
    SplitPower(b, 0, d, q);
    assert Pow2(0) == 1 && b + 0 + d == g.logPageSize;
    LowOfSum(Pow2(b), n * q, offset);
    SmallShift(offset, b, d);
    LowOfSum(n, q, k);
    LowOfSmall(k, n);
  }

  /** With no page split by its index and no frame shared, blocks correspond. */
  lemma BlocksCorrespond(g: Geometry, frames: nat -> nat, x: nat, y: nat)
    requires g.logBlockSize <= g.logPageSize
    requires frames(Shr(x, g.logPageSize)) == frames(Shr(y, g.logPageSize)) ==> Shr(x, g.logPageSize) == Shr(y, g.logPageSize)
    ensures SameBlock(g, frames, x, y) <==> Shr(x, g.logBlockSize) == Shr(y, g.logBlockSize)
  {
    var page, n := Pow2(g.logPageSize), Pow2(g.logPageSize - g.logBlockSize);
    LowHigh(x, page);
    LowHigh(y, page);
    BlockInPage(g, High(x, page), Low(x, page));
    BlockInPage(g, High(y, page), Low(y, page));
    BlockInPage(g, frames(High(x, page)), Low(x, page));
    BlockInPage(g, frames(High(y, page)), Low(y, page));
    if Shr(Low(x, page), g.logBlockSize) == Shr(Low(y, page), g.logBlockSize) && High(x, page) == High(y, page) {
      DivModUnique(Shr(x, g.logBlockSize), Shr(y, g.logBlockSize), n);
      DivModUnique(Shr(PhysicalAddr(g, frames, x), g.logBlockSize), Shr(PhysicalAddr(g, frames, y), g.logBlockSize), n);
    }
  }

  lemma FitsTag(g: Geometry, u: nat, k: nat)
    requires u < Pow2(k)
    ensures Aligned(u) < Pow2(g.logBlockSize + g.logNumRows + k)
  {
    LowHigh(u, 4);
    WithinTag(g, Aligned(u), k);
  }

  /** Where the index lies in the page offset and visited pages have frames of their own, the two
      virtually indexed models count alike. */
  lemma OwnFramesAlike(g: Geometry, frames: nat -> nat, m: nat, ways: nat, addrs: set<nat>)
    requires g.logBlockSize + g.logNumRows <= g.logPageSize && ways >= 1
    requires Bounded(frames, m) && g.logPageSize + m <= g.logBlockSize + g.logNumRows + 32
    requires (forall u | u in addrs :: u < Pow2(32)) && Injective(g, frames, addrs)
    ensures CountAlikeAt(g, frames, ways, addrs)
  {
    forall u, v | u in addrs && v in addrs && RowIndex(g, Aligned(u)) == RowIndex(g, Aligned(v))
      ensures TagFor(VIPT, g, frames, Aligned(u)) == TagFor(VIPT, g, frames, Aligned(v)) <==>
              TagFor(VIVT, g, frames, Aligned(u)) == TagFor(VIVT, g, frames, Aligned(v))
    {
      FitsTag(g, u, 32);
      FitsTag(g, v, 32);
      TagsOfBlocks(g, frames, m, Aligned(u), Aligned(v));
    }
    VirtualAlikeExactly(g, frames, ways, addrs);
  }

  lemma TagsOfBlocks(g: Geometry, frames: nat -> nat, m: nat, x: nat, y: nat)
    requires g.logBlockSize + g.logNumRows <= g.logPageSize
    requires Bounded(frames, m) && g.logPageSize + m <= g.logBlockSize + g.logNumRows + 32
    requires x < Pow2(g.logBlockSize + g.logNumRows + 32) && y < Pow2(g.logBlockSize + g.logNumRows + 32)
    requires RowIndex(g, x) == RowIndex(g, y)
    requires frames(Shr(x, g.logPageSize)) == frames(Shr(y, g.logPageSize)) ==> Shr(x, g.logPageSize) == Shr(y, g.logPageSize)
    ensures TagFor(VIPT, g, frames, x) == TagFor(VIPT, g, frames, y) <==>
            TagFor(VIVT, g, frames, x) == TagFor(VIVT, g, frames, y)
  {
    SameIndex(g, frames, x);
    SameIndex(g, frames, y);
    PhysicalLines(g, frames, m, x, y);
    BlocksCorrespond(g, frames, x, y);
    LineIsBlock(g, x, y);
  }
}
