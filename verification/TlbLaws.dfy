/** What the TLB holds over whole runs, in terms of the translations alone: reuse distance since
    the last flush. */
module TlbLaws {
  import opened Bits
  import opened Recency
  import opened PageTable
  import opened Boot
  import opened Tlb
  import opened Translation

  /** The pages translated since the last flush, of the machine that walks every time: a walk
      that evicts flushes before its own page is cached, and one that fails caches nothing. */
  function SinceFlush(p: nat, vm: Vm, trace: seq<nat>, pages: seq<nat>): seq<nat>
    requires p >= 2 && Shape(vm) && |vm.rows| == Entries(p)
    decreases |trace|
  {
    if trace == [] then pages
    else
      var vpn := Shr(trace[0], p);
      SinceFlush(p, WalkPage(p, vm, vpn).vm, trace[1..], After(WalkPage(p, vm, vpn), pages, vpn))
  }

  /** The pages since the last flush once the walk of page `vpn` had the outcome `w`. */
  function After(w: Outcome, pages: seq<nat>, vpn: nat): seq<nat> {
    (if w.evicted == [] then pages else []) + (if w.frame == 0 then [] else [vpn])
  }

  /** The pages of one set. */
  function OfSet(pages: seq<nat>, numSets: nat, s: nat): seq<nat>
    requires numSets > 0
  {
    if pages == [] then []
    else
      var last := pages[|pages| - 1];
      OfSet(pages[..|pages| - 1], numSets, s) + (if Low(last, numSets) == s then [last] else [])
  }

  /** The pages that the lines of a set stand for. */
  function PagesOf(lines: seq<Line>, numSets: nat, s: nat): (r: seq<nat>)
    ensures |r| == |lines| && forall k | 0 <= k < |r| :: r[k] == PageOf(numSets, s, lines[k].tag)
  {
    seq(|lines|, k requires 0 <= k < |lines| => PageOf(numSets, s, lines[k].tag))
  }

  /** Each set is the most-recently-used list of its pages since the last flush. */
  ghost predicate Tracks(t: Tlb, pages: seq<nat>) {
    && t.sets != []
    && forall s | 0 <= s < |t.sets| ::
         PagesOf(t.sets[s], |t.sets|, s) == Lru(OfSet(pages, |t.sets|, s), t.ways)
  }

  lemma OfSetStep(pages: seq<nat>, vpn: nat, numSets: nat, s: nat)
    requires numSets > 0
    ensures OfSet(pages + [vpn], numSets, s) == OfSet(pages, numSets, s) + (if Low(vpn, numSets) == s then [vpn] else [])
  {
    assert (pages + [vpn])[..|pages|] == pages;
  }

  lemma {:induction false} OfSetMembers(pages: seq<nat>, numSets: nat, vpn: nat)
    requires numSets > 0
    ensures vpn in OfSet(pages, numSets, Low(vpn, numSets)) <==> vpn in pages
  {
    if pages != [] {
      var front, last := pages[..|pages| - 1], pages[|pages| - 1];
      OfSetMembers(front, numSets, vpn);
      assert pages == front + [last];
    }
  }

  lemma LruStep(seen: seq<nat>, x: nat, cap: nat)
    ensures Lru(seen + [x], cap) == Touch(Lru(seen, cap), x, cap)
  {
    assert (seen + [x])[..|seen|] == seen;
  }

  /** Within a set, tags and pages determine each other. */
  lemma TagIsPage(numSets: nat, vpn: nat, tag: nat)
    requires numSets > 0
    ensures PageOf(numSets, Low(vpn, numSets), tag) == vpn <==> tag == High(vpn, numSets)
  {
    PageOfSetAndTag(numSets, vpn);
    if tag < High(vpn, numSets) {
      OneMore(numSets, tag, High(vpn, numSets));
    } else if tag > High(vpn, numSets) {
      OneMore(numSets, High(vpn, numSets), tag);
    }
  }

  /** Finding a tag among the lines is finding the page among their pages. */
  lemma FindIsPlace(lines: seq<Line>, numSets: nat, vpn: nat)
    requires numSets > 0
    ensures IndexOf(PagesOf(lines, numSets, Low(vpn, numSets)), vpn) == Find(lines, High(vpn, numSets))
  {
    var pages := PagesOf(lines, numSets, Low(vpn, numSets));
    var k := Find(lines, High(vpn, numSets));
    forall i | 0 <= i < |lines| ensures pages[i] == vpn <==> lines[i].tag == High(vpn, numSets) {
      TagIsPage(numSets, vpn, lines[i].tag);
    }
    if k < |lines| {
      FirstPlace(pages, vpn, k);
    }
  }

  lemma PagesOfUse(lines: seq<Line>, numSets: nat, vpn: nat, ppn: nat, cap: nat)
    requires numSets > 0
    ensures var s, tag := Low(vpn, numSets), High(vpn, numSets);
      PagesOf(Use(lines, Find(lines, tag), Line(tag, ppn), cap), numSets, s) == Touch(PagesOf(lines, numSets, s), vpn, cap)
  {
    var s, tag := Low(vpn, numSets), High(vpn, numSets);
    FindIsPlace(lines, numSets, vpn);
    TagIsPage(numSets, vpn, tag);
    UsePages(lines, Find(lines, tag), Line(tag, ppn), numSets, s, cap);
  }

  lemma UsePages(lines: seq<Line>, k: nat, line: Line, numSets: nat, s: nat, cap: nat)
    requires k <= |lines|
    ensures PagesOf(Use(lines, k, line, cap), numSets, s)
            == Use(PagesOf(lines, numSets, s), k, PageOf(numSets, s, line.tag), cap)
  {
    OnePage(line, numSets, s);
    if k < |lines| {
      MovedPages(lines, k, line, numSets, s);
    } else {
      PagesJoin([line], lines, numSets, s);
      if |lines| + 1 > cap {
        PagesSlice([line] + lines, 0, cap, numSets, s);
      }
    }
  }

  lemma OnePage(line: Line, numSets: nat, s: nat)
    ensures PagesOf([line], numSets, s) == [PageOf(numSets, s, line.tag)]
  {
  }

  lemma MovedPages(lines: seq<Line>, k: nat, line: Line, numSets: nat, s: nat)
    requires k < |lines|
    ensures var pages := PagesOf(lines, numSets, s);
      PagesOf([line] + lines[..k] + lines[k + 1..], numSets, s) == [PageOf(numSets, s, line.tag)] + pages[..k] + pages[k + 1..]
  {
    OnePage(line, numSets, s);
    PagesJoin([line], lines[..k], numSets, s);
    PagesJoin([line] + lines[..k], lines[k + 1..], numSets, s);
    PagesSlice(lines, 0, k, numSets, s);
    PagesSlice(lines, k + 1, |lines|, numSets, s);
  }

  lemma PagesJoin(a: seq<Line>, b: seq<Line>, numSets: nat, s: nat)
    ensures PagesOf(a + b, numSets, s) == PagesOf(a, numSets, s) + PagesOf(b, numSets, s)
  {
  }

  lemma PagesSlice(lines: seq<Line>, i: nat, j: nat, numSets: nat, s: nat)
    requires i <= j <= |lines|
    ensures PagesOf(lines[i..j], numSets, s) == PagesOf(lines, numSets, s)[i..j]
  {
  }

  /** Caching a page is one more page of the list. */
  lemma UseLineTracks(t: Tlb, pages: seq<nat>, vpn: nat, ppn: nat)
    requires Tracks(t, pages)
    ensures Tracks(UseLine(t, vpn, ppn), pages + [vpn])
  {
    var n := |t.sets|;
    var t' := UseLine(t, vpn, ppn);
    forall s | 0 <= s < n ensures PagesOf(t'.sets[s], n, s) == Lru(OfSet(pages + [vpn], n, s), t'.ways) {
      OfSetStep(pages, vpn, n, s);
      if s == Low(vpn, n) {
        LruStep(OfSet(pages, n, s), vpn, t.ways);
        PagesOfUse(t.sets[s], n, vpn, ppn, t.ways);
      } else {
        assert OfSet(pages, n, s) + [] == OfSet(pages, n, s);
      }
    }
  }

  lemma FlushTracks(t: Tlb, pages: seq<nat>, n: nat)
    requires Tracks(t, pages)
    ensures Tracks(Flush(t, n), if n == 0 then pages else [])
  {
  }

  /** Only the lists matter. */
  lemma SameSetsTrack(t: Tlb, t': Tlb, pages: seq<nat>)
    requires Tracks(t, pages) && t'.sets == t.sets && t'.ways == t.ways
    ensures Tracks(t', pages)
  {
  }

  lemma StepTracks(p: nat, pool: set<nat>, st: Mmu, pages: seq<nat>, virtualAddr: nat)
    requires Good(p, pool, st) && Tracks(st.tlb, pages)
    ensures var vpn := Shr(virtualAddr, p);
      Tracks(Step(p, st, virtualAddr).0.tlb, After(WalkPage(p, st.vm, vpn), pages, vpn))
  {
    var vpn := Shr(virtualAddr, p);
    HitAgrees(p, st, vpn);
    if Cached(st.tlb, vpn) {
      WalkPageOfMapped(p, pool, st.vm, vpn);
      UseLineTracks(st.tlb, pages, vpn, Lookup(st.tlb, vpn));
      SameSetsTrack(UseLine(st.tlb, vpn, Lookup(st.tlb, vpn)), Probe(st.tlb, vpn), pages + [vpn]);
    } else {
      var w := WalkPage(p, st.vm, vpn);
      SameSetsTrack(st.tlb, Probe(st.tlb, vpn), pages);
      FlushTracks(Probe(st.tlb, vpn), pages, |w.evicted|);
      var kept := if w.evicted == [] then pages else [];
      if w.frame == 0 {
        assert kept + [] == kept;
      } else {
        UseLineTracks(Flush(Probe(st.tlb, vpn), |w.evicted|), kept, vpn, w.frame);
      }
    }
  }

  lemma {:induction false} RunTracks(p: nat, pool: set<nat>, st: Mmu, pages: seq<nat>, trace: seq<nat>)
    requires Good(p, pool, st) && Tracks(st.tlb, pages)
    ensures Tracks(Run(p, st, trace).0.tlb, SinceFlush(p, st.vm, trace, pages))
    decreases |trace|
  {
    if trace != [] {
      var vpn := Shr(trace[0], p);
      StepTracks(p, pool, st, pages, trace[0]);
      StepIsWalk(p, pool, st, trace[0]);
      RunTracks(p, pool, Step(p, st, trace[0]).0, After(WalkPage(p, st.vm, vpn), pages, vpn), trace[1..]);
    }
  }

  lemma CachedIsListed(t: Tlb, pages: seq<nat>, vpn: nat)
    requires Tracks(t, pages)
    ensures var mine := OfSet(pages, |t.sets|, Low(vpn, |t.sets|));
      Cached(t, vpn) <==> vpn in pages && |Elems(Since(mine, vpn))| < t.ways
  {
    var n, s := |t.sets|, Low(vpn, |t.sets|);
    FindIsPlace(t.sets[s], n, vpn);
    ReuseDistance(OfSet(pages, n, s), vpn, t.ways);
    OfSetMembers(pages, n, vpn);
  }

  /** Reuse distance over whole runs: a page is cached exactly when it was translated since the
      last flush and fewer distinct other pages of its set than there are ways were translated
      since then. When flushes happen is a matter of the page table alone. */
  lemma CachedExactly(p: nat, logPoolSize: nat, logNumRows: nat, ways: nat, trace: seq<nat>, vpn: nat)
    requires p >= 2 && ways >= 1
    ensures var t := Run(p, Initial(p, logPoolSize, logNumRows, ways), trace).0.tlb;
      var pages := SinceFlush(p, Start(p, logPoolSize), trace, []);
      && |t.sets| == Pow2(logNumRows)
      && (Cached(t, vpn) <==>
            vpn in pages && |Elems(Since(OfSet(pages, |t.sets|, Low(vpn, |t.sets|)), vpn))| < ways)
  {
    var st := Initial(p, logPoolSize, logNumRows, ways);
    InitialGood(p, logPoolSize, logNumRows, ways);
    RunTracks(p, PoolOf(p, logPoolSize), st, [], trace);
    SameWays(p, st, trace);
    CachedIsListed(Run(p, st, trace).0.tlb, SinceFlush(p, Start(p, logPoolSize), trace, []), vpn);
  }

  /** Whether the next access finds its page cached, in terms of the translations before it. */
  ghost predicate Reused(p: nat, logPoolSize: nat, numSets: nat, ways: nat, before: seq<nat>, addr: nat)
    requires p >= 2 && numSets > 0
  {
    var pages, vpn := SinceFlush(p, Start(p, logPoolSize), before, []), Shr(addr, p);
    vpn in pages && |Elems(Since(OfSet(pages, numSets, Low(vpn, numSets)), vpn))| < ways
  }

  /** How many accesses of the trace find their page cached. */
  ghost function Reuses(p: nat, logPoolSize: nat, numSets: nat, ways: nat, trace: seq<nat>): (n: nat)
    requires p >= 2 && numSets > 0
    ensures n <= |trace|
  {
    if trace == [] then 0
    else
      var front := trace[..|trace| - 1];
      Reuses(p, logPoolSize, numSets, ways, front)
      + if Reused(p, logPoolSize, numSets, ways, front, trace[|trace| - 1]) then 1 else 0
  }

  /** A translation counts a hit exactly when the page was cached, and a miss otherwise. */
  lemma StepCounts(p: nat, st: Mmu, addr: nat)
    requires p >= 2 && Shape(st.vm) && |st.vm.rows| == Entries(p) && st.tlb.sets != []
    ensures var next, hit := Step(p, st, addr).0.tlb, Cached(st.tlb, Shr(addr, p));
      && next.hits == st.tlb.hits + (if hit then 1 else 0)
      && next.misses == st.tlb.misses + (if hit then 0 else 1)
  {
  }

  lemma NextCount(p: nat, st: Mmu, front: seq<nat>, addr: nat)
    requires p >= 2 && Shape(st.vm) && |st.vm.rows| == Entries(p) && st.tlb.sets != []
    ensures var before, after := Run(p, st, front).0.tlb, Run(p, st, front + [addr]).0.tlb;
      var hit := Cached(before, Shr(addr, p));
      && after.hits == before.hits + (if hit then 1 else 0)
      && after.misses == before.misses + (if hit then 0 else 1)
  {
    RunOneMore(p, st, front, addr);
    StepCounts(p, Run(p, st, front).0, addr);
  }

  lemma ReusedIsCached(p: nat, logPoolSize: nat, logNumRows: nat, ways: nat, front: seq<nat>, addr: nat)
    requires p >= 2 && ways >= 1
    ensures Reused(p, logPoolSize, Pow2(logNumRows), ways, front, addr) <==>
            Cached(Run(p, Initial(p, logPoolSize, logNumRows, ways), front).0.tlb, Shr(addr, p))
  {
    CachedExactly(p, logPoolSize, logNumRows, ways, front, Shr(addr, p));
  }

  lemma ReusesOneMore(p: nat, logPoolSize: nat, numSets: nat, ways: nat, front: seq<nat>, addr: nat)
    requires p >= 2 && numSets > 0
    ensures Reuses(p, logPoolSize, numSets, ways, front + [addr]) ==
            Reuses(p, logPoolSize, numSets, ways, front)
            + if Reused(p, logPoolSize, numSets, ways, front, addr) then 1 else 0
  {
    var trace := front + [addr];
    assert trace[..|trace| - 1] == front;
  }

  lemma CountsOneMore(p: nat, logPoolSize: nat, logNumRows: nat, ways: nat, front: seq<nat>, addr: nat)
    requires p >= 2 && ways >= 1
    ensures var st := Initial(p, logPoolSize, logNumRows, ways);
      var before, after := Run(p, st, front).0.tlb, Run(p, st, front + [addr]).0.tlb;
      var hit := Reused(p, logPoolSize, Pow2(logNumRows), ways, front, addr);
      && after.hits == before.hits + (if hit then 1 else 0)
      && after.misses == before.misses + (if hit then 0 else 1)
  {
    ReusedIsCached(p, logPoolSize, logNumRows, ways, front, addr);
    NextCount(p, Initial(p, logPoolSize, logNumRows, ways), front, addr);
  }

  /** The hits of a run are exactly the accesses whose page was translated since the last flush
      with fewer than `ways` distinct other pages of its set since then; the rest are misses. */
  lemma {:induction false} HitsExactly(p: nat, logPoolSize: nat, logNumRows: nat, ways: nat, trace: seq<nat>)
    requires p >= 2 && ways >= 1
    ensures var t := Run(p, Initial(p, logPoolSize, logNumRows, ways), trace).0.tlb;
      var n := Reuses(p, logPoolSize, Pow2(logNumRows), ways, trace);
      t.hits == n && t.misses == |trace| - n
  {
    if trace != [] {
      var front, addr := trace[..|trace| - 1], trace[|trace| - 1];
      assert trace == front + [addr];
      HitsExactly(p, logPoolSize, logNumRows, ways, front);
      CountsOneMore(p, logPoolSize, logNumRows, ways, front, addr);
      ReusesOneMore(p, logPoolSize, Pow2(logNumRows), ways, front, addr);
    }
  }

  lemma {:induction false} SameWays(p: nat, st: Mmu, trace: seq<nat>)
    requires p >= 2 && Shape(st.vm) && |st.vm.rows| == Entries(p) && st.tlb.sets != []
    ensures Run(p, st, trace).0.tlb.ways == st.tlb.ways
    decreases |trace|
  {
    if trace != [] {
      SameWays(p, Step(p, st, trace[0]).0, trace[1..]);
    }
  }
}
