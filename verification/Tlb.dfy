/** The set-associative LRU TLB: its meaning as most-recently-used lists of lines, and the
    class that keeps time-stamped entries in place. */
module Tlb {
  import opened Bits
  import opened Recency
  import opened LruWays

  datatype Line = Line(tag: nat, ppn: nat)

  datatype Tlb = Tlb(sets: seq<seq<Line>>, ways: nat, hits: nat, misses: nat, flushes: nat)

  function TagsOf(lines: seq<Line>): (r: seq<nat>)
    ensures |r| == |lines| && forall k | 0 <= k < |r| :: r[k] == lines[k].tag
  {
    seq(|lines|, k requires 0 <= k < |lines| => lines[k].tag)
  }

  /** Position of the line with the tag, `|lines|` when there is none. */
  function Find(lines: seq<Line>, tag: nat): (k: nat)
    ensures k <= |lines|
    ensures k < |lines| ==> lines[k].tag == tag
    ensures forall i | 0 <= i < k :: lines[i].tag != tag
  {
    var k := IndexOf(TagsOf(lines), tag);
    assert forall i | 0 <= i < k :: TagsOf(lines)[..k][i] == lines[i].tag;
    k
  }

  /** The set of virtual page `vpn`; the page's tag is what the set index leaves over. */
  function LinesFor(t: Tlb, vpn: nat): seq<Line>
    requires t.sets != []
  {
    t.sets[Low(vpn, |t.sets|)]
  }

  /** The cached frame of virtual page `vpn`, 0 when it is not cached. */
  function Lookup(t: Tlb, vpn: nat): nat
    requires t.sets != []
  {
    var lines, tag := LinesFor(t, vpn), High(vpn, |t.sets|);
    var k := Find(lines, tag);
    if k < |lines| then lines[k].ppn else 0
  }

  function Cached(t: Tlb, vpn: nat): bool
    requires t.sets != []
  {
    Find(LinesFor(t, vpn), High(vpn, |t.sets|)) < |LinesFor(t, vpn)|
  }

  function UseLine(t: Tlb, vpn: nat, ppn: nat): (r: Tlb)
    requires t.sets != []
    ensures |r.sets| == |t.sets|
  {
    var lines, tag := LinesFor(t, vpn), High(vpn, |t.sets|);
    t.(sets := t.sets[Low(vpn, |t.sets|) := Use(lines, Find(lines, tag), Line(tag, ppn), t.ways)])
  }

  /** A lookup: a hit moves its line to the front, and either way it is counted. */
  function Probe(t: Tlb, vpn: nat): (r: Tlb)
    requires t.sets != []
    ensures |r.sets| == |t.sets|
  {
    if Cached(t, vpn) then UseLine(t, vpn, Lookup(t, vpn)).(hits := t.hits + 1)
    else t.(misses := t.misses + 1)
  }

  /** Caching a translation; 0 stands for a failed walk and is not cached. */
  function Insert(t: Tlb, vpn: nat, ppn: nat): (r: Tlb)
    requires t.sets != []
    ensures |r.sets| == |t.sets|
  {
    if ppn == 0 then t else UseLine(t, vpn, ppn)
  }

  /** `n` flushes. */
  function Flush(t: Tlb, n: nat): (r: Tlb)
    ensures |r.sets| == |t.sets|
  {
    if n == 0 then t else t.(sets := seq(|t.sets|, _ => []), flushes := t.flushes + n)
  }

  /** What the ways of a set say about a tag is what its list says. */
  lemma FindIsIndex(st: Store<Line>, t: Tlb, vpn: nat)
    requires Lists(st, t.ways, t.sets) && t.sets != [] && Paired(st)
    ensures var s, tag, list := Low(vpn, |t.sets|), High(vpn, |t.sets|), LinesFor(t, vpn);
      && SetLists(st, t.ways, s, list)
      && Find(list, tag) == IndexOf(Tags(st.ways[s], st.orders[s]), tag)
      && (forall i | 0 <= i < t.ways && st.ways[s][i].valid && st.ways[s][i].tag == tag ::
            Find(list, tag) < |list| && list[Find(list, tag)] == st.items[s][i])
      && ((forall i | 0 <= i < t.ways && st.ways[s][i].valid :: st.ways[s][i].tag != tag) ==> Find(list, tag) == |list|)
  {
    var s, tag, list := Low(vpn, |t.sets|), High(vpn, |t.sets|), LinesFor(t, vpn);
    ListsAt(st, t.ways, t.sets, |t.sets|, s);
    var ways, order := st.ways[s], st.orders[s];
    assert TagsOf(list) == Tags(ways, order);
    HoldsTag(ways, order, st.now, tag);
    forall i | 0 <= i < t.ways && ways[i].valid && ways[i].tag == tag
      ensures Find(list, tag) < |list| && list[Find(list, tag)] == st.items[s][i]
    {
      assert order[Place(order, i)] == i;
    }
  }

  /** Each way carries the tag of its line. */
  ghost predicate Paired(st: Store<Line>) {
    && |st.ways| == |st.items|
    && forall s, w | 0 <= s < |st.ways| && 0 <= w < |st.ways[s]| && w < |st.items[s]| ::
         st.ways[s][w].tag == st.items[s][w].tag
  }

  /** Stamping a chosen way for page `vpn` is one step of the model. */
  lemma AssignStep(st: Store<Line>, t: Tlb, vpn: nat, w: nat, ppn: nat)
    requires Lists(st, t.ways, t.sets) && t.sets != [] && Paired(st)
    requires w < t.ways && Chosen(st.ways[Low(vpn, |t.sets|)], High(vpn, |t.sets|), w)
    requires |st.ways[Low(vpn, |t.sets|)]| == |st.items[Low(vpn, |t.sets|)]| == t.ways
    ensures var s, tag := Low(vpn, |t.sets|), High(vpn, |t.sets|);
      Lists(Stamped(st, s, w, tag, Line(tag, ppn)), t.ways, UseLine(t, vpn, ppn).sets)
  {
    var s, tag := Low(vpn, |t.sets|), High(vpn, |t.sets|);
    ListsAt(st, t.ways, t.sets, |t.sets|, s);
    StampedLists(st, t.ways, t.sets, s, w, tag, Line(tag, ppn));
    FindIsIndex(st, t, vpn);
  }

  lemma FlushTwice(t: Tlb, m: nat, n: nat)
    ensures Flush(Flush(t, m), n) == Flush(t, m + n)
  {
    if m > 0 && n > 0 {
      assert Flush(Flush(t, m), n).sets == Flush(t, m + n).sets;
    }
  }

  function Fresh(numSets: nat, ways: nat): Tlb {
    Tlb(seq(numSets, _ => []), ways, 0, 0, 0)
  }

  /** A store whose ways have never been used. */
  ghost function Blank(numSets: nat, ways: nat): (st: Store<Line>)
    ensures |st.ways| == |st.items| == numSets && st.now == 0
    ensures forall s, w | 0 <= s < numSets && 0 <= w < ways ::
              && |st.ways[s]| == |st.items[s]| == ways
              && st.ways[s][w] == Way(false, 0, 0) && st.items[s][w] == Line(0, 0)
  {
    Store(seq(numSets, _ => seq(ways, _ => Way(false, 0, 0))),
          seq(numSets, _ => seq(ways, _ => Line(0, 0))), seq(numSets, _ => []), 0)
  }

  lemma BlankLists(numSets: nat, ways: nat)
    ensures Lists(Blank(numSets, ways), ways, seq(numSets, _ => []))
  {
    ListsFrom(Blank(numSets, ways), ways, seq(numSets, _ => []), numSets);
  }

  /** One way of a set, as the C++ struct lays it out. */
  datatype Entry = Entry(valid: bool, tag: nat, ppn: nat, lru: nat)

  class LruTlb {
    var missCount: nat
    var hitCount: nat
    var flushCount: nat
    const logPageSize: nat
    const logNumRows: nat
    const associativity: nat
    const numSets: nat
    const sets: array2<Entry>
    var counter: nat

    /** The entries by set, as ways and as lines, and the ways by recency. */
    ghost var store: Store<Line>

    /** The lists and counters that the entries stand for. */
    ghost var model: Tlb

    ghost predicate Fixed() {
      && numSets == Pow2(logNumRows) && associativity >= 1
      && sets.Length0 == numSets && sets.Length1 == associativity
    }

    ghost predicate Mirrored()
      reads `store, `counter, sets
    {
      && store.now == counter && |store.ways| == |store.items| == numSets == sets.Length0
      && forall s, w | 0 <= s < numSets && 0 <= w < sets.Length1 ::
           && |store.ways[s]| == |store.items[s]| == sets.Length1
           && store.ways[s][w] == Way(sets[s, w].valid, sets[s, w].tag, sets[s, w].lru)
           && store.items[s][w] == Line(sets[s, w].tag, sets[s, w].ppn)
    }

    ghost predicate Valid()
      reads this, sets
    {
      && Mirrored()
      && model == Tlb(model.sets, associativity, hitCount, missCount, flushCount)
      && Lists(store, associativity, model.sets)
    }

    constructor (logPageSize: nat, logNumRows: nat, associativity: nat)
      requires associativity >= 1
      ensures Fixed() && Valid() && fresh(sets)
      ensures this.logPageSize == logPageSize && this.logNumRows == logNumRows && this.associativity == associativity
      ensures model == Fresh(Pow2(logNumRows), associativity)
    {
      this.logPageSize := logPageSize;
      this.logNumRows := logNumRows;
      this.associativity := associativity;
      numSets := Pow2(logNumRows);
      missCount, hitCount, flushCount, counter := 0, 0, 0, 0;
      var entries := new Entry[Pow2(logNumRows), associativity];
      sets := entries;
      new;
      ClearAll();
      store := Blank(numSets, associativity);
      BlankLists(numSets, associativity);
      model := Fresh(numSets, associativity);
    }

    method ClearAll()
      requires Fixed()
      modifies sets
      ensures forall s, w | 0 <= s < numSets && 0 <= w < associativity :: sets[s, w] == Entry(false, 0, 0, 0)
    {
      for i := 0 to numSets
        invariant forall s, w | 0 <= s < i && 0 <= w < associativity :: sets[s, w] == Entry(false, 0, 0, 0)
      {
        for j := 0 to associativity
          invariant forall s, w | 0 <= s < i && 0 <= w < associativity :: sets[s, w] == Entry(false, 0, 0, 0)
          invariant forall w | 0 <= w < j :: sets[i, w] == Entry(false, 0, 0, 0)
        {
          sets[i, j] := Entry(false, 0, 0, 0);
        }
      }
    }

    lemma SetsPaired()
      requires Fixed() && Valid()
      ensures Paired(store) && model.sets != []
      ensures forall s | 0 <= s < numSets :: |store.ways[s]| == |store.items[s]| == associativity
    {
      forall s | 0 <= s < numSets ensures |store.ways[s]| == |store.items[s]| == associativity {
        var e := sets[s, 0];
      }
    }

    /** Gives page `vpn` the chosen way `w` of its set, stamped with the next time. */
    method Assign(vpn: nat, w: nat, ppn: nat)
      requires Fixed() && Valid() && Chosen(store.ways[Low(vpn, numSets)], High(vpn, numSets), w)
      modifies `counter, `store, `model, sets
      ensures Valid() && model == UseLine(old(model), vpn, ppn)
    {
      var s, tag := Low(vpn, numSets), High(vpn, numSets);
      SetsPaired();
      AssignStep(store, model, vpn, w, ppn);
      counter := counter + 1;
      sets[s, w] := Entry(true, tag, ppn, counter);
      store := Stamped(store, s, w, tag, Line(tag, ppn));
      model := UseLine(model, vpn, ppn);
    }

    /** The first way of the set that holds the tag, `associativity` when none does. */
    method FindWay(setIdx: nat, tag: nat) returns (i: nat)
      requires Fixed() && setIdx < numSets
      ensures i <= associativity
      ensures i < associativity ==> sets[setIdx, i].valid && sets[setIdx, i].tag == tag
      ensures forall j | 0 <= j < i && sets[setIdx, j].valid :: sets[setIdx, j].tag != tag
    {
      i := 0;
      while i < associativity && !(sets[setIdx, i].valid && sets[setIdx, i].tag == tag)
        invariant i <= associativity
        invariant forall j | 0 <= j < i && sets[setIdx, j].valid :: sets[setIdx, j].tag != tag
      {
        i := i + 1;
      }
    }

    method PhysicalPage(virtualAddr: nat) returns (ret: nat)
      requires Fixed() && Valid()
      modifies this, sets
      ensures Valid()
      ensures ret == Lookup(old(model), Shr(virtualAddr, logPageSize))
      ensures model == Probe(old(model), Shr(virtualAddr, logPageSize))
    {
      var vpn := Shr(virtualAddr, logPageSize);
      var setIdx, tag := Low(vpn, numSets), High(vpn, numSets);
      SetsPaired();
      FindIsIndex(store, model, vpn);
      var i := FindWay(setIdx, tag);
      if i < associativity {
        ret := sets[setIdx, i].ppn;
        Assign(vpn, i, ret);
        hitCount := hitCount + 1;
        model := model.(hits := hitCount);
      } else {
        ret := 0;
        missCount := missCount + 1;
        model := model.(misses := missCount);
      }
    }

    /** The way to replace when the tag is absent: the first invalid one, else the first one with
        the least stamp. */
    method FindVictim(setIdx: nat) returns (w: nat)
      requires Fixed() && setIdx < numSets
      ensures w < associativity
      ensures sets[setIdx, w].valid ==>
                forall j | 0 <= j < associativity :: sets[setIdx, j].valid && sets[setIdx, w].lru <= sets[setIdx, j].lru
      ensures forall j | 0 <= j < w :: sets[setIdx, j].valid
      ensures sets[setIdx, w].valid ==> forall j | 0 <= j < w :: sets[setIdx, w].lru < sets[setIdx, j].lru
    {
      for i := 0 to associativity
        invariant forall j | 0 <= j < i :: sets[setIdx, j].valid
      {
        if !sets[setIdx, i].valid {
          return i;
        }
      }
      w := 0;
      var minLru := sets[setIdx, 0].lru;
      for i := 1 to associativity
        invariant 0 <= w < i
        invariant minLru == sets[setIdx, w].lru
        invariant forall j | 0 <= j < i :: minLru <= sets[setIdx, j].lru
        invariant forall j | 0 <= j < w :: minLru < sets[setIdx, j].lru
      {
        if sets[setIdx, i].lru < minLru {
          minLru := sets[setIdx, i].lru;
          w := i;
        }
      }
    }

    method CacheTranslation(virtualAddr: nat, translation: nat)
      requires Fixed() && Valid()
      modifies this, sets
      ensures Valid()
      ensures model == Insert(old(model), Shr(virtualAddr, logPageSize), translation)
    {
      if translation == 0 {
        return;
      }
      var vpn := Shr(virtualAddr, logPageSize);
      var setIdx, tag := Low(vpn, numSets), High(vpn, numSets);
      var w := FindWay(setIdx, tag);
      if w == associativity {
        w := FindVictim(setIdx);
      }
      Assign(vpn, w, translation);
    }

    method FlushNoLock()
      requires Fixed() && Valid()
      modifies `flushCount, `store, `model, sets
      ensures Valid()
      ensures model == Flush(old(model), 1)
    {
      SetsPaired();
      flushCount := flushCount + 1;
      for i := 0 to numSets
        modifies sets
        invariant forall s, w | 0 <= s < numSets && 0 <= w < associativity ::
                    sets[s, w] == old(sets[s, w]).(valid := s >= i && old(sets[s, w]).valid)
      {
        for j := 0 to associativity
          modifies sets
          invariant forall s, w | 0 <= s < numSets && 0 <= w < associativity ::
                      sets[s, w] == old(sets[s, w]).(valid := (s > i || (s == i && w >= j)) && old(sets[s, w]).valid)
        {
          sets[i, j] := sets[i, j].(valid := false);
        }
      }
      EmptiedLists(store, associativity);
      store := Emptied(store);
      model := Flush(model, 1);
    }
  }
}
