/** The cache simulator: its meaning as most-recently-used lists of tags, and the class that
    keeps tags, valid bits and time stamps in place. */
module Caches {
  import opened Bits
  import opened Recency
  import opened LruWays

  /** The tags of each set, most recently used first, and the four counters. */
  datatype Cache = Cache(sets: seq<seq<nat>>, ways: nat, readReqs: nat, writeReqs: nat, readHits: nat, writeHits: nat)

  function Counted(c: Cache, isWrite: bool, hit: bool): Cache {
    Cache(c.sets, c.ways,
          c.readReqs + (if isWrite then 0 else 1), c.writeReqs + (if isWrite then 1 else 0),
          c.readHits + (if hit && !isWrite then 1 else 0), c.writeHits + (if hit && isWrite then 1 else 0))
  }

  function Accessed(c: Cache, index: nat, tag: nat, isWrite: bool): (r: Cache)
    requires index < |c.sets|
    ensures |r.sets| == |c.sets| && r.ways == c.ways
  {
    Counted(c.(sets := c.sets[index := Touch(c.sets[index], tag, c.ways)]), isWrite, tag in c.sets[index])
  }

  function Empty(rows: nat, ways: nat): Cache {
    Cache(seq(rows, _ => []), ways, 0, 0, 0, 0)
  }

  // ----- addresses

  /** How a model indexes and tags its blocks: by physical or by virtual address bits. */
  datatype Scheme = PIPT | VIPT | VIVT

  datatype Geometry = Geometry(logPageSize: nat, logBlockSize: nat, logNumRows: nat)

  /** The physical address under a page map: the page's frame number, then the page offset. */
  function PhysicalAddr(g: Geometry, frames: nat -> nat, virtualAddr: nat): nat {
    Pow2(g.logPageSize) * frames(Shr(virtualAddr, g.logPageSize)) + Low(virtualAddr, Pow2(g.logPageSize))
  }

  function RowIndex(g: Geometry, addr: nat): (i: nat)
    ensures i < Pow2(g.logNumRows)
  {
    Low(Shr(addr, g.logBlockSize), Pow2(g.logNumRows))
  }

  /** Tags are stored in 32 bits. */
  function TagBits(g: Geometry, addr: nat): nat {
    Low(Shr(addr, g.logBlockSize + g.logNumRows), Pow2(32))
  }

  function IndexFor(scheme: Scheme, g: Geometry, frames: nat -> nat, virtualAddr: nat): (i: nat)
    ensures i < Pow2(g.logNumRows)
  {
    RowIndex(g, if scheme == PIPT then PhysicalAddr(g, frames, virtualAddr) else virtualAddr)
  }

  function TagFor(scheme: Scheme, g: Geometry, frames: nat -> nat, virtualAddr: nat): nat {
    TagBits(g, if scheme == VIVT then virtualAddr else PhysicalAddr(g, frames, virtualAddr))
  }

  function Requested(scheme: Scheme, g: Geometry, frames: nat -> nat, c: Cache, virtualAddr: nat, isWrite: bool): (r: Cache)
    requires |c.sets| == Pow2(g.logNumRows)
    ensures |r.sets| == |c.sets|
  {
    Accessed(c, IndexFor(scheme, g, frames, virtualAddr), TagFor(scheme, g, frames, virtualAddr), isWrite)
  }

  /** The word that an address lies in: loads and stores are aligned before they are counted. */
  function Aligned(virtualAddr: nat): nat {
    4 * High(virtualAddr, 4)
  }

  /** The way the replacement uses for a tag: the first one holding it; else the last invalid
      one; else the first one with the least stamp. */
  ghost predicate Picked(ways: seq<Way>, tag: nat, w: nat) {
    && w < |ways|
    && if exists i :: 0 <= i < |ways| && ways[i].valid && ways[i].tag == tag then
         && ways[w].valid && ways[w].tag == tag
         && forall i | 0 <= i < w && ways[i].valid :: ways[i].tag != tag
       else if exists i :: 0 <= i < |ways| && !ways[i].valid then
         !ways[w].valid && forall i | w < i < |ways| :: ways[i].valid
       else
         && (forall i | 0 <= i < w :: ways[w].stamp < ways[i].stamp)
         && (forall i | w <= i < |ways| :: ways[w].stamp <= ways[i].stamp)
  }

  lemma PickedIsChosen(ways: seq<Way>, tag: nat, w: nat)
    requires Picked(ways, tag, w)
    ensures Chosen(ways, tag, w)
  {
  }

  /** The same valid bits and stamps, and the same tags where valid: what a tag array holds
      before its first use is arbitrary. */
  ghost predicate SameWays(a: seq<Way>, b: seq<Way>) {
    && |a| == |b|
    && forall w | 0 <= w < |a| ::
         a[w].valid == b[w].valid && a[w].stamp == b[w].stamp && (a[w].valid ==> a[w].tag == b[w].tag)
  }

  ghost predicate Twins(a: Store<nat>, b: Store<nat>) {
    && a.now == b.now && |a.ways| == |b.ways|
    && forall s | 0 <= s < |a.ways| :: SameWays(a.ways[s], b.ways[s])
  }

  lemma PickedSame(a: seq<Way>, b: seq<Way>, tag: nat, v: nat, w: nat)
    requires SameWays(a, b) && Picked(a, tag, v) && Picked(b, tag, w)
    ensures v == w
  {
    assert a[w].valid == b[w].valid && a[v].valid == b[v].valid;
    if i :| 0 <= i < |a| && a[i].valid && a[i].tag == tag {
      assert b[i].valid && b[i].tag == tag;
    } else if i :| 0 <= i < |a| && !a[i].valid {
      assert !b[i].valid;
    }
  }

  /** The same access does the same to both: the replacement is deterministic. */
  lemma TwinsStep(a: Store<nat>, b: Store<nat>, s: nat, tag: nat, v: nat, w: nat)
    requires Twins(a, b) && s < |a.ways| == |a.items| == |a.orders| && |b.ways| == |b.items| == |b.orders|
    requires |a.ways[s]| == |a.items[s]| && |b.ways[s]| == |b.items[s]|
    requires Picked(a.ways[s], tag, v) && Picked(b.ways[s], tag, w)
    ensures Twins(Stamped(a, s, v, tag, tag), Stamped(b, s, w, tag, tag))
  {
    PickedSame(a.ways[s], b.ways[s], tag, v, w);
  }

  /** The stamp no line can have. */
  const MAX_STAMP: nat := 0xFFFF_FFFF_FFFF_FFFF

  class LruCache {
    const scheme: Scheme
    const geometry: Geometry
    const frames: nat -> nat
    const associativity: nat
    const numRows: nat
    var readReqs: nat
    var writeReqs: nat
    var readHits: nat
    var writeHits: nat
    const tag: array2<nat>
    const validBit: array2<bool>
    const lruStamp: array2<nat>
    var timeStamp: nat

    /** The ways by set and by recency. */
    ghost var store: Store<nat>

    /** The lists and counters that the arrays stand for. */
    ghost var model: Cache

    ghost predicate Fixed() {
      && numRows == Pow2(geometry.logNumRows) && associativity >= 1
      && tag.Length0 == validBit.Length0 == lruStamp.Length0 == numRows
      && tag.Length1 == validBit.Length1 == lruStamp.Length1 == associativity
      && tag != lruStamp
    }

    ghost predicate Mirrored()
      requires Fixed()
      reads `store, `timeStamp, tag, validBit, lruStamp
    {
      && store.now == timeStamp && |store.ways| == |store.items| == numRows
      && (forall s | 0 <= s < numRows :: |store.ways[s]| == |store.items[s]| == associativity)
      && forall s, w | 0 <= s < numRows && 0 <= w < associativity ::
           && store.ways[s][w] == Way(validBit[s, w], tag[s, w], lruStamp[s, w])
           && store.items[s][w] == tag[s, w]
    }

    ghost predicate Valid()
      requires Fixed()
      reads this, tag, validBit, lruStamp
    {
      && Mirrored()
      && model == Cache(model.sets, associativity, readReqs, writeReqs, readHits, writeHits)
      && Lists(store, associativity, model.sets)
    }

    /** The arrays with no way in use. */
    ghost function Snapshot(): (st: Store<nat>)
      requires Fixed()
      reads tag
      ensures |st.ways| == |st.items| == |st.orders| == numRows && st.now == 0
      ensures forall s | 0 <= s < numRows ::
                st.orders[s] == [] && |st.ways[s]| == |st.items[s]| == associativity
                && forall w | 0 <= w < associativity ::
                     st.ways[s][w] == Way(false, tag[s, w], 0) && st.items[s][w] == tag[s, w]
    {
      Store(seq(numRows, s requires 0 <= s < numRows reads tag => SnapshotWays(s)),
            seq(numRows, s requires 0 <= s < numRows reads tag => SnapshotTags(s)),
            seq(numRows, _ => []), 0)
    }

    ghost function SnapshotTags(s: nat): (tags: seq<nat>)
      requires Fixed() && s < numRows
      reads tag
      ensures |tags| == associativity && forall w | 0 <= w < associativity :: tags[w] == tag[s, w]
    {
      seq(associativity, w requires 0 <= w < associativity reads tag => tag[s, w])
    }

    ghost function SnapshotWays(s: nat): (ways: seq<Way>)
      requires Fixed() && s < numRows
      reads tag
      ensures |ways| == associativity && forall w | 0 <= w < associativity :: ways[w] == Way(false, tag[s, w], 0)
    {
      seq(associativity, w requires 0 <= w < associativity reads tag => Way(false, tag[s, w], 0))
    }

    lemma SnapshotLists()
      requires Fixed()
      ensures Lists(Snapshot(), associativity, seq(numRows, _ => []))
    {
      ListsFrom(Snapshot(), associativity, seq(numRows, _ => []), numRows);
    }

    constructor (scheme: Scheme, geometry: Geometry, frames: nat -> nat, associativity: nat)
      requires associativity >= 1
      ensures Fixed() && Valid() && fresh(tag) && fresh(validBit) && fresh(lruStamp)
      ensures this.scheme == scheme && this.geometry == geometry && this.frames == frames && this.associativity == associativity
      ensures model == Empty(Pow2(geometry.logNumRows), associativity) && timeStamp == 0
      ensures forall s, w | 0 <= s < numRows && 0 <= w < associativity :: !validBit[s, w] && lruStamp[s, w] == 0
    {
      this.scheme, this.geometry, this.frames, this.associativity := scheme, geometry, frames, associativity;
      var rows := Pow2(geometry.logNumRows);
      numRows := rows;
      readReqs, writeReqs, readHits, writeHits, timeStamp := 0, 0, 0, 0, 0;
      var tags := new nat[rows, associativity];
      var valid := new bool[rows, associativity];
      var stamps := new nat[rows, associativity];
      tag, validBit, lruStamp := tags, valid, stamps;
      new;
      ClearAll();
      store := Snapshot();
      SnapshotLists();
      model := Empty(numRows, associativity);
    }

    /** The way to use for a tag: the first one holding it, else the last invalid one, else the
        first one with the least stamp. */
    method FindWay(index: nat, tagVal: nat) returns (hit: bool, way: nat)
      requires Fixed() && index < numRows
      requires forall w | 0 <= w < associativity && validBit[index, w] :: lruStamp[index, w] < MAX_STAMP
      ensures way < associativity
      ensures hit ==> validBit[index, way] && tag[index, way] == tagVal
      ensures hit ==> forall w | 0 <= w < way && validBit[index, w] :: tag[index, w] != tagVal
      ensures !hit ==> forall w | 0 <= w < associativity && validBit[index, w] :: tag[index, w] != tagVal
      ensures !hit && validBit[index, way] ==>
                forall w | 0 <= w < associativity :: validBit[index, w] && lruStamp[index, way] <= lruStamp[index, w]
      ensures !hit && !validBit[index, way] ==> forall w | way < w < associativity :: validBit[index, w]
      ensures !hit && validBit[index, way] ==> forall w | 0 <= w < way :: lruStamp[index, way] < lruStamp[index, w]
    {
      var hitWay: nat, emptyWay: nat, lruWay: nat, minStamp: nat := associativity, associativity, 0, MAX_STAMP;
      for i := 0 to associativity
        invariant hitWay == associativity && lruWay < associativity
        invariant forall w | 0 <= w < i && validBit[index, w] :: tag[index, w] != tagVal && minStamp <= lruStamp[index, w]
        invariant if emptyWay == associativity then forall w | 0 <= w < i :: validBit[index, w]
                  else emptyWay < i && !validBit[index, emptyWay]
                       && forall w | emptyWay < w < i :: validBit[index, w]
        invariant minStamp == MAX_STAMP || (validBit[index, lruWay] && minStamp == lruStamp[index, lruWay])
        invariant lruWay <= i && forall w | 0 <= w < lruWay && validBit[index, w] :: minStamp < lruStamp[index, w]
      {
        if validBit[index, i] {
          if tag[index, i] == tagVal {
            hitWay := i;
            break;
          }
          if lruStamp[index, i] < minStamp {
            minStamp := lruStamp[index, i];
            lruWay := i;
          }
        } else {
          emptyWay := i;
        }
      }
      if hitWay != associativity {
        return true, hitWay;
      }
      return false, if emptyWay != associativity then emptyWay else lruWay;
    }

    method ClearAll()
      requires Fixed()
      modifies validBit, lruStamp
      ensures forall s, w | 0 <= s < numRows && 0 <= w < associativity :: !validBit[s, w] && lruStamp[s, w] == 0
    {
      for i := 0 to numRows
        invariant forall s, w | 0 <= s < i && 0 <= w < associativity :: !validBit[s, w] && lruStamp[s, w] == 0
      {
        for j := 0 to associativity
          invariant forall s, w | 0 <= s < i && 0 <= w < associativity :: !validBit[s, w] && lruStamp[s, w] == 0
          invariant forall w | 0 <= w < j :: !validBit[i, w] && lruStamp[i, w] == 0
        {
          validBit[i, j] := false;
          lruStamp[i, j] := 0;
        }
      }
    }

    /** The ways of a set are its list: stamps lie in the past, and a tag is held exactly when
        it is listed. */
    lemma SetSound(index: nat)
      requires Fixed() && Valid() && index < numRows
      ensures |store.ways[index]| == |store.items[index]| == associativity
      ensures SetLists(store, associativity, index, model.sets[index])
      ensures Tags(store.ways[index], store.orders[index]) == model.sets[index]
      ensures forall w | 0 <= w < associativity && validBit[index, w] ::
                lruStamp[index, w] <= timeStamp && tag[index, w] in model.sets[index]
      ensures forall t | t in model.sets[index] :: exists w :: 0 <= w < associativity && validBit[index, w] && tag[index, w] == t
    {
      ListsAt(store, associativity, model.sets, numRows, index);
      var ways, order := store.ways[index], store.orders[index];
      assert Tags(ways, order) == model.sets[index];
      forall w | 0 <= w < associativity && validBit[index, w]
        ensures lruStamp[index, w] <= timeStamp && tag[index, w] in model.sets[index]
      {
        assert ways[w].valid;
        HoldsTag(ways, order, store.now, ways[w].tag);
      }
      forall t | t in model.sets[index]
        ensures exists w :: 0 <= w < associativity && validBit[index, w] && tag[index, w] == t
      {
        HoldsTag(ways, order, store.now, t);
        var w :| 0 <= w < |ways| && ways[w].valid && ways[w].tag == t;
        assert validBit[index, w] && tag[index, w] == t;
      }
    }

    /** Writes way `w` in the three arrays, with the next time stamp. */
    method Put(index: nat, w: nat, tagVal: nat)
      requires Fixed() && Mirrored() && index < numRows == |store.orders| && w < associativity
      requires |store.ways[index]| == |store.items[index]| == associativity
      modifies `timeStamp, `store, tag, validBit, lruStamp
      ensures Mirrored() && timeStamp == old(timeStamp) + 1
      ensures store == Stamped(old(store), index, w, tagVal, tagVal)
    {
      timeStamp := timeStamp + 1;
      validBit[index, w] := true;
      tag[index, w] := tagVal;
      lruStamp[index, w] := timeStamp;
      store := Stamped(store, index, w, tagVal, tagVal);
    }

    /** Uses a chosen way for the tag; on a hit this only renews the stamp. */
    method Stamp(index: nat, w: nat, tagVal: nat)
      requires Fixed() && Valid() && index < numRows && w < associativity && Chosen(store.ways[index], tagVal, w)
      modifies `timeStamp, `store, `model, tag, validBit, lruStamp
      ensures Valid() && timeStamp == old(timeStamp) + 1
      ensures model == old(model).(sets := old(model).sets[index := Touch(old(model).sets[index], tagVal, associativity)])
      ensures store == Stamped(old(store), index, w, tagVal, tagVal)
    {
      SetSound(index);
      StampedLists(store, associativity, model.sets, index, w, tagVal, tagVal);
      Put(index, w, tagVal);
      model := model.(sets := model.sets[index := Touch(model.sets[index], tagVal, associativity)]);
    }

    /** What the arrays say of a set is what its ways say. */
    lemma PickedWay(index: nat, tagVal: nat, hit: bool, way: nat)
      requires Fixed() && Valid() && index < numRows && way < associativity
      requires hit ==> validBit[index, way] && tag[index, way] == tagVal
      requires hit ==> forall w | 0 <= w < way && validBit[index, w] :: tag[index, w] != tagVal
      requires !hit ==> forall w | 0 <= w < associativity && validBit[index, w] :: tag[index, w] != tagVal
      requires !hit && validBit[index, way] ==>
                 forall w | 0 <= w < associativity :: validBit[index, w] && lruStamp[index, way] <= lruStamp[index, w]
      requires !hit && !validBit[index, way] ==> forall w | way < w < associativity :: validBit[index, w]
      requires !hit && validBit[index, way] ==> forall w | 0 <= w < way :: lruStamp[index, way] < lruStamp[index, w]
      ensures Picked(store.ways[index], tagVal, way)
    {
      var ways := store.ways[index];
      assert ways[way] == Way(validBit[index, way], tag[index, way], lruStamp[index, way]);
    }

    /** Finds the way for a tag, and whether the list of the set has the tag. */
    method PickWay(index: nat, tagVal: nat) returns (hit: bool, way: nat)
      requires Fixed() && Valid() && index < numRows && timeStamp < MAX_STAMP
      ensures Picked(store.ways[index], tagVal, way) && Chosen(store.ways[index], tagVal, way)
      ensures hit == (tagVal in model.sets[index])
    {
      SetSound(index);
      hit, way := FindWay(index, tagVal);
      PickedWay(index, tagVal, hit, way);
      PickedIsChosen(store.ways[index], tagVal, way);
    }

    method Access(index: nat, tagVal: nat, isWrite: bool) returns (ghost way: nat)
      requires Fixed() && Valid() && index < numRows && timeStamp + 1 < MAX_STAMP
      modifies this, tag, validBit, lruStamp
      ensures Valid() && timeStamp == old(timeStamp) + 1
      ensures model == Accessed(old(model), index, tagVal, isWrite)
      ensures Picked(old(store).ways[index], tagVal, way)
      ensures store == Stamped(old(store), index, way, tagVal, tagVal)
    {
      var hit, w := PickWay(index, tagVal);
      way := w;
      Stamp(index, w, tagVal);
      Count(isWrite, hit);
    }

    method Count(isWrite: bool, hit: bool)
      requires Fixed() && Valid()
      modifies `readReqs, `writeReqs, `readHits, `writeHits, `model
      ensures Valid()
      ensures model == Counted(old(model), isWrite, hit)
    {
      if isWrite {
        writeReqs := writeReqs + 1;
      } else {
        readReqs := readReqs + 1;
      }
      if hit {
        if isWrite {
          writeHits := writeHits + 1;
        } else {
          readHits := readHits + 1;
        }
      }
      model := Cache(model.sets, associativity, readReqs, writeReqs, readHits, writeHits);
    }

    /** The arrays before and after a request: one way, picked by the replacement, is stamped. */
    ghost predicate Replaced(before: Store<nat>, virtualAddr: nat, way: nat)
      reads `store
    {
      var index := IndexFor(scheme, geometry, frames, virtualAddr);
      var tagVal := TagFor(scheme, geometry, frames, virtualAddr);
      && index < |before.ways| == |before.items| == |before.orders|
      && |before.ways[index]| == |before.items[index]|
      && Picked(before.ways[index], tagVal, way)
      && store == Stamped(before, index, way, tagVal, tagVal)
    }

    method ReadReq(virtualAddr: nat) returns (ghost way: nat)
      requires Fixed() && Valid() && timeStamp + 1 < MAX_STAMP
      modifies this, tag, validBit, lruStamp
      ensures Valid() && timeStamp == old(timeStamp) + 1
      ensures model == Requested(scheme, geometry, frames, old(model), virtualAddr, false)
      ensures Replaced(old(store), virtualAddr, way)
    {
      way := Access(IndexFor(scheme, geometry, frames, virtualAddr), TagFor(scheme, geometry, frames, virtualAddr), false);
    }

    method WriteReq(virtualAddr: nat) returns (ghost way: nat)
      requires Fixed() && Valid() && timeStamp + 1 < MAX_STAMP
      modifies this, tag, validBit, lruStamp
      ensures Valid() && timeStamp == old(timeStamp) + 1
      ensures model == Requested(scheme, geometry, frames, old(model), virtualAddr, true)
      ensures Replaced(old(store), virtualAddr, way)
    {
      way := Access(IndexFor(scheme, geometry, frames, virtualAddr), TagFor(scheme, geometry, frames, virtualAddr), true);
    }
  }
}
