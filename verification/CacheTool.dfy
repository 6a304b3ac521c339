/** The cache tool: three models fed with the same loads and stores. */
module CacheTool {
  import opened Bits
  import opened LruWays
  import opened Caches
  import opened CacheLaws

  class Tool {
    const cachePP: LruCache
    const cacheVP: LruCache
    const cacheVV: LruCache
    const geometry: Geometry
    const frames: nat -> nat

    /** The models are the three schemes over one geometry and page map, and share no state. */
    ghost predicate Fixed() {
      && cachePP.Fixed() && cacheVP.Fixed() && cacheVV.Fixed()
      && cachePP.scheme == PIPT && cacheVP.scheme == VIPT && cacheVV.scheme == VIVT
      && cachePP.associativity == cacheVP.associativity == cacheVV.associativity
      && cachePP.geometry == cacheVP.geometry == cacheVV.geometry == geometry
      && cachePP.frames == frames && cacheVP.frames == frames && cacheVV.frames == frames
      && cachePP != cacheVP && cachePP != cacheVV && cacheVP != cacheVV
      && cachePP.validBit != cacheVP.validBit && cachePP.validBit != cacheVV.validBit && cacheVP.validBit != cacheVV.validBit
      && {cachePP.tag, cachePP.lruStamp} !! {cacheVP.tag, cacheVP.lruStamp} !! {cacheVV.tag, cacheVV.lruStamp}
    }

    /** The objects that a load or a store may change. */
    ghost function Footprint(): set<object> {
      {cachePP, cachePP.tag, cachePP.validBit, cachePP.lruStamp, cacheVP, cacheVP.tag, cacheVP.validBit, cacheVP.lruStamp,
       cacheVV, cacheVV.tag, cacheVV.validBit, cacheVV.lruStamp}
    }

    ghost predicate Valid()
      requires Fixed()
      reads cachePP, cachePP.tag, cachePP.validBit, cachePP.lruStamp
      reads cacheVP, cacheVP.tag, cacheVP.validBit, cacheVP.lruStamp
      reads cacheVV, cacheVV.tag, cacheVV.validBit, cacheVV.lruStamp
    {
      && cachePP.Valid() && cacheVP.Valid() && cacheVV.Valid()
      && cachePP.timeStamp == cacheVP.timeStamp == cacheVV.timeStamp
    }

    /** The two physically tagged models hold the same lines, with the same stamps, way by way,
        and have counted the same. */
    ghost predicate Alike()
      requires Fixed()
      reads cachePP, cachePP.tag, cachePP.validBit, cachePP.lruStamp
      reads cacheVP, cacheVP.tag, cacheVP.validBit, cacheVP.lruStamp
    {
      && cachePP.model == cacheVP.model && cachePP.timeStamp == cacheVP.timeStamp
      && forall s, w | 0 <= s < cachePP.numRows && 0 <= w < cachePP.associativity ::
           && cachePP.validBit[s, w] == cacheVP.validBit[s, w]
           && cachePP.lruStamp[s, w] == cacheVP.lruStamp[s, w]
           && (cachePP.validBit[s, w] ==> cachePP.tag[s, w] == cacheVP.tag[s, w])
    }

    lemma EmptyAlike()
      requires Fixed() && cachePP.model == cacheVP.model && cachePP.timeStamp == cacheVP.timeStamp
      requires forall s, w | 0 <= s < cachePP.numRows && 0 <= w < cachePP.associativity ::
                 !cachePP.validBit[s, w] && cachePP.lruStamp[s, w] == 0
      requires forall s, w | 0 <= s < cacheVP.numRows && 0 <= w < cacheVP.associativity ::
                 !cacheVP.validBit[s, w] && cacheVP.lruStamp[s, w] == 0
      ensures Alike()
    {
    }

    lemma AlikeTwins()
      requires Fixed() && cachePP.Valid() && cacheVP.Valid() && Alike()
      ensures Twins(cachePP.store, cacheVP.store)
    {
      var a, b := cachePP.store, cacheVP.store;
      forall s | 0 <= s < cachePP.numRows ensures SameWays(a.ways[s], b.ways[s]) {
        forall w | 0 <= w < cachePP.associativity
          ensures a.ways[s][w] == Way(cachePP.validBit[s, w], cachePP.tag[s, w], cachePP.lruStamp[s, w])
          ensures b.ways[s][w] == Way(cacheVP.validBit[s, w], cacheVP.tag[s, w], cacheVP.lruStamp[s, w])
        {
        }
      }
    }

    lemma TwinsAlike()
      requires Fixed() && cachePP.Valid() && cacheVP.Valid() && cachePP.model == cacheVP.model
      requires Twins(cachePP.store, cacheVP.store)
      ensures Alike()
    {
      var a, b := cachePP.store, cacheVP.store;
      forall s, w | 0 <= s < cachePP.numRows && 0 <= w < cachePP.associativity
        ensures cachePP.validBit[s, w] == cacheVP.validBit[s, w]
        ensures cachePP.lruStamp[s, w] == cacheVP.lruStamp[s, w]
        ensures cachePP.validBit[s, w] ==> cachePP.tag[s, w] == cacheVP.tag[s, w]
      {
        assert SameWays(a.ways[s], b.ways[s]);
        assert a.ways[s][w] == Way(cachePP.validBit[s, w], cachePP.tag[s, w], cachePP.lruStamp[s, w]);
        assert b.ways[s][w] == Way(cacheVP.validBit[s, w], cacheVP.tag[s, w], cacheVP.lruStamp[s, w]);
      }
    }

    /** One request keeps the two models alike where the index lies in the page offset. */
    lemma RequestKeepsAlike(before: Store<nat>, other: Store<nat>, c: Cache, word: nat, isWrite: bool, v: nat, w: nat)
      requires Fixed() && PageIndexed(geometry) && Twins(before, other) && |c.sets| == Pow2(geometry.logNumRows)
      requires cachePP.Valid() && cachePP.Replaced(before, word, v)
      requires cacheVP.Valid() && cacheVP.Replaced(other, word, w)
      requires cachePP.model == Requested(PIPT, geometry, frames, c, word, isWrite)
      requires cacheVP.model == Requested(VIPT, geometry, frames, c, word, isWrite)
      ensures Alike()
    {
      SameIndex(geometry, frames, word);
      var s := IndexFor(PIPT, geometry, frames, word);
      TwinsStep(before, other, s, TagFor(PIPT, geometry, frames, word), v, w);
      TwinsAlike();
    }

    constructor (geometry: Geometry, frames: nat -> nat, associativity: nat)
      requires associativity >= 1
      ensures Fixed() && Valid() && this.geometry == geometry && this.frames == frames
      ensures cachePP.model == cacheVP.model == cacheVV.model == Empty(Pow2(geometry.logNumRows), associativity)
      ensures cachePP.timeStamp == 0 && Alike() && cachePP.associativity == associativity
      ensures fresh(cachePP) && fresh(cachePP.tag) && fresh(cachePP.validBit) && fresh(cachePP.lruStamp)
      ensures fresh(cacheVP) && fresh(cacheVP.tag) && fresh(cacheVP.validBit) && fresh(cacheVP.lruStamp)
      ensures fresh(cacheVV) && fresh(cacheVV.tag) && fresh(cacheVV.validBit) && fresh(cacheVV.lruStamp)
    {
      this.geometry, this.frames := geometry, frames;
      cachePP := new LruCache(PIPT, geometry, frames, associativity);
      cacheVP := new LruCache(VIPT, geometry, frames, associativity);
      cacheVV := new LruCache(VIVT, geometry, frames, associativity);
      new;
      EmptyAlike();
    }

    /** A read in the two physically tagged models. */
    method PhysicalRead(word: nat)
      requires Fixed() && cachePP.Valid() && cacheVP.Valid() && cachePP.timeStamp == cacheVP.timeStamp < MAX_STAMP - 1
      modifies cachePP, cachePP.tag, cachePP.validBit, cachePP.lruStamp
      modifies cacheVP, cacheVP.tag, cacheVP.validBit, cacheVP.lruStamp
      ensures cachePP.Valid() && cacheVP.Valid() && cachePP.timeStamp == cacheVP.timeStamp == old(cachePP.timeStamp) + 1
      ensures cachePP.model == Requested(PIPT, geometry, frames, old(cachePP.model), word, false)
      ensures cacheVP.model == Requested(VIPT, geometry, frames, old(cacheVP.model), word, false)
      ensures PageIndexed(geometry) && old(Alike()) ==> Alike()
    {
      ghost var c, a, b, alike := cachePP.model, cachePP.store, cacheVP.store, PageIndexed(geometry) && Alike();
      if alike {
        AlikeTwins();
      }
      ghost var v := cachePP.ReadReq(word);
      ghost var w := cacheVP.ReadReq(word);
      if alike {
        RequestKeepsAlike(a, b, c, word, false, v, w);
      }
    }

    /** A read in the virtually tagged model; the others are not touched. */
    method VirtualRead(word: nat)
      requires Fixed() && cachePP.Valid() && cacheVP.Valid() && cacheVV.Valid() && cacheVV.timeStamp < MAX_STAMP - 1
      modifies cacheVV, cacheVV.tag, cacheVV.validBit, cacheVV.lruStamp
      ensures cachePP.Valid() && cacheVP.Valid() && (old(Alike()) ==> Alike())
      ensures cacheVV.Valid() && cacheVV.timeStamp == old(cacheVV.timeStamp) + 1
      ensures cacheVV.model == Requested(VIVT, geometry, frames, old(cacheVV.model), word, false)
    {
      ghost var way := cacheVV.ReadReq(word);
    }

    /** A load: every model reads the aligned word. */
    method CacheLoad(virtualAddr: nat)
      requires Fixed() && Valid() && cachePP.timeStamp + 1 < MAX_STAMP
      modifies cachePP, cachePP.tag, cachePP.validBit, cachePP.lruStamp
      modifies cacheVP, cacheVP.tag, cacheVP.validBit, cacheVP.lruStamp
      modifies cacheVV, cacheVV.tag, cacheVV.validBit, cacheVV.lruStamp
      ensures Valid() && cachePP.timeStamp == old(cachePP.timeStamp) + 1
      ensures cachePP.model == Requested(PIPT, geometry, frames, old(cachePP.model), Aligned(virtualAddr), false)
      ensures cacheVP.model == Requested(VIPT, geometry, frames, old(cacheVP.model), Aligned(virtualAddr), false)
      ensures cacheVV.model == Requested(VIVT, geometry, frames, old(cacheVV.model), Aligned(virtualAddr), false)
      ensures PageIndexed(geometry) && old(Alike()) ==> Alike()
    {
      var word := Aligned(virtualAddr);
      PhysicalRead(word);
      VirtualRead(word);
    }

    /** A write in the two physically tagged models. */
    method PhysicalWrite(word: nat)
      requires Fixed() && cachePP.Valid() && cacheVP.Valid() && cachePP.timeStamp == cacheVP.timeStamp < MAX_STAMP - 1
      modifies cachePP, cachePP.tag, cachePP.validBit, cachePP.lruStamp
      modifies cacheVP, cacheVP.tag, cacheVP.validBit, cacheVP.lruStamp
      ensures cachePP.Valid() && cacheVP.Valid() && cachePP.timeStamp == cacheVP.timeStamp == old(cachePP.timeStamp) + 1
      ensures cachePP.model == Requested(PIPT, geometry, frames, old(cachePP.model), word, true)
      ensures cacheVP.model == Requested(VIPT, geometry, frames, old(cacheVP.model), word, true)
      ensures PageIndexed(geometry) && old(Alike()) ==> Alike()
    {
      ghost var c, a, b, alike := cachePP.model, cachePP.store, cacheVP.store, PageIndexed(geometry) && Alike();
      if alike {
        AlikeTwins();
      }
      ghost var v := cachePP.WriteReq(word);
      ghost var w := cacheVP.WriteReq(word);
      if alike {
        RequestKeepsAlike(a, b, c, word, true, v, w);
      }
    }

    /** A write in the virtually tagged model; the others are not touched. */
    method VirtualWrite(word: nat)
      requires Fixed() && cachePP.Valid() && cacheVP.Valid() && cacheVV.Valid() && cacheVV.timeStamp < MAX_STAMP - 1
      modifies cacheVV, cacheVV.tag, cacheVV.validBit, cacheVV.lruStamp
      ensures cachePP.Valid() && cacheVP.Valid() && (old(Alike()) ==> Alike())
      ensures cacheVV.Valid() && cacheVV.timeStamp == old(cacheVV.timeStamp) + 1
      ensures cacheVV.model == Requested(VIVT, geometry, frames, old(cacheVV.model), word, true)
    {
      ghost var way := cacheVV.WriteReq(word);
    }

    /** A store: every model writes the aligned word. */
    method CacheStore(virtualAddr: nat)
      requires Fixed() && Valid() && cachePP.timeStamp + 1 < MAX_STAMP
      modifies cachePP, cachePP.tag, cachePP.validBit, cachePP.lruStamp
      modifies cacheVP, cacheVP.tag, cacheVP.validBit, cacheVP.lruStamp
      modifies cacheVV, cacheVV.tag, cacheVV.validBit, cacheVV.lruStamp
      ensures Valid() && cachePP.timeStamp == old(cachePP.timeStamp) + 1
      ensures cachePP.model == Requested(PIPT, geometry, frames, old(cachePP.model), Aligned(virtualAddr), true)
      ensures cacheVP.model == Requested(VIPT, geometry, frames, old(cacheVP.model), Aligned(virtualAddr), true)
      ensures cacheVV.model == Requested(VIVT, geometry, frames, old(cacheVV.model), Aligned(virtualAddr), true)
      ensures PageIndexed(geometry) && old(Alike()) ==> Alike()
    {
      var word := Aligned(virtualAddr);
      PhysicalWrite(word);
      VirtualWrite(word);
    }

    /** The three models have done the operations, from empty. */
    ghost predicate Done(ops: seq<MemOp>)
      reads cachePP`model, cacheVP`model, cacheVV`model
    {
      && cachePP.model == RunOps(PIPT, geometry, frames, cachePP.associativity, ops)
      && cacheVP.model == RunOps(VIPT, geometry, frames, cachePP.associativity, ops)
      && cacheVV.model == RunOps(VIVT, geometry, frames, cachePP.associativity, ops)
    }

    method Perform(op: MemOp, ghost before: seq<MemOp>)
      requires Fixed() && Valid() && Done(before) && cachePP.timeStamp + 1 < MAX_STAMP
      modifies Footprint()
      ensures Valid() && Done(before + [op]) && cachePP.timeStamp == old(cachePP.timeStamp) + 1
      ensures PageIndexed(geometry) && old(Alike()) ==> Alike()
    {
      if op.isWrite {
        CacheStore(op.addr);
      } else {
        CacheLoad(op.addr);
      }
      OneMoreOp(PIPT, geometry, frames, cachePP.associativity, before, op);
      OneMoreOp(VIPT, geometry, frames, cachePP.associativity, before, op);
      OneMoreOp(VIVT, geometry, frames, cachePP.associativity, before, op);
    }

    method PerformAll(ops: seq<MemOp>)
      requires Fixed() && Valid() && Done([]) && cachePP.timeStamp == 0 && Alike() && |ops| < MAX_STAMP
      modifies Footprint()
      ensures Valid() && Done(ops) && cachePP.timeStamp == |ops| && (PageIndexed(geometry) ==> Alike())
    {
      if ops != [] {
        var n := |ops| - 1;
        PerformAll(ops[..n]);
        Perform(ops[n], ops[..n]);
        assert ops[..n] + [ops[n]] == ops;
      }
    }

    /** The tool from its start over a whole trace of loads and stores: where the index lies in the
        page offset, the two physically tagged models end up identical way by way. */
    static method Simulate(geometry: Geometry, frames: nat -> nat, associativity: nat, ops: seq<MemOp>) returns (tool: Tool)
      requires associativity >= 1 && |ops| < MAX_STAMP
      ensures tool.Fixed() && tool.Valid() && tool.geometry == geometry && tool.frames == frames
      ensures tool.cachePP.associativity == associativity && tool.Done(ops)
      ensures PageIndexed(geometry) ==> tool.Alike()
    {
      tool := new Tool(geometry, frames, associativity);
      tool.PerformAll(ops);
    }
  }
}
