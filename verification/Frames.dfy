/** Physical frames and their allocator. */
module Frames {
  import opened Bits
  import opened Recency

  /** A word of a frame: frames start out unwritten. */
  datatype Word = Unwritten | Written(value: nat)

  class Page {
    var isFree: bool
    const size: nat
    const data: array<Word>
    const address: nat

    ghost predicate Valid() {
      data.Length == size
    }

    constructor (size: nat, address: nat)
      ensures Valid() && fresh(data)
      ensures this.size == size && this.address == address && isFree
    {
      this.size := size;
      this.address := address;
      isFree := true;
      data := new Word[size](_ => Unwritten);
    }

    /** The asserts of the source are the preconditions, and so is that the word was written. */
    method WordAt(index: nat) returns (word: nat)
      requires Valid() && index < size && !isFree && data[index].Written?
      ensures word == data[index].value
    {
      return data[index].value;
    }

    method SetWordAt(word: nat, index: nat)
      requires Valid() && index < size && !isFree
      modifies data
      ensures data[..] == old(data[..])[index := Written(word)]
    {
      data[index] := Written(word);
    }
  }

  /** The addresses of `n` frames of `frameSize` bytes; the first `frameSize` bytes are left out. */
  function Addresses(frameSize: nat, n: nat): (r: seq<nat>)
    ensures |r| == n
  {
    if n == 0 then [] else Addresses(frameSize, n - 1) + [n * frameSize]
  }

  lemma {:induction false} AddressAt(frameSize: nat, n: nat, i: nat)
    requires i < n
    ensures Addresses(frameSize, n)[i] == (i + 1) * frameSize
  {
    if i < n - 1 {
      AddressAt(frameSize, n - 1, i);
    }
  }

  lemma {:induction false} AddressesRise(frameSize: nat, n: nat)
    requires frameSize >= 1
    ensures forall a | a in Addresses(frameSize, n) :: 0 < a <= n * frameSize
    ensures forall i, j | 0 <= i < j < n :: Addresses(frameSize, n)[i] < Addresses(frameSize, n)[j]
  {
    if n > 0 {
      AddressesRise(frameSize, n - 1);
      assert (n - 1) * frameSize + frameSize == n * frameSize;
      var front := Addresses(frameSize, n - 1);
      assert forall i | 0 <= i < n - 1 :: front[i] in front;
    }
  }

  class PageAllocator {
    const poolSize: nat
    const frameSize: nat
    const wordsPerFrame: nat
    const startAddress: nat
    const pageMap: map<nat, Page>
    var frameStack: seq<nat>

    /** The contents of every frame, by address. */
    ghost var memory: map<nat, seq<Word>>

    /** The page each buffer belongs to: no two pages share one. */
    ghost const owner: map<array<Word>, nat>

    ghost const pages: set<Page>
    ghost const buffers: set<array<Word>>

    /** Every address of the map is that of its page, and pages do not share buffers. */
    ghost predicate MapValid() {
      && 0 !in pageMap
      && (forall a | a in pageMap ::
            pageMap[a].address == a && pageMap[a].Valid() && pageMap[a].size == wordsPerFrame)
      && (forall a | a in pageMap :: pageMap[a] in pages && pageMap[a].data in buffers)
      && (forall a | a in pageMap :: pageMap[a].data in owner && owner[pageMap[a].data] == a)
    }

    /** A page is free exactly while it waits on the frame stack. */
    ghost predicate StackValid()
      requires MapValid()
      reads `frameStack, pages
    {
      && (forall a | a in frameStack :: a in pageMap)
      && (forall a | a in pageMap :: pageMap[a].isFree <==> a in frameStack)
      && (forall i, j | 0 <= i < j < |frameStack| :: frameStack[i] != frameStack[j])
    }

    ghost predicate MemoryValid()
      requires MapValid()
      reads `memory, buffers
    {
      && memory.Keys == pageMap.Keys
      && (forall a | a in pageMap :: memory[a] == pageMap[a].data[..])
    }

    ghost predicate Valid()
      requires MapValid()
      reads `frameStack, `memory, pages, buffers
    {
      StackValid() && MemoryValid()
    }

    constructor (logFrameSize: nat, logPoolSize: nat)
      ensures MapValid() && Valid() && fresh(pages) && fresh(buffers)
      ensures frameSize == Pow2(logFrameSize) && wordsPerFrame == frameSize / 4
      ensures frameStack == Addresses(frameSize, Pow2(logPoolSize))
      ensures pageMap.Keys == Elems(frameStack)
    {
      var pool, size := Pow2(logPoolSize), Pow2(logFrameSize);
      var words := size / 4;
      var frames: map<nat, Page>, stack: seq<nat>, address := map[], [], size;
      ghost var owners: map<array<Word>, nat>, all: set<Page> := map[], {};
      for i := 0 to pool
        invariant stack == Addresses(size, i) && address == (i + 1) * size
        invariant frames.Keys == Elems(stack)
        invariant forall a | a in frames :: a < address
        invariant forall a | a in frames :: frames[a] in all && frames[a].data in owners
        invariant fresh(all) && fresh(owners.Keys)
        invariant forall a | a in frames :: frames[a].address == a && frames[a].Valid() && frames[a].size == words && frames[a].isFree
        invariant forall a | a in frames :: owners[frames[a].data] == a
      {
        var page := new Page(words, address);
        stack := stack + [address];
        frames := frames[address := page];
        owners, all := owners[page.data := address], all + {page};
        assert (i + 1) * size + size == (i + 2) * size;
        address := address + size;
      }
      AddressesRise(size, pool);
      poolSize := pool;
      frameSize := size;
      wordsPerFrame := words;
      startAddress := size;
      pageMap := frames;
      owner := owners;
      pages, buffers := all, owners.Keys;
      frameStack := stack;
      memory := map a | a in frames :: frames[a].data[..];
    }

    method RequestPage() returns (address: nat)
      requires MapValid() && Valid()
      modifies `frameStack, pages
      ensures Valid()
      ensures old(frameStack) == [] ==> address == 0 && frameStack == []
      ensures var stack := old(frameStack); stack != [] ==>
                address == stack[|stack| - 1] && frameStack == stack[..|stack| - 1] && address in pageMap
    {
      if frameStack == [] {
        return 0;
      }
      address := frameStack[|frameStack| - 1];
      frameStack := frameStack[..|frameStack| - 1];
      pageMap[address].isFree := false;
    }

    method PageAtAddress(address: nat) returns (page: Page?)
      ensures if address in pageMap then page == pageMap[address] else page == null
    {
      if address in pageMap {
        return pageMap[address];
      }
      return null;
    }
  }
}
