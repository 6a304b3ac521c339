/** The state the tool starts in. */
module Boot {
  import opened Bits
  import opened Recency
  import opened Frames
  import opened PageTable
  import opened FrameLaws

  /** The frame addresses of the pool. */
  ghost function PoolOf(logPageSize: nat, logPoolSize: nat): set<nat> {
    Elems(Addresses(Pow2(logPageSize), Pow2(logPoolSize)))
  }

  /** Words, and so entries of a table, in a frame. */
  function Entries(logPageSize: nat): (n: nat)
    ensures logPageSize >= 2 ==> n == Pow2(logPageSize - 2) >= 1
  {
    assert logPageSize >= 2 ==> Pow2(logPageSize) == 4 * Pow2(logPageSize - 2) by {
      if logPageSize >= 2 {
        Pow2Adds(2, logPageSize - 2);
        assert Pow2(2) == 4;
      }
    }
    Pow2(logPageSize) / 4
  }

  /** The two table indices of a virtual page; with small pages its top bits play no part. */
  function L1Index(logPageSize: nat, vpn: nat): (i: nat)
    requires logPageSize >= 2
    ensures i < Entries(logPageSize)
  {
    Low(Shr(vpn, logPageSize - 2), Entries(logPageSize))
  }

  function L2Index(logPageSize: nat, vpn: nat): (j: nat)
    requires logPageSize >= 2
    ensures j < Entries(logPageSize)
  {
    Low(vpn, Entries(logPageSize))
  }

  /** The indices are the two digits of the page number, as far as two digits reach: pages next
      to each other share a level-2 table, each table holding `2^(p - 2)` of them. */
  lemma IndicesAreDigits(logPageSize: nat, addr: nat)
    requires logPageSize >= 2
    ensures var vpn, n := Shr(addr, logPageSize), Pow2(logPageSize - 2);
      && vpn == addr / Pow2(logPageSize)
      && L2Index(logPageSize, vpn) == vpn % n
      && L1Index(logPageSize, vpn) == vpn / n % n
  {
    var vpn, n := Shr(addr, logPageSize), Pow2(logPageSize - 2);
    LowHigh(addr, Pow2(logPageSize));
    LowHigh(vpn, n);
    LowHigh(High(vpn, n), n);
  }

  /** The last frame is the root; the others wait on the frame stack; nothing is mapped. */
  function Start(logPageSize: nat, logPoolSize: nat): Vm {
    var size, n := Pow2(logPageSize), Pow2(logPoolSize);
    Vm(n * size, seq(Entries(logPageSize), _ => NoTable), Addresses(size, n - 1), [], 0, 0)
  }

  lemma StartPops(logPageSize: nat, logPoolSize: nat)
    ensures var vm, all := Start(logPageSize, logPoolSize), Addresses(Pow2(logPageSize), Pow2(logPoolSize));
      all == vm.frees + [vm.root] && vm.frees == all[..|all| - 1] && vm.root == all[|all| - 1]
  {
  }

  lemma {:induction false} DistinctMultiset(s: seq<nat>)
    requires Distinct(s)
    ensures multiset(s) == multiset(Elems(s))
  {
    if s != [] {
      var front, last := s[..|s| - 1], s[|s| - 1];
      DistinctMultiset(front);
      assert s == front + [last];
      assert Elems(s) == Elems(front) + {last} && last !in Elems(front);
    }
  }

  lemma PoolSize(logPageSize: nat, logPoolSize: nat)
    ensures 0 !in PoolOf(logPageSize, logPoolSize)
    ensures |PoolOf(logPageSize, logPoolSize)| == Pow2(logPoolSize)
    ensures multiset(PoolOf(logPageSize, logPoolSize)) == multiset(Addresses(Pow2(logPageSize), Pow2(logPoolSize)))
  {
    var all := Addresses(Pow2(logPageSize), Pow2(logPoolSize));
    AddressesRise(Pow2(logPageSize), Pow2(logPoolSize));
    assert Distinct(all);
    DistinctMultiset(all);
    DistinctCount(all);
  }

  /** The frame addresses as variables of `width` bits hold them; the source's have 32. */
  function Stored(addresses: seq<nat>, width: nat): (r: seq<nat>)
    ensures |r| == |addresses| && forall i | 0 <= i < |r| :: r[i] == Low(addresses[i], Pow2(width))
  {
    seq(|addresses|, i requires 0 <= i < |addresses| => Low(addresses[i], Pow2(width)))
  }

  /** Frame addresses are different and not 0 exactly when the logarithms of page and pool size add
      up to less than the width: when they add up to it, the last frame is at address 0, the
      address that means failure. */
  lemma AddressesFitExactly(logPageSize: nat, logPoolSize: nat, width: nat)
    requires logPageSize < width
    ensures var stored := Stored(Addresses(Pow2(logPageSize), Pow2(logPoolSize)), width);
      0 !in stored && Distinct(stored) <==> logPageSize + logPoolSize < width
  {
    if logPageSize + logPoolSize < width {
      AddressesFit(logPageSize, logPoolSize, width);
      AddressesRise(Pow2(logPageSize), Pow2(logPoolSize));
    } else {
      AddressWraps(logPageSize, logPoolSize, width);
    }
  }

  lemma AddressesFit(logPageSize: nat, logPoolSize: nat, width: nat)
    requires logPageSize + logPoolSize < width
    ensures var all := Addresses(Pow2(logPageSize), Pow2(logPoolSize)); Stored(all, width) == all
  {
    var all := Addresses(Pow2(logPageSize), Pow2(logPoolSize));
    AddressesRise(Pow2(logPageSize), Pow2(logPoolSize));
    Pow2Adds(logPoolSize, logPageSize);
    Pow2Grows(logPageSize + logPoolSize, width);
    forall i | 0 <= i < |all| ensures Stored(all, width)[i] == all[i] {
      assert all[i] in all;
      LowOfSmall(all[i], Pow2(width));
    }
  }

  lemma AddressWraps(logPageSize: nat, logPoolSize: nat, width: nat)
    requires logPageSize < width <= logPageSize + logPoolSize
    ensures 0 in Stored(Addresses(Pow2(logPageSize), Pow2(logPoolSize)), width)
  {
    var size, n, k := Pow2(logPageSize), Pow2(logPoolSize), Pow2(width - logPageSize);
    Pow2Grows(width - logPageSize, logPoolSize);
    AddressAt(size, n, k - 1);
    Pow2Adds(width - logPageSize, logPageSize);
    Multiple(Pow2(width), 1);
    assert Stored(Addresses(size, n), width)[k - 1] == 0;
  }

  /** From the start the pool's `2^logPoolSize` frames are split among the five roles. */
  lemma StartSettled(logPageSize: nat, logPoolSize: nat)
    requires logPageSize >= 2
    ensures Settled(Start(logPageSize, logPoolSize), PoolOf(logPageSize, logPoolSize))
    ensures |Start(logPageSize, logPoolSize).rows| >= 1
  {
    var vm := Start(logPageSize, logPoolSize);
    PoolSize(logPageSize, logPoolSize);
    CollectNothing(vm.rows, TableFrame);
    CollectNothing(vm.rows, PageFrames);
    assert Addresses(Pow2(logPageSize), Pow2(logPoolSize)) == vm.frees + [vm.root];
    assert multiset(vm.frees + [vm.root]) == multiset(vm.frees) + multiset{vm.root};
  }
}
