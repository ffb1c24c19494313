/**
 * `ipps_init` and `ipps_search`: from a list of networks in any order to a binary search that
 * returns the data of every network whose prefix an address begins with.
 */
module IpPrefixSearch {
  import opened Arithmetic
  import opened Addresses
  import opened IntervalSplit
  import opened Options
  import IntervalList

  datatype Family = V4 | V6

  function Width(family: Family): (w: nat)
  {
    if family.V4? then 32 else 128
  }

  datatype Ip = Ip(family: Family, bits: Bits) {
    ghost predicate Valid()
    {
      |bits| == if family.V4? then 32 else 128
    }
  }

  /** A prefix and its data; the mask indexes the table of all 129 masks, whatever the family. */
  datatype Network<D> = Network(addr: Ip, mask: nat, data: D) {
    ghost predicate Valid()
    {
      addr.Valid() && mask <= 128
    }

    /** Number of leading bits the network fixes. */
    function Prefix(): (p: nat)
    {
      if mask <= |addr.bits| then mask else |addr.bits|
    }

    /** The address with its host bits cleared. */
    function Masked(): (n: Network<D>)
    {
      this.(addr := addr.(bits := And(addr.bits, NetMask(|addr.bits|, mask))))
    }

    /** `fill_interval_by_network`, for a network already masked. */
    function Block(): (iv: Interval<D>)
    {
      Interval(Value(addr.bits), Value(OrNot(addr.bits, NetMask(|addr.bits|, mask))), [data])
    }

    /** An address belongs to the network when it begins with the network's prefix. */
    ghost predicate Contains(ip: Ip)
      requires Valid() && ip.Valid()
    {
      ip.family == addr.family && ip.bits[..Prefix()] == addr.bits[..Prefix()]
    }
  }

  ghost predicate AllValid<D>(nets: seq<Network<D>>)
  {
    forall i :: 0 <= i < |nets| ==> nets[i].Valid()
  }

  /** The networks of one family, masked, in their order. */
  function Select<D>(nets: seq<Network<D>>, family: Family): (r: seq<Network<D>>)
  {
    if nets == [] then []
    else
      var n := nets[|nets| - 1];
      Select(nets[..|nets| - 1], family) + (if n.addr.family == family then [n.Masked()] else [])
  }

  function Blocks<D>(nets: seq<Network<D>>): (r: seq<Interval<D>>)
    ensures |r| == |nets| && forall i :: 0 <= i < |nets| ==> r[i] == nets[i].Block()
  {
    seq(|nets|, i requires 0 <= i < |nets| => nets[i].Block())
  }

  /** `cmp_net_v4` and `cmp_net_v6`: by address, then shorter mask first. */
  function CmpNet<D>(a: Network<D>, b: Network<D>): (c: int)
    requires |a.addr.bits| == |b.addr.bits|
  {
    var c := Compare(a.addr.bits, b.addr.bits);
    if c == 0 then a.mask - b.mask else c
  }

  ghost predicate OfFamily<D>(nets: seq<Network<D>>, family: Family)
  {
    forall i :: 0 <= i < |nets| ==> nets[i].Valid() && nets[i].addr.family == family && nets[i] == nets[i].Masked()
  }

  ghost predicate SameWidth<D>(nets: seq<Network<D>>)
  {
    forall i, j :: 0 <= i < j < |nets| ==> |nets[i].addr.bits| == |nets[j].addr.bits|
  }

  ghost predicate Sorted<D>(nets: seq<Network<D>>)
    requires SameWidth(nets)
  {
    forall i, j :: 0 <= i < j < |nets| ==> CmpNet(nets[i], nets[j]) <= 0
  }

  // ---------------------------------------------------------------- networks and their blocks

  lemma MaskedTwice<D>(n: Network<D>)
    ensures n.Masked().Masked() == n.Masked()
  {
    var m := NetMask(|n.addr.bits|, n.mask);
    assert And(And(n.addr.bits, m), m) == And(n.addr.bits, m);
  }

  lemma MaskClamps<D>(n: Network<D>)
    ensures NetMask(|n.addr.bits|, n.mask) == NetMask(|n.addr.bits|, n.Prefix())
  {
  }

  /** Masking changes neither which addresses a network contains, nor its block. */
  lemma BlockContains<D>(n: Network<D>, ip: Ip)
    requires n.Valid() && ip.Valid() && n.addr.family == ip.family
    ensures n.Contains(ip) <==> In(Value(ip.bits), n.Masked().Block())
  {
    MaskClamps(n);
    PrefixMatchIsInterval(n.addr.bits, n.Prefix(), ip.bits);
  }

  lemma BlockEnds<D>(n: Network<D>)
    requires n.Valid()
    ensures var iv, host := n.Masked().Block(), Width(n.addr.family) - n.Prefix();
            iv.low == Value(n.addr.bits[..n.Prefix()]) * Pow2(host) && iv.high == iv.low + Pow2(host) - 1
  {
    MaskClamps(n);
    MaskedTwice(n);
    MaskedBlock(n.addr.bits, n.Prefix());
  }

  lemma NetworkIsBlock<D>(n: Network<D>)
    requires n.Valid()
    ensures IntervalSplit.Block(Width(n.addr.family), n.Masked().Block())
    ensures var iv := n.Masked().Block(); iv.high == iv.low + Pow2(Width(n.addr.family) - n.Prefix()) - 1
  {
    var bits := n.Masked().addr.bits;
    BlockEnds(n);
    ValueBound(OrNot(bits, NetMask(|bits|, n.mask)));
    IsBlock(Width(n.addr.family), n.Masked().Block(), Width(n.addr.family) - n.Prefix(), Value(n.addr.bits[..n.Prefix()]));
  }

  lemma IsBlock<D>(width: nat, iv: Interval<D>, host: nat, index: nat)
    requires host <= width && iv.low == index * Pow2(host) && iv.high == iv.low + Pow2(host) - 1 && iv.high < Pow2(width)
    ensures IntervalSplit.Block(width, iv)
  {
  }

  lemma {:induction false} Pow2Mono(a: nat, b: nat)
    requires a <= b
    ensures Pow2(a) <= Pow2(b)
    decreases b - a
  {
    if a < b {
      Pow2Mono(a, b - 1);
    }
  }

  /** Comparing address and mask puts the larger of two blocks with one first address first. */
  lemma CmpNetIsBlockOrder<D>(a: Network<D>, b: Network<D>)
    requires a.Valid() && b.Valid() && a.addr.family == b.addr.family
    requires a == a.Masked() && b == b.Masked() && CmpNet(a, b) <= 0
    ensures NotAfter(a.Block(), b.Block())
  {
    var w := Width(a.addr.family);
    CompareIsNumeric(a.addr.bits, b.addr.bits);
    NetworkIsBlock(a);
    NetworkIsBlock(b);
    if a.mask <= b.mask {
      Pow2Mono(w - b.Prefix(), w - a.Prefix());
    }
  }

  /** Networks in the order of the comparison function are sorted, masked blocks. */
  lemma SortedBlocks<D>(nets: seq<Network<D>>, family: Family)
    requires OfFamily(nets, family) && SameWidth(nets) && Sorted(nets)
    ensures SortedNetworks(Blocks(nets)) && IntervalSplit.Masked(Width(family), Blocks(nets))
  {
    forall i | 0 <= i < |nets| ensures IntervalSplit.Block(Width(family), Blocks(nets)[i]) {
      NetworkIsBlock(nets[i]);
    }
    forall i, j | 0 <= i < j < |nets| ensures NotAfter(Blocks(nets)[i], Blocks(nets)[j]) {
      CmpNetIsBlockOrder(nets[i], nets[j]);
    }
  }

  // ---------------------------------------------------------------- building the context

  /** The list and its conductor are what folding the first `n` blocks gives. */
  ghost predicate Folded<D>(width: nat, list: IntervalList.List<D>, blocks: seq<Interval<D>>, n: nat)
    reads list, list.repr
  {
    && 1 <= n <= |blocks| && list.Valid() && list.at < |list.nodes|
    && Fold(width, blocks[..n]) == Some(Cursor(list.intervals, list.at))
  }

  /** One round of the loop over the networks. */
  method PlaceNext<D>(width: nat, list: IntervalList.List<D>, net: Network<D>, ghost blocks: seq<Interval<D>>, ghost n: nat)
    returns (ok: bool)
    requires Folded(width, list, blocks, n) && n < |blocks| && blocks[n] == net.Block()
    modifies list, list.repr
    ensures fresh(list.repr - old(list.repr))
    ensures ok <==> Fold(width, blocks[..n + 1]).Some?
    ensures ok ==> Folded(width, list, blocks, n + 1)
  {
    FoldNext(width, blocks, n);
    var iv := net.Block();
    ok := list.Place(width, iv.low, iv.high, net.data);
  }

  /** The first network is the root of the list. */
  method PlaceFirst<D>(width: nat, net: Network<D>, ghost blocks: seq<Interval<D>>) returns (list: IntervalList.List<D>)
    requires |blocks| > 0 && blocks[0] == net.Block()
    ensures fresh(list) && fresh(list.repr) && Folded(width, list, blocks, 1)
  {
    var iv := net.Block();
    list := new IntervalList.List<D>(iv.low, iv.high, net.data);
    assert blocks[..1] == [blocks[0]];
  }

  method Copied<D>(width: nat, list: IntervalList.List<D>, ghost blocks: seq<Interval<D>>) returns (a: array<Interval<D>>)
    requires Folded(width, list, blocks, |blocks|)
    ensures fresh(a) && Fold(width, blocks).Some? && a[..] == Fold(width, blocks).value.ivs
  {
    assert blocks[..|blocks|] == blocks;
    a := list.ToArray();
  }

  /** `init_context`: folds the networks into the list one by one, then copies the list to an array. */
  method InitContext<D>(width: nat, nets: seq<Network<D>>) returns (r: Option<array<Interval<D>>>)
    requires |nets| > 0
    ensures r.Some? <==> Fold(width, Blocks(nets)).Some?
    ensures r.Some? ==> fresh(r.value) && r.value[..] == Fold(width, Blocks(nets)).value.ivs
  {
    ghost var blocks := Blocks(nets);
    var list := PlaceFirst(width, nets[0], blocks);
    var index := 1;
    while index < |nets|
      invariant 1 <= index <= |nets|
      invariant fresh(list) && fresh(list.repr)
      invariant Folded(width, list, blocks, index)
    {
      assert blocks[index] == nets[index].Block();
      var ok := PlaceNext(width, list, nets[index], blocks, index);
      if !ok {
        FoldFails(width, blocks, index + 1);
        return None;
      }
      index := index + 1;
    }
    var a := Copied(width, list, blocks);
    return Some(a);
  }

  lemma FoldNext<D>(width: nat, blocks: seq<Interval<D>>, index: nat)
    requires 1 <= index < |blocks| && Fold(width, blocks[..index]).Some?
    ensures Fold(width, blocks[..index + 1]) == Step(width, Fold(width, blocks[..index]).value, blocks[index])
  {
    assert blocks[..index + 1][..index] == blocks[..index];
  }

  lemma {:induction false} FoldFails<D>(width: nat, blocks: seq<Interval<D>>, index: nat)
    requires 1 <= index <= |blocks| && Fold(width, blocks[..index]).None?
    ensures Fold(width, blocks).None?
    decreases |blocks| - index
  {
    if index < |blocks| {
      assert blocks[..index + 1][..index] == blocks[..index];
      FoldFails(width, blocks, index + 1);
    } else {
      assert blocks[..index] == blocks;
    }
  }

  // ---------------------------------------------------------------- searching the context

  /** `ipps_search` on one array: the interval that contains `x`, if any, by halving the index range. */
  method BinarySearch<D>(intervals: array<Interval<D>>, x: nat) returns (r: Option<Interval<D>>)
    requires Disjoint(intervals[..])
    ensures r.Some? ==> r.value in intervals[..] && In(x, r.value)
    ensures r.None? ==> !Covered(intervals[..], x)
  {
    var first, last := 0, intervals.Length - 1;
    var middle := (first + last) / 2;
    while first <= last
      invariant 0 <= first <= last + 1 <= intervals.Length && middle == (first + last) / 2
      invariant forall i :: 0 <= i < first ==> intervals[i].high < x
      invariant forall i :: last < i < intervals.Length ==> x < intervals[i].low
      decreases last - first
    {
      var iv := intervals[middle];
      assert iv == intervals[..][middle];
      if iv.low <= x && iv.high >= x {
        return Some(iv);
      } else if iv.high > x {
        forall i | middle < i < intervals.Length ensures x < intervals[i].low {
          assert intervals[i] == intervals[..][i];
        }
        last := middle - 1;
      } else {
        forall i | 0 <= i < middle ensures intervals[i].high < x {
          assert intervals[i] == intervals[..][i];
          assert intervals[..][i].high < intervals[..][middle].low;
        }
        first := middle + 1;
      }
      middle := (first + last) / 2;
    }
    return None;
  }

  /** A scan of the networks, whatever their order: those whose prefix `ip` begins with. */
  ghost function Matching<D>(nets: seq<Network<D>>, ip: Ip): (r: seq<Network<D>>)
    requires AllValid(nets) && ip.Valid()
  {
    if nets == [] then []
    else
      var n := nets[|nets| - 1];
      Matching(nets[..|nets| - 1], ip) + (if n.Contains(ip) then [n] else [])
  }

  ghost function Data<D>(nets: seq<Network<D>>): (r: seq<D>)
    ensures |r| == |nets| && forall i :: 0 <= i < |nets| ==> r[i] == nets[i].data
  {
    seq(|nets|, i requires 0 <= i < |nets| => nets[i].data)
  }

  lemma DataConcat<D>(a: seq<Network<D>>, b: seq<Network<D>>)
    ensures Data(a + b) == Data(a) + Data(b)
  {
  }

  lemma DataOfOne<D>(n: Network<D>)
    ensures Data([n]) == [n.data]
  {
  }

  /** The interval scan collects exactly the data of the matching networks. */
  lemma {:induction false} MatchesAreMatching<D>(nets: seq<Network<D>>, family: Family, ip: Ip)
    requires OfFamily(nets, family) && AllValid(nets) && ip.Valid() && ip.family == family
    ensures Matches(Blocks(nets), Value(ip.bits)) == Data(Matching(nets, ip))
    ensures Covered(Blocks(nets), Value(ip.bits)) <==> Matching(nets, ip) != []
    decreases |nets|
  {
    var x := Value(ip.bits);
    if nets == [] {
      assert Blocks(nets) == [];
    } else {
      var front, n := nets[..|nets| - 1], nets[|nets| - 1];
      assert Blocks(nets) == Blocks(front) + [n.Block()];
      MatchesAreMatching(front, family, ip);
      MatchesAppend(Blocks(front), n.Block(), x);
      DataOfOne(n);
      DataConcat(Matching(front, ip), if n.Contains(ip) then [n] else []);
      BlockContains(n, ip);
      assert n.Masked() == n;
    }
  }
}
