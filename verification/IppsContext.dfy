/**
 * The context `ipps_init` returns and `ipps_search` reads: one array of intervals per address family.
 */
module IppsContext {
  import opened Arithmetic
  import opened Addresses
  import opened IntervalSplit
  import opened IpPrefixSearch
  import opened Options
  import opened Sequences

  // ---------------------------------------------------------------- the order of the networks does not matter

  lemma {:induction false} MatchingConcat<D>(a: seq<Network<D>>, b: seq<Network<D>>, ip: Ip)
    requires AllValid(a) && AllValid(b) && ip.Valid()
    ensures AllValid(a + b) && Matching(a + b, ip) == Matching(a, ip) + Matching(b, ip)
    decreases |b|
  {
    if b == [] {
      assert a + b == a;
    } else {
      assert (a + b)[..|a + b| - 1] == a + b[..|b| - 1];
      MatchingConcat(a, b[..|b| - 1], ip);
    }
  }

  lemma WithoutMultiset<T>(s: seq<T>, j: nat)
    requires j < |s|
    ensures multiset(Without(s, j)) == multiset(s) - multiset{s[j]}
  {
    assert s == s[..j] + [s[j]] + s[j + 1..];
    assert multiset(s[..j] + [s[j]] + s[j + 1..]) == multiset(s[..j]) + multiset{s[j]} + multiset(s[j + 1..]);
  }

  lemma OneMatching<D>(n: Network<D>, ip: Ip)
    requires n.Valid() && ip.Valid()
    ensures AllValid([n]) && Matching([n], ip) == if n.Contains(ip) then [n] else []
  {
    assert [n][..0] == [];
  }

  lemma MatchingThree<D>(a: seq<Network<D>>, n: Network<D>, b: seq<Network<D>>, ip: Ip)
    requires AllValid(a) && n.Valid() && AllValid(b) && ip.Valid()
    ensures AllValid(a + [n] + b)
    ensures Matching(a + [n] + b, ip) == Matching(a, ip) + (if n.Contains(ip) then [n] else []) + Matching(b, ip)
  {
    OneMatching(n, ip);
    MatchingConcat(a, [n], ip);
    MatchingConcat(a + [n], b, ip);
  }

  /** The data of `m` is added, wherever it stands. */
  lemma DataAround<D>(p: seq<Network<D>>, m: seq<Network<D>>, q: seq<Network<D>>)
    ensures multiset(Data(p + m + q)) == multiset(Data(p + q)) + multiset(Data(m))
  {
    DataConcat(p + m, q);
    DataConcat(p, m);
    DataConcat(p, q);
  }

  /** What one more network adds to the data found. */
  lemma MatchingAround<D>(a: seq<Network<D>>, n: Network<D>, b: seq<Network<D>>, ip: Ip)
    requires AllValid(a) && n.Valid() && AllValid(b) && ip.Valid()
    ensures AllValid(a + b) && AllValid(a + [n] + b)
    ensures multiset(Data(Matching(a + [n] + b, ip)))
            == multiset(Data(Matching(a + b, ip))) + (if n.Contains(ip) then multiset{n.data} else multiset{})
  {
    MatchingConcat(a, b, ip);
    MatchingThree(a, n, b, ip);
    var x, y := Matching(a, ip), Matching(b, ip);
    if n.Contains(ip) {
      DataAround(x, [n], y);
      DataOfOne(n);
    } else {
      assert x + [] + y == x + y;
    }
  }

  lemma MatchingWithout<D>(s: seq<Network<D>>, j: nat, ip: Ip)
    requires AllValid(s) && ip.Valid() && j < |s|
    ensures AllValid(Without(s, j))
    ensures multiset(Data(Matching(s, ip)))
            == multiset(Data(Matching(Without(s, j), ip))) + (if s[j].Contains(ip) then multiset{s[j].data} else multiset{})
  {
    assert s == s[..j] + [s[j]] + s[j + 1..];
    MatchingAround(s[..j], s[j], s[j + 1..], ip);
  }

  /** In whatever order the networks are scanned, the data collected is the same. */
  lemma {:induction false} MatchingPermuted<D>(s: seq<Network<D>>, t: seq<Network<D>>, ip: Ip)
    requires AllValid(s) && AllValid(t) && ip.Valid() && multiset(s) == multiset(t)
    ensures multiset(Data(Matching(s, ip))) == multiset(Data(Matching(t, ip)))
    decreases |s|
  {
    if s == [] {
      assert |multiset(s)| == 0 && |multiset(t)| == |t|;
    } else {
      assert s[0] in multiset(s);
      var j :| 0 <= j < |t| && t[j] == s[0];
      WithoutMultiset(s, 0);
      WithoutMultiset(t, j);
      MatchingWithout(s, 0, ip);
      MatchingWithout(t, j, ip);
      MatchingPermuted(Without(s, 0), Without(t, j), ip);
    }
  }

  /** A network is found by the addresses of its family that it contains, masked or not. */
  lemma SelectedOne<D>(n: Network<D>, ip: Ip)
    requires n.Valid() && ip.Valid()
    ensures var last := if n.addr.family == ip.family then [n.Masked()] else [];
            AllValid(last) && Data(Matching(last, ip)) == if n.Contains(ip) then [n.data] else []
  {
    if n.addr.family == ip.family {
      MaskedTwice(n);
      BlockContains(n, ip);
      BlockContains(n.Masked(), ip);
      OneMatching(n.Masked(), ip);
      DataOfOne(n.Masked());
    }
  }

  lemma {:induction false} SelectedMatching<D>(nets: seq<Network<D>>, ip: Ip)
    requires AllValid(nets) && ip.Valid()
    ensures AllValid(Select(nets, ip.family))
    ensures Data(Matching(Select(nets, ip.family), ip)) == Data(Matching(nets, ip))
    decreases |nets|
  {
    if nets != [] {
      var front, n := nets[..|nets| - 1], nets[|nets| - 1];
      SelectedMatching(front, ip);
      var selected := Select(front, ip.family);
      var last := if n.addr.family == ip.family then [n.Masked()] else [];
      SelectedOne(n, ip);
      MatchingConcat(selected, last, ip);
      DataConcat(Matching(selected, ip), Matching(last, ip));
      DataOfOne(n);
      DataConcat(Matching(front, ip), if n.Contains(ip) then [n] else []);
    }
  }

  // ---------------------------------------------------------------- ipps_init

  /** What `CmpNet` decides, as an order on numbers. */
  ghost predicate NotAfterKey<D>(a: Network<D>, b: Network<D>)
  {
    Value(a.addr.bits) < Value(b.addr.bits) || (Value(a.addr.bits) == Value(b.addr.bits) && a.mask <= b.mask)
  }

  lemma CmpNetIsKey<D>(a: Network<D>, b: Network<D>)
    requires |a.addr.bits| == |b.addr.bits|
    ensures CmpNet(a, b) <= 0 <==> NotAfterKey(a, b)
  {
    CompareIsNumeric(a.addr.bits, b.addr.bits);
  }

  ghost predicate SortedByKey<D>(nets: seq<Network<D>>)
  {
    forall i, j :: 0 <= i < j < |nets| ==> NotAfterKey(nets[i], nets[j])
  }

  lemma InsertKeepsOrder<D>(nets: seq<Network<D>>, k: nat, n: Network<D>)
    requires SortedByKey(nets) && k <= |nets|
    requires forall j :: 0 <= j < k ==> NotAfterKey(nets[j], n)
    requires k < |nets| ==> !NotAfterKey(nets[k], n)
    ensures SortedByKey(nets[..k] + [n] + nets[k..])
  {
    var r := nets[..k] + [n] + nets[k..];
    forall i, j | 0 <= i < j < |r| ensures NotAfterKey(r[i], r[j]) {
      if j <= k {
        assert r[i] == nets[i] && r[j] == if j < k then nets[j] else n;
      } else {
        assert r[j] == nets[j - 1];
        assert k < j - 1 ==> NotAfterKey(nets[k], nets[j - 1]);
        if i < k {
          assert r[i] == nets[i];
        } else {
          assert r[i] == if i == k then n else nets[i - 1];
        }
      }
    }
  }

  lemma InsertKeepsFamily<D>(nets: seq<Network<D>>, k: nat, n: Network<D>, family: Family)
    requires OfFamily(nets, family) && OfFamily([n], family) && k <= |nets|
    ensures OfFamily(nets[..k] + [n] + nets[k..], family)
    ensures multiset(nets[..k] + [n] + nets[k..]) == multiset(nets) + multiset{n}
  {
    assert [n][0] == n;
    assert nets == nets[..k] + nets[k..];
  }

  method InsertSorted<D>(nets: seq<Network<D>>, n: Network<D>, family: Family) returns (r: seq<Network<D>>)
    requires OfFamily(nets, family) && OfFamily([n], family) && SortedByKey(nets)
    ensures OfFamily(r, family) && SortedByKey(r) && multiset(r) == multiset(nets) + multiset{n}
  {
    assert [n][0] == n;
    var k := 0;
    while k < |nets| && CmpNet(nets[k], n) <= 0
      invariant 0 <= k <= |nets|
      invariant forall j :: 0 <= j < k ==> NotAfterKey(nets[j], n)
    {
      CmpNetIsKey(nets[k], n);
      k := k + 1;
    }
    if k < |nets| {
      CmpNetIsKey(nets[k], n);
    }
    InsertKeepsOrder(nets, k, n);
    InsertKeepsFamily(nets, k, n, family);
    r := nets[..k] + [n] + nets[k..];
  }

  /** Stands for `qsort` with the comparison functions; only its contract is used. */
  method Qsort<D>(nets: seq<Network<D>>, family: Family) returns (r: seq<Network<D>>)
    requires OfFamily(nets, family)
    ensures OfFamily(r, family) && SameWidth(r) && Sorted(r) && multiset(r) == multiset(nets)
  {
    r := [];
    for i := 0 to |nets|
      invariant OfFamily(r, family) && SortedByKey(r) && multiset(r) == multiset(nets[..i])
    {
      assert nets[..i + 1] == nets[..i] + [nets[i]];
      r := InsertSorted(r, nets[i], family);
    }
    assert nets[..|nets|] == nets;
    assert forall i :: 0 <= i < |r| ==> r[i].Valid() && |r[i].addr.bits| == Width(family);
    forall i, j | 0 <= i < j < |r| ensures CmpNet(r[i], r[j]) <= 0 {
      CmpNetIsKey(r[i], r[j]);
    }
  }

  // ---------------------------------------------------------------- the context

  /** `order` is the networks of one family, masked and sorted; `intervals` is what was built from them. */
  ghost predicate Built<D>(intervals: seq<Interval<D>>, order: seq<Network<D>>, networks: seq<Network<D>>, family: Family)
  {
    && OfFamily(order, family) && SameWidth(order) && Sorted(order)
    && multiset(order) == multiset(Select(networks, family))
    && Represents(intervals, Blocks(order))
    && (order == [] ==> intervals == [])
    && (order != [] ==> |intervals| <= 2 * |order| - 1)
  }

  lemma {:induction false} SelectOfFamily<D>(networks: seq<Network<D>>, family: Family)
    requires AllValid(networks)
    ensures OfFamily(Select(networks, family), family)
    decreases |networks|
  {
    if networks != [] {
      SelectOfFamily(networks[..|networks| - 1], family);
      MaskedTwice(networks[|networks| - 1]);
    }
  }

  /** Sorts the networks of one family and splits them into intervals; nothing to do where there are none. */
  method BuildFamily<D>(selected: seq<Network<D>>, ghost networks: seq<Network<D>>, family: Family)
    returns (a: array<Interval<D>>, ghost order: seq<Network<D>>)
    requires AllValid(networks) && selected == Select(networks, family)
    ensures fresh(a) && Built(a[..], order, networks, family)
  {
    SelectOfFamily(networks, family);
    if selected == [] {
      a, order := new Interval<D>[0], [];
    } else {
      var sorted := Qsort(selected, family);
      assert |multiset(sorted)| == |sorted| && |multiset(selected)| == |selected|;
      SortedBlocks(sorted, family);
      FoldRepresents(Width(family), Blocks(sorted));
      var r := InitContext(Width(family), sorted);
      a, order := r.value, sorted;
    }
  }

  method BuildBoth<D>(nets4: seq<Network<D>>, nets6: seq<Network<D>>, ghost networks: seq<Network<D>>)
    returns (a4: array<Interval<D>>, a6: array<Interval<D>>, ghost o4: seq<Network<D>>, ghost o6: seq<Network<D>>)
    requires AllValid(networks) && nets4 == Select(networks, V4) && nets6 == Select(networks, V6)
    ensures fresh(a4) && Built(a4[..], o4, networks, V4)
    ensures fresh(a6) && Built(a6[..], o6, networks, V6)
  {
    a4, o4 := BuildFamily(nets4, networks, V4);
    a6, o6 := BuildFamily(nets6, networks, V6);
  }

  /** Masks every network in place and separates the families. */
  method MaskAll<D>(list: array<Network<D>>) returns (nets4: seq<Network<D>>, nets6: seq<Network<D>>)
    requires AllValid(list[..])
    modifies list
    ensures nets4 == Select(old(list[..]), V4) && nets6 == Select(old(list[..]), V6)
    ensures forall i :: 0 <= i < list.Length ==> list[i] == old(list[i]).Masked()
  {
    ghost var given := list[..];
    nets4, nets6 := [], [];
    for i := 0 to list.Length
      invariant nets4 == Select(given[..i], V4) && nets6 == Select(given[..i], V6)
      invariant forall j :: 0 <= j < i ==> list[j] == given[j].Masked()
      invariant forall j :: i <= j < list.Length ==> list[j] == given[j]
    {
      assert given[..i + 1][..i] == given[..i];
      list[i] := list[i].Masked();
      if list[i].addr.family == V6 {
        nets6 := nets6 + [list[i]];
      } else {
        nets4 := nets4 + [list[i]];
      }
    }
    assert given[..list.Length] == given;
  }

  class Context<D> {
    var v4: array<Interval<D>>
    var v6: array<Interval<D>>
    ghost var networks: seq<Network<D>>        // what ipps_init was given
    ghost var v4Order: seq<Network<D>>
    ghost var v6Order: seq<Network<D>>

    ghost predicate Valid()
      reads this, v4, v6
    {
      && AllValid(networks)
      && Built(v4[..], v4Order, networks, V4)
      && Built(v6[..], v6Order, networks, V6)
    }

    ghost function Order(family: Family): seq<Network<D>>
      reads this
    {
      if family.V4? then v4Order else v6Order
    }

    /** `ipps_init`, after its check that the list is not empty: masks every network in place, then builds both arrays. */
    constructor (list: array<Network<D>>)
      requires AllValid(list[..])
      modifies list
      ensures Valid() && networks == old(list[..]) && fresh(v4) && fresh(v6)
      ensures forall i :: 0 <= i < list.Length ==> list[i] == old(list[i]).Masked()
    {
      ghost var given := list[..];
      var nets4, nets6 := MaskAll(list);
      var a4, a6, o4, o6 := BuildBoth(nets4, nets6, given);
      v4, v6 := a4, a6;
      networks, v4Order, v6Order := given, o4, o6;
    }

    /**
     * `ipps_search`: None, the source's 0, exactly when no network contains the address; otherwise the
     * data of all the networks that do, each as often as it was given, in the order of the sort.
     */
    method Search(ip: Ip) returns (r: Option<seq<D>>)
      requires Valid() && ip.Valid()
      ensures r.None? <==> Matching(networks, ip) == []
      ensures r.Some? ==> multiset(r.value) == multiset(Data(Matching(networks, ip)))
      ensures r.Some? ==> AllValid(Order(ip.family)) && r.value == Data(Matching(Order(ip.family), ip))
    {
      var intervals := if ip.family == V6 then v6 else v4;
      ghost var order := Order(ip.family);
      SearchFinds(intervals[..], order, networks, ip);
      var found := BinarySearch(intervals, Value(ip.bits));
      match found
      case None =>
        r := None;
      case Some(iv) =>
        assert Covered(intervals[..], Value(ip.bits));
        r := Some(iv.data);
    }
  }

  /** `ipps_init`: null, the source's error, exactly for an empty list. */
  method IppsInit<D>(list: array<Network<D>>) returns (c: Context?<D>)
    requires AllValid(list[..])
    modifies list
    ensures c == null <==> list.Length == 0
    ensures c != null ==> fresh(c) && fresh(c.v4) && fresh(c.v6) && c.Valid() && c.networks == old(list[..])
    ensures forall i :: 0 <= i < list.Length ==> list[i] == old(list[i]).Masked()
  {
    if list.Length == 0 {
      return null;
    }
    c := new Context<D>(list);
  }

  lemma SearchFinds<D>(intervals: seq<Interval<D>>, order: seq<Network<D>>, networks: seq<Network<D>>, ip: Ip)
    requires AllValid(networks) && ip.Valid() && Built(intervals, order, networks, ip.family)
    ensures AllValid(order)
    ensures multiset(Data(Matching(order, ip))) == multiset(Data(Matching(networks, ip)))
    ensures Covered(intervals, Value(ip.bits)) <==> Matching(networks, ip) != []
    ensures forall i :: 0 <= i < |intervals| && In(Value(ip.bits), intervals[i]) ==>
              intervals[i].data == Data(Matching(order, ip))
  {
    SelectedMatching(networks, ip);
    MatchingPermuted(order, Select(networks, ip.family), ip);
    MatchesAreMatching(order, ip.family, ip);
    var s, t := Data(Matching(order, ip)), Data(Matching(networks, ip));
    assert |multiset(s)| == |s| && |multiset(t)| == |t|;
  }

  /** The data comes back least specific prefix first. */
  lemma ShorterPrefixFirst<D>(order: seq<Network<D>>, family: Family, ip: Ip, i: nat, j: nat)
    requires OfFamily(order, family) && SameWidth(order) && Sorted(order) && AllValid(order) && ip.Valid()
    requires i < j < |order| && order[i].Contains(ip) && order[j].Contains(ip)
    ensures order[i].Prefix() <= order[j].Prefix()
  {
    var a, b := order[i], order[j];
    CmpNetIsBlockOrder(a, b);
    BlockContains(a, ip);
    BlockContains(b, ip);
    NetworkIsBlock(a);
    NetworkIsBlock(b);
    LargerFirst(Width(family), a.Block(), b.Block(), Value(ip.bits));
    if a.Prefix() > b.Prefix() {
      StrictlySmaller(Width(family) - a.Prefix(), Width(family) - b.Prefix());
    }
  }

  /** Of two blocks with an address in common, the first in the order is the larger. */
  lemma LargerFirst<D>(width: nat, a: Interval<D>, b: Interval<D>, x: nat)
    requires IntervalSplit.Block(width, a) && IntervalSplit.Block(width, b) && NotAfter(a, b) && In(x, a) && In(x, b)
    ensures b.high - b.low <= a.high - a.low
  {
    BlocksNestOrSeparate(width, a, b);
  }

  lemma StrictlySmaller(a: nat, b: nat)
    requires a < b
    ensures Pow2(a) < Pow2(b)
  {
    Pow2Mono(a + 1, b);
  }
}
