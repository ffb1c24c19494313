/**
 * Counting sort: a histogram of the keys, turned into prefix sums in place, tells each item where it goes. The result is
 * the stable sorted order of the input, ascending or descending.
 */
module CountingSort {
  type UInt32 = x: int | 0 <= x < 0x1_0000_0000

  datatype Order = Ascending | Descending
  datatype Result = Success | BadParam | BadIndex

  // ---------------------------------------------------------------- the order

  /** Key `a` goes strictly before key `b`. */
  predicate Less(a: int, b: int, order: Order)
  {
    if order.Ascending? then a < b else a > b
  }

  /** Item `i` goes before item `j`: by their keys, and among equal keys by their places in the input. */
  predicate Precedes(ks: seq<int>, i: nat, j: nat, order: Order)
    requires i < |ks| && j < |ks|
  {
    Less(ks[i], ks[j], order) || (ks[i] == ks[j] && i < j)
  }

  /** How many keys are equal to `k`. */
  function Same(ks: seq<int>, k: int): (n: nat)
    ensures n <= |ks|
  {
    if ks == [] then 0 else Same(ks[..|ks| - 1], k) + if ks[|ks| - 1] == k then 1 else 0
  }

  /** How many keys go strictly before `k`. */
  function Earlier(ks: seq<int>, k: int, order: Order): (n: nat)
    ensures n + Same(ks, k) <= |ks|
  {
    if ks == [] then 0 else Earlier(ks[..|ks| - 1], k, order) + if Less(ks[|ks| - 1], k, order) then 1 else 0
  }

  /** The place of item `i` in the output. */
  function Rank(ks: seq<int>, i: nat, order: Order): (r: nat)
    requires i < |ks|
  {
    Earlier(ks, ks[i], order) + Same(ks[..i], ks[i])
  }

  lemma {:induction false} SameGrows(ks: seq<int>, i: nat, j: nat, k: int)
    requires i <= j <= |ks|
    ensures Same(ks[..i], k) <= Same(ks[..j], k)
    ensures i < j && ks[i] == k ==> Same(ks[..i], k) < Same(ks[..j], k)
    decreases j
  {
    if i < j {
      SameGrows(ks, i, j - 1, k);
      assert ks[..j][..j - 1] == ks[..j - 1];
    }
  }

  /** The items of one key end where the next key in the order can start. */
  lemma {:induction false} EarlierGrows(ks: seq<int>, a: int, b: int, order: Order)
    requires Less(a, b, order)
    ensures Earlier(ks, a, order) + Same(ks, a) <= Earlier(ks, b, order)
  {
    if ks != [] {
      EarlierGrows(ks[..|ks| - 1], a, b, order);
    }
  }

  /** The ranks are the stable sorted order: they compare as the items do. */
  lemma RanksOrder(ks: seq<int>, i: nat, j: nat, order: Order)
    requires i < |ks| && j < |ks| && i != j
    ensures Rank(ks, i, order) < Rank(ks, j, order) <==> Precedes(ks, i, j, order)
    ensures Rank(ks, i, order) != Rank(ks, j, order)
    ensures Rank(ks, i, order) < |ks|
  {
    RankBelow(ks, i, order);
    RankBelow(ks, j, order);
    if ks[i] == ks[j] {
      if i < j {
        SameGrows(ks, i, j, ks[i]);
      } else {
        SameGrows(ks, j, i, ks[i]);
      }
    } else if Less(ks[i], ks[j], order) {
      EarlierGrows(ks, ks[i], ks[j], order);
    } else {
      EarlierGrows(ks, ks[j], ks[i], order);
    }
  }

  lemma RankBelow(ks: seq<int>, i: nat, order: Order)
    requires i < |ks|
    ensures Rank(ks, i, order) < Earlier(ks, ks[i], order) + Same(ks, ks[i]) <= |ks|
  {
    SameGrows(ks, i, |ks|, ks[i]);
    assert ks[..|ks|] == ks;
  }

  // ---------------------------------------------------------------- every slot once

  function Slots(n: nat): (s: set<nat>)
    ensures |s| == n && forall x: nat :: x in s <==> x < n
  {
    if n == 0 then {} else Slots(n - 1) + {n - 1}
  }

  /** The ranks of the first `m` items. */
  function Ranks(ks: seq<int>, m: nat, order: Order): (s: set<nat>)
    requires m <= |ks|
  {
    if m == 0 then {} else Ranks(ks, m - 1, order) + {Rank(ks, m - 1, order)}
  }

  /** The item that has a rank. */
  lemma {:induction false} Ranked(ks: seq<int>, m: nat, order: Order, slot: nat) returns (i: nat)
    requires m <= |ks| && slot in Ranks(ks, m, order)
    ensures i < m && Rank(ks, i, order) == slot
  {
    if slot == Rank(ks, m - 1, order) {
      i := m - 1;
    } else {
      i := Ranked(ks, m - 1, order, slot);
    }
  }

  lemma {:induction false} RanksDistinct(ks: seq<int>, m: nat, order: Order)
    requires m <= |ks|
    ensures |Ranks(ks, m, order)| == m && Ranks(ks, m, order) <= Slots(|ks|)
  {
    if m > 0 {
      RanksDistinct(ks, m - 1, order);
      RankBelow(ks, m - 1, order);
      if Rank(ks, m - 1, order) in Ranks(ks, m - 1, order) {
        var i := Ranked(ks, m - 1, order, Rank(ks, m - 1, order));
        RanksOrder(ks, i, m - 1, order);
      }
    }
  }

  lemma SubsetOfSameSize(a: set<nat>, b: set<nat>)
    requires a <= b && |a| == |b|
    ensures a == b
  {
    assert |b - a| == |b| - |a|;
    assert b == a + (b - a);
  }

  /** Every slot of the output is the rank of some item (of one only, by `RanksOrder`). */
  lemma EverySlotRanked(ks: seq<int>, slot: nat, order: Order) returns (i: nat)
    requires slot < |ks|
    ensures i < |ks| && Rank(ks, i, order) == slot
  {
    RanksDistinct(ks, |ks|, order);
    SubsetOfSameSize(Ranks(ks, |ks|, order), Slots(|ks|));
    i := Ranked(ks, |ks|, order, slot);
  }

  /** An output that holds every item at its rank is sorted and stable: slots compare as the items in them do. */
  lemma PlacedIsSorted<T>(items: seq<T>, ks: seq<int>, out: seq<T>, order: Order, p: nat, q: nat) returns (i: nat, j: nat)
    requires |items| == |ks| == |out| && p < q < |out|
    requires Placed(items, ks, out, 0, order)
    ensures i < |ks| && j < |ks| && i != j && out[p] == items[i] && out[q] == items[j] && Precedes(ks, i, j, order)
  {
    i := EverySlotRanked(ks, p, order);
    j := EverySlotRanked(ks, q, order);
    RanksOrder(ks, i, j, order);
  }

  // ---------------------------------------------------------------- sums

  lemma {:induction false} AscendingSum(ks: seq<int>, k: int)
    ensures Earlier(ks, k + 1, Ascending) == Earlier(ks, k, Ascending) + Same(ks, k)
  {
    if ks != [] {
      AscendingSum(ks[..|ks| - 1], k);
    }
  }

  lemma {:induction false} DescendingSum(ks: seq<int>, k: int)
    ensures Earlier(ks, k - 1, Descending) == Earlier(ks, k, Descending) + Same(ks, k)
  {
    if ks != [] {
      DescendingSum(ks[..|ks| - 1], k);
    }
  }

  lemma {:induction false} NothingEarlier(ks: seq<int>, k: int, order: Order)
    requires forall i :: 0 <= i < |ks| ==> !Less(ks[i], k, order)
    ensures Earlier(ks, k, order) == 0
  {
    if ks != [] {
      NothingEarlier(ks[..|ks| - 1], k, order);
    }
  }

  // ---------------------------------------------------------------- the sort

  /** The difference of two unsigned 32-bit numbers. */
  function Minus(a: UInt32, b: UInt32): (d: UInt32)
  {
    (a - b) % 0x1_0000_0000
  }

  /** The number of possible keys as the function computes it. */
  function KeysSize(keyMin: UInt32, keyMax: UInt32): (n: UInt32)
  {
    (Minus(keyMax, keyMin) + 1) % 0x1_0000_0000
  }

  /** The keys, counted from the smallest one. */
  function Keys<T>(items: seq<T>, key: T -> UInt32, keyMin: UInt32): (ks: seq<int>)
    ensures |ks| == |items| && forall i :: 0 <= i < |ks| ==> ks[i] == Minus(key(items[i]), keyMin)
  {
    seq(|items|, i requires 0 <= i < |items| => Minus(key(items[i]), keyMin))
  }

  /** Every key is in range. */
  predicate InRange<T>(items: seq<T>, key: T -> UInt32, keyMin: UInt32, keyMax: UInt32)
  {
    forall i :: 0 <= i < |items| ==> keyMin <= key(items[i]) <= keyMax
  }

  /** The range is all 32-bit numbers, so that their number is not one. */
  predicate FullRange(keyMin: UInt32, keyMax: UInt32)
  {
    keyMin == 0 && keyMax == 0xFFFF_FFFF
  }

  /** A key passes the check against the number of keys exactly when it is in range, unless the range is full. */
  lemma CheckIsRange(k: UInt32, keyMin: UInt32, keyMax: UInt32)
    requires keyMin < keyMax
    ensures Minus(k, keyMin) < KeysSize(keyMin, keyMax) <==> keyMin <= k <= keyMax && !FullRange(keyMin, keyMax)
  {
    assert Minus(k, keyMin) == if k >= keyMin then k - keyMin else k - keyMin + 0x1_0000_0000;
    assert Minus(keyMax, keyMin) == keyMax - keyMin;
  }

  /** The histogram of the first `n` keys. */
  predicate Histogram(keys: seq<int>, ks: seq<int>)
  {
    forall k :: 0 <= k < |keys| ==> keys[k] == Same(ks, k)
  }

  lemma HistogramSnoc(keys: seq<int>, ks: seq<int>, i: nat)
    requires i < |ks| && 0 <= ks[i] < |keys| && Histogram(keys, ks[..i])
    ensures Histogram(keys[ks[i] := keys[ks[i]] + 1], ks[..i + 1])
  {
    assert ks[..i + 1][..i] == ks[..i];
  }

  /** Counts the keys; stops at the first one that is out of range. */
  method Count<T>(items: seq<T>, key: T -> UInt32, keyMin: UInt32, keys: array<int>) returns (ok: bool)
    requires forall k :: 0 <= k < keys.Length ==> keys[k] == 0
    modifies keys
    ensures ok <==> forall i :: 0 <= i < |items| ==> Keys(items, key, keyMin)[i] < keys.Length
    ensures ok ==> Histogram(keys[..], Keys(items, key, keyMin))
  {
    ghost var ks := Keys(items, key, keyMin);
    var i := 0;
    while i < |items|
      invariant i <= |items| && Histogram(keys[..], ks[..i])
      invariant forall x :: 0 <= x < i ==> ks[x] < keys.Length
    {
      var k := Minus(key(items[i]), keyMin);
      assert k == ks[i];
      if k >= keys.Length {
        return false;
      }
      HistogramSnoc(keys[..], ks, i);
      keys[k] := keys[k] + 1;
      i := i + 1;
    }
    assert ks[..i] == ks;
    return true;
  }

  /** Prefix sums: each entry becomes the end of the slots of its key. */
  predicate Ends(keys: seq<int>, ks: seq<int>, m: nat, order: Order)
    requires m <= |ks|
  {
    forall k :: 0 <= k < |keys| ==> keys[k] == Earlier(ks, k, order) + Same(ks[..m], k)
  }

  method SumAscending(keys: array<int>, ghost ks: seq<int>)
    requires keys.Length > 0 && Histogram(keys[..], ks) && forall i :: 0 <= i < |ks| ==> 0 <= ks[i]
    modifies keys
    ensures Ends(keys[..], ks, |ks|, Ascending)
  {
    NothingEarlier(ks, 0, Ascending);
    assert ks[..|ks|] == ks;
    var i := 1;
    while i < keys.Length
      invariant 1 <= i <= keys.Length
      invariant forall k :: 0 <= k < i ==> keys[k] == Earlier(ks, k, Ascending) + Same(ks, k)
      invariant forall k :: i <= k < keys.Length ==> keys[k] == Same(ks, k)
    {
      AscendingSum(ks, i - 1);
      keys[i] := keys[i] + keys[i - 1];
      i := i + 1;
    }
  }

  method SumDescending(keys: array<int>, ghost ks: seq<int>)
    requires keys.Length > 0 && Histogram(keys[..], ks) && forall i :: 0 <= i < |ks| ==> ks[i] < keys.Length
    modifies keys
    ensures Ends(keys[..], ks, |ks|, Descending)
  {
    NothingEarlier(ks, keys.Length - 1, Descending);
    assert ks[..|ks|] == ks;
    var i := keys.Length - 1;
    while i > 0
      invariant 0 <= i < keys.Length
      invariant forall k :: i <= k < keys.Length ==> keys[k] == Earlier(ks, k, Descending) + Same(ks, k)
      invariant forall k :: 0 <= k < i ==> keys[k] == Same(ks, k)
    {
      DescendingSum(ks, i);
      keys[i - 1] := keys[i - 1] + keys[i];
      i := i - 1;
    }
  }

  lemma EndsBack(keys: seq<int>, ks: seq<int>, m: nat, order: Order)
    requires m < |ks| && 0 <= ks[m] < |keys| && Ends(keys, ks, m + 1, order)
    ensures keys[ks[m]] - 1 == Rank(ks, m, order)
    ensures Ends(keys[ks[m] := keys[ks[m]] - 1], ks, m, order)
  {
    assert ks[..m + 1][..m] == ks[..m];
  }

  /** The items from `m` on are at their ranks. */
  ghost predicate Placed<T>(items: seq<T>, ks: seq<int>, out: seq<T>, m: nat, order: Order)
    requires |items| == |ks|
  {
    forall x :: m <= x < |items| ==> Rank(ks, x, order) < |items| <= |out| && out[Rank(ks, x, order)] == items[x]
  }

  lemma PlaceOne<T>(items: seq<T>, ks: seq<int>, out: seq<T>, m: nat, order: Order)
    requires |items| == |ks| <= |out| && m < |ks| && Placed(items, ks, out, m + 1, order)
    ensures Rank(ks, m, order) < |items| && Placed(items, ks, out[Rank(ks, m, order) := items[m]], m, order)
  {
    RankBelow(ks, m, order);
    forall x | m < x < |items|
      ensures Rank(ks, x, order) != Rank(ks, m, order)
    {
      RanksOrder(ks, m, x, order);
    }
  }

  /** Two different objects. */
  predicate Apart(a: object, b: object)
  {
    a != b
  }

  /** Copies an item to the last free slot of key `k`. */
  method PutItem<T>(output: array<T>, keys: array<int>, k: nat, item: T)
    requires k < keys.Length && 0 < keys[k] <= output.Length && Apart(output, keys)
    modifies output, keys
    ensures output[..] == old(output[..])[old(keys[k]) - 1 := item]
    ensures keys[..] == old(keys[..])[k := old(keys[k]) - 1]
  {
    output[keys[k] - 1] := item;
    keys[k] := keys[k] - 1;
  }

  /** One item goes to its rank. */
  method PlaceItem<T>(items: seq<T>, output: array<T>, k: nat, i: nat, keys: array<int>, ghost ks: seq<int>, ghost order: Order)
    requires |items| == |ks| <= output.Length && Apart(output, keys) && i < |items| && k == ks[i] < keys.Length
    requires Ends(keys[..], ks, i + 1, order) && Placed(items, ks, output[..], i + 1, order)
    modifies output, keys
    ensures Ends(keys[..], ks, i, order) && Placed(items, ks, output[..], i, order)
    ensures output[|items|..] == old(output[|items|..])
  {
    EndsBack(keys[..], ks, i, order);
    PlaceOne(items, ks, output[..], i, order);
    PutItem(output, keys, k, items[i]);
  }

  /** Copies the items from the last to the first, each to the last free slot of its key. */
  method Place<T>(items: seq<T>, output: array<T>, key: T -> UInt32, keyMin: UInt32, keys: array<int>, ghost order: Order)
    requires |items| <= output.Length && Apart(output, keys)
    requires forall i :: 0 <= i < |items| ==> Keys(items, key, keyMin)[i] < keys.Length
    requires Ends(keys[..], Keys(items, key, keyMin), |items|, order)
    modifies output, keys
    ensures Placed(items, Keys(items, key, keyMin), output[..], 0, order)
    ensures output[|items|..] == old(output[|items|..])
  {
    ghost var ks := Keys(items, key, keyMin);
    var i: nat := |items|;
    while i > 0
      invariant i <= |items|
      invariant Ends(keys[..], ks, i, order)
      invariant Placed(items, ks, output[..], i, order)
      invariant output[|items|..] == old(output[|items|..])
    {
      i := i - 1;
      PlaceItem(items, output, Minus(key(items[i]), keyMin), i, keys, ks, order);
    }
  }

  /** `counting_sort`: every item at its rank, or an error that tells what was wrong and leaves the output alone. */
  method Sort<T>(input: array<T>, output: array<T>, count: UInt32, size: UInt32, keyMin: UInt32, keyMax: UInt32, order: Order, key: T -> UInt32)
      returns (r: Result)
    requires input != output && count <= input.Length && count <= output.Length
    modifies output
    ensures r == BadParam <==> count == 0 || size == 0 || keyMax <= keyMin
    ensures r == BadIndex <==> count > 0 && size > 0 && keyMin < keyMax && (FullRange(keyMin, keyMax) || !InRange(input[..count], key, keyMin, keyMax))
    ensures r != Success ==> output[..] == old(output[..])
    ensures r == Success ==>
              && Placed(input[..count], Keys(input[..count], key, keyMin), output[..], 0, order)
              && output[count..] == old(output[count..])
  {
    if count == 0 || size == 0 || keyMax <= keyMin {
      return BadParam;
    }
    var items := input[..count];
    var keys := new int[KeysSize(keyMin, keyMax)](k => 0);
    var ok := Count(items, key, keyMin, keys);
    KeysInRange(items, key, keyMin, keyMax);
    if !ok {
      return BadIndex;
    }
    if order.Descending? {
      SumDescending(keys, Keys(items, key, keyMin));
    } else {
      SumAscending(keys, Keys(items, key, keyMin));
    }
    Place(items, output, key, keyMin, keys, order);
    return Success;
  }

  lemma KeysInRange<T>(items: seq<T>, key: T -> UInt32, keyMin: UInt32, keyMax: UInt32)
    requires items != [] && keyMin < keyMax
    ensures (forall i :: 0 <= i < |items| ==> Keys(items, key, keyMin)[i] < KeysSize(keyMin, keyMax))
       <==> !FullRange(keyMin, keyMax) && InRange(items, key, keyMin, keyMax)
    ensures (forall i :: 0 <= i < |items| ==> Keys(items, key, keyMin)[i] < KeysSize(keyMin, keyMax)) ==> KeysSize(keyMin, keyMax) > 0
  {
    var ks, n := Keys(items, key, keyMin), KeysSize(keyMin, keyMax);
    forall i | 0 <= i < |items|
      ensures ks[i] < n <==> keyMin <= key(items[i]) <= keyMax && !FullRange(keyMin, keyMax)
    {
      CheckIsRange(key(items[i]), keyMin, keyMax);
    }
    assert ks[0] < n ==> n > 0;
    assert FullRange(keyMin, keyMax) ==> !(ks[0] < n);
  }
}
