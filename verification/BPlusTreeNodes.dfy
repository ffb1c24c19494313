/**
 * The arrays inside a node, shifted in place. Each method does to the arrays what the tree operations
 * say in terms of sequences.
 */
module BPlusTreeNodes {
  import opened BPlusTree
  import opened Sequences

  /** A leaf: parallel arrays of `m` keys and values; `count` is one more than the number of items. */
  class LeafNode<V> {
    const keys: array<int>
    const values: array<V>
    var count: nat

    ghost predicate Valid()
      reads this
    {
      keys.Length == values.Length && 1 <= count <= keys.Length + 1
    }

    ghost function Items(): (r: seq<Item<V>>)
      reads this, keys, values
      requires Valid()
      ensures |r| == count - 1
    {
      seq(count - 1, i requires 0 <= i < count - 1 && Valid() reads this, keys, values => Item(keys[i], values[i]))
    }

    /** `bpt_nd_index_key` */
    method IndexKey(key: int) returns (r: int)
      requires Valid()
      ensures r == (var i := IndexOf(Items(), 0, key); if i < count - 1 then i else -1)
    {
      var i := 0;
      while i < count - 1
        invariant 0 <= i <= count - 1 && IndexOf(Items(), i, key) == IndexOf(Items(), 0, key)
      {
        assert Items()[i].key == keys[i];
        if keys[i] == key {
          return i;
        }
        i := i + 1;
      }
      return -1;
    }

    /** The items of `was` from `lo` to `hi`, in the arrays `up` places further up. */
    ghost predicate Holds(was: seq<Item<V>>, lo: nat, hi: nat, up: nat)
      reads keys, values
    {
      && hi <= |was| && hi + up <= keys.Length == values.Length
      && forall j {:trigger was[j]} :: lo <= j < hi ==> keys[j + up] == was[j].key && values[j + up] == was[j].value
    }

    lemma HeldItems(was: seq<Item<V>>)
      requires Valid() && |was| == count - 1 && Holds(was, 0, |was|, 0)
      ensures Items() == was
    {
    }

    /** The shifting loop: makes room at the place of `key`. */
    method ShiftUp(key: int, ghost was: seq<Item<V>>) returns (slot: nat)
      requires Valid() && count <= keys.Length && keys as object != values
      requires |was| == count - 1 && Holds(was, 0, |was|, 0)
      modifies keys, values
      ensures slot == SlotFor(KeysOf(was), key)
      ensures Holds(was, 0, slot, 0) && Holds(was, slot, |was|, 1)
    {
      ghost var ks := KeysOf(was);
      var i := count - 2;
      assert ks[..i + 1] == ks;
      while i >= 0 && keys[i] > key
        invariant -1 <= i <= count - 2
        invariant Holds(was, 0, i + 1, 0) && Holds(was, i + 1, |was|, 1)
        invariant SlotFor(ks, key) == SlotFor(ks[..i + 1], key)
      {
        assert keys[i] == was[i].key;
        SlotStep(ks, i, key);
        MoveUp(i, was);
        i := i - 1;
      }
      if i >= 0 {
        assert keys[i] == was[i].key;
        SlotStep(ks, i, key);
      }
      slot := i + 1;
    }

    /** One item moves up by one place. */
    method MoveUp(i: nat, ghost was: seq<Item<V>>)
      requires i < |was| && keys as object != values && Holds(was, 0, i + 1, 0) && Holds(was, i + 1, |was|, 1) && |was| < keys.Length
      modifies keys, values
      ensures Holds(was, 0, i, 0) && Holds(was, i, |was|, 1)
    {
      assert keys[i] == was[i].key && values[i] == was[i].value;
      keys[i + 1], values[i + 1] := keys[i], values[i];
    }

    /** `bpt_ndlf_insert`: -1 when the key is there, else its place, with all larger items moved up by one. */
    method Insert(key: int, value: V) returns (index: int)
      requires Valid() && count <= keys.Length && keys as object != values
      modifies this`count, keys, values
      ensures Valid()
      ensures index == -1 <==> IndexOf(old(Items()), 0, key) < |old(Items())|
      ensures index == -1 ==> Items() == old(Items())
      ensures index != -1 ==>
                && index == SlotFor(KeysOf(old(Items())), key)
                && Items() == old(Items())[..index] + [Item(key, value)] + old(Items())[index..]
    {
      ghost var was := Items();
      var found := IndexKey(key);
      if found != -1 {
        return -1;
      }
      index := ShiftUp(key, was);
      keys[index], values[index] := key, value;
      count := count + 1;
      ghost var now := was[..index] + [Item(key, value)] + was[index..];
      forall j | 0 <= j < |now| ensures keys[j] == now[j].key && values[j] == now[j].value {
        if j < index {
          assert now[j] == was[j];
        } else if j > index {
          assert now[j] == was[j - 1];
        }
      }
      HeldItems(now);
    }

    /** `bpt_ndlf_del_item`: the items behind `index` move down by one; returns how many are left. */
    method DelItem(index: nat) returns (size: nat)
      requires Valid() && index < count - 1 && keys as object != values
      modifies this`count, keys, values
      ensures Valid() && Items() == Without(old(Items()), index) && size == |Items()|
    {
      ghost var was := Items();
      var i := index;
      while i < count - 2
        invariant index <= i <= count - 2 && Valid() && count == |was| + 1
        invariant Holds(was, 0, index, 0) && Holds(was, i, |was|, 0)
        invariant forall j :: index <= j < i ==> keys[j] == was[j + 1].key && values[j] == was[j + 1].value
      {
        assert keys[i + 1] == was[i + 1].key && values[i + 1] == was[i + 1].value;
        keys[i], values[i] := keys[i + 1], values[i + 1];
        i := i + 1;
      }
      count := count - 1;
      size := count - 1;
      ghost var now := Without(was, index);
      forall j | 0 <= j < |now| ensures keys[j] == now[j].key && values[j] == now[j].value {
        assert now[j] == was[if j < index then j else j + 1];
      }
      HeldItems(now);
    }
  }

  lemma SlotStep(keys: seq<int>, i: nat, key: int)
    requires i < |keys|
    ensures keys[i] > key ==> SlotFor(keys[..i + 1], key) == SlotFor(keys[..i], key)
    ensures keys[i] <= key ==> SlotFor(keys[..i + 1], key) == i + 1
  {
    assert keys[..i + 1][..i] == keys[..i];
  }

  /** An inner node: `m` keys and `m + 1` children; `count` is the number of children. */
  class InnerNode<V> {
    const keys: array<int>
    const child: array<Tree<V>>
    var count: nat

    ghost predicate Valid()
      reads this
    {
      1 <= count <= child.Length && child.Length == keys.Length + 1
    }

    ghost predicate HoldsKeys(was: seq<int>, lo: nat, hi: nat, up: nat)
      reads keys
    {
      hi <= |was| && hi + up <= keys.Length && forall j {:trigger was[j]} :: lo <= j < hi ==> keys[j + up] == was[j]
    }

    ghost predicate HoldsKids(was: seq<Tree<V>>, lo: nat, hi: nat, up: nat)
      reads child
    {
      hi <= |was| && hi + up <= child.Length && forall j {:trigger was[j]} :: lo <= j < hi ==> child[j + up] == was[j]
    }

    /** The shifting loop; the child at the place of `add` stays where it is. */
    method ShiftUp(add: int, ghost ks: seq<int>, ghost cs: seq<Tree<V>>) returns (slot: nat)
      requires Valid() && count < child.Length && keys as object != child
      requires |ks| == count - 1 && |cs| == count && HoldsKeys(ks, 0, |ks|, 0) && HoldsKids(cs, 0, |cs|, 0)
      modifies keys, child
      ensures slot == SlotFor(ks, add)
      ensures HoldsKeys(ks, 0, slot, 0) && HoldsKeys(ks, slot, |ks|, 1)
      ensures HoldsKids(cs, 0, slot, 0) && HoldsKids(cs, slot + 1, |cs|, 1)
    {
      var i := count - 2;
      assert ks[..i + 1] == ks;
      while i >= 0 && keys[i] > add
        invariant -1 <= i <= count - 2
        invariant HoldsKeys(ks, 0, i + 1, 0) && HoldsKeys(ks, i + 1, |ks|, 1)
        invariant HoldsKids(cs, 0, i + 2, 0) && HoldsKids(cs, i + 2, |cs|, 1)
        invariant SlotFor(ks, add) == SlotFor(ks[..i + 1], add)
      {
        assert keys[i] == ks[i];
        SlotStep(ks, i, add);
        MoveUp(i, ks, cs);
        i := i - 1;
      }
      if i >= 0 {
        assert keys[i] == ks[i];
        SlotStep(ks, i, add);
      }
      slot := i + 1;
    }

    /** One separator and the child behind it move up by one place. */
    method MoveUp(i: nat, ghost ks: seq<int>, ghost cs: seq<Tree<V>>)
      requires i < |ks| && |cs| == |ks| + 1 < child.Length == keys.Length + 1 && keys as object != child
      requires HoldsKeys(ks, 0, i + 1, 0) && HoldsKeys(ks, i + 1, |ks|, 1)
      requires HoldsKids(cs, 0, i + 2, 0) && HoldsKids(cs, i + 2, |cs|, 1)
      modifies keys, child
      ensures HoldsKeys(ks, 0, i, 0) && HoldsKeys(ks, i, |ks|, 1)
      ensures HoldsKids(cs, 0, i + 1, 0) && HoldsKids(cs, i + 1, |cs|, 1)
    {
      assert keys[i] == ks[i] && child[i + 1] == cs[i + 1];
      keys[i + 1] := keys[i];
      child[i + 2] := child[i + 1];
    }

    /** The separator and the two children go into the room made for them. */
    method PutIn(i: nat, add: int, left: Tree<V>, right: Tree<V>, ghost ks: seq<int>, ghost cs: seq<Tree<V>>)
      requires Valid() && count < child.Length && keys as object != child
      requires |ks| == count - 1 && |cs| == count && i <= |ks|
      requires HoldsKeys(ks, 0, i, 0) && HoldsKeys(ks, i, |ks|, 1)
      requires HoldsKids(cs, 0, i, 0) && HoldsKids(cs, i + 1, |cs|, 1)
      modifies this`count, keys, child
      ensures Valid() && count == old(count) + 1
      ensures keys[..count - 1] == ks[..i] + [add] + ks[i..]
      ensures child[..count] == cs[..i] + [left, right] + cs[i + 1..]
    {
      keys[i] := add;
      child[i + 1] := right;
      child[i] := left;
      count := count + 1;
      ghost var ks', cs' := ks[..i] + [add] + ks[i..], cs[..i] + [left, right] + cs[i + 1..];
      forall j | 0 <= j < |ks'| ensures keys[j] == ks'[j] {
        assert j != i ==> ks'[j] == ks[if j < i then j else j - 1];
      }
      forall j | 0 <= j < |cs'| ensures child[j] == cs'[j] {
        assert j < i ==> cs'[j] == cs[j];
        assert j > i + 1 ==> cs'[j] == cs[j - 1];
      }
    }

    method HasSeparator(add: int) returns (there: bool)
      requires Valid()
      ensures there <==> add in keys[..count - 1]
    {
      for k := 0 to count - 1
        invariant add !in keys[..k]
      {
        if keys[k] == add {
          assert keys[..count - 1][k] == add;
          return true;
        }
        assert keys[..k + 1] == keys[..k] + [keys[k]];
      }
      return false;
    }

    /** `bpt_ndin_insert`: -1 when the separator is there; else separators and children from its place on move up by one. */
    method Insert(add: int, left: Tree<V>, right: Tree<V>) returns (r: int)
      requires Valid() && count < child.Length && keys as object != child
      modifies this`count, keys, child
      ensures Valid()
      ensures (keys[..count - 1], child[..count])
              == InsertSeparator(old(keys[..count - 1]), old(child[..count]), left, add, right)
      ensures r == if add in old(keys[..count - 1]) then -1 else count
    {
      ghost var ks, cs := keys[..count - 1], child[..count];
      var there := HasSeparator(add);
      if there {
        return -1;
      }
      var i := ShiftUp(add, ks, cs);
      PutIn(i, add, left, right, ks, cs);
      return count;
    }
  }
}
