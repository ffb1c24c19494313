/** Standing at an item of the list, and moving to the next one along the chain of leaves. */
module BPlusTreeList {
  import opened BPlusTree
  import opened BPlusTreeChain
  import opened BPlusTreeContents
  import opened BPlusTreeMap
  import opened BPlusTreeShape
  import opened Options

  /** `bpt_list_item_t`: the item, the leaf it is in and its place there. */
  datatype ListItem<V> = ListItem(key: int, value: V, leaf: nat, index: nat)

  /** `bpt_nd_leftmost_leaf` */
  function Leftmost<V>(t: Tree<V>): (r: Tree<V>)
  {
    if t.Inner? && t.kids != [] then Leftmost(t.kids[0]) else t
  }

  /** The leaf a name stands for, as its place in the chain. */
  function Find<V>(leaves: seq<Tree<V>>, name: nat, from: nat): (j: nat)
    requires from <= |leaves|
    ensures from <= j <= |leaves|
    ensures j < |leaves| ==> leaves[j].Leaf? && leaves[j].id == name
    ensures forall k :: from <= k < j ==> !(leaves[k].Leaf? && leaves[k].id == name)
    decreases |leaves| - from
  {
    if from == |leaves| || (leaves[from].Leaf? && leaves[from].id == name) then from else Find(leaves, name, from + 1)
  }

  /** The number of items in the first `j` leaves. */
  ghost function Offset<V>(leaves: seq<Tree<V>>, j: nat): (n: nat)
    requires j <= |leaves|
  {
    |ItemsOf(leaves[..j])|
  }

  /** The list item is the `n`-th item of the tree, and knows its leaf and its place there. */
  ghost predicate Stands<V>(leaves: seq<Tree<V>>, item: ListItem<V>, n: nat)
  {
    && n < |ItemsOf(leaves)| && ItemsOf(leaves)[n] == Item(item.key, item.value)
    && var j := Find(leaves, item.leaf, 0);
    && j < |leaves| && item.index < |leaves[j].items| && n == Offset(leaves, j) + item.index
  }

  lemma OffsetNext<V>(leaves: seq<Tree<V>>, j: nat)
    requires j < |leaves| && leaves[j].Leaf?
    ensures Offset(leaves, j + 1) == Offset(leaves, j) + |leaves[j].items|
    ensures Offset(leaves, j + 1) <= |ItemsOf(leaves)|
    ensures forall i :: 0 <= i < |leaves[j].items| ==>
              Offset(leaves, j) + i < |ItemsOf(leaves)| && ItemsOf(leaves)[Offset(leaves, j) + i] == leaves[j].items[i]
  {
    assert leaves[..j + 1] == leaves[..j] + [leaves[j]];
    assert leaves == leaves[..j + 1] + leaves[j + 1..];
    ItemsConcat(leaves[..j], [leaves[j]]);
    LeafItems(leaves[j]);
    ItemsConcat(leaves[..j + 1], leaves[j + 1..]);
    forall i | 0 <= i < |leaves[j].items|
      ensures Offset(leaves, j) + i < |ItemsOf(leaves)| && ItemsOf(leaves)[Offset(leaves, j) + i] == leaves[j].items[i]
    {
      assert ItemsOf(leaves[..j + 1])[Offset(leaves, j) + i] == leaves[j].items[i];
    }
  }

  lemma OffsetAll<V>(leaves: seq<Tree<V>>)
    ensures Offset(leaves, |leaves|) == |ItemsOf(leaves)| && Offset(leaves, 0) == 0
  {
    assert leaves[..|leaves|] == leaves && leaves[..0] == [];
  }

  lemma FindsChained<V>(leaves: seq<Tree<V>>, name: nat, j: nat)
    requires Chained(leaves, name) && j < |leaves|
    ensures Find(leaves, leaves[j].id, 0) == j
  {
    var k := Find(leaves, leaves[j].id, 0);
    assert k == j;
  }

  /** Below an inner node no leaf is empty. */
  lemma {:induction false} LeavesNotEmpty<V>(m: nat, t: Tree<V>, h: nat, lo: Option<int>, hi: Option<int>)
    requires m >= 3 && Node(m, t, h, lo, hi) && (t.Leaf? ==> t.items != [])
    ensures forall i :: 0 <= i < |Leaves(t)| ==> Leaves(t)[i].Leaf? && Leaves(t)[i].items != []
    decreases h, 1, 0
  {
    if t.Inner? {
      assert t.kids[..|t.kids|] == t.kids;
      KidsNotEmpty(m, t.keys, t.kids, h, lo, hi, |t.kids|);
    }
  }

  lemma {:induction false} KidsNotEmpty<V>(m: nat, keys: seq<int>, kids: seq<Tree<V>>, h: nat, lo: Option<int>, hi: Option<int>, n: nat)
    requires m >= 3 && KidsOrdered(m, keys, kids, h, lo, hi) && AllSized(m, kids) && n <= |kids|
    ensures forall i :: 0 <= i < |LeavesOf(kids[..n])| ==> LeavesOf(kids[..n])[i].Leaf? && LeavesOf(kids[..n])[i].items != []
    decreases h, 0, n
  {
    if n > 0 {
      KidsNotEmpty(m, keys, kids, h, lo, hi, n - 1);
      assert Sized(m, kids[n - 1]);
      LeavesNotEmpty(m, kids[n - 1], h - 1, Lo(keys, n - 1, lo), Hi(keys, n - 1, hi));
      assert kids[..n] == kids[..n - 1] + [kids[n - 1]];
      LeavesConcat(kids[..n - 1], [kids[n - 1]]);
      LeavesOne(kids[n - 1]);
    }
  }

  lemma {:induction false} LeftmostIsFirst<V>(m: nat, t: Tree<V>, h: nat, lo: Option<int>, hi: Option<int>)
    requires Node(m, t, h, lo, hi)
    ensures Leaves(t) != [] && Leftmost(t) == Leaves(t)[0]
    decreases h
  {
    if t.Inner? {
      LeftmostIsFirst(m, t.kids[0], h - 1, Lo(t.keys, 0, lo), Hi(t.keys, 0, hi));
      LeavesAround(t.kids, 0);
      assert t.kids[..0] == [];
    }
  }

  /** `bpt_search_leaf` */
  function SearchLeaf<V>(t: Tree<V>, key: int, ghost h: nat): (r: Tree<V>)
    requires Uniform(t, h)
    ensures r.Leaf?
    decreases h
  {
    match t
    case Leaf(_, _, _) => t
    case Inner(keys, kids) => SearchLeaf(kids[Route(keys, 0, key)], key, h - 1)
  }

  lemma {:induction false} SearchLeafAt<V>(m: nat, t: Tree<V>, key: int, h: nat, lo: Option<int>, hi: Option<int>)
    returns (a: seq<Tree<V>>, b: seq<Tree<V>>)
    requires Node(m, t, h, lo, hi) && Uniform(t, h)
    ensures Leaves(t) == a + [SearchLeaf(t, key, h)] + b
    ensures AllBelow(ItemsOf(a), key) && AllAbove(ItemsOf(b), key)
    decreases h
  {
    if t.Leaf? {
      a, b := [], [];
    } else {
      var i := Route(t.keys, 0, key);
      RouteSplits(m, t, key, h, lo, hi);
      var x, y := LeavesOf(t.kids[..i]), LeavesOf(t.kids[i + 1..]);
      var a', b' := SearchLeafAt(m, t.kids[i], key, h - 1, Lo(t.keys, i, lo), Hi(t.keys, i, hi));
      a, b := x + a', b' + y;
      BelowAndAbove(x, a', b', y, key);
      Regroup(x, a', [SearchLeaf(t, key, h)], b', y);
    }
  }

  lemma ItemOfLeafStands<V>(leaves: seq<Tree<V>>, name: nat, j: nat, index: nat)
    requires Chained(leaves, name) && j < |leaves| && index < |leaves[j].items|
    ensures var Item(key, value) := leaves[j].items[index];
            Stands(leaves, ListItem(key, value, leaves[j].id, index), Offset(leaves, j) + index)
  {
    FindsChained(leaves, name, j);
    OffsetNext(leaves, j);
  }

  /** Looking up the key of the `n`-th item gives a list item that stands there. */
  lemma LookedUpStands<V>(m: nat, root: Tree<V>, h: nat, name: nat, n: nat)
    requires TreeOk(m, root, h, name) && Uniform(root, h) && n < |Items(root)|
    ensures var Item(key, value) := Items(root)[n];
            var leaf := SearchLeaf(root, key, h);
            Stands(Leaves(root), ListItem(key, value, leaf.id, IndexOf(leaf.items, 0, key)), n)
  {
    var leaves := Leaves(root);
    var Item(key, value) := Items(root)[n];
    var leaf := SearchLeaf(root, key, h);
    var a, b := SearchLeafAt(m, root, key, h, None, None);
    var index := IndexOf(leaf.items, 0, key);
    assert leaves[|a|] == leaf;
    assert index < |leaf.items| by {
      ItemsAround(root, a, [leaf], b);
      LeafItems(leaf);
      assert HasKey(Items(root), key);
      KeyInLeaf(ItemsOf(a), leaf.items, ItemsOf(b), key);
    }
    ItemOfLeafStands(leaves, name, |a|, index);
    NodeItems(m, root, h, None, None);
    var k := Offset(leaves, |a|) + index;
    assert Items(root)[k].key == key;
    assert k == n;
  }

  lemma {:induction false} OffsetGrows<V>(leaves: seq<Tree<V>>, i: nat, j: nat)
    requires i <= j <= |leaves|
    ensures Offset(leaves, i) <= Offset(leaves, j)
    decreases j
  {
    if i < j {
      OffsetGrows(leaves, i, j - 1);
      assert leaves[..j] == leaves[..j - 1] + [leaves[j - 1]];
      ItemsConcat(leaves[..j - 1], [leaves[j - 1]]);
    }
  }

  /** There is one place for the `n`-th item. */
  lemma StandsOnce<V>(leaves: seq<Tree<V>>, x: ListItem<V>, y: ListItem<V>, n: nat)
    requires Stands(leaves, x, n) && Stands(leaves, y, n)
    ensures x == y
  {
    var i, j := Find(leaves, x.leaf, 0), Find(leaves, y.leaf, 0);
    OffsetNext(leaves, i);
    OffsetNext(leaves, j);
    if i < j {
      OffsetGrows(leaves, i + 1, j);
    } else if j < i {
      OffsetGrows(leaves, j + 1, i);
    }
  }

  /** The leaf and the index a list item remembers are those that a search for its key finds. */
  lemma RemembersItsPlace<V>(m: nat, root: Tree<V>, h: nat, name: nat, item: ListItem<V>, n: nat)
    requires TreeOk(m, root, h, name) && Uniform(root, h) && Stands(Leaves(root), item, n)
    ensures var leaf := SearchLeaf(root, item.key, h);
            leaf.id == item.leaf && IndexOf(leaf.items, 0, item.key) == item.index
  {
    LookedUpStands(m, root, h, name, n);
    var leaf := SearchLeaf(root, item.key, h);
    StandsOnce(Leaves(root), item, ListItem(item.key, item.value, leaf.id, IndexOf(leaf.items, 0, item.key)), n);
  }
}
