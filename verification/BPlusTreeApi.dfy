/** `bpt_t` and its public functions. */
module BPlusTreeApi {
  import opened BPlusTree
  import opened BPlusTreeContents
  import opened BPlusTreeList
  import opened BPlusTreeMap
  import opened BPlusTreeShape
  import opened Options

  class Bpt<V> {
    const m: nat
    var root: Tree<V>
    var countOfValues: nat
    var name: nat            // the next leaf to be allocated
    ghost var height: nat

    ghost predicate Valid()
      reads this
    {
      TreeOk(m, root, height, name) && countOfValues == |Items(root)|
    }

    /** What the tree stands for. */
    ghost function Contents(): (r: map<int, V>)
      reads this
    {
      ToMap(Items(root))
    }

    constructor (m: nat)
      requires m >= 3
      ensures Valid() && this.m == m && Contents() == map[] && Items(root) == []
    {
      this.m := m;
      root := Leaf(0, [], None);
      countOfValues, name, height := 0, 1, 0;
      new;
      LeafItems(root);
    }

    lemma Known()
      requires Valid()
      ensures Uniform(root, height) && SortedItems(Items(root)) && IsMapOf(Items(root), Contents())
      ensures |Contents()| == countOfValues
    {
      NodeUniform(m, root, height, None, None);
      NodeItems(m, root, height, None, None);
      ToMapIs(Items(root));
    }

    /** `bpt_search_leaf`: down from the root, at each node to the first child whose separator is not below the key. */
    method FindLeaf(key: int) returns (pos: Tree<V>)
      requires Valid()
      ensures Uniform(root, height) && pos == SearchLeaf(root, key, height)
    {
      Known();
      pos := root;
      ghost var h := height;
      while pos.Inner?
        invariant Uniform(pos, h) && SearchLeaf(pos, key, h) == SearchLeaf(root, key, height)
        decreases h
      {
        var i := 0;
        while i < |pos.keys| && key > pos.keys[i]
          invariant 0 <= i <= |pos.keys| && Route(pos.keys, i, key) == Route(pos.keys, 0, key)
        {
          i := i + 1;
        }
        pos := pos.kids[i];
        h := h - 1;
      }
    }

    /** `bpt_search` */
    method Search(key: int) returns (r: Option<V>)
      requires Valid()
      ensures r == if key in Contents() then Some(Contents()[key]) else None
    {
      var leaf := FindLeaf(key);
      Known();
      FoundInLeaf(m, root, key, height);
      var i := IndexOf(leaf.items, 0, key);
      r := if i < |leaf.items| then Some(leaf.items[i].value) else None;
    }

    /** `bpt_insert`, with the value the caller writes to the slot it returns; false for the returned NULL. */
    method Insert(key: int, value: V) returns (ok: bool)
      requires Valid()
      modifies this
      ensures Valid()
      ensures ok <==> key !in old(Contents())
      ensures Contents() == if ok then old(Contents())[key := value] else old(Contents())
      ensures countOfValues == |Contents()|
    {
      var r, h' := InsertInto(m, root, Item(key, value), name, height);
      ok := r.Some?;
      if ok {
        root, countOfValues, name, height := r.value, countOfValues + 1, name + 1, h';
      }
    }

    /** `bpt_search_or_insert`: the value already there, or the new one. */
    method SearchOrInsert(key: int, value: V) returns (found: V)
      requires Valid()
      modifies this
      ensures Valid()
      ensures found == if key in old(Contents()) then old(Contents())[key] else value
      ensures Contents() == old(Contents())[key := found]
    {
      var there := Search(key);
      var ok := Insert(key, value);
      found := if ok then value else there.value;
    }

    /** `bpt_item_del` */
    method Delete(key: int) returns (ok: bool)
      requires Valid()
      modifies this
      ensures Valid()
      ensures ok <==> key in old(Contents())
      ensures Contents() == old(Contents()) - {key}
      ensures countOfValues == |Contents()|
      ensures forall n :: 0 <= n < |old(Items(root))| && old(Items(root))[n].key == key ==>
                Items(root) == old(Items(root))[..n] + old(Items(root))[n + 1..]
    {
      var r, h' := DeleteFrom(m, root, key, name, height);
      ok := r.Some?;
      if ok {
        root, countOfValues, name, height := r.value, countOfValues - 1, name + 1, h';
      }
    }

    // -------------------------------------------------------------- the list

    /** `bpt_list_start`: the first item of the leftmost leaf, if there is any. */
    method ListStart() returns (r: Option<ListItem<V>>)
      requires Valid()
      ensures r.Some? <==> Items(root) != []
      ensures r.Some? ==> Stands(Leaves(root), r.value, 0)
    {
      var leaf := Leftmost(root);
      FirstLeaf(m, root, height, name);
      if leaf.items == [] {
        return None;
      }
      ItemOfLeafStands(Leaves(root), name, 0, 0);
      OffsetAll(Leaves(root));
      return Some(ListItem(leaf.items[0].key, leaf.items[0].value, leaf.id, 0));
    }

    /** `bpt_list_item_next`: the next place in the leaf, or the first one of the leaf its link leads to. */
    method ListItemNext(item: ListItem<V>, ghost n: nat) returns (r: Option<ListItem<V>>)
      requires Valid() && Stands(Leaves(root), item, n)
      ensures r.Some? <==> n + 1 < |Items(root)|
      ensures r.Some? ==> Stands(Leaves(root), r.value, n + 1)
    {
      var leaves := Leaves(root);
      var j := Find(leaves, item.leaf, 0);
      var node := leaves[j];
      OffsetNext(leaves, j);
      LastInLeaf(m, root, height, name, j);
      if item.index + 1 < |node.items| {
        ItemOfLeafStands(leaves, name, j, item.index + 1);
        return Some(ListItem(node.items[item.index + 1].key, node.items[item.index + 1].value, node.id, item.index + 1));
      } else if node.right.Some? {
        FindsChained(leaves, name, j + 1);
        node := leaves[Find(leaves, node.right.value, 0)];
        ItemOfLeafStands(leaves, name, j + 1, 0);
        return Some(ListItem(node.items[0].key, node.items[0].value, node.id, 0));
      }
      return None;
    }

    /**
     * `bpt_list_item_del`: deletes the item the list stands at and moves on to the one behind it. The leaf and the index it
     * remembers are where a deletion by key takes the item from.
     */
    method ListItemDel(item: ListItem<V>, ghost n: nat) returns (r: Option<ListItem<V>>)
      requires Valid() && Stands(Leaves(root), item, n)
      modifies this
      ensures Valid()
      ensures Items(root) == old(Items(root))[..n] + old(Items(root))[n + 1..]
      ensures r.Some? <==> n < |Items(root)|
      ensures r.Some? ==> Stands(Leaves(root), r.value, n)
    {
      var next := ListItemNext(item, n);
      Known();
      assert Items(root)[n].key == item.key;
      RemembersItsPlace(m, root, height, name, item, n);
      assert SearchLeaf(root, item.key, height).id == item.leaf;
      assert IndexOf(SearchLeaf(root, item.key, height).items, 0, item.key) == item.index;
      var ok := Delete(item.key);
      if next.None? {
        return None;
      }
      assert Items(root)[n] == Item(next.value.key, next.value.value);
      var leaf := FindLeaf(next.value.key);
      LookedUpStands(m, root, height, name, n);
      return Some(ListItem(next.value.key, next.value.value, leaf.id, IndexOf(leaf.items, 0, next.value.key)));
    }
  
    /**
     * A whole run over the list: at every item the caller either moves on or deletes it. Every key is
     * visited once, in ascending order, and exactly the items not deleted remain.
     */
    method Sweep(drop: set<int>) returns (visited: seq<int>)
      requires Valid()
      modifies this
      ensures Valid()
      ensures visited == KeysOf(old(Items(root)))
      ensures Items(root) == Kept(old(Items(root)), drop)
    {
      ghost var was := Items(root);
      var there := ListStart();
      ghost var k, n := 0, 0;
      visited := [];
      SweptStart(was, drop);
      while there.Some?
        invariant Valid() && Swept(was, k, drop, Items(root), n, visited)
        invariant there.Some? <==> k < |was|
        invariant there.Some? ==> Stands(Leaves(root), there.value, n)
        decreases |was| - k
      {
        visited := visited + [there.value.key];
        there, n := SweepOn(there.value, drop, was, k, n, visited);
        k := k + 1;
      }
      SweptEnd(was, k, drop, Items(root), n, visited);
    }

    /** One step of the run: deletes the item stood at, or moves on. */
    method SweepOn(item: ListItem<V>, drop: set<int>, ghost was: seq<Item<V>>, ghost k: nat, ghost n: nat, ghost visited: seq<int>)
      returns (there: Option<ListItem<V>>, ghost n': nat)
      requires Valid() && Stands(Leaves(root), item, n)
      requires k < |was| && visited != [] && visited[|visited| - 1] == item.key
      requires Swept(was, k, drop, Items(root), n, visited[..|visited| - 1])
      modifies this
      ensures Valid() && Swept(was, k + 1, drop, Items(root), n', visited)
      ensures there.Some? <==> k + 1 < |was|
      ensures there.Some? ==> Stands(Leaves(root), there.value, n')
    {
      SweptNext(was, k, drop, Items(root), n, visited[..|visited| - 1]);
      Known();
      assert visited[..|visited| - 1] + [item.key] == visited;
      if item.key in drop {
        there := ListItemDel(item, n);
        n' := n;
      } else {
        there := ListItemNext(item, n);
        n' := n + 1;
      }
    }
  }

  /** After `k` of the items `was` have been visited: those kept so far, then the rest; the list stands behind the former. */
  ghost predicate Swept<V>(was: seq<Item<V>>, k: nat, drop: set<int>, items: seq<Item<V>>, n: nat, visited: seq<int>)
  {
    && k <= |was| && items == Kept(was[..k], drop) + was[k..] && n == |Kept(was[..k], drop)|
    && visited == KeysOf(was[..k]) && |items| - n == |was| - k
  }

  lemma SweptStart<V>(was: seq<Item<V>>, drop: set<int>)
    ensures Swept(was, 0, drop, was, 0, [])
  {
  }

  lemma SweptNext<V>(was: seq<Item<V>>, k: nat, drop: set<int>, items: seq<Item<V>>, n: nat, visited: seq<int>)
    requires Swept(was, k, drop, items, n, visited) && k < |was|
    ensures n < |items| && items[n] == was[k]
    ensures was[k].key in drop ==> Swept(was, k + 1, drop, items[..n] + items[n + 1..], n, visited + [was[k].key])
    ensures was[k].key !in drop ==> Swept(was, k + 1, drop, items, n + 1, visited + [was[k].key])
  {
    KeptNext(was, k, drop);
  }

  lemma SweptEnd<V>(was: seq<Item<V>>, k: nat, drop: set<int>, items: seq<Item<V>>, n: nat, visited: seq<int>)
    requires Swept(was, k, drop, items, n, visited) && k >= |was|
    ensures items == Kept(was, drop) && visited == KeysOf(was)
  {
    assert was[..k] == was && Kept(was, drop) + was[k..] == Kept(was, drop);
  }

  ghost function Kept<V>(items: seq<Item<V>>, drop: set<int>): (r: seq<Item<V>>)
  {
    if items == [] then []
    else
      var last := items[|items| - 1];
      Kept(items[..|items| - 1], drop) + (if last.key in drop then [] else [last])
  }

  lemma KeptNext<V>(items: seq<Item<V>>, k: nat, drop: set<int>)
    requires k < |items|
    ensures Kept(items[..k + 1], drop) == Kept(items[..k], drop) + (if items[k].key in drop then [] else [items[k]])
    ensures KeysOf(items[..k + 1]) == KeysOf(items[..k]) + [items[k].key]
    ensures var p := Kept(items[..k], drop);
            var s := p + items[k..];
            && s[|p|] == items[k]
            && (items[k].key in drop ==> s[..|p|] + s[|p| + 1..] == Kept(items[..k + 1], drop) + items[k + 1..])
            && (items[k].key !in drop ==> s == Kept(items[..k + 1], drop) + items[k + 1..])
  {
    assert items[..k + 1][..k] == items[..k];
  }

  lemma InsertEffect<V>(m: nat, root: Tree<V>, item: Item<V>, name: nat, h: nat) returns (h': nat)
    requires TreeOk(m, root, h, name)
    ensures Uniform(root, h) && |ToMap(Items(root))| == |Items(root)|
    ensures var r := BPlusTree.Insert(m, root, item, name, h);
            && (r.Some? <==> item.key !in ToMap(Items(root)))
            && (r.Some? ==> && TreeOk(m, r.value, h', name + 1) && |ToMap(Items(r.value))| == |Items(r.value)| == |Items(root)| + 1
                            && ToMap(Items(r.value)) == ToMap(Items(root))[item.key := item.value])
  {
    var x, y;
    x, y, h' := InsertItems(m, root, item, name, h);
    NodeItems(m, root, h, None, None);
    ToMapIs(Items(root));
    var r := BPlusTree.Insert(m, root, item, name, h);
    if r.Some? {
      NodeItems(m, r.value, h', None, None);
      ToMapIs(Items(r.value));
      ToMapPut(x, item, y);
    }
  }

  /** The tree with the item, if its key is new. */
  method InsertInto<V>(m: nat, root: Tree<V>, item: Item<V>, name: nat, ghost h: nat) returns (r: Option<Tree<V>>, ghost h': nat)
    requires TreeOk(m, root, h, name)
    ensures |ToMap(Items(root))| == |Items(root)|
    ensures r.Some? <==> item.key !in ToMap(Items(root))
    ensures r.Some? ==> && TreeOk(m, r.value, h', name + 1) && |ToMap(Items(r.value))| == |Items(r.value)| == |Items(root)| + 1
                        && ToMap(Items(r.value)) == ToMap(Items(root))[item.key := item.value]
  {
    h' := InsertEffect(m, root, item, name, h);
    r := BPlusTree.Insert(m, root, item, name, h);
  }

  lemma DeleteEffect<V>(m: nat, root: Tree<V>, key: int, name: nat, h: nat) returns (h': nat)
    requires TreeOk(m, root, h, name)
    ensures Uniform(root, h) && |ToMap(Items(root))| == |Items(root)|
    ensures var r, was := BPlusTree.Delete(m, root, key, h), Items(root);
            && (r.Some? <==> key in ToMap(was)) && (r.None? ==> !HasKey(was, key))
            && (r.Some? ==> && TreeOk(m, r.value, h', name + 1) && |ToMap(Items(r.value))| == |Items(r.value)| == |was| - 1
                            && ToMap(Items(r.value)) == ToMap(was) - {key}
                            && forall n :: 0 <= n < |was| && was[n].key == key ==> Items(r.value) == was[..n] + was[n + 1..])
  {
    var x, value, y;
    x, value, y, h' := DeleteItems(m, root, key, name, h);
    NodeItems(m, root, h, None, None);
    ToMapIs(Items(root));
    var r, was := BPlusTree.Delete(m, root, key, h), Items(root);
    if r.Some? {
      NodeItems(m, r.value, h', None, None);
      ToMapIs(Items(r.value));
      ToMapPut(x, Item(key, value.value), y);
      forall n | 0 <= n < |was| && was[n].key == key ensures Items(r.value) == was[..n] + was[n + 1..] {
        assert was[|x|].key == key;
        assert n == |x|;
        assert was[..n] == x && was[n + 1..] == y;
      }
    }
  }

  /** The tree without the item of the key, if there is one. */
  method DeleteFrom<V>(m: nat, root: Tree<V>, key: int, name: nat, ghost h: nat) returns (r: Option<Tree<V>>, ghost h': nat)
    requires TreeOk(m, root, h, name)
    ensures |ToMap(Items(root))| == |Items(root)|
    ensures var was := Items(root);
            && (r.Some? <==> key in ToMap(was)) && (r.None? ==> !HasKey(was, key))
            && (r.Some? ==> && TreeOk(m, r.value, h', name + 1) && |ToMap(Items(r.value))| == |Items(r.value)| == |was| - 1
                            && ToMap(Items(r.value)) == ToMap(was) - {key}
                            && forall n :: 0 <= n < |was| && was[n].key == key ==> Items(r.value) == was[..n] + was[n + 1..])
  {
    h' := DeleteEffect(m, root, key, name, h);
    r := BPlusTree.Delete(m, root, key, h);
  }

  lemma {:induction false} FoundInLeaf<V>(m: nat, root: Tree<V>, key: int, h: nat)
    requires Node(m, root, h, None, None) && Uniform(root, h)
    ensures var leaf := SearchLeaf(root, key, h);
            var i := IndexOf(leaf.items, 0, key);
            && (i < |leaf.items| <==> HasKey(Items(root), key))
            && (i < |leaf.items| ==> leaf.items[i] in Items(root))
  {
    var leaf := SearchLeaf(root, key, h);
    var a, b := SearchLeafAt(m, root, key, h, None, None);
    ItemsAround(root, a, [leaf], b);
    LeafItems(leaf);
    KeyInLeaf(ItemsOf(a), leaf.items, ItemsOf(b), key);
    var i := IndexOf(leaf.items, 0, key);
    if i < |leaf.items| {
      assert Items(root)[|ItemsOf(a)| + i] == leaf.items[i];
    }
  }

  lemma FirstLeaf<V>(m: nat, root: Tree<V>, h: nat, name: nat)
    requires TreeOk(m, root, h, name)
    ensures Leftmost(root) == Leaves(root)[0] && (Leftmost(root).items == [] <==> Items(root) == [])
  {
    LeftmostIsFirst(m, root, h, None, None);
    OffsetAll(Leaves(root));
    OffsetNext(Leaves(root), 0);
    if root.Leaf? {
      LeafItems(root);
    } else {
      LeavesNotEmpty(m, root, h, None, None);
    }
  }

  /** The last item of a leaf is the last of all exactly when the leaf has no link; the leaf a link leads to is not empty. */
  lemma LastInLeaf<V>(m: nat, root: Tree<V>, h: nat, name: nat, j: nat)
    requires TreeOk(m, root, h, name) && j < |Leaves(root)|
    ensures var leaves := Leaves(root);
            && leaves[j].Leaf? && (leaves[j].right.Some? <==> j + 1 < |leaves|)
            && (leaves[j].right.None? ==> Offset(leaves, j + 1) == |Items(root)|)
            && (leaves[j].right.Some? ==> leaves[j + 1].items != [] && leaves[j].right.value == leaves[j + 1].id)
            && (j + 1 < |leaves| ==> Offset(leaves, j + 1) < |Items(root)|)
  {
    var leaves := Leaves(root);
    OffsetAll(leaves);
    if j + 1 < |leaves| {
      assert leaves[j].right == Some(leaves[j + 1].id);
      if root.Inner? {
        LeavesNotEmpty(m, root, h, None, None);
      }
      OffsetNext(leaves, j + 1);
    }
  }
}
