/**
 * The tree as its callers see it: a finite map from keys to values, with a count, and a list that
 * visits the keys in ascending order, even while items are deleted under it.
 */
module BPlusTreeMap {
  import opened BPlusTree
  import opened BPlusTreeChain
  import opened BPlusTreeContents
  import opened BPlusTreeDelete
  import opened BPlusTreeInsert
  import opened BPlusTreeRemoval
  import opened BPlusTreeShape
  import opened Options
  import opened Sequences

  // ---------------------------------------------------------------- items as a map

  ghost function ToMap<V>(items: seq<Item<V>>): (r: map<int, V>)
  {
    if items == [] then map[]
    else
      var last := items[|items| - 1];
      ToMap(items[..|items| - 1])[last.key := last.value]
  }

  ghost predicate IsMapOf<V>(items: seq<Item<V>>, contents: map<int, V>)
  {
    && (forall i :: 0 <= i < |items| ==> items[i].key in contents && contents[items[i].key] == items[i].value)
    && (forall k :: k in contents ==> HasKey(items, k))
  }

  lemma OneMapOf<V>(items: seq<Item<V>>, a: map<int, V>, b: map<int, V>)
    requires IsMapOf(items, a) && IsMapOf(items, b)
    ensures a == b
  {
    forall k ensures k in a <==> k in b {
    }
    forall k | k in a ensures a[k] == b[k] {
      var i :| 0 <= i < |items| && items[i].key == k;
    }
  }

  lemma {:induction false} ToMapIs<V>(items: seq<Item<V>>)
    requires SortedItems(items)
    ensures IsMapOf(items, ToMap(items)) && |ToMap(items)| == |items|
    decreases |items|
  {
    if items != [] {
      var n := |items| - 1;
      ToMapIs(items[..n]);
      MapOfPut(items[..n], n, items[n], items, ToMap(items[..n]));
    }
  }

  lemma MapOfPut<V>(s: seq<Item<V>>, p: nat, item: Item<V>, t: seq<Item<V>>, contents: map<int, V>)
    requires SortedItems(t) && Put(s, p, item, t) && IsMapOf(s, contents)
    ensures item.key !in contents && IsMapOf(t, contents[item.key := item.value])
  {
    forall i | 0 <= i < |s| ensures s[i].key != item.key {
      assert s[i] == t[if i < p then i else i + 1];
      assert t[if i < p then i else i + 1].key != t[p].key;
    }
    var contents' := contents[item.key := item.value];
    forall i | 0 <= i < |t| ensures t[i].key in contents' && contents'[t[i].key] == t[i].value {
      assert i != p ==> t[i] == s[if i < p then i else i - 1];
    }
    forall k | k in contents' ensures HasKey(t, k) {
      if k == item.key {
        assert t[p].key == k;
      } else {
        var i :| 0 <= i < |s| && s[i].key == k;
        assert t[if i < p then i else i + 1].key == k;
      }
    }
  }

  /** Putting an item between sorted items adds one entry to the map, taking it out removes that entry. */
  lemma ToMapPut<V>(x: seq<Item<V>>, item: Item<V>, y: seq<Item<V>>)
    requires SortedItems(x + [item] + y) && SortedItems(x + y)
    ensures item.key !in ToMap(x + y)
    ensures ToMap(x + [item] + y) == ToMap(x + y)[item.key := item.value]
    ensures ToMap(x + y) == ToMap(x + [item] + y) - {item.key}
  {
    var s, t := x + y, x + [item] + y;
    ToMapIs(s);
    ToMapIs(t);
    MapsOfPut(s, |x|, item, t, ToMap(s), ToMap(t));
  }

  lemma MapsOfPut<V>(s: seq<Item<V>>, p: nat, item: Item<V>, t: seq<Item<V>>, a: map<int, V>, b: map<int, V>)
    requires SortedItems(t) && Put(s, p, item, t) && IsMapOf(s, a) && IsMapOf(t, b)
    ensures item.key !in a && b == a[item.key := item.value] && a == b - {item.key}
  {
    MapOfPut(s, p, item, t, a);
    OneMapOf(t, b, a[item.key := item.value]);
  }

  // ---------------------------------------------------------------- one operation on the items

  ghost predicate TreeOk<V>(m: nat, root: Tree<V>, h: nat, name: nat)
  {
    m >= 3 && Root(m, root, h) && Chained(Leaves(root), name)
  }

  lemma ItemsAround<V>(t: Tree<V>, a: seq<Tree<V>>, was: seq<Tree<V>>, b: seq<Tree<V>>)
    requires Leaves(t) == a + was + b
    ensures Items(t) == ItemsOf(a) + ItemsOf(was) + ItemsOf(b)
  {
    ItemsConcat(a + was, b);
    ItemsConcat(a, was);
  }

  lemma KeyInLeaf<V>(below: seq<Item<V>>, items: seq<Item<V>>, above: seq<Item<V>>, key: int)
    requires AllBelow(below, key) && AllAbove(above, key)
    ensures HasKey(below + items + above, key) <==> IndexOf(items, 0, key) < |items|
  {
    var i := IndexOf(items, 0, key);
    if i < |items| {
      assert (below + items + above)[|below| + i].key == key;
    } else {
      NotAround(below, items, above, key);
    }
  }

  /** The new item goes between the smaller and the larger ones. */
  lemma NewItem<V>(m: nat, root: Tree<V>, item: Item<V>, name: nat, h: nat, a: seq<Tree<V>>, leaf: Tree<V>, b: seq<Tree<V>>, after: Tree<V>)
    returns (x: seq<Item<V>>, y: seq<Item<V>>)
    requires m >= 3 && leaf.Leaf? && Leaves(root) == a + [leaf] + b && Chained(Leaves(root), name)
    requires IndexOf(leaf.items, 0, item.key) == |leaf.items|
    requires Leaves(after) == a + LeavesGrown(GrowLeaf(m, leaf.id, leaf.items, leaf.right, item, name)) + b
    ensures Chained(Leaves(after), name + 1)
    ensures Items(root) == x + y && Items(after) == x + [item] + y
  {
    var g := GrowLeaf(m, leaf.id, leaf.items, leaf.right, item, name);
    assert Leaves(root)[|a|] == leaf;
    GrowLeafEdit(m, leaf, item, name);
    ChainEdited(a, [leaf], LeavesGrown(g), b, name);
    ItemsAround(root, a, [leaf], b);
    ItemsAround(after, a, LeavesGrown(g), b);
    LeafItems(leaf);
    var p := SlotFor(KeysOf(leaf.items), item.key);
    x, y := ItemsOf(a) + leaf.items[..p], leaf.items[p..] + ItemsOf(b);
    SplitAround(ItemsOf(a), leaf.items, p, item, ItemsOf(b));
  }

  /** The one leaf an insertion touches, and whether it has the key. */
  lemma InsertPlace<V>(m: nat, root: Tree<V>, item: Item<V>, name: nat, h: nat)
    returns (a: seq<Tree<V>>, leaf: Tree<V>, b: seq<Tree<V>>)
    requires TreeOk(m, root, h, name)
    ensures Uniform(root, h) && leaf.Leaf? && Leaves(root) == a + [leaf] + b
    ensures HasKey(Items(root), item.key) <==> IndexOf(leaf.items, 0, item.key) < |leaf.items|
    ensures var r := Insert(m, root, item, name, h);
            && (r.None? <==> HasKey(Items(root), item.key))
            && (r.Some? ==> Leaves(r.value) == a + LeavesGrown(GrowLeaf(m, leaf.id, leaf.items, leaf.right, item, name)) + b)
  {
    a, leaf, b := GrowLeaves(m, root, item, name, h, None, None);
    KeyInTree(root, a, leaf, b, item.key);
    InsertLeaves(m, root, item, name, h);
    GrowLeafPresent(m, leaf.id, leaf.items, leaf.right, item, name);
  }

  lemma KeyInTree<V>(root: Tree<V>, a: seq<Tree<V>>, leaf: Tree<V>, b: seq<Tree<V>>, key: int)
    requires leaf.Leaf? && Leaves(root) == a + [leaf] + b && AllBelow(ItemsOf(a), key) && AllAbove(ItemsOf(b), key)
    ensures HasKey(Items(root), key) <==> IndexOf(leaf.items, 0, key) < |leaf.items|
  {
    ItemsAround(root, a, [leaf], b);
    LeafItems(leaf);
    KeyInLeaf(ItemsOf(a), leaf.items, ItemsOf(b), key);
  }

  lemma GrowLeafPresent<V>(m: nat, id: nat, items: seq<Item<V>>, right: Option<nat>, item: Item<V>, name: nat)
    ensures GrowLeaf(m, id, items, right, item, name).Present? <==> IndexOf(items, 0, item.key) < |items|
  {
  }

  /**
   * `bpt_insert` fails exactly when the key is there; otherwise it adds the item, keeps the shape and
   * the chain of leaves, and gives away at most one new name.
   */
  lemma InsertItems<V>(m: nat, root: Tree<V>, item: Item<V>, name: nat, h: nat)
    returns (x: seq<Item<V>>, y: seq<Item<V>>, h': nat)
    requires TreeOk(m, root, h, name)
    ensures Uniform(root, h)
    ensures var r := Insert(m, root, item, name, h);
            && (r.None? <==> HasKey(Items(root), item.key))
            && (r.Some? ==> TreeOk(m, r.value, h', name + 1) && Items(root) == x + y && Items(r.value) == x + [item] + y)
  {
    var a, leaf, b := InsertPlace(m, root, item, name, h);
    x, y, h' := [], [], h;
    var r := Insert(m, root, item, name, h);
    if r.Some? {
      InsertKeepsShape(m, root, item, name, h);
      x, y := NewItem(m, root, item, name, h, a, leaf, b, r.value);
      h' := if Root(m, r.value, h) then h else h + 1;
    }
  }

  /** `bpt_item_del` fails exactly when the key is not there; otherwise it takes out its item and nothing else. */
  lemma DeleteItems<V>(m: nat, root: Tree<V>, key: int, name: nat, h: nat)
    returns (x: seq<Item<V>>, value: Option<V>, y: seq<Item<V>>, h': nat)
    requires TreeOk(m, root, h, name)
    ensures Uniform(root, h)
    ensures var r := Delete(m, root, key, h);
            && (r.None? <==> !HasKey(Items(root), key))
            && (r.Some? ==> && TreeOk(m, r.value, h', name + 1) && value.Some?
                            && Items(root) == x + [Item(key, value.value)] + y && Items(r.value) == x + y)
  {
    NodeUniform(m, root, h, None, None);
    DeleteKeepsShape(m, root, key, h);
    x, value, y, h' := [], None, [], h;
    var r := Delete(m, root, key, h);
    var d := DeleteTakes(m, root, key, h);
    if r.Some? {
      h' := if Root(m, r.value, h) then h else h - 1;
      LeafSwapChained(d.a, d.was, d.now, d.b, name);
      ItemsAround(root, d.a, d.was, d.b);
      ItemsAround(r.value, d.a, d.now, d.b);
      x, value, y := ItemsOf(d.a) + d.x, Some(d.item.value), d.y + ItemsOf(d.b);
      TakenAround(ItemsOf(d.a), d.x, d.item, d.y, ItemsOf(d.b));
      assert Items(root)[|x|] == d.item;
    }
  }

  lemma TakenAround<T>(a: seq<T>, x: seq<T>, item: T, y: seq<T>, b: seq<T>)
    ensures a + (x + [item] + y) + b == (a + x) + [item] + (y + b)
    ensures a + (x + y) + b == (a + x) + (y + b)
  {
  }

  /** A root without inner nodes loses its item in place. */
  lemma LeafTakes<V>(root: Tree<V>, index: nat) returns (d: Taken<V>)
    requires root.Leaf? && index < |root.items|
    ensures Takes(d, [root], [Leaf(root.id, Without(root.items, index), root.right)]) && d.item == root.items[index]
  {
    var after := Leaf(root.id, Without(root.items, index), root.right);
    LeafItems(root);
    LeafItems(after);
    d := Taken([], [root], [after], [], root.items[..index], root.items[index], root.items[index + 1..]);
    assert root.items == d.x + [d.item] + d.y;
    assert [root] == d.a + d.was + d.b && [after] == d.a + d.now + d.b;
  }

  lemma DeleteTakes<V>(m: nat, root: Tree<V>, key: int, h: nat) returns (d: Taken<V>)
    requires m >= 3 && Root(m, root, h)
    ensures Uniform(root, h)
    ensures var r := Delete(m, root, key, h);
            if r.None? then !HasKey(Items(root), key)
            else Takes(d, Leaves(root), Leaves(r.value)) && d.item.key == key
  {
    NodeUniform(m, root, h, None, None);
    if root.Leaf? {
      var index := IndexOf(root.items, 0, key);
      LeafItems(root);
      if index == |root.items| {
        d := Nothing;
      } else {
        d := LeafTakes(root, index);
      }
    } else {
      d := ShrinkTakes(m, root, key, h, None, None);
      match Shrink(m, root, key, h) {
        case None =>
        case Some(s) =>
          ShrinkOk(m, root, key, h, None, None);
          if s.node.keys == [] {
            OnlyKid(m, s.node, h);
            LeavesOne(s.node.kids[0]);
            assert s.node.kids == [s.node.kids[0]];
          }
      }
    }
  }

  lemma SplitAround<T>(below: seq<T>, s: seq<T>, p: nat, x: T, above: seq<T>)
    requires p <= |s|
    ensures below + s + above == (below + s[..p]) + (s[p..] + above)
    ensures below + (s[..p] + [x] + s[p..]) + above == (below + s[..p]) + [x] + (s[p..] + above)
  {
    assert s == s[..p] + s[p..];
  }

  lemma InsertLeaves<V>(m: nat, root: Tree<V>, item: Item<V>, name: nat, h: nat)
    requires Uniform(root, h)
    ensures var r, g := Insert(m, root, item, name, h), Grow(m, root, item, name, h);
            (r.None? <==> g.Present?) && (r.Some? ==> Leaves(r.value) == LeavesGrown(g))
  {
    match Grow(m, root, item, name, h) {
      case Present(_) =>
      case One(_, _) =>
      case Two(left, sep, right) => LeavesPair(left, right);
    }
  }
}
