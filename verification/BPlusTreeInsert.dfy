/** Insertion keeps the shape of the tree, through any cascade of splits. */
module BPlusTreeInsert {
  import opened BPlusTree
  import opened BPlusTreeShape
  import opened Options
  import opened Sequences

  lemma LeafSlot<V>(items: seq<Item<V>>, item: Item<V>)
    requires SortedItems(items) && IndexOf(items, 0, item.key) == |items|
    ensures var p := SlotFor(KeysOf(items), item.key);
            forall j :: 0 <= j < |items| ==> if j < p then items[j].key < item.key else items[j].key > item.key
  {
    var keys := KeysOf(items);
    var p := SlotFor(keys, item.key);
    forall j | 0 <= j < |items| ensures if j < p then items[j].key < item.key else items[j].key > item.key {
      assert keys[j] == items[j].key;
      if j < p {
        assert keys[p - 1] == items[p - 1].key <= item.key;
      }
    }
  }

  lemma SortedPut<V>(items: seq<Item<V>>, p: nat, item: Item<V>, r: seq<Item<V>>, lo: Option<int>, hi: Option<int>)
    requires SortedItems(items) && Within(items, lo, hi)
    requires Below(lo, item.key) && Upto(item.key, hi)
    requires Put(items, p, item, r)
    requires forall j :: 0 <= j < |items| ==> if j < p then items[j].key < item.key else items[j].key > item.key
    ensures SortedItems(r) && Within(r, lo, hi)
  {
  }

  lemma SplitItems<V>(items: seq<Item<V>>, half: nat, lo: Option<int>, hi: Option<int>)
    requires SortedItems(items) && Within(items, lo, hi) && 0 < half < |items|
    ensures var top := items[half - 1].key;
            && SortedItems(items[..half]) && Within(items[..half], lo, Some(top))
            && SortedItems(items[half..]) && Within(items[half..], Some(top), hi)
            && Below(lo, top) && (hi.Some? ==> top < hi.value)
  {
    assert items[half - 1].key < items[half].key;
  }

  /** A new leaf node below separators: its shape, whether it was split or not. */
  ghost predicate GrownOk<V>(m: nat, t: Tree<V>, g: Grown<V>, key: int, h: nat, lo: Option<int>, hi: Option<int>)
  {
    match g
    case Present(_) => true
    case One(node, corner) =>
      && Node(m, node, h, lo, hi) && Size(t) <= Size(node) < m && (node.Leaf? ==> node.items != [])
      && (corner ==> MaxKey(node) == key)
    case Two(left, sep, right) =>
      && Node(m, left, h, lo, Some(sep)) && Node(m, right, h, Some(sep), hi)
      && Sized(m, left) && Sized(m, right)
      && Below(lo, sep) && (hi.Some? ==> sep < hi.value)
  }

  lemma SplitLeafOk<V>(m: nat, t: Tree<V>, id: nat, items: seq<Item<V>>, right: Option<nat>, corner: bool, name: nat, key: int,
                       lo: Option<int>, hi: Option<int>)
    requires m >= 3 && SortedItems(items) && Within(items, lo, hi) && Size(t) <= |items| <= m && items != []
    requires corner ==> items[|items| - 1].key == key
    ensures GrownOk(m, t, SplitLeaf(m, id, items, right, corner, name), key, 0, lo, hi)
  {
    if |items| == m {
      var half := |items| / 2;
      SplitItems(items, half, lo, hi);
      assert items[..half][half - 1] == items[half - 1];
    }
  }

  lemma GrowLeafOk<V>(m: nat, t: Tree<V>, item: Item<V>, name: nat, lo: Option<int>, hi: Option<int>)
    requires m >= 3 && t.Leaf? && Node(m, t, 0, lo, hi) && Size(t) < m
    requires Below(lo, item.key) && Upto(item.key, hi)
    ensures GrownOk(m, t, GrowLeaf(m, t.id, t.items, t.right, item, name), item.key, 0, lo, hi)
  {
    if IndexOf(t.items, 0, item.key) == |t.items| {
      var p := SlotFor(KeysOf(t.items), item.key);
      var grown := t.items[..p] + [item] + t.items[p..];
      LeafSlot(t.items, item);
      PutConcat(t.items, p, item);
      SortedPut(t.items, p, item, grown, lo, hi);
      SplitLeafOk(m, t, t.id, grown, t.right, p == |t.items|, name, item.key, lo, hi);
    }
  }

  lemma InsertSeparatorAt<V>(m: nat, keys: seq<int>, kids: seq<Tree<V>>, i: nat, left: Tree<V>, sep: int, right: Tree<V>,
                             h: nat, lo: Option<int>, hi: Option<int>)
    requires KidsOrdered(m, keys, kids, h, lo, hi) && i < |kids|
    requires Node(m, left, h - 1, Lo(keys, i, lo), Some(sep)) && Node(m, right, h - 1, Some(sep), Hi(keys, i, hi))
    requires Below(Lo(keys, i, lo), sep) && (Hi(keys, i, hi).Some? ==> sep < Hi(keys, i, hi).value)
    ensures var keys', kids' := keys[..i] + [sep] + keys[i..], kids[..i] + [left, right] + kids[i + 1..];
            && InsertSeparator(keys, kids, left, sep, right) == (keys', kids')
            && KidsOrdered(m, keys', kids', h, lo, hi)
  {
    SeparatorSlot(keys, i, sep, lo, hi);
    PutConcat(keys, i, sep);
    PutPairConcat(kids, i, left, right);
    SeparatorPut(m, keys, kids, i, left, sep, right, h, lo, hi,
                 keys[..i] + [sep] + keys[i..], kids[..i] + [left, right] + kids[i + 1..]);
  }

  lemma SeparatorPut<V>(m: nat, keys: seq<int>, kids: seq<Tree<V>>, i: nat, left: Tree<V>, sep: int, right: Tree<V>,
                        h: nat, lo: Option<int>, hi: Option<int>, keys': seq<int>, kids': seq<Tree<V>>)
    requires KidsOrdered(m, keys, kids, h, lo, hi) && i < |kids|
    requires Node(m, left, h - 1, Lo(keys, i, lo), Some(sep)) && Node(m, right, h - 1, Some(sep), Hi(keys, i, hi))
    requires Below(Lo(keys, i, lo), sep) && (Hi(keys, i, hi).Some? ==> sep < Hi(keys, i, hi).value)
    requires Put(keys, i, sep, keys') && PutPair(kids, i, left, right, kids')
    ensures KidsOrdered(m, keys', kids', h, lo, hi)
  {
    assert i > 0 ==> keys[i - 1] < sep && Below(lo, keys[i - 1]);
    assert i < |keys| ==> sep < keys[i] && Upto(keys[i], hi);
    forall j | 0 <= j < |kids'| ensures Node(m, kids'[j], h - 1, Lo(keys', j, lo), Hi(keys', j, hi)) {
      if j < i {
        assert Node(m, kids[j], h - 1, Lo(keys, j, lo), Hi(keys, j, hi));
      } else if j > i + 1 {
        assert Node(m, kids[j - 1], h - 1, Lo(keys, j - 1, lo), Hi(keys, j - 1, hi));
      }
    }
  }

  /** The separator lies strictly between its neighbours, so it is new and goes to position `i`. */
  lemma SeparatorSlot(keys: seq<int>, i: nat, sep: int, lo: Option<int>, hi: Option<int>)
    requires SortedKeys(keys) && i <= |keys|
    requires Below(Lo(keys, i, lo), sep) && (Hi(keys, i, hi).Some? ==> sep < Hi(keys, i, hi).value)
    ensures sep !in keys && SlotFor(keys, sep) == i
  {
    forall j | 0 <= j < |keys| ensures if j < i then keys[j] < sep else keys[j] > sep {
      if j < i {
        assert keys[j] <= keys[i - 1];
      } else {
        assert keys[i] <= keys[j];
      }
    }
    var p := SlotFor(keys, sep);
    assert p <= i && p >= i;
  }

  lemma SplitInnerOk<V>(m: nat, t: Tree<V>, keys: seq<int>, kids: seq<Tree<V>>, key: int, h: nat, lo: Option<int>, hi: Option<int>)
    requires m >= 3 && KidsOrdered(m, keys, kids, h, lo, hi) && |kids| <= m + 1 && Size(t) <= |keys|
    requires AllSized(m, kids)
    ensures GrownOk(m, t, SplitInner(m, keys, kids), key, h, lo, hi)
  {
    if |kids| > m {
      var cut := |keys| / 2;
      CutKids(m, keys, kids, cut, h, lo, hi);
      assert AllSized(m, kids[..cut + 1]) && AllSized(m, kids[cut + 1..]);
    }
  }

  lemma CutKids<V>(m: nat, keys: seq<int>, kids: seq<Tree<V>>, cut: nat, h: nat, lo: Option<int>, hi: Option<int>)
    requires m >= 3 && KidsOrdered(m, keys, kids, h, lo, hi) && AllSized(m, kids) && cut < |keys|
    ensures var top := MaxKey(kids[cut]);
            && KidsOrdered(m, keys[..cut], kids[..cut + 1], h, lo, Some(top))
            && KidsOrdered(m, keys[cut + 1..], kids[cut + 1..], h, Some(top), hi)
            && Below(lo, top) && (hi.Some? ==> top < hi.value)
  {
    var top := MaxKey(kids[cut]);
    assert Sized(m, kids[cut]) && Sized(m, kids[|keys|]);
    TellKeeps(m, keys, kids, cut, h, lo, hi);
    SplitKids(m, keys[cut := top], kids, cut, h, lo, hi);
    assert keys[cut := top][..cut] == keys[..cut] && keys[cut := top][cut + 1..] == keys[cut + 1..];
    assert Below(lo, keys[cut := top][cut]);
    if hi.Some? {
      TopAbove(m, keys, kids, cut, h, lo, hi);
    }
  }

  /** A separator lies strictly below the upper bound: the child to its right is not empty. */
  lemma TopAbove<V>(m: nat, keys: seq<int>, kids: seq<Tree<V>>, i: nat, h: nat, lo: Option<int>, hi: Option<int>)
    requires m >= 3 && KidsOrdered(m, keys, kids, h, lo, hi) && i < |keys| && Sized(m, kids[i]) && Sized(m, kids[|keys|])
    requires hi.Some?
    ensures MaxKey(kids[i]) < hi.value
  {
    var n := |keys|;
    MaxKeyBounds(m, kids[i], h - 1, Lo(keys, i, lo), Hi(keys, i, hi));
    MaxKeyBounds(m, kids[n], h - 1, Lo(keys, n, lo), Hi(keys, n, hi));
    assert keys[i] <= keys[n - 1];
  }

  /**
   * Inserting below a node within its bounds leaves one node or two of the same height within them;
   * a `corner` still to be told is the largest key.
   */
  lemma {:induction false} GrowOk<V>(m: nat, t: Tree<V>, item: Item<V>, name: nat, h: nat, lo: Option<int>, hi: Option<int>)
    requires m >= 3 && Node(m, t, h, lo, hi) && Size(t) < m
    requires Below(lo, item.key) && Upto(item.key, hi)
    ensures Uniform(t, h) && GrownOk(m, t, Grow(m, t, item, name, h), item.key, h, lo, hi)
    decreases h
  {
    NodeUniform(m, t, h, lo, hi);
    if t.Leaf? {
      GrowLeafOk(m, t, item, name, lo, hi);
    } else {
      var keys, kids := t.keys, t.kids;
      var i := Route(keys, 0, item.key);
      assert Sized(m, kids[i]);
      GrowOk(m, kids[i], item, name, h - 1, Lo(keys, i, lo), Hi(keys, i, hi));
      match Grow(m, kids[i], item, name, h - 1) {
        case Present(_) =>
        case One(node, corner) =>
          OneKidOk(m, t, i, node, corner, item.key, h, lo, hi);
        case Two(left, sep, right) =>
          InsertSeparatorAt(m, keys, kids, i, left, sep, right, h, lo, hi);
          TwoKidsSized(m, kids, i, left, right);
          SplitInnerOk(m, t, keys[..i] + [sep] + keys[i..], kids[..i] + [left, right] + kids[i + 1..], item.key, h, lo, hi);
      }
    }
  }

  lemma OneKidOk<V>(m: nat, t: Tree<V>, i: nat, node: Tree<V>, corner: bool, key: int, h: nat, lo: Option<int>, hi: Option<int>)
    requires m >= 3 && t.Inner? && Node(m, t, h, lo, hi) && Size(t) < m && i < |t.kids| == |t.keys| + 1
    requires Node(m, node, h - 1, Lo(t.keys, i, lo), Hi(t.keys, i, hi))
    requires Sized(m, node) && (node.Leaf? ==> node.items != []) && (corner ==> MaxKey(node) == key)
    ensures GrownOk(m, t, if corner && i < |t.keys| then One(Inner(t.keys[i := key], t.kids[i := node]), false)
                          else One(Inner(t.keys, t.kids[i := node]), corner), key, h, lo, hi)
  {
    KidReplaced(m, t.keys, t.kids, i, node, h, lo, hi);
    if corner && i < |t.keys| {
      TellKeeps(m, t.keys, t.kids[i := node], i, h, lo, hi);
    }
  }

  lemma TwoKidsSized<V>(m: nat, kids: seq<Tree<V>>, i: nat, left: Tree<V>, right: Tree<V>)
    requires i < |kids| && AllSized(m, kids) && Sized(m, left) && Sized(m, right)
    ensures AllSized(m, kids[..i] + [left, right] + kids[i + 1..])
  {
    PutPairConcat(kids, i, left, right);
  }

  lemma KidReplaced<V>(m: nat, keys: seq<int>, kids: seq<Tree<V>>, i: nat, node: Tree<V>, h: nat, lo: Option<int>, hi: Option<int>)
    requires KidsOrdered(m, keys, kids, h, lo, hi) && i < |kids|
    requires Node(m, node, h - 1, Lo(keys, i, lo), Hi(keys, i, hi))
    ensures KidsOrdered(m, keys, kids[i := node], h, lo, hi)
  {
  }

  /** `bpt_insert` keeps the shape; the tree grows by one level only when the root is split. */
  lemma InsertKeepsShape<V>(m: nat, root: Tree<V>, item: Item<V>, name: nat, h: nat)
    requires m >= 3 && Root(m, root, h)
    ensures Uniform(root, h)
    ensures var r := Insert(m, root, item, name, h);
            r.Some? ==> Root(m, r.value, h) || Root(m, r.value, h + 1)
  {
    GrowOk(m, root, item, name, h, None, None);
    match Grow(m, root, item, name, h) {
      case Present(_) =>
      case One(node, _) =>
      case Two(left, sep, right) =>
        var t := Inner([sep], [left, right]);
        assert KidsOrdered(m, t.keys, t.kids, h + 1, None, None);
        assert Root(m, t, h + 1);
    }
  }
}
