/**
 * What the tree holds: the items of its leaves, from left to right. Insertion and deletion change the
 * chain of leaves at one place only, and the items by exactly one key.
 */
module BPlusTreeContents {
  import opened BPlusTree
  import opened BPlusTreeInsert
  import opened BPlusTreeShape
  import opened Options

  function Leaves<V>(t: Tree<V>): (r: seq<Tree<V>>)
    decreases t, 1
  {
    match t
    case Leaf(_, _, _) => [t]
    case Inner(_, kids) => LeavesOf(kids)
  }

  function LeavesOf<V>(kids: seq<Tree<V>>): (r: seq<Tree<V>>)
    decreases kids, 0
  {
    if kids == [] then [] else Leaves(kids[0]) + LeavesOf(kids[1..])
  }

  function ItemsOf<V>(leaves: seq<Tree<V>>): (r: seq<Item<V>>)
  {
    if leaves == [] then []
    else (if leaves[0].Leaf? then leaves[0].items else []) + ItemsOf(leaves[1..])
  }

  function Items<V>(t: Tree<V>): (r: seq<Item<V>>)
  {
    ItemsOf(Leaves(t))
  }

  // ---------------------------------------------------------------- concatenation

  lemma {:induction false} LeavesConcat<V>(a: seq<Tree<V>>, b: seq<Tree<V>>)
    ensures LeavesOf(a + b) == LeavesOf(a) + LeavesOf(b)
    decreases |a|
  {
    if a == [] {
      assert a + b == b;
    } else {
      assert (a + b)[1..] == a[1..] + b;
      LeavesConcat(a[1..], b);
    }
  }

  lemma {:induction false} ItemsConcat<V>(a: seq<Tree<V>>, b: seq<Tree<V>>)
    ensures ItemsOf(a + b) == ItemsOf(a) + ItemsOf(b)
    decreases |a|
  {
    if a == [] {
      assert a + b == b;
    } else {
      assert (a + b)[1..] == a[1..] + b;
      ItemsConcat(a[1..], b);
    }
  }

  lemma LeavesOne<V>(x: Tree<V>)
    ensures LeavesOf([x]) == Leaves(x)
  {
    assert [x][1..] == [];
    assert LeavesOf([x][1..]) == [];
  }

  lemma LeavesThree<V>(a: seq<Tree<V>>, x: Tree<V>, b: seq<Tree<V>>)
    ensures LeavesOf(a + [x] + b) == LeavesOf(a) + Leaves(x) + LeavesOf(b)
  {
    LeavesConcat(a + [x], b);
    LeavesConcat(a, [x]);
    LeavesOne(x);
  }

  lemma CutAround<T>(s: seq<T>, i: nat)
    requires i < |s|
    ensures s == s[..i] + [s[i]] + s[i + 1..]
  {
  }

  lemma LeavesAround<V>(kids: seq<Tree<V>>, i: nat)
    requires i < |kids|
    ensures LeavesOf(kids) == LeavesOf(kids[..i]) + Leaves(kids[i]) + LeavesOf(kids[i + 1..])
  {
    CutAround(kids, i);
    LeavesThree(kids[..i], kids[i], kids[i + 1..]);
  }

  lemma LeafItems<V>(t: Tree<V>)
    requires t.Leaf?
    ensures ItemsOf([t]) == t.items
  {
    assert [t][1..] == [];
    assert ItemsOf([t][1..]) == [];
  }

  lemma LeavesPair<V>(x: Tree<V>, y: Tree<V>)
    ensures LeavesOf([x, y]) == Leaves(x) + Leaves(y)
    ensures LeavesOf([x]) == Leaves(x)
  {
    assert [x, y] == [x] + [y];
    LeavesConcat([x], [y]);
    LeavesOne(x);
    LeavesOne(y);
  }

  // ---------------------------------------------------------------- order

  ghost predicate AllBelow<V>(items: seq<Item<V>>, key: int)
  {
    forall i :: 0 <= i < |items| ==> items[i].key < key
  }

  ghost predicate AllAbove<V>(items: seq<Item<V>>, key: int)
  {
    forall i :: 0 <= i < |items| ==> items[i].key > key
  }

  /** The items of a subtree are in strict order and within its bounds. */
  lemma {:induction false} NodeItems<V>(m: nat, t: Tree<V>, h: nat, lo: Option<int>, hi: Option<int>)
    requires Node(m, t, h, lo, hi)
    ensures SortedItems(Items(t)) && Within(Items(t), lo, hi)
    decreases h, 1, 0
  {
    if t.Leaf? {
      LeafItems(t);
    } else {
      KidsItems(m, t.keys, t.kids, h, lo, hi, |t.kids|);
      assert t.kids[..|t.kids|] == t.kids;
    }
  }

  lemma {:induction false} KidsItems<V>(m: nat, keys: seq<int>, kids: seq<Tree<V>>, h: nat, lo: Option<int>, hi: Option<int>, n: nat)
    requires KidsOrdered(m, keys, kids, h, lo, hi) && 1 <= n <= |kids|
    ensures SortedItems(ItemsOf(LeavesOf(kids[..n]))) && Within(ItemsOf(LeavesOf(kids[..n])), lo, Hi(keys, n - 1, hi))
    decreases h, 0, n
  {
    var last := kids[n - 1];
    NodeItems(m, last, h - 1, Lo(keys, n - 1, lo), Hi(keys, n - 1, hi));
    assert kids[..n] == kids[..n - 1] + [last];
    LeavesConcat(kids[..n - 1], [last]);
    LeavesPair(last, last);
    ItemsConcat(LeavesOf(kids[..n - 1]), Leaves(last));
    if n > 1 {
      KidsItems(m, keys, kids, h, lo, hi, n - 1);
      JoinItems(ItemsOf(LeavesOf(kids[..n - 1])), Items(last), keys[n - 2], lo, Hi(keys, n - 1, hi));
    } else {
      assert kids[..0] == [];
    }
  }

  // ---------------------------------------------------------------- search

  /** The child the search goes to is the only one that may hold the key. */
  lemma RouteSplits<V>(m: nat, t: Tree<V>, key: int, h: nat, lo: Option<int>, hi: Option<int>)
    requires t.Inner? && Node(m, t, h, lo, hi) && |t.kids| == |t.keys| + 1
    ensures var i := Route(t.keys, 0, key);
            var a, b := LeavesOf(t.kids[..i]), LeavesOf(t.kids[i + 1..]);
            && Leaves(t) == a + Leaves(t.kids[i]) + b
            && AllBelow(ItemsOf(a), key) && AllAbove(ItemsOf(b), key)
            && Items(t) == ItemsOf(a) + Items(t.kids[i]) + ItemsOf(b)
  {
    var keys, kids := t.keys, t.kids;
    var i := Route(keys, 0, key);
    LeavesAround(kids, i);
    var a, b := LeavesOf(kids[..i]), LeavesOf(kids[i + 1..]);
    ItemsConcat(a + Leaves(kids[i]), b);
    ItemsConcat(a, Leaves(kids[i]));
    if i > 0 {
      KidsItems(m, keys, kids, h, lo, hi, i);
    }
    if i < |keys| {
      SplitKids(m, keys, kids, i, h, lo, hi);
      var rest := kids[i + 1..];
      KidsItems(m, keys[i + 1..], rest, h, Some(keys[i]), hi, |rest|);
      assert rest[..|rest|] == rest;
    } else {
      assert kids[i + 1..] == [];
    }
  }

  ghost predicate HasKey<V>(items: seq<Item<V>>, key: int)
  {
    exists i :: 0 <= i < |items| && items[i].key == key
  }

  /** `bpt_search` finds a key exactly when some leaf holds it, and then its value. */
  lemma {:induction false} SearchOk<V>(m: nat, t: Tree<V>, key: int, h: nat, lo: Option<int>, hi: Option<int>)
    requires Node(m, t, h, lo, hi)
    ensures Uniform(t, h)
    ensures var r := Search(t, key, h);
            if r.Some? then Item(key, r.value) in Items(t) else !HasKey(Items(t), key)
    decreases h
  {
    NodeUniform(m, t, h, lo, hi);
    if t.Leaf? {
      LeafItems(t);
    } else {
      var i := Route(t.keys, 0, key);
      RouteSplits(m, t, key, h, lo, hi);
      SearchOk(m, t.kids[i], key, h - 1, Lo(t.keys, i, lo), Hi(t.keys, i, hi));
      var a, x, b := ItemsOf(LeavesOf(t.kids[..i])), Items(t.kids[i]), ItemsOf(LeavesOf(t.kids[i + 1..]));
      if HasKey(a + x + b, key) {
        var j :| 0 <= j < |a + x + b| && (a + x + b)[j].key == key;
        assert |a| <= j < |a| + |x| && x[j - |a|].key == key;
      }
    }
  }

  // ---------------------------------------------------------------- insertion

  function LeavesGrown<V>(g: Grown<V>): (r: seq<Tree<V>>)
  {
    match g
    case Present(_) => []
    case One(node, _) => Leaves(node)
    case Two(left, _, right) => Leaves(left) + Leaves(right)
  }

  lemma KidReplacedLeaves<V>(kids: seq<Tree<V>>, i: nat, node: Tree<V>)
    requires i < |kids|
    ensures LeavesOf(kids[i := node]) == LeavesOf(kids[..i]) + Leaves(node) + LeavesOf(kids[i + 1..])
  {
    var kids' := kids[i := node];
    LeavesAround(kids', i);
    assert kids'[..i] == kids[..i] && kids'[i + 1..] == kids[i + 1..];
  }

  lemma KidSplitLeaves<V>(kids: seq<Tree<V>>, i: nat, left: Tree<V>, right: Tree<V>)
    requires i < |kids|
    ensures LeavesOf(kids[..i] + [left, right] + kids[i + 1..])
            == LeavesOf(kids[..i]) + (Leaves(left) + Leaves(right)) + LeavesOf(kids[i + 1..])
  {
    LeavesConcat(kids[..i] + [left, right], kids[i + 1..]);
    LeavesConcat(kids[..i], [left, right]);
    LeavesPair(left, right);
  }

  lemma SplitInnerLeaves<V>(m: nat, keys: seq<int>, kids: seq<Tree<V>>)
    requires |kids| == |keys| + 1
    ensures !SplitInner(m, keys, kids).Present? && LeavesGrown(SplitInner(m, keys, kids)) == LeavesOf(kids)
  {
    var cut := |keys| / 2;
    if |kids| > m && cut < |keys| {
      assert kids == kids[..cut + 1] + kids[cut + 1..];
      LeavesConcat(kids[..cut + 1], kids[cut + 1..]);
    }
  }

  /** `leaf` stands between smaller and larger keys. */
  ghost predicate Around<V>(leaves: seq<Tree<V>>, a: seq<Tree<V>>, leaf: Tree<V>, b: seq<Tree<V>>, key: int)
  {
    leaf.Leaf? && leaves == a + [leaf] + b && AllBelow(ItemsOf(a), key) && AllAbove(ItemsOf(b), key)
  }

  /** An insertion that makes `g` puts what it makes of one leaf, `l`, between `a` and `b`, and fails as it does there. */
  ghost predicate GrowsTo<V>(g: Grown<V>, l: Grown<V>, a: seq<Tree<V>>, b: seq<Tree<V>>)
  {
    && (g.Present? <==> l.Present?)
    && (g.Present? ==> g == l)
    && (!g.Present? ==> LeavesGrown(g) == a + LeavesGrown(l) + b)
  }

  /** Seen from a parent, what insertion made of one child is put between the leaves of the others. */
  lemma GrowStepLeaves<V>(m: nat, t: Tree<V>, item: Item<V>, name: nat, h: nat, lo: Option<int>, hi: Option<int>)
    requires m >= 3 && t.Inner? && Node(m, t, h, lo, hi) && Size(t) < m && Uniform(t, h) && |t.kids| == |t.keys| + 1
    requires Below(lo, item.key) && Upto(item.key, hi)
    ensures var i := Route(t.keys, 0, item.key);
            var g, below := Grow(m, t, item, name, h), Grow(m, t.kids[i], item, name, h - 1);
            GrowsTo(g, below, LeavesOf(t.kids[..i]), LeavesOf(t.kids[i + 1..]))
  {
    var keys, kids := t.keys, t.kids;
    var i := Route(keys, 0, item.key);
    assert Sized(m, kids[i]);
    GrowOk(m, kids[i], item, name, h - 1, Lo(keys, i, lo), Hi(keys, i, hi));
    match Grow(m, kids[i], item, name, h - 1) {
      case Present(_) =>
      case One(node, _) =>
        KidReplacedLeaves(kids, i, node);
      case Two(left, sep, right) =>
        InsertSeparatorAt(m, keys, kids, i, left, sep, right, h, lo, hi);
        KidSplitLeaves(kids, i, left, right);
        SplitInnerLeaves(m, keys[..i] + [sep] + keys[i..], kids[..i] + [left, right] + kids[i + 1..]);
    }
  }

  lemma Regroup<T>(x: seq<T>, a: seq<T>, l: seq<T>, b: seq<T>, y: seq<T>)
    ensures x + (a + l + b) + y == (x + a) + l + (b + y)
  {
  }

  lemma BelowAndAbove<V>(x: seq<Tree<V>>, a: seq<Tree<V>>, b: seq<Tree<V>>, y: seq<Tree<V>>, key: int)
    requires AllBelow(ItemsOf(x), key) && AllBelow(ItemsOf(a), key) && AllAbove(ItemsOf(b), key) && AllAbove(ItemsOf(y), key)
    ensures AllBelow(ItemsOf(x + a), key) && AllAbove(ItemsOf(b + y), key)
  {
    ItemsConcat(x, a);
    ItemsConcat(b, y);
  }

  lemma GrowsUp<V>(g: Grown<V>, below: Grown<V>, l: Grown<V>, x: seq<Tree<V>>, a: seq<Tree<V>>, b: seq<Tree<V>>, y: seq<Tree<V>>)
    requires GrowsTo(g, below, x, y) && GrowsTo(below, l, a, b)
    ensures GrowsTo(g, l, x + a, b + y)
  {
    Regroup(x, a, LeavesGrown(l), b, y);
  }

  /** What an insertion makes of leaf `leaf`. */
  function LeafGrown<V>(m: nat, leaf: Tree<V>, item: Item<V>, name: nat): (l: Grown<V>)
    requires leaf.Leaf?
  {
    GrowLeaf(m, leaf.id, leaf.items, leaf.right, item, name)
  }

  lemma OnlyLeafGrows<V>(m: nat, t: Tree<V>, item: Item<V>, name: nat, h: nat)
    requires t.Leaf? && Uniform(t, h)
    ensures Around(Leaves(t), [], t, [], item.key) && GrowsTo(Grow(m, t, item, name, h), LeafGrown(m, t, item, name), [], [])
  {
    var l := LeavesGrown(Grow(m, t, item, name, h));
    assert [] + l + [] == l && [] + [t] + [] == [t];
  }

  lemma KidAround<V>(m: nat, t: Tree<V>, key: int, h: nat, lo: Option<int>, hi: Option<int>, a: seq<Tree<V>>, leaf: Tree<V>, b: seq<Tree<V>>)
    requires t.Inner? && Node(m, t, h, lo, hi) && |t.kids| == |t.keys| + 1
    requires Around(Leaves(t.kids[Route(t.keys, 0, key)]), a, leaf, b, key)
    ensures var i := Route(t.keys, 0, key);
            Around(Leaves(t), LeavesOf(t.kids[..i]) + a, leaf, b + LeavesOf(t.kids[i + 1..]), key)
  {
    var i := Route(t.keys, 0, key);
    RouteSplits(m, t, key, h, lo, hi);
    BelowAndAbove(LeavesOf(t.kids[..i]), a, b, LeavesOf(t.kids[i + 1..]), key);
    Regroup(LeavesOf(t.kids[..i]), a, [leaf], b, LeavesOf(t.kids[i + 1..]));
  }

  lemma KidGrows<V>(m: nat, t: Tree<V>, item: Item<V>, name: nat, h: nat, lo: Option<int>, hi: Option<int>,
                    l: Grown<V>, a: seq<Tree<V>>, b: seq<Tree<V>>)
    requires m >= 3 && t.Inner? && Node(m, t, h, lo, hi) && Size(t) < m && Uniform(t, h) && |t.kids| == |t.keys| + 1
    requires Below(lo, item.key) && Upto(item.key, hi)
    requires GrowsTo(Grow(m, t.kids[Route(t.keys, 0, item.key)], item, name, h - 1), l, a, b)
    ensures var i := Route(t.keys, 0, item.key);
            GrowsTo(Grow(m, t, item, name, h), l, LeavesOf(t.kids[..i]) + a, b + LeavesOf(t.kids[i + 1..]))
  {
    var i := Route(t.keys, 0, item.key);
    GrowStepLeaves(m, t, item, name, h, lo, hi);
    GrowsUp(Grow(m, t, item, name, h), Grow(m, t.kids[i], item, name, h - 1), l, LeavesOf(t.kids[..i]), a, b, LeavesOf(t.kids[i + 1..]));
  }

  /** The child the key goes to is a node between the separators around it. */
  lemma RoutedKid<V>(m: nat, t: Tree<V>, key: int, h: nat, lo: Option<int>, hi: Option<int>)
    requires t.Inner? && Node(m, t, h, lo, hi) && Below(lo, key) && Upto(key, hi)
    ensures var i := Route(t.keys, 0, key);
            && |t.kids| == |t.keys| + 1 && h > 0
            && Node(m, t.kids[i], h - 1, Lo(t.keys, i, lo), Hi(t.keys, i, hi)) && Size(t.kids[i]) < m
            && Below(Lo(t.keys, i, lo), key) && Upto(key, Hi(t.keys, i, hi))
  {
    assert Sized(m, t.kids[Route(t.keys, 0, key)]);
  }

  /**
   * Inserting changes one leaf: the one that may hold the key, with smaller keys to its left and larger
   * ones to its right. No split of inner nodes moves, loses or repeats a leaf.
   */
  lemma {:induction false} GrowLeaves<V>(m: nat, t: Tree<V>, item: Item<V>, name: nat, h: nat, lo: Option<int>, hi: Option<int>)
    returns (a: seq<Tree<V>>, leaf: Tree<V>, b: seq<Tree<V>>)
    requires m >= 3 && Node(m, t, h, lo, hi) && Size(t) < m
    requires Below(lo, item.key) && Upto(item.key, hi)
    ensures Uniform(t, h) && Around(Leaves(t), a, leaf, b, item.key)
    ensures GrowsTo(Grow(m, t, item, name, h), LeafGrown(m, leaf, item, name), a, b)
    decreases h
  {
    NodeUniform(m, t, h, lo, hi);
    if t.Leaf? {
      a, leaf, b := [], t, [];
      OnlyLeafGrows(m, t, item, name, h);
    } else {
      var i := Route(t.keys, 0, item.key);
      RoutedKid(m, t, item.key, h, lo, hi);
      a, leaf, b := GrowLeaves(m, t.kids[i], item, name, h - 1, Lo(t.keys, i, lo), Hi(t.keys, i, hi));
      KidAround(m, t, item.key, h, lo, hi, a, leaf, b);
      KidGrows(m, t, item, name, h, lo, hi, LeafGrown(m, leaf, item, name), a, b);
      a, b := LeavesOf(t.kids[..i]) + a, b + LeavesOf(t.kids[i + 1..]);
    }
  }
}
