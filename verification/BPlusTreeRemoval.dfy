/** Deletion takes one item out of one leaf; rotations and merges keep all the others, in order. */
module BPlusTreeRemoval {
  import opened BPlusTree
  import opened BPlusTreeChain
  import opened BPlusTreeContents
  import opened BPlusTreeDelete
  import opened BPlusTreeShape
  import opened Options
  import opened Sequences

  // ---------------------------------------------------------------- inner nodes only move leaves about

  lemma Assoc<T>(x: seq<T>, a: seq<T>, b: seq<T>, y: seq<T>)
    ensures x + a + (b + y) == x + (a + b) + y
  {
  }

  lemma LeavesAroundPair<V>(kids: seq<Tree<V>>, p: nat)
    requires p + 1 < |kids|
    ensures LeavesOf(kids) == LeavesOf(kids[..p]) + (Leaves(kids[p]) + Leaves(kids[p + 1])) + LeavesOf(kids[p + 2..])
  {
    LeavesAround(kids, p);
    LeavesFirst(kids[p + 1..]);
    assert kids[p + 1..][1..] == kids[p + 2..];
    Assoc(LeavesOf(kids[..p]), Leaves(kids[p]), Leaves(kids[p + 1]), LeavesOf(kids[p + 2..]));
  }

  lemma LeavesFirst<V>(kids: seq<Tree<V>>)
    requires kids != []
    ensures LeavesOf(kids) == Leaves(kids[0]) + LeavesOf(kids[1..])
  {
  }

  lemma PairSameLeaves<V>(kids: seq<Tree<V>>, p: nat, left: Tree<V>, right: Tree<V>)
    requires p + 1 < |kids| && Leaves(left) + Leaves(right) == Leaves(kids[p]) + Leaves(kids[p + 1])
    ensures LeavesOf(kids[p := left][p + 1 := right]) == LeavesOf(kids)
  {
    var kids' := kids[p := left][p + 1 := right];
    LeavesAroundPair(kids, p);
    LeavesAroundPair(kids', p);
    assert kids'[..p] == kids[..p] && kids'[p + 2..] == kids[p + 2..];
  }

  lemma JoinedSameLeaves<V>(kids: seq<Tree<V>>, p: nat, merged: Tree<V>)
    requires p + 1 < |kids| && Leaves(merged) == Leaves(kids[p]) + Leaves(kids[p + 1])
    ensures LeavesOf(kids[..p] + [merged] + kids[p + 2..]) == LeavesOf(kids)
  {
    LeavesAroundPair(kids, p);
    LeavesConcat(kids[..p] + [merged], kids[p + 2..]);
    LeavesConcat(kids[..p], [merged]);
    LeavesOne(merged);
  }

  /** Children moved from the end of one node to the front of the next, or back. */
  lemma ShiftLeaves<V>(a: seq<Tree<V>>, n: nat, b: seq<Tree<V>>)
    requires n <= |a|
    ensures LeavesOf(a[..n]) + LeavesOf(a[n..] + b) == LeavesOf(a) + LeavesOf(b)
    ensures LeavesOf(b + a[..n]) + LeavesOf(a[n..]) == LeavesOf(b) + LeavesOf(a)
  {
    assert a == a[..n] + a[n..];
    LeavesConcat(a[..n], a[n..]);
    LeavesConcat(a[n..], b);
    LeavesConcat(b, a[..n]);
  }

  lemma RotateRightLeaves<V>(kids: seq<Tree<V>>, p: nat, left: Tree<V>, right: Tree<V>)
    requires p + 1 < |kids| && kids[p].Inner? && kids[p + 1].Inner? && left.Inner? && right.Inner? && kids[p].kids != []
    requires var n := |kids[p].kids| - 1; left.kids == kids[p].kids[..n] && right.kids == [kids[p].kids[n]] + kids[p + 1].kids
    ensures LeavesOf(kids[p := left][p + 1 := right]) == LeavesOf(kids)
  {
    var n := |kids[p].kids| - 1;
    assert kids[p].kids[n..] == [kids[p].kids[n]];
    ShiftLeaves(kids[p].kids, n, kids[p + 1].kids);
    PairSameLeaves(kids, p, left, right);
  }

  lemma RotateLeftLeaves<V>(kids: seq<Tree<V>>, p: nat, left: Tree<V>, right: Tree<V>)
    requires p + 1 < |kids| && kids[p].Inner? && kids[p + 1].Inner? && left.Inner? && right.Inner? && kids[p + 1].kids != []
    requires left.kids == kids[p].kids + [kids[p + 1].kids[0]] && right.kids == kids[p + 1].kids[1..]
    ensures LeavesOf(kids[p := left][p + 1 := right]) == LeavesOf(kids)
  {
    assert kids[p + 1].kids[..1] == [kids[p + 1].kids[0]];
    ShiftLeaves(kids[p + 1].kids, 1, kids[p].kids);
    PairSameLeaves(kids, p, left, right);
  }

  lemma InnerBorrowLeft<V>(m: nat, keys: seq<int>, kids: seq<Tree<V>>, i: nat, h: nat)
    requires m >= 3 && AllInner(keys, kids, h) && i < |kids|
    requires |kids[i].keys| < MinKeys(m) && i > 0 && |kids[i - 1].keys| > MinKeys(m)
    ensures Leaves(FixInner(m, keys, kids, i, h).node) == LeavesOf(kids)
  {
    var check, brother := kids[i], kids[i - 1];
    var n := |brother.keys|;
    RotateRightLeaves(kids, i - 1, Inner(brother.keys[..n - 1], brother.kids[..n]),
                      Inner([keys[i - 1]] + check.keys, [brother.kids[n]] + check.kids));
  }

  lemma InnerBorrowRight<V>(m: nat, keys: seq<int>, kids: seq<Tree<V>>, i: nat, h: nat)
    requires m >= 3 && AllInner(keys, kids, h) && i < |kids|
    requires |kids[i].keys| < MinKeys(m) && CanBorrow(m, keys, kids, i) && !(i > 0 && |kids[i - 1].keys| > MinKeys(m))
    ensures Leaves(FixInner(m, keys, kids, i, h).node) == LeavesOf(kids)
  {
    var check, brother := kids[i], kids[i + 1];
    RotateLeftLeaves(kids, i, Inner(check.keys + [keys[i]], check.kids + [brother.kids[0]]),
                     Inner(brother.keys[1..], brother.kids[1..]));
  }

  lemma InnerBorrowLeaves<V>(m: nat, keys: seq<int>, kids: seq<Tree<V>>, i: nat, h: nat)
    requires m >= 3 && AllInner(keys, kids, h) && i < |kids|
    requires |kids[i].keys| < MinKeys(m) && CanBorrow(m, keys, kids, i)
    ensures Leaves(FixInner(m, keys, kids, i, h).node) == LeavesOf(kids)
  {
    if i > 0 && |kids[i - 1].keys| > MinKeys(m) {
      InnerBorrowLeft(m, keys, kids, i, h);
    } else {
      InnerBorrowRight(m, keys, kids, i, h);
    }
  }

  lemma MergedInnerLeaves<V>(keys: seq<int>, kids: seq<Tree<V>>, p: nat, h: nat)
    requires AllInner(keys, kids, h) && p + 1 < |kids|
    ensures LeavesOf(kids[..p] + [MergeInner(kids[p], kids[p + 1])] + kids[p + 2..]) == LeavesOf(kids)
  {
    LeavesConcat(kids[p].kids, kids[p + 1].kids);
    JoinedSameLeaves(kids, p, MergeInner(kids[p], kids[p + 1]));
  }

  lemma JoinedInnerLeaves<V>(keys: seq<int>, kids: seq<Tree<V>>, p: nat, h: nat)
    requires AllInner(keys, kids, h) && p < |keys|
    ensures LeavesOf(JoinedInner(keys, kids, p, h).kids) == LeavesOf(kids)
  {
    MergedInnerLeaves(keys, kids, p, h);
  }

  lemma InnerMergeLeaves<V>(m: nat, keys: seq<int>, kids: seq<Tree<V>>, i: nat, h: nat)
    requires m >= 3 && AllInner(keys, kids, h) && i < |kids| && |keys| > 0
    requires |kids[i].keys| < MinKeys(m) && !CanBorrow(m, keys, kids, i)
    ensures Leaves(FixInner(m, keys, kids, i, h).node) == LeavesOf(kids)
  {
    var p := if i > 0 then i - 1 else i;
    JoinedInnerLeaves(keys, kids, p, h);
    assert FixInner(m, keys, kids, i, h).node.kids == JoinedInner(keys, kids, p, h).kids;
  }

  lemma FixInnerLeaves<V>(m: nat, keys: seq<int>, kids: seq<Tree<V>>, i: nat, h: nat)
    requires m >= 3 && AllInner(keys, kids, h) && i < |kids|
    ensures Leaves(FixInner(m, keys, kids, i, h).node) == LeavesOf(kids)
  {
    if |kids[i].keys| < MinKeys(m) {
      if CanBorrow(m, keys, kids, i) {
        InnerBorrowLeaves(m, keys, kids, i, h);
      } else if |keys| > 0 {
        InnerMergeLeaves(m, keys, kids, i, h);
      }
    }
  }

  // ---------------------------------------------------------------- leaves

  lemma {:induction false} LeavesOfLeaves<V>(kids: seq<Tree<V>>)
    requires forall i :: 0 <= i < |kids| ==> kids[i].Leaf?
    ensures LeavesOf(kids) == kids
    decreases |kids|
  {
    if kids != [] {
      LeavesOfLeaves(kids[1..]);
    }
  }

  /** One or two neighbouring leaves with one item taken out: the same names and links, but a merged leaf is gone. */
  ghost predicate LeafSwap<V>(was: seq<Tree<V>>, now: seq<Tree<V>>)
  {
    && 1 <= |now| <= |was| <= 2
    && (forall i :: 0 <= i < |was| ==> was[i].Leaf?) && (forall i :: 0 <= i < |now| ==> now[i].Leaf?)
    && now[0].id == was[0].id && now[|now| - 1].right == was[|was| - 1].right
    && (|now| == 2 ==> |was| == 2 && now[0].right == was[0].right && now[1].id == was[1].id)
  }

  lemma LeafSwapChained<V>(a: seq<Tree<V>>, was: seq<Tree<V>>, now: seq<Tree<V>>, b: seq<Tree<V>>, name: nat)
    requires Chained(a + was + b, name) && LeafSwap(was, now)
    ensures Chained(a + now + b, name + 1)
  {
    var before := a + was + b;
    assert forall i :: 0 <= i < |was| ==> before[|a| + i] == was[i];
    assert Names(was, was[0].id);
    assert |was| == 2 ==> Names(was, was[1].id) && was[0].id != was[1].id && was[0].right == Some(was[1].id);
    ChainEdited(a, was, now, b, name);
  }

  /** Taking item `index` out of leaf `i`, when it stays as it is. */
  lemma LeafKeptLeaves<V>(kids: seq<Tree<V>>, i: nat, index: nat, leaf: Tree<V>)
    requires i < |kids| && kids[i].Leaf? && index < |kids[i].items| && leaf == kids[i].(items := Without(kids[i].items, index))
    ensures LeafSwap(kids[i..i + 1], [leaf]) && kids[i := leaf] == kids[..i] + [leaf] + kids[i + 1..]
    ensures var l, r := kids[i].items[..index], kids[i].items[index + 1..];
            ItemsOf(kids[i..i + 1]) == l + [kids[i].items[index]] + r && ItemsOf([leaf]) == l + r
  {
    assert kids[i..i + 1] == [kids[i]];
    LeafItems(kids[i]);
    LeafItems(leaf);
  }

  /** Taking an item out of one of two neighbouring leaves, when both are replaced. */
  lemma PairLeaves<V>(kids: seq<Tree<V>>, p: nat, now: seq<Tree<V>>)
    requires p + 1 < |kids| && kids[p].Leaf? && kids[p + 1].Leaf? && |now| == 2 && now[0].Leaf? && now[1].Leaf?
    requires now[0].id == kids[p].id && now[1].id == kids[p + 1].id
    requires now[0].right == kids[p].right && now[1].right == kids[p + 1].right
    ensures LeafSwap(kids[p..p + 2], now) && kids[p := now[0]][p + 1 := now[1]] == kids[..p] + now + kids[p + 2..]
    ensures ItemsOf(kids[p..p + 2]) == kids[p].items + kids[p + 1].items
    ensures ItemsOf(now) == now[0].items + now[1].items
  {
    assert kids[p..p + 2] == [kids[p], kids[p + 1]];
    TwoLeaves(kids[p], kids[p + 1]);
    TwoLeaves(now[0], now[1]);
    assert now == [now[0], now[1]];
  }

  lemma MergedLeaves<V>(kids: seq<Tree<V>>, p: nat, merged: Tree<V>)
    requires p + 1 < |kids| && kids[p].Leaf? && kids[p + 1].Leaf? && merged.Leaf?
    requires merged.id == kids[p].id && merged.right == kids[p + 1].right
    ensures LeafSwap(kids[p..p + 2], [merged])
    ensures ItemsOf(kids[p..p + 2]) == kids[p].items + kids[p + 1].items && ItemsOf([merged]) == merged.items
  {
    assert kids[p..p + 2] == [kids[p], kids[p + 1]];
    TwoLeaves(kids[p], kids[p + 1]);
    LeafItems(merged);
  }

  /** What `FixLeaf` is given and what is around the deleted item. */
  ghost predicate TakenOut<V>(m: nat, keys: seq<int>, kids: seq<Tree<V>>, i: nat, index: nat, p: nat, q: nat,
                              now: seq<Tree<V>>, x: seq<Item<V>>, y: seq<Item<V>>)
    requires AllLeaves(keys, kids) && i < |kids| && index < |kids[i].items|
  {
    && p <= q <= |kids| && LeafSwap(kids[p..q], now)
    && FixLeaf(m, keys, kids[i := kids[i].(items := Without(kids[i].items, index))], i, index).node.kids == kids[..p] + now + kids[q..]
    && ItemsOf(kids[p..q]) == x + [kids[i].items[index]] + y && ItemsOf(now) == x + y
  }

  lemma BorrowLeftLeaves<V>(m: nat, keys: seq<int>, kids: seq<Tree<V>>, i: nat, index: nat)
    returns (now: seq<Tree<V>>, x: seq<Item<V>>, y: seq<Item<V>>)
    requires m >= 3 && AllLeaves(keys, kids) && i < |kids| && index < |kids[i].items|
    requires |kids[i].items| - 1 < MinKeys(m) && i > 0 && |kids[i - 1].items| > MinKeys(m)
    ensures TakenOut(m, keys, kids, i, index, i - 1, i + 1, now, x, y)
  {
    var leaf := kids[i].(items := Without(kids[i].items, index));
    var l, r := kids[i].items[..index], kids[i].items[index + 1..];
    var brother := kids[i - 1];
    var n := |brother.items| - 1;
    x, y := brother.items + l, r;
    now := [brother.(items := brother.items[..n]), leaf.(items := [brother.items[n]] + leaf.items)];
    PairLeaves(kids, i - 1, now);
    assert kids[i := leaf][i - 1 := now[0]][i := now[1]] == kids[i - 1 := now[0]][i := now[1]];
    LastAcross(brother.items, kids[i].items, index);
  }

  lemma LastAcross<T>(a: seq<T>, b: seq<T>, index: nat)
    requires a != [] && index < |b|
    ensures a[..|a| - 1] + ([a[|a| - 1]] + (b[..index] + b[index + 1..])) == (a + b[..index]) + b[index + 1..]
    ensures a + b == (a + b[..index]) + [b[index]] + b[index + 1..]
  {
  }

  lemma BorrowRightLeaves<V>(m: nat, keys: seq<int>, kids: seq<Tree<V>>, i: nat, index: nat)
    returns (now: seq<Tree<V>>, x: seq<Item<V>>, y: seq<Item<V>>)
    requires m >= 3 && AllLeaves(keys, kids) && i < |kids| && index < |kids[i].items|
    requires |kids[i].items| - 1 < MinKeys(m) && i < |keys| && |kids[i + 1].items| > MinKeys(m)
    requires i > 0 ==> |kids[i - 1].items| <= MinKeys(m)
    ensures TakenOut(m, keys, kids, i, index, i, i + 2, now, x, y)
  {
    var leaf := kids[i].(items := Without(kids[i].items, index));
    var l, r := kids[i].items[..index], kids[i].items[index + 1..];
    var brother := kids[i + 1];
    x, y := l, r + brother.items;
    now := [leaf.(items := leaf.items + [brother.items[0]]), brother.(items := brother.items[1..])];
    PairLeaves(kids, i, now);
    assert kids[i := leaf][i := now[0]][i + 1 := now[1]] == kids[i := now[0]][i + 1 := now[1]];
    FirstAcross(kids[i].items, index, brother.items);
  }

  lemma FirstAcross<T>(a: seq<T>, index: nat, b: seq<T>)
    requires b != [] && index < |a|
    ensures ((a[..index] + a[index + 1..]) + [b[0]]) + b[1..] == a[..index] + (a[index + 1..] + b)
    ensures a + b == a[..index] + [a[index]] + (a[index + 1..] + b)
  {
  }

  /** A leaf that lost an item merges into its left brother. */
  lemma MergeIntoLeft<V>(m: nat, keys: seq<int>, kids: seq<Tree<V>>, i: nat, index: nat)
    returns (now: seq<Tree<V>>, x: seq<Item<V>>, y: seq<Item<V>>)
    requires m >= 3 && AllLeaves(keys, kids) && i < |kids| && index < |kids[i].items| && |keys| > 0
    requires |kids[i].items| - 1 < MinKeys(m) && !CanBorrow(m, keys, kids, i) && i > 0
    ensures TakenOut(m, keys, kids, i, index, i - 1, i + 1, now, x, y)
  {
    var leaf := kids[i].(items := Without(kids[i].items, index));
    var brother := kids[i - 1];
    x, y := brother.items + kids[i].items[..index], kids[i].items[index + 1..];
    now := [brother.(items := brother.items + leaf.items, right := leaf.right)];
    MergedLeaves(kids, i - 1, now[0]);
    AcrossLeft(brother.items, kids[i].items, index);
    assert kids[i := leaf][..i - 1] == kids[..i - 1] && kids[i := leaf][i + 1..] == kids[i + 1..];
  }

  /** The right brother merges into a leaf that lost an item. */
  lemma MergeFromRight<V>(m: nat, keys: seq<int>, kids: seq<Tree<V>>, i: nat, index: nat)
    returns (now: seq<Tree<V>>, x: seq<Item<V>>, y: seq<Item<V>>)
    requires m >= 3 && AllLeaves(keys, kids) && i < |kids| && index < |kids[i].items| && |keys| > 0
    requires |kids[i].items| - 1 < MinKeys(m) && !CanBorrow(m, keys, kids, i) && i == 0
    ensures TakenOut(m, keys, kids, i, index, i, i + 2, now, x, y)
  {
    var leaf := kids[i].(items := Without(kids[i].items, index));
    var brother := kids[i + 1];
    x, y := kids[i].items[..index], kids[i].items[index + 1..] + brother.items;
    now := [leaf.(items := leaf.items + brother.items, right := brother.right)];
    MergedLeaves(kids, i, now[0]);
    AcrossRight(kids[i].items, index, brother.items);
    assert kids[i := leaf][..i] == kids[..i] && kids[i := leaf][i + 2..] == kids[i + 2..];
  }

  lemma AcrossLeft<T>(a: seq<T>, b: seq<T>, index: nat)
    requires index < |b|
    ensures a + b == (a + b[..index]) + [b[index]] + b[index + 1..]
    ensures a + (b[..index] + b[index + 1..]) == (a + b[..index]) + b[index + 1..]
  {
  }

  lemma AcrossRight<T>(a: seq<T>, index: nat, b: seq<T>)
    requires index < |a|
    ensures a + b == a[..index] + [a[index]] + (a[index + 1..] + b)
    ensures (a[..index] + a[index + 1..]) + b == a[..index] + (a[index + 1..] + b)
  {
  }

  /** A leaf that is still large enough stays as it is. */
  lemma KeepLeaf<V>(m: nat, keys: seq<int>, kids: seq<Tree<V>>, i: nat, index: nat) returns (x: seq<Item<V>>, y: seq<Item<V>>)
    requires m >= 3 && AllLeaves(keys, kids) && i < |kids| && index < |kids[i].items| && |kids[i].items| - 1 >= MinKeys(m)
    ensures TakenOut(m, keys, kids, i, index, i, i + 1, [kids[i].(items := Without(kids[i].items, index))], x, y)
  {
    x, y := kids[i].items[..index], kids[i].items[index + 1..];
    LeafKeptLeaves(kids, i, index, kids[i].(items := Without(kids[i].items, index)));
  }

  /** A leaf that lost an item takes one from a brother. */
  lemma BorrowLeaves<V>(m: nat, keys: seq<int>, kids: seq<Tree<V>>, i: nat, index: nat)
    returns (p: nat, q: nat, now: seq<Tree<V>>, x: seq<Item<V>>, y: seq<Item<V>>)
    requires m >= 3 && AllLeaves(keys, kids) && i < |kids| && index < |kids[i].items|
    requires |kids[i].items| - 1 < MinKeys(m) && CanBorrow(m, keys, kids, i)
    ensures TakenOut(m, keys, kids, i, index, p, q, now, x, y)
  {
    if i > 0 && |kids[i - 1].items| > MinKeys(m) {
      p, q := i - 1, i + 1;
      now, x, y := BorrowLeftLeaves(m, keys, kids, i, index);
    } else {
      p, q := i, i + 2;
      now, x, y := BorrowRightLeaves(m, keys, kids, i, index);
    }
  }

  /** A leaf that lost an item becomes one with a brother. */
  lemma MergeLeaves<V>(m: nat, keys: seq<int>, kids: seq<Tree<V>>, i: nat, index: nat)
    returns (p: nat, q: nat, now: seq<Tree<V>>, x: seq<Item<V>>, y: seq<Item<V>>)
    requires m >= 3 && AllLeaves(keys, kids) && i < |kids| && index < |kids[i].items| && |keys| > 0
    requires |kids[i].items| - 1 < MinKeys(m) && !CanBorrow(m, keys, kids, i)
    ensures TakenOut(m, keys, kids, i, index, p, q, now, x, y)
  {
    if i > 0 {
      p, q := i - 1, i + 1;
      now, x, y := MergeIntoLeft(m, keys, kids, i, index);
    } else {
      p, q := i, i + 2;
      now, x, y := MergeFromRight(m, keys, kids, i, index);
    }
  }

  /** Taking item `index` out of leaf `i`, and what the fixing makes of it and a brother. */
  lemma FixLeafLeaves<V>(m: nat, keys: seq<int>, kids: seq<Tree<V>>, i: nat, index: nat)
    returns (p: nat, q: nat, now: seq<Tree<V>>, x: seq<Item<V>>, y: seq<Item<V>>)
    requires m >= 3 && AllLeaves(keys, kids) && i < |kids| && index < |kids[i].items| && |keys| > 0
    ensures TakenOut(m, keys, kids, i, index, p, q, now, x, y)
  {
    var leaf := kids[i].(items := Without(kids[i].items, index));
    if |leaf.items| >= MinKeys(m) {
      p, q, now := i, i + 1, [leaf];
      x, y := KeepLeaf(m, keys, kids, i, index);
    } else if CanBorrow(m, keys, kids, i) {
      p, q, now, x, y := BorrowLeaves(m, keys, kids, i, index);
    } else {
      p, q, now, x, y := MergeLeaves(m, keys, kids, i, index);
    }
  }

  lemma TwoLeaves<V>(a: Tree<V>, b: Tree<V>)
    requires a.Leaf? && b.Leaf?
    ensures ItemsOf([a, b]) == a.items + b.items
  {
    assert [a, b] == [a] + [b];
    ItemsConcat([a], [b]);
    LeafItems(a);
    LeafItems(b);
  }

  // ---------------------------------------------------------------- the whole descent

  /** What a deletion takes out: leaves `was` give way to `now`, which hold the same items but `item`. */
  datatype Taken<V> =
    | Nothing
    | Taken(a: seq<Tree<V>>, was: seq<Tree<V>>, now: seq<Tree<V>>, b: seq<Tree<V>>,
            x: seq<Item<V>>, item: Item<V>, y: seq<Item<V>>)

  ghost predicate Takes<V>(d: Taken<V>, before: seq<Tree<V>>, after: seq<Tree<V>>)
  {
    && d.Taken? && before == d.a + d.was + d.b && after == d.a + d.now + d.b && LeafSwap(d.was, d.now)
    && ItemsOf(d.was) == d.x + [d.item] + d.y && ItemsOf(d.now) == d.x + d.y
  }

  lemma TakesBelow<V>(d: Taken<V>, before: seq<Tree<V>>, after: seq<Tree<V>>, left: seq<Tree<V>>, right: seq<Tree<V>>)
    requires Takes(d, before, after)
    ensures Takes(d.(a := left + d.a, b := d.b + right), left + before + right, left + after + right)
  {
    Regroup(left, d.a, d.was, d.b, right);
    Regroup(left, d.a, d.now, d.b, right);
  }

  /** Leaves `p` to `q` give way to `now`. */
  lemma SliceTaken<V>(kids: seq<Tree<V>>, p: nat, q: nat, now: seq<Tree<V>>, kids': seq<Tree<V>>,
                      x: seq<Item<V>>, item: Item<V>, y: seq<Item<V>>) returns (d: Taken<V>)
    requires p <= q <= |kids| && LeafSwap(kids[p..q], now) && kids' == kids[..p] + now + kids[q..]
    requires forall i :: 0 <= i < |kids| ==> kids[i].Leaf?
    requires forall i :: 0 <= i < |kids'| ==> kids'[i].Leaf?
    requires ItemsOf(kids[p..q]) == x + [item] + y && ItemsOf(now) == x + y
    ensures Takes(d, LeavesOf(kids), LeavesOf(kids')) && d.item == item
  {
    d := Taken(kids[..p], kids[p..q], now, kids[q..], x, item, y);
    assert kids == d.a + d.was + d.b;
    LeavesOfLeaves(kids);
    LeavesOfLeaves(kids');
  }

  lemma LeafLevelTaken<V>(m: nat, keys: seq<int>, kids: seq<Tree<V>>, i: nat, index: nat) returns (d: Taken<V>)
    requires m >= 3 && AllLeaves(keys, kids) && i < |kids| && index < |kids[i].items| && |keys| > 0
    ensures var r := FixLeaf(m, keys, kids[i := kids[i].(items := Without(kids[i].items, index))], i, index);
            Takes(d, LeavesOf(kids), LeavesOf(r.node.kids)) && d.item == kids[i].items[index]
  {
    var p, q, now, x, y := FixLeafLeaves(m, keys, kids, i, index);
    var r := FixLeaf(m, keys, kids[i := kids[i].(items := Without(kids[i].items, index))], i, index);
    d := SliceTaken(kids, p, q, now, r.node.kids, x, kids[i].items[index], y);
  }

  lemma ToldLeaves<V>(keys: seq<int>, kids: seq<Tree<V>>, i: nat, climb: bool)
    requires i < |kids| == |keys| + 1
    ensures (if climb then Tell(keys, kids, i) else Shrunk(Inner(keys, kids), false)).node.kids == kids
  {
  }

  /** What a deletion makes of one child is put between the leaves of the others. */
  lemma ShrinkAround<V>(m: nat, t: Tree<V>, key: int, h: nat, node: Tree<V>, climb: bool)
    requires m >= 3 && t.Inner? && Uniform(t, h) && 1 <= |t.keys|
    requires var i := Route(t.keys, 0, key);
             i < |t.kids| && t.kids[i].Inner? && Uniform(t.kids[i], h - 1) && Shrink(m, t.kids[i], key, h - 1) == Some(Shrunk(node, climb))
    ensures Shrink(m, t, key, h).Some?
    ensures var i := Route(t.keys, 0, key);
            Leaves(Shrink(m, t, key, h).value.node) == LeavesOf(t.kids[..i]) + Leaves(node) + LeavesOf(t.kids[i + 1..])
  {
    var keys, kids := t.keys, t.kids;
    var i := Route(keys, 0, key);
    KidReplacedLeaves(kids, i, node);
    ToldLeaves(keys, kids[i := node], i, climb);
    var told := if climb then Tell(keys, kids[i := node], i) else Shrunk(Inner(keys, kids[i := node]), false);
    FixInnerLeaves(m, told.node.keys, kids[i := node], i, h);
  }

  lemma {:induction false} ShrinkTakes<V>(m: nat, t: Tree<V>, key: int, h: nat, lo: Option<int>, hi: Option<int>)
    returns (d: Taken<V>)
    requires m >= 3 && t.Inner? && Node(m, t, h, lo, hi) && 1 <= |t.keys| < m
    ensures Uniform(t, h)
    ensures var r := Shrink(m, t, key, h);
            if r.None? then !HasKey(Items(t), key)
            else Takes(d, Leaves(t), Leaves(r.value.node)) && d.item.key == key
    decreases h
  {
    NodeUniform(m, t, h, lo, hi);
    UniformKids(t, h);
    var keys, kids := t.keys, t.kids;
    var i := Route(keys, 0, key);
    assert Sized(m, kids[i]);
    RouteSplits(m, t, key, h, lo, hi);
    var left, right := LeavesOf(kids[..i]), LeavesOf(kids[i + 1..]);
    if kids[i].Leaf? {
      var index := IndexOf(kids[i].items, 0, key);
      if index < |kids[i].items| {
        d := LeafLevelTaken(m, keys, kids, i, index);
      } else {
        LeafItems(kids[i]);
        d := Nothing;
        NotAround(ItemsOf(left), Items(kids[i]), ItemsOf(right), key);
      }
    } else {
      d := ShrinkTakes(m, kids[i], key, h - 1, Lo(keys, i, lo), Hi(keys, i, hi));
      match Shrink(m, kids[i], key, h - 1) {
        case None =>
          NotAround(ItemsOf(left), Items(kids[i]), ItemsOf(right), key);
        case Some(Shrunk(node, climb)) =>
          TakesBelow(d, Leaves(kids[i]), Leaves(node), left, right);
          d := d.(a := left + d.a, b := d.b + right);
          ShrinkAround(m, t, key, h, node, climb);
      }
    }
  }

  lemma NotAround<V>(a: seq<Item<V>>, x: seq<Item<V>>, b: seq<Item<V>>, key: int)
    requires AllBelow(a, key) && !HasKey(x, key) && AllAbove(b, key)
    ensures !HasKey(a + x + b, key)
  {
    forall j | 0 <= j < |a + x + b| ensures (a + x + b)[j].key != key {
      if |a| <= j < |a| + |x| {
        assert (a + x + b)[j] == x[j - |a|];
      }
    }
  }
}
