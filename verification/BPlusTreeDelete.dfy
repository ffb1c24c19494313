/** Deletion keeps the shape of the tree, through any cascade of rotations and merges. */
module BPlusTreeDelete {
  import opened BPlusTree
  import opened BPlusTreeShape
  import opened Options
  import opened Sequences

  /** All children at least half full, but child `i` may lack one key. */
  ghost predicate SizedBut<V>(m: nat, kids: seq<Tree<V>>, i: nat)
  {
    && i < |kids| && MinKeys(m) - 1 <= Size(kids[i]) < m
    && forall j :: 0 <= j < |kids| && j != i ==> Sized(m, kids[j])
  }

  /** A node of height `h` after one key or none was taken out of it. */
  ghost predicate ShrunkOk<V>(m: nat, keys: seq<int>, r: Shrunk<V>, h: nat, lo: Option<int>, hi: Option<int>)
  {
    && r.node.Inner? && Node(m, r.node, h, lo, hi)
    && |keys| - 1 <= |r.node.keys| <= |keys|
  }

  // ---------------------------------------------------------------- neighbours

  lemma TwoKidsReplaced<V>(m: nat, keys: seq<int>, kids: seq<Tree<V>>, p: nat, sep: int, left: Tree<V>, right: Tree<V>,
                           h: nat, lo: Option<int>, hi: Option<int>)
    requires KidsOrdered(m, keys, kids, h, lo, hi) && p < |keys|
    requires Node(m, left, h - 1, Lo(keys, p, lo), Some(sep)) && Node(m, right, h - 1, Some(sep), Hi(keys, p + 1, hi))
    requires Below(Lo(keys, p, lo), sep) && (if p + 1 < |keys| then sep < keys[p + 1] else Upto(sep, hi))
    ensures KidsOrdered(m, keys[p := sep], kids[p := left][p + 1 := right], h, lo, hi)
  {
    var keys', kids' := keys[p := sep], kids[p := left][p + 1 := right];
    assert p > 0 ==> Below(lo, keys[p - 1]) && keys[p - 1] < sep;
    assert p + 1 < |keys| ==> Upto(keys[p + 1], hi);
    forall j | 0 <= j < |kids'| ensures Node(m, kids'[j], h - 1, Lo(keys', j, lo), Hi(keys', j, hi)) {
      if j != p && j != p + 1 {
        assert Node(m, kids[j], h - 1, Lo(keys, j, lo), Hi(keys, j, hi));
      }
    }
  }

  lemma KidsJoined<V>(m: nat, keys: seq<int>, kids: seq<Tree<V>>, p: nat, merged: Tree<V>, h: nat, lo: Option<int>, hi: Option<int>,
                      keys': seq<int>, kids': seq<Tree<V>>)
    requires KidsOrdered(m, keys, kids, h, lo, hi) && p < |keys|
    requires Node(m, merged, h - 1, Lo(keys, p, lo), Hi(keys, p + 1, hi))
    requires Dropped(keys, p, keys') && Joined(kids, p, merged, kids')
    ensures KidsOrdered(m, keys', kids', h, lo, hi)
  {
    forall j | 0 <= j < |kids'| ensures Node(m, kids'[j], h - 1, Lo(keys', j, lo), Hi(keys', j, hi)) {
      if j < p {
        assert Node(m, kids[j], h - 1, Lo(keys, j, lo), Hi(keys, j, hi));
      } else if j > p {
        assert Node(m, kids[j + 1], h - 1, Lo(keys, j + 1, lo), Hi(keys, j + 1, hi));
      }
    }
  }

  /** Dropping the next separator and telling the merged node's largest key is dropping its own separator and telling it. */
  lemma DropKeyTold(keys: seq<int>, p: nat, top: int)
    requires p < |keys|
    ensures var own := keys[..p] + keys[p + 1..];
            var next := DropKey(keys, p + 1);
            if p < |own| then own[p := top] == next[p := top] else own == next
  {
  }

  /** Two neighbouring children merged into one, and `bpt_nd_check` for it. */
  lemma MergeOk<V>(m: nat, keys: seq<int>, kids: seq<Tree<V>>, p: nat, merged: Tree<V>, h: nat, lo: Option<int>, hi: Option<int>)
    requires m >= 3 && KidsOrdered(m, keys, kids, h, lo, hi) && p < |keys|
    requires Node(m, merged, h - 1, Lo(keys, p, lo), Hi(keys, p + 1, hi)) && Sized(m, merged)
    requires forall j :: 0 <= j < |kids| && j != p && j != p + 1 ==> Sized(m, kids[j])
    ensures ShrunkOk(m, keys, Tell(DropKey(keys, p + 1), kids[..p] + [merged] + kids[p + 2..], p), h, lo, hi)
  {
    var own, kids' := keys[..p] + keys[p + 1..], kids[..p] + [merged] + kids[p + 2..];
    DroppedConcat(keys, p);
    JoinedConcat(kids, p, merged);
    KidsJoined(m, keys, kids, p, merged, h, lo, hi, own, kids');
    JoinedSized(m, kids, p, merged, kids');
    DropKeyTold(keys, p, MaxKey(merged));
    if p < |own| {
      TellKeeps(m, own, kids', p, h, lo, hi);
    }
  }

  lemma JoinedSized<V>(m: nat, kids: seq<Tree<V>>, p: nat, merged: Tree<V>, kids': seq<Tree<V>>)
    requires Joined(kids, p, merged, kids') && Sized(m, merged)
    requires forall j :: 0 <= j < |kids| && j != p && j != p + 1 ==> Sized(m, kids[j])
    ensures AllSized(m, kids')
  {
  }

  // ---------------------------------------------------------------- leaves

  lemma LeafRotateLeft<V>(m: nat, keys: seq<int>, kids: seq<Tree<V>>, i: nat, lo: Option<int>, hi: Option<int>)
    requires m >= 3 && AllLeaves(keys, kids) && KidsOrdered(m, keys, kids, 1, lo, hi) && SizedBut(m, kids, i)
    requires 0 < i && |kids[i].items| < MinKeys(m) < |kids[i - 1].items|
    ensures var brother, leaf := kids[i - 1], kids[i];
            var n := |brother.items| - 1;
            var kids' := kids[i - 1 := brother.(items := brother.items[..n])][i := leaf.(items := [brother.items[n]] + leaf.items)];
            && KidsOrdered(m, keys[i - 1 := MaxKey(kids'[i - 1])], kids', 1, lo, hi) && AllSized(m, kids')
  {
    var brother, leaf := kids[i - 1], kids[i];
    var n := |brother.items| - 1;
    var left, right := brother.(items := brother.items[..n]), leaf.(items := [brother.items[n]] + leaf.items);
    var top := brother.items[n - 1].key;
    assert MaxKey(left) == top;
    assert Node(m, brother, 0, Lo(keys, i - 1, lo), Some(keys[i - 1]));
    assert Node(m, leaf, 0, Some(keys[i - 1]), Hi(keys, i, hi));
    assert top < brother.items[n].key <= keys[i - 1];
    assert Upto(keys[i - 1], hi) && (i < |keys| ==> keys[i - 1] < keys[i]);
    TwoKidsReplaced(m, keys, kids, i - 1, top, left, right, 1, lo, hi);
  }

  /** After a rotation from the left brother the leaf itself is told too, when its last item was deleted. */
  lemma ToldTwice<V>(m: nat, keys: seq<int>, kids: seq<Tree<V>>, i: nat, last: bool, lo: Option<int>, hi: Option<int>)
    requires m >= 3 && 0 < i < |kids| == |keys| + 1 && AllSized(m, kids) && AllLeaves(keys, kids)
    requires KidsOrdered(m, keys[i - 1 := MaxKey(kids[i - 1])], kids, 1, lo, hi)
    ensures var told := Tell(keys, kids, i - 1).node;
            ShrunkOk(m, keys, if last then Tell(told.keys, kids, i) else Shrunk(told, false), 1, lo, hi)
  {
    assert Sized(m, kids[i]);
    if last && i < |keys| {
      TellKeeps(m, keys[i - 1 := MaxKey(kids[i - 1])], kids, i, 1, lo, hi);
    }
  }

  lemma LeafRotateRight<V>(m: nat, keys: seq<int>, kids: seq<Tree<V>>, i: nat, lo: Option<int>, hi: Option<int>)
    requires m >= 3 && AllLeaves(keys, kids) && KidsOrdered(m, keys, kids, 1, lo, hi) && SizedBut(m, kids, i)
    requires i < |keys| && |kids[i].items| < MinKeys(m) < |kids[i + 1].items|
    ensures var brother, leaf := kids[i + 1], kids[i];
            var kids' := kids[i := leaf.(items := leaf.items + [brother.items[0]])][i + 1 := brother.(items := brother.items[1..])];
            && KidsOrdered(m, keys[i := MaxKey(kids'[i])], kids', 1, lo, hi) && AllSized(m, kids')
  {
    var brother, leaf := kids[i + 1], kids[i];
    var left, right := leaf.(items := leaf.items + [brother.items[0]]), brother.(items := brother.items[1..]);
    var top := brother.items[0].key;
    assert MaxKey(left) == top;
    assert Node(m, leaf, 0, Lo(keys, i, lo), Some(keys[i]));
    assert Node(m, brother, 0, Some(keys[i]), Hi(keys, i + 1, hi));
    assert keys[i] < top < brother.items[1].key;
    assert Below(Lo(keys, i, lo), keys[i]);
    TwoKidsReplaced(m, keys, kids, i, top, left, right, 1, lo, hi);
  }

  lemma LeafMerge<V>(m: nat, keys: seq<int>, kids: seq<Tree<V>>, p: nat, merged: Tree<V>, lo: Option<int>, hi: Option<int>)
    requires m >= 3 && AllLeaves(keys, kids) && KidsOrdered(m, keys, kids, 1, lo, hi) && p < |keys|
    requires merged.Leaf? && merged.items == kids[p].items + kids[p + 1].items
    requires |kids[p].items| + |kids[p + 1].items| == |merged.items| && Sized(m, merged)
    requires forall j :: 0 <= j < |kids| && j != p && j != p + 1 ==> Sized(m, kids[j])
    ensures ShrunkOk(m, keys, Tell(DropKey(keys, p + 1), kids[..p] + [merged] + kids[p + 2..], p), 1, lo, hi)
  {
    assert Node(m, kids[p], 0, Lo(keys, p, lo), Some(keys[p]));
    assert Node(m, kids[p + 1], 0, Some(keys[p]), Hi(keys, p + 1, hi));
    JoinItems(kids[p].items, kids[p + 1].items, keys[p], Lo(keys, p, lo), Hi(keys, p + 1, hi));
    MergeOk(m, keys, kids, p, merged, 1, lo, hi);
  }

  ghost predicate CanBorrow<V>(m: nat, keys: seq<int>, kids: seq<Tree<V>>, i: nat)
    requires i < |kids| == |keys| + 1
  {
    (i > 0 && Size(kids[i - 1]) > MinKeys(m)) || (i < |keys| && Size(kids[i + 1]) > MinKeys(m))
  }

  lemma FixLeafFromLeft<V>(m: nat, keys: seq<int>, kids: seq<Tree<V>>, i: nat, index: nat, lo: Option<int>, hi: Option<int>)
    requires m >= 3 && AllLeaves(keys, kids) && KidsOrdered(m, keys, kids, 1, lo, hi) && SizedBut(m, kids, i)
    requires |kids[i].items| < MinKeys(m) && i > 0 && |kids[i - 1].items| > MinKeys(m)
    ensures ShrunkOk(m, keys, FixLeaf(m, keys, kids, i, index), 1, lo, hi)
  {
    LeafRotateLeft(m, keys, kids, i, lo, hi);
    var brother, leaf := kids[i - 1], kids[i];
    var n := |brother.items| - 1;
    var kids' := kids[i - 1 := brother.(items := brother.items[..n])][i := leaf.(items := [brother.items[n]] + leaf.items)];
    ToldTwice(m, keys, kids', i, index == |leaf.items|, lo, hi);
  }

  lemma FixLeafFromRight<V>(m: nat, keys: seq<int>, kids: seq<Tree<V>>, i: nat, index: nat, lo: Option<int>, hi: Option<int>)
    requires m >= 3 && AllLeaves(keys, kids) && KidsOrdered(m, keys, kids, 1, lo, hi) && SizedBut(m, kids, i)
    requires |kids[i].items| < MinKeys(m) && !(i > 0 && |kids[i - 1].items| > MinKeys(m))
    requires i < |keys| && |kids[i + 1].items| > MinKeys(m)
    ensures ShrunkOk(m, keys, FixLeaf(m, keys, kids, i, index), 1, lo, hi)
  {
    LeafRotateRight(m, keys, kids, i, lo, hi);
  }

  lemma FixLeafBorrows<V>(m: nat, keys: seq<int>, kids: seq<Tree<V>>, i: nat, index: nat, lo: Option<int>, hi: Option<int>)
    requires m >= 3 && AllLeaves(keys, kids) && KidsOrdered(m, keys, kids, 1, lo, hi) && SizedBut(m, kids, i)
    requires |kids[i].items| < MinKeys(m) && CanBorrow(m, keys, kids, i)
    ensures ShrunkOk(m, keys, FixLeaf(m, keys, kids, i, index), 1, lo, hi)
  {
    if i > 0 && |kids[i - 1].items| > MinKeys(m) {
      FixLeafFromLeft(m, keys, kids, i, index, lo, hi);
    } else {
      FixLeafFromRight(m, keys, kids, i, index, lo, hi);
    }
  }

  lemma FixLeafIntoLeft<V>(m: nat, keys: seq<int>, kids: seq<Tree<V>>, i: nat, index: nat, lo: Option<int>, hi: Option<int>)
    requires m >= 3 && AllLeaves(keys, kids) && KidsOrdered(m, keys, kids, 1, lo, hi) && SizedBut(m, kids, i)
    requires |keys| >= 1 && |kids[i].items| < MinKeys(m) && !CanBorrow(m, keys, kids, i) && i > 0
    ensures ShrunkOk(m, keys, FixLeaf(m, keys, kids, i, index), 1, lo, hi)
  {
    assert Sized(m, kids[i - 1]);
    var merged := kids[i - 1].(items := kids[i - 1].items + kids[i].items, right := kids[i].right);
    LeafMerge(m, keys, kids, i - 1, merged, lo, hi);
  }

  lemma FixLeafMerges<V>(m: nat, keys: seq<int>, kids: seq<Tree<V>>, i: nat, index: nat, lo: Option<int>, hi: Option<int>)
    requires m >= 3 && AllLeaves(keys, kids) && KidsOrdered(m, keys, kids, 1, lo, hi) && SizedBut(m, kids, i)
    requires |keys| >= 1 && |kids[i].items| < MinKeys(m) && !CanBorrow(m, keys, kids, i)
    ensures ShrunkOk(m, keys, FixLeaf(m, keys, kids, i, index), 1, lo, hi)
  {
    if i > 0 {
      FixLeafIntoLeft(m, keys, kids, i, index, lo, hi);
    } else {
      assert Sized(m, kids[i + 1]);
      var merged := kids[i].(items := kids[i].items + kids[i + 1].items, right := kids[i + 1].right);
      LeafMerge(m, keys, kids, i, merged, lo, hi);
    }
  }

  lemma FixLeafOk<V>(m: nat, keys: seq<int>, kids: seq<Tree<V>>, i: nat, index: nat, lo: Option<int>, hi: Option<int>)
    requires m >= 3 && AllLeaves(keys, kids) && KidsOrdered(m, keys, kids, 1, lo, hi) && SizedBut(m, kids, i)
    requires |keys| >= 1
    ensures ShrunkOk(m, keys, FixLeaf(m, keys, kids, i, index), 1, lo, hi)
  {
    if |kids[i].items| >= MinKeys(m) {
      if i < |keys| {
        TellKeeps(m, keys, kids, i, 1, lo, hi);
      }
    } else if CanBorrow(m, keys, kids, i) {
      FixLeafBorrows(m, keys, kids, i, index, lo, hi);
    } else {
      FixLeafMerges(m, keys, kids, i, index, lo, hi);
    }
  }

  // ---------------------------------------------------------------- inner nodes

  lemma InnerRotateLeft<V>(m: nat, keys: seq<int>, kids: seq<Tree<V>>, i: nat, h: nat, lo: Option<int>, hi: Option<int>)
    requires m >= 3 && AllInner(keys, kids, h) && KidsOrdered(m, keys, kids, h, lo, hi) && SizedBut(m, kids, i)
    requires 0 < i && |kids[i].keys| < MinKeys(m) < |kids[i - 1].keys|
    ensures var brother, check := kids[i - 1], kids[i];
            var n := |brother.keys| - 1;
            var check' := Inner([keys[i - 1]] + check.keys, [brother.kids[n + 1]] + check.kids);
            var kids' := kids[i - 1 := Inner(brother.keys[..n], brother.kids[..n + 1])][i := check'];
            KidsOrdered(m, keys[i - 1 := brother.keys[n]], kids', h, lo, hi) && AllSized(m, kids')
  {
    var brother, check := kids[i - 1], kids[i];
    var n := |brother.keys| - 1;
    var sep, mid := brother.keys[n], keys[i - 1];
    var blo, chi := Lo(keys, i - 1, lo), Hi(keys, i, hi);
    assert Node(m, brother, h - 1, blo, Some(mid)) && Node(m, check, h - 1, Some(mid), chi);
    assert Upto(mid, hi) && (i < |keys| ==> mid < keys[i]);
    HeadMoved(m, brother, mid, check, h - 1, blo, chi);
    TwoKidsReplaced(m, keys, kids, i - 1, sep, Inner(brother.keys[..n], brother.kids[..n + 1]),
                    Inner([mid] + check.keys, [brother.kids[n + 1]] + check.kids), h, lo, hi);
  }

  /** The last child of `a` goes in front of `b`; the separator between them goes down with it. */
  lemma HeadMoved<V>(m: nat, a: Tree<V>, mid: int, b: Tree<V>, h: nat, lo: Option<int>, hi: Option<int>)
    requires a.Inner? && b.Inner? && Node(m, a, h, lo, Some(mid)) && Node(m, b, h, Some(mid), hi)
    requires m >= 3 && h > 0 && |a.kids| == |a.keys| + 1 >= 2 && |b.kids| == |b.keys| + 1 && Below(lo, mid) && Upto(mid, hi)
    ensures var n := |a.keys| - 1;
            && Node(m, Inner(a.keys[..n], a.kids[..n + 1]), h, lo, Some(a.keys[n]))
            && Node(m, Inner([mid] + b.keys, [a.kids[n + 1]] + b.kids), h, Some(a.keys[n]), hi)
            && Below(lo, a.keys[n]) && a.keys[n] < mid
  {
    var n := |a.keys| - 1;
    MaxKeyBounds(m, a, h, lo, Some(mid));
    assert Node(m, a.kids[n + 1], h - 1, Lo(a.keys, n + 1, lo), Hi(a.keys, n + 1, Some(mid)));
    WithoutLastKid(m, a, h, lo, Some(mid));
    KidInFront(m, a.kids[n + 1], mid, b, a.keys[n], h, hi);
  }

  lemma WithoutLastKid<V>(m: nat, a: Tree<V>, h: nat, lo: Option<int>, hi: Option<int>)
    requires a.Inner? && Node(m, a, h, lo, hi) && h > 0 && |a.kids| == |a.keys| + 1 >= 2
    ensures var n := |a.keys| - 1; Node(m, Inner(a.keys[..n], a.kids[..n + 1]), h, lo, Some(a.keys[n]))
  {
    var n := |a.keys| - 1;
    var keys, kids := a.keys[..n], a.kids[..n + 1];
    forall j | 0 <= j < |kids| ensures Node(m, kids[j], h - 1, Lo(keys, j, lo), Hi(keys, j, Some(a.keys[n]))) {
      assert Node(m, a.kids[j], h - 1, Lo(a.keys, j, lo), Hi(a.keys, j, hi));
    }
    assert AllSized(m, kids);
  }

  lemma KidInFront<V>(m: nat, kid: Tree<V>, mid: int, b: Tree<V>, sep: int, h: nat, hi: Option<int>)
    requires b.Inner? && Node(m, b, h, Some(mid), hi) && h > 0 && |b.kids| == |b.keys| + 1
    requires Node(m, kid, h - 1, Some(sep), Some(mid)) && Sized(m, kid) && sep < mid && Upto(mid, hi)
    ensures Node(m, Inner([mid] + b.keys, [kid] + b.kids), h, Some(sep), hi)
  {
    var keys, kids := [mid] + b.keys, [kid] + b.kids;
    forall j | 0 <= j < |kids| ensures Node(m, kids[j], h - 1, Lo(keys, j, Some(sep)), Hi(keys, j, hi)) {
      if j > 0 {
        assert Node(m, b.kids[j - 1], h - 1, Lo(b.keys, j - 1, Some(mid)), Hi(b.keys, j - 1, hi));
      }
    }
    assert AllSized(m, kids);
  }

  lemma InnerRotateRight<V>(m: nat, keys: seq<int>, kids: seq<Tree<V>>, i: nat, h: nat, lo: Option<int>, hi: Option<int>)
    requires m >= 3 && AllInner(keys, kids, h) && KidsOrdered(m, keys, kids, h, lo, hi) && SizedBut(m, kids, i)
    requires i < |keys| && |kids[i].keys| < MinKeys(m) < |kids[i + 1].keys|
    ensures var brother, check := kids[i + 1], kids[i];
            var check' := Inner(check.keys + [keys[i]], check.kids + [brother.kids[0]]);
            var kids' := kids[i := check'][i + 1 := Inner(brother.keys[1..], brother.kids[1..])];
            KidsOrdered(m, keys[i := brother.keys[0]], kids', h, lo, hi) && AllSized(m, kids')
  {
    var brother, check := kids[i + 1], kids[i];
    var sep, mid := brother.keys[0], keys[i];
    var clo, bhi := Lo(keys, i, lo), Hi(keys, i + 1, hi);
    assert Node(m, check, h - 1, clo, Some(mid)) && Node(m, brother, h - 1, Some(mid), bhi);
    assert Below(clo, mid) && Upto(mid, bhi);
    TailMoved(m, check, mid, brother, h - 1, clo, bhi);
    TwoKidsReplaced(m, keys, kids, i, sep, Inner(check.keys + [mid], check.kids + [brother.kids[0]]),
                    Inner(brother.keys[1..], brother.kids[1..]), h, lo, hi);
  }

  /** The first child of `b` goes behind `a`; the separator between them goes down with it. */
  lemma TailMoved<V>(m: nat, a: Tree<V>, mid: int, b: Tree<V>, h: nat, lo: Option<int>, hi: Option<int>)
    requires a.Inner? && b.Inner? && Node(m, a, h, lo, Some(mid)) && Node(m, b, h, Some(mid), hi)
    requires m >= 3 && h > 0 && |a.kids| == |a.keys| + 1 && |b.kids| == |b.keys| + 1 >= 2 && Below(lo, mid) && Upto(mid, hi)
    ensures && Node(m, Inner(a.keys + [mid], a.kids + [b.kids[0]]), h, lo, Some(b.keys[0]))
            && Node(m, Inner(b.keys[1..], b.kids[1..]), h, Some(b.keys[0]), hi)
            && mid < b.keys[0] && (hi.Some? ==> b.keys[0] < hi.value)
  {
    MaxKeyBounds(m, b, h, Some(mid), hi);
    assert Node(m, b.kids[0], h - 1, Lo(b.keys, 0, Some(mid)), Hi(b.keys, 0, hi));
    KidBehind(m, a, mid, b.kids[0], b.keys[0], h, lo);
    WithoutFirstKid(m, b, h, Some(mid), hi);
  }

  lemma KidBehind<V>(m: nat, a: Tree<V>, mid: int, kid: Tree<V>, sep: int, h: nat, lo: Option<int>)
    requires a.Inner? && Node(m, a, h, lo, Some(mid)) && m >= 3 && h > 0 && |a.kids| == |a.keys| + 1
    requires Node(m, kid, h - 1, Some(mid), Some(sep)) && Sized(m, kid) && Below(lo, mid) && mid < sep
    ensures Node(m, Inner(a.keys + [mid], a.kids + [kid]), h, lo, Some(sep))
  {
    MaxKeyBounds(m, a, h, lo, Some(mid));
    var keys, kids := a.keys + [mid], a.kids + [kid];
    forall j | 0 <= j < |kids| ensures Node(m, kids[j], h - 1, Lo(keys, j, lo), Hi(keys, j, Some(sep))) {
      if j < |a.kids| {
        assert Node(m, a.kids[j], h - 1, Lo(a.keys, j, lo), Hi(a.keys, j, Some(mid)));
      }
    }
    assert AllSized(m, kids);
  }

  lemma WithoutFirstKid<V>(m: nat, b: Tree<V>, h: nat, lo: Option<int>, hi: Option<int>)
    requires b.Inner? && Node(m, b, h, lo, hi) && h > 0 && |b.kids| == |b.keys| + 1 >= 2
    ensures Node(m, Inner(b.keys[1..], b.kids[1..]), h, Some(b.keys[0]), hi)
  {
    var keys, kids := b.keys[1..], b.kids[1..];
    forall j | 0 <= j < |kids| ensures Node(m, kids[j], h - 1, Lo(keys, j, Some(b.keys[0])), Hi(keys, j, hi)) {
      assert Node(m, b.kids[j + 1], h - 1, Lo(b.keys, j + 1, lo), Hi(b.keys, j + 1, hi));
    }
    assert AllSized(m, kids);
  }

  /** The children of two neighbours under the separators of both, with the one between them. */
  lemma KidsAppended<V>(m: nat, a: Tree<V>, mid: int, b: Tree<V>, h: nat, lo: Option<int>, hi: Option<int>)
    requires a.Inner? && b.Inner? && Node(m, a, h, lo, Some(mid)) && Node(m, b, h, Some(mid), hi)
    requires m >= 3 && h > 0 && Below(lo, mid) && Upto(mid, hi)
    ensures KidsOrdered(m, a.keys + [mid] + b.keys, a.kids + b.kids, h, lo, hi) && AllSized(m, a.kids + b.kids)
  {
    var keys, kids := a.keys + [mid] + b.keys, a.kids + b.kids;
    MaxKeyBounds(m, a, h, lo, Some(mid));
    MidSorted(a.keys, mid, b.keys);
    forall j | 0 <= j < |kids| ensures Node(m, kids[j], h - 1, Lo(keys, j, lo), Hi(keys, j, hi)) {
      if j < |a.kids| {
        assert Node(m, a.kids[j], h - 1, Lo(a.keys, j, lo), Hi(a.keys, j, Some(mid)));
      } else {
        var k := j - |a.kids|;
        assert Node(m, b.kids[k], h - 1, Lo(b.keys, k, Some(mid)), Hi(b.keys, k, hi));
      }
    }
  }

  lemma MidSorted(a: seq<int>, mid: int, b: seq<int>)
    requires SortedKeys(a) && SortedKeys(b)
    requires (forall i :: 0 <= i < |a| ==> a[i] < mid) && (forall i :: 0 <= i < |b| ==> mid < b[i])
    ensures SortedKeys(a + [mid] + b)
  {
  }

  /** Separators `from` .. `n - 1` told their children's largest keys. */
  ghost predicate ToldFrom<V>(keys: seq<int>, kids: seq<Tree<V>>, from: nat, n: nat, keys': seq<int>)
  {
    && |kids| == |keys| + 1 == |keys'| + 1
    && forall j :: 0 <= j < |keys| ==> keys'[j] == if from <= j < n then MaxKey(kids[j]) else keys[j]
  }

  lemma {:induction false} ToldFromKeeps<V>(m: nat, keys: seq<int>, kids: seq<Tree<V>>, from: nat, n: nat, keys': seq<int>,
                                            h: nat, lo: Option<int>, hi: Option<int>)
    requires m >= 3 && KidsOrdered(m, keys, kids, h, lo, hi) && AllSized(m, kids)
    requires from <= n <= |keys| && ToldFrom(keys, kids, from, n, keys')
    ensures KidsOrdered(m, keys', kids, h, lo, hi)
    decreases n
  {
    if n == from {
      assert keys' == keys;
    } else {
      var before := keys'[n - 1 := keys[n - 1]];
      ToldFromKeeps(m, keys, kids, from, n - 1, before, h, lo, hi);
      assert Sized(m, kids[n - 1]);
      TellKeeps(m, before, kids, n - 1, h, lo, hi);
      assert keys' == before[n - 1 := MaxKey(kids[n - 1])];
    }
  }

  lemma MergeInnerOk<V>(m: nat, a: Tree<V>, mid: int, b: Tree<V>, h: nat, lo: Option<int>, hi: Option<int>)
    requires m >= 3 && h > 0 && a.Inner? && b.Inner? && Node(m, a, h, lo, Some(mid)) && Node(m, b, h, Some(mid), hi)
    requires Below(lo, mid) && Upto(mid, hi) && |a.kids| == |a.keys| + 1 && |b.kids| == |b.keys| + 1
    ensures Node(m, MergeInner(a, b), h, lo, hi)
  {
    var keys, kids := a.keys + [mid] + b.keys, a.kids + b.kids;
    KidsAppended(m, a, mid, b, h, lo, hi);
    ToldFromKeeps(m, keys, kids, |a.keys|, |keys|, MergeInner(a, b).keys, h, lo, hi);
  }

  lemma InnerMerge<V>(m: nat, keys: seq<int>, kids: seq<Tree<V>>, p: nat, h: nat, lo: Option<int>, hi: Option<int>)
    requires m >= 3 && AllInner(keys, kids, h) && KidsOrdered(m, keys, kids, h, lo, hi) && p < |keys|
    requires MinKeys(m) <= |kids[p].keys| + |kids[p + 1].keys| + 1 < m
    requires forall j :: 0 <= j < |kids| && j != p && j != p + 1 ==> Sized(m, kids[j])
    ensures ShrunkOk(m, keys, Tell(DropKey(keys, p + 1), kids[..p] + [MergeInner(kids[p], kids[p + 1])] + kids[p + 2..], p), h, lo, hi)
  {
    var a, b := kids[p], kids[p + 1];
    assert Node(m, a, h - 1, Lo(keys, p, lo), Some(keys[p])) && Node(m, b, h - 1, Some(keys[p]), Hi(keys, p + 1, hi));
    MergeInnerOk(m, a, keys[p], b, h - 1, Lo(keys, p, lo), Hi(keys, p + 1, hi));
    MergeOk(m, keys, kids, p, MergeInner(a, b), h, lo, hi);
  }

  lemma FixInnerOk<V>(m: nat, keys: seq<int>, kids: seq<Tree<V>>, i: nat, h: nat, lo: Option<int>, hi: Option<int>)
    requires m >= 3 && AllInner(keys, kids, h) && KidsOrdered(m, keys, kids, h, lo, hi) && SizedBut(m, kids, i)
    requires |keys| >= 1
    ensures ShrunkOk(m, keys, FixInner(m, keys, kids, i, h), h, lo, hi)
  {
    if |kids[i].keys| >= MinKeys(m) {
    } else if i > 0 && |kids[i - 1].keys| > MinKeys(m) {
      InnerRotateLeft(m, keys, kids, i, h, lo, hi);
    } else if i < |keys| && |kids[i + 1].keys| > MinKeys(m) {
      InnerRotateRight(m, keys, kids, i, h, lo, hi);
    } else if i > 0 {
      assert Sized(m, kids[i - 1]);
      InnerMerge(m, keys, kids, i - 1, h, lo, hi);
    } else {
      assert Sized(m, kids[i + 1]);
      InnerMerge(m, keys, kids, i, h, lo, hi);
    }
  }

  // ---------------------------------------------------------------- the whole tree

  lemma WithoutSorted<V>(items: seq<Item<V>>, index: nat, lo: Option<int>, hi: Option<int>)
    requires SortedItems(items) && Within(items, lo, hi) && index < |items|
    ensures SortedItems(Without(items, index)) && Within(Without(items, index), lo, hi)
    ensures |Without(items, index)| == |items| - 1
  {
    DroppedConcat(items, index);
  }

  lemma {:induction false} ShrinkOk<V>(m: nat, t: Tree<V>, key: int, h: nat, lo: Option<int>, hi: Option<int>)
    requires m >= 3 && t.Inner? && Node(m, t, h, lo, hi) && 1 <= |t.keys| < m
    ensures Uniform(t, h)
    ensures var r := Shrink(m, t, key, h); r.Some? ==> ShrunkOk(m, t.keys, r.value, h, lo, hi)
    decreases h
  {
    NodeUniform(m, t, h, lo, hi);
    UniformKids(t, h);
    var keys, kids := t.keys, t.kids;
    var i := Route(keys, 0, key);
    assert Sized(m, kids[i]);
    if kids[i].Leaf? {
      var Leaf(id, items, right) := kids[i];
      var index := IndexOf(items, 0, key);
      if index < |items| {
        WithoutSorted(items, index, Lo(keys, i, lo), Hi(keys, i, hi));
        var kids' := kids[i := Leaf(id, Without(items, index), right)];
        KidShrunk(m, keys, kids, i, kids'[i], h, lo, hi);
        FixLeafOk(m, keys, kids', i, index, lo, hi);
      }
    } else {
      ShrinkOk(m, kids[i], key, h - 1, Lo(keys, i, lo), Hi(keys, i, hi));
      match Shrink(m, kids[i], key, h - 1) {
        case None =>
        case Some(Shrunk(node, climb)) =>
          KidShrunk(m, keys, kids, i, node, h, lo, hi);
          if climb && i < |keys| {
            TellKeeps(m, keys, kids[i := node], i, h, lo, hi);
          }
          var told := if climb then Tell(keys, kids[i := node], i) else Shrunk(Inner(keys, kids[i := node]), false);
          FixInnerOk(m, told.node.keys, kids[i := node], i, h, lo, hi);
      }
    }
  }

  lemma KidShrunk<V>(m: nat, keys: seq<int>, kids: seq<Tree<V>>, i: nat, node: Tree<V>, h: nat, lo: Option<int>, hi: Option<int>)
    requires KidsOrdered(m, keys, kids, h, lo, hi) && AllSized(m, kids) && i < |kids|
    requires Node(m, node, h - 1, Lo(keys, i, lo), Hi(keys, i, hi))
    requires Size(kids[i]) - 1 <= Size(node) <= Size(kids[i])
    ensures KidsOrdered(m, keys, kids[i := node], h, lo, hi) && SizedBut(m, kids[i := node], i)
  {
    assert Sized(m, kids[i]);
  }

  lemma OnlyKid<V>(m: nat, t: Tree<V>, h: nat)
    requires m >= 3 && t.Inner? && t.keys == [] && Node(m, t, h, None, None)
    ensures h > 0 && |t.kids| == 1 && Root(m, t.kids[0], h - 1)
  {
    assert KidsOrdered(m, t.keys, t.kids, h, None, None);
    assert Sized(m, t.kids[0]);
    assert Node(m, t.kids[0], h - 1, Lo(t.keys, 0, None), Hi(t.keys, 0, None));
  }

  /** `bpt_item_del` keeps the shape; the tree loses a level only when the root is left with one child. */
  lemma DeleteKeepsShape<V>(m: nat, root: Tree<V>, key: int, h: nat)
    requires m >= 3 && Root(m, root, h)
    ensures Uniform(root, h)
    ensures var r := Delete(m, root, key, h);
            r.Some? ==> Root(m, r.value, h) || (h > 0 && Root(m, r.value, h - 1))
  {
    NodeUniform(m, root, h, None, None);
    if root.Leaf? {
      var index := IndexOf(root.items, 0, key);
      if index < |root.items| {
        WithoutSorted(root.items, index, None, None);
      }
    } else {
      ShrinkOk(m, root, key, h, None, None);
      match Shrink(m, root, key, h) {
        case None =>
        case Some(s) =>
          if s.node.keys == [] {
            OnlyKid(m, s.node, h);
          }
      }
    }
  }
}
