/**
 * The shape every B+ tree operation keeps: all leaves at one depth, every node but the root at least
 * half full and none too large, keys in order, and every separator at or above the keys to its left
 * and below the keys to its right.
 */
module BPlusTreeShape {
  import opened BPlusTree
  import opened Options

  ghost predicate Below(lo: Option<int>, key: int)
  {
    lo.Some? ==> lo.value < key
  }

  ghost predicate Upto(key: int, hi: Option<int>)
  {
    hi.Some? ==> key <= hi.value
  }

  ghost predicate SortedKeys(keys: seq<int>)
  {
    forall i, j :: 0 <= i < j < |keys| ==> keys[i] < keys[j]
  }

  ghost predicate SortedItems<V>(items: seq<Item<V>>)
  {
    forall i, j :: 0 <= i < j < |items| ==> items[i].key < items[j].key
  }

  ghost predicate Within<V>(items: seq<Item<V>>, lo: Option<int>, hi: Option<int>)
  {
    forall i :: 0 <= i < |items| ==> Below(lo, items[i].key) && Upto(items[i].key, hi)
  }

  /** The bounds the separators put on child `i`. */
  ghost function Lo(keys: seq<int>, i: nat, lo: Option<int>): (r: Option<int>)
    requires i <= |keys|
  {
    if i == 0 then lo else Some(keys[i - 1])
  }

  ghost function Hi(keys: seq<int>, i: nat, hi: Option<int>): (r: Option<int>)
    requires i <= |keys|
  {
    if i == |keys| then hi else Some(keys[i])
  }

  /** At least half full, and at most m - 1 keys, which for an inner node is m children. */
  ghost predicate Sized<V>(m: nat, t: Tree<V>)
  {
    MinKeys(m) <= Size(t) < m
  }

  /** A subtree of height `h` with all its keys in (lo, hi]; its own number of keys is left open. */
  ghost predicate Node<V>(m: nat, t: Tree<V>, h: nat, lo: Option<int>, hi: Option<int>)
    decreases h, 1
  {
    match t
    case Leaf(_, items, _) => h == 0 && SortedItems(items) && Within(items, lo, hi)
    case Inner(keys, kids) =>
      KidsOrdered(m, keys, kids, h, lo, hi) && AllSized(m, kids)
  }

  ghost predicate KidsOrdered<V>(m: nat, keys: seq<int>, kids: seq<Tree<V>>, h: nat, lo: Option<int>, hi: Option<int>)
    decreases h, 0
  {
    && h > 0 && |kids| == |keys| + 1 && SortedKeys(keys)
    && (forall i :: 0 <= i < |keys| ==> Below(lo, keys[i]) && Upto(keys[i], hi))
    && (forall i :: 0 <= i < |kids| ==> Node(m, kids[i], h - 1, Lo(keys, i, lo), Hi(keys, i, hi)))
  }

  ghost predicate AllSized<V>(m: nat, kids: seq<Tree<V>>)
  {
    forall i :: 0 <= i < |kids| ==> Sized(m, kids[i])
  }

  /** The whole tree: the root may be nearly empty, but an inner root has two children. */
  ghost predicate Root<V>(m: nat, t: Tree<V>, h: nat)
  {
    Node(m, t, h, None, None) && Size(t) < m && (t.Inner? ==> Size(t) >= 1)
  }

  lemma {:induction false} NodeUniform<V>(m: nat, t: Tree<V>, h: nat, lo: Option<int>, hi: Option<int>)
    requires Node(m, t, h, lo, hi)
    ensures Uniform(t, h)
    decreases h
  {
    if t.Inner? {
      forall i | 0 <= i < |t.kids| ensures Uniform(t.kids[i], h - 1) {
        NodeUniform(m, t.kids[i], h - 1, Lo(t.keys, i, lo), Hi(t.keys, i, hi));
      }
    }
  }

  ghost predicate Wider(lo: Option<int>, lo': Option<int>, hi: Option<int>, hi': Option<int>)
  {
    && (lo'.Some? ==> lo.Some? && lo'.value <= lo.value)
    && (hi'.Some? ==> hi.Some? && hi.value <= hi'.value)
  }

  lemma {:induction false} Widen<V>(m: nat, t: Tree<V>, h: nat, lo: Option<int>, hi: Option<int>, lo': Option<int>, hi': Option<int>)
    requires Node(m, t, h, lo, hi) && Wider(lo, lo', hi, hi')
    ensures Node(m, t, h, lo', hi')
    decreases h
  {
    if t.Inner? {
      forall i | 0 <= i < |t.kids| ensures Node(m, t.kids[i], h - 1, Lo(t.keys, i, lo'), Hi(t.keys, i, hi')) {
        Widen(m, t.kids[i], h - 1, Lo(t.keys, i, lo), Hi(t.keys, i, hi), Lo(t.keys, i, lo'), Hi(t.keys, i, hi'));
      }
    }
  }

  /** The largest key lies within the bounds, above all separators, and may serve as the upper bound. */
  lemma {:induction false} MaxKeyBounds<V>(m: nat, t: Tree<V>, h: nat, lo: Option<int>, hi: Option<int>)
    requires m >= 3 && Node(m, t, h, lo, hi) && (t.Leaf? ==> t.items != [])
    ensures Below(lo, MaxKey(t)) && Upto(MaxKey(t), hi)
    ensures Node(m, t, h, lo, Some(MaxKey(t)))
    ensures t.Inner? ==> forall i :: 0 <= i < |t.keys| ==> t.keys[i] < MaxKey(t)
    decreases h
  {
    if t.Inner? {
      var n := |t.keys|;
      assert Sized(m, t.kids[n]);
      MaxKeyBounds(m, t.kids[n], h - 1, Lo(t.keys, n, lo), hi);
      forall i | 0 <= i < |t.kids|
        ensures Node(m, t.kids[i], h - 1, Lo(t.keys, i, lo), Hi(t.keys, i, Some(MaxKey(t))))
      {
        assert Node(m, t.kids[i], h - 1, Lo(t.keys, i, lo), Hi(t.keys, i, hi));
      }
    }
  }

  /** Replacing the separator of child `i` by the largest key below that child. */
  lemma TellKeeps<V>(m: nat, keys: seq<int>, kids: seq<Tree<V>>, i: nat, h: nat, lo: Option<int>, hi: Option<int>)
    requires m >= 3 && KidsOrdered(m, keys, kids, h, lo, hi) && i < |keys|
    requires kids[i].Leaf? ==> kids[i].items != []
    ensures KidsOrdered(m, keys[i := MaxKey(kids[i])], kids, h, lo, hi)
  {
    var top := MaxKey(kids[i]);
    var keys' := keys[i := top];
    MaxKeyBounds(m, kids[i], h - 1, Lo(keys, i, lo), Hi(keys, i, hi));
    Widen(m, kids[i + 1], h - 1, Lo(keys, i + 1, lo), Hi(keys, i + 1, hi), Some(top), Hi(keys, i + 1, hi));
    forall j | 0 <= j < |kids| ensures Node(m, kids[j], h - 1, Lo(keys', j, lo), Hi(keys', j, hi)) {
      assert Node(m, kids[j], h - 1, Lo(keys, j, lo), Hi(keys, j, hi));
    }
  }

  /** The children left and right of a separator, under the separators on their side. */
  lemma SplitKids<V>(m: nat, keys: seq<int>, kids: seq<Tree<V>>, cut: nat, h: nat, lo: Option<int>, hi: Option<int>)
    requires KidsOrdered(m, keys, kids, h, lo, hi) && cut < |keys|
    ensures KidsOrdered(m, keys[..cut], kids[..cut + 1], h, lo, Some(keys[cut]))
    ensures KidsOrdered(m, keys[cut + 1..], kids[cut + 1..], h, Some(keys[cut]), hi)
  {
    KidsBefore(m, keys, kids, cut, h, lo, hi);
    KidsBehind(m, keys, kids, cut, h, lo, hi);
  }

  lemma KidsBefore<V>(m: nat, keys: seq<int>, kids: seq<Tree<V>>, cut: nat, h: nat, lo: Option<int>, hi: Option<int>)
    requires KidsOrdered(m, keys, kids, h, lo, hi) && cut < |keys|
    ensures KidsOrdered(m, keys[..cut], kids[..cut + 1], h, lo, Some(keys[cut]))
  {
    var lk, lc := keys[..cut], kids[..cut + 1];
    forall j | 0 <= j < |lc| ensures Node(m, lc[j], h - 1, Lo(lk, j, lo), Hi(lk, j, Some(keys[cut]))) {
      assert Node(m, kids[j], h - 1, Lo(keys, j, lo), Hi(keys, j, hi));
    }
  }

  lemma KidsBehind<V>(m: nat, keys: seq<int>, kids: seq<Tree<V>>, cut: nat, h: nat, lo: Option<int>, hi: Option<int>)
    requires KidsOrdered(m, keys, kids, h, lo, hi) && cut < |keys|
    ensures KidsOrdered(m, keys[cut + 1..], kids[cut + 1..], h, Some(keys[cut]), hi)
  {
    var rk, rc := keys[cut + 1..], kids[cut + 1..];
    forall j | 0 <= j < |rc| ensures Node(m, rc[j], h - 1, Lo(rk, j, Some(keys[cut])), Hi(rk, j, hi)) {
      var k := cut + 1 + j;
      assert Node(m, kids[k], h - 1, Lo(keys, k, lo), Hi(keys, k, hi));
    }
  }

  /** Items below a separator followed by items above it. */
  lemma JoinItems<V>(a: seq<Item<V>>, b: seq<Item<V>>, mid: int, lo: Option<int>, hi: Option<int>)
    requires SortedItems(a) && Within(a, lo, Some(mid)) && SortedItems(b) && Within(b, Some(mid), hi)
    requires Below(lo, mid) && Upto(mid, hi)
    ensures SortedItems(a + b) && Within(a + b, lo, hi)
  {
  }
}
