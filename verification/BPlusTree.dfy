/**
 * The B+ tree of libnemea-common: what its operations do to the nodes, branch by branch.
 * A node has at most `m` children; keys are ranks in the caller's order.
 */
module BPlusTree {
  import opened Options
  import opened Sequences

  datatype Item<V> = Item(key: int, value: V)

  /**
   * A leaf carries a name, so that the `right` links of the leaf chain can point to it.
   * `keys[i]` separates `kids[i]` from `kids[i + 1]`.
   */
  datatype Tree<V> =
    | Leaf(id: nat, items: seq<Item<V>>, right: Option<nat>)
    | Inner(keys: seq<int>, kids: seq<Tree<V>>)

  /** Fewest keys of a node that is not the root: half of `m - 1`. */
  function MinKeys(m: nat): (n: int)
    ensures 2 * n <= m - 1 <= 2 * n + 1
  {
    (m - 1) / 2
  }

  /** Number of keys in a node: the source's `count - 1`. */
  function Size<V>(t: Tree<V>): (n: nat)
  {
    if t.Leaf? then |t.items| else |t.keys|
  }

  /** All leaves at depth `h`, and every inner node with one child more than keys. */
  ghost predicate Uniform<V>(t: Tree<V>, h: nat)
  {
    match t
    case Leaf(_, _, _) => h == 0
    case Inner(keys, kids) =>
      h > 0 && |kids| == |keys| + 1 && forall i :: 0 <= i < |kids| ==> Uniform(kids[i], h - 1)
  }

  ghost predicate AllLeaves<V>(keys: seq<int>, kids: seq<Tree<V>>)
  {
    |kids| == |keys| + 1 && forall i :: 0 <= i < |kids| ==> kids[i].Leaf?
  }

  ghost predicate AllInner<V>(keys: seq<int>, kids: seq<Tree<V>>, h: nat)
  {
    && |kids| == |keys| + 1 && h > 1
    && forall i :: 0 <= i < |kids| ==>
         kids[i].Inner? && |kids[i].kids| == |kids[i].keys| + 1 && Uniform(kids[i], h - 1)
  }

  lemma UniformKids<V>(t: Tree<V>, h: nat)
    requires t.Inner?
    ensures Uniform(t, h) && h == 1 <==> AllLeaves(t.keys, t.kids) && h == 1
    ensures Uniform(t, h) && h > 1 <==> AllInner(t.keys, t.kids, h)
  {
    if Uniform(t, h) {
      forall i | 0 <= i < |t.kids|
        ensures Uniform(t.kids[i], h - 1)
        ensures if h == 1 then t.kids[i].Leaf? else t.kids[i].Inner? && |t.kids[i].kids| == |t.kids[i].keys| + 1
      {
      }
    }
  }

  /** `bpt_nd_rightmost_leaf` and the last key in it. */
  function MaxKey<V>(t: Tree<V>): (k: int)
  {
    match t
    case Leaf(_, items, _) => if items == [] then 0 else items[|items| - 1].key
    case Inner(_, kids) => if kids == [] then 0 else MaxKey(kids[|kids| - 1])
  }

  // ---------------------------------------------------------------- search

  /** `bpt_search_leaf`, one level: the first separator not below the key. */
  function Route(keys: seq<int>, from: nat, key: int): (i: nat)
    requires from <= |keys|
    ensures from <= i <= |keys|
    ensures forall j :: from <= j < i ==> keys[j] < key
    ensures i < |keys| ==> key <= keys[i]
    decreases |keys| - from
  {
    if from == |keys| || key <= keys[from] then from else Route(keys, from + 1, key)
  }

  /** `bpt_nd_index_key` */
  function IndexOf<V>(items: seq<Item<V>>, from: nat, key: int): (i: nat)
    requires from <= |items|
    ensures from <= i <= |items|
    ensures forall j :: from <= j < i ==> items[j].key != key
    ensures i < |items| ==> items[i].key == key
    decreases |items| - from
  {
    if from == |items| || items[from].key == key then from else IndexOf(items, from + 1, key)
  }

  function Search<V>(t: Tree<V>, key: int, ghost h: nat): (r: Option<V>)
    requires Uniform(t, h)
    decreases h
  {
    match t
    case Leaf(_, items, _) =>
      var i := IndexOf(items, 0, key);
      if i < |items| then Some(items[i].value) else None
    case Inner(keys, kids) => Search(kids[Route(keys, 0, key)], key, h - 1)
  }

  // ---------------------------------------------------------------- insertion

  /** Where the shifting loop of an insertion stops: everything from there on is larger. */
  function SlotFor(keys: seq<int>, key: int): (p: nat)
    ensures p <= |keys|
    ensures forall j :: p <= j < |keys| ==> keys[j] > key
    ensures p > 0 ==> keys[p - 1] <= key
  {
    if keys != [] && keys[|keys| - 1] > key then SlotFor(keys[..|keys| - 1], key) else |keys|
  }

  function KeysOf<V>(items: seq<Item<V>>): (keys: seq<int>)
    ensures |keys| == |items| && forall i :: 0 <= i < |items| ==> keys[i] == items[i].key
  {
    seq(|items|, i requires 0 <= i < |items| => items[i].key)
  }

  /**
   * What inserting below a node left behind: nothing, since the key was there; the node, with `corner`
   * set when the new key is the largest below it and no separator has been told yet; or two nodes.
   */
  datatype Grown<V> =
    | Present(value: V)
    | One(node: Tree<V>, corner: bool)
    | Two(left: Tree<V>, sep: int, right: Tree<V>)

  function GrowLeaf<V>(m: nat, id: nat, items: seq<Item<V>>, right: Option<nat>, item: Item<V>, name: nat): (g: Grown<V>)
  {
    var i := IndexOf(items, 0, item.key);
    if i < |items| then
      Present(items[i].value)
    else
      var p := SlotFor(KeysOf(items), item.key);
      SplitLeaf(m, id, items[..p] + [item] + items[p..], right, p == |items|, name)
  }

  /** A leaf with too many items is cut in two; the new right half, called `name`, is linked in behind it. */
  function SplitLeaf<V>(m: nat, id: nat, items: seq<Item<V>>, right: Option<nat>, corner: bool, name: nat): (g: Grown<V>)
  {
    if |items| + 1 <= m then
      One(Leaf(id, items, right), corner)
    else
      var half := |items| / 2;
      var left := Leaf(id, items[..half], Some(name));
      Two(left, MaxKey(left), Leaf(name, items[half..], right))
  }

  /** `bpt_ndin_insert`: nothing happens when the separator is already there. */
  function InsertSeparator<V>(keys: seq<int>, kids: seq<Tree<V>>, left: Tree<V>, sep: int, right: Tree<V>): (r: (seq<int>, seq<Tree<V>>))
    requires |kids| == |keys| + 1
    ensures |r.1| == |r.0| + 1
  {
    if sep in keys then (keys, kids)
    else
      var p := SlotFor(keys, sep);
      (keys[..p] + [sep] + keys[p..], kids[..p] + [left, right] + kids[p + 1..])
  }

  /** The rest of `bpt_ndin_insert_to_new_node`: a node with too many children is cut in two. */
  function SplitInner<V>(m: nat, keys: seq<int>, kids: seq<Tree<V>>): (g: Grown<V>)
    requires |kids| == |keys| + 1
  {
    if |kids| <= m then
      One(Inner(keys, kids), false)
    else
      var cut := |keys| / 2;
      if cut == |keys| then One(Inner(keys, kids), false) else
      Two(Inner(keys[..cut], kids[..cut + 1]), MaxKey(kids[cut]), Inner(keys[cut + 1..], kids[cut + 1..]))
  }

  function Grow<V>(m: nat, t: Tree<V>, item: Item<V>, name: nat, ghost h: nat): (g: Grown<V>)
    requires Uniform(t, h)
    decreases h
  {
    match t
    case Leaf(id, items, right) => GrowLeaf(m, id, items, right, item, name)
    case Inner(keys, kids) =>
      var i := Route(keys, 0, item.key);
      match Grow(m, kids[i], item, name, h - 1)
      case Present(v) => Present(v)
      case One(node, corner) =>
        // bpt_nd_check: the lowest ancestor in which the leaf is not under the last child is told
        if corner && i < |keys| then One(Inner(keys[i := item.key], kids[i := node]), false)
        else One(Inner(keys, kids[i := node]), corner)
      case Two(left, sep, right) =>
        var (keys', kids') := InsertSeparator(keys, kids, left, sep, right);
        SplitInner(m, keys', kids')
  }

  // ---------------------------------------------------------------- deletion

  /** A node after a deletion below it; `climb`: its largest key is still to be told to an ancestor. */
  datatype Shrunk<V> = Shrunk(node: Tree<V>, climb: bool)

  /** `bpt_nd_check` for the rightmost leaf under child `i`. */
  function Tell<V>(keys: seq<int>, kids: seq<Tree<V>>, i: nat): (r: Shrunk<V>)
    requires i < |kids| == |keys| + 1
    ensures r.node.Inner? && r.node.kids == kids && |r.node.keys| == |keys|
  {
    if i < |keys| then Shrunk(Inner(keys[i := MaxKey(kids[i])], kids), false)
    else Shrunk(Inner(keys, kids), true)
  }

  /** The separator lost when child `i` is merged away: its own, or the last one when it has none. */
  function DropKey(keys: seq<int>, i: nat): (r: seq<int>)
    requires |keys| > 0 && i <= |keys|
    ensures |r| == |keys| - 1
  {
    if i < |keys| then keys[..i] + keys[i + 1..] else keys[..|keys| - 1]
  }

  /** `bpt_ndlf_delete_from_tree` once the item is gone from leaf `i`; `index` is where it was. */
  function FixLeaf<V>(m: nat, keys: seq<int>, kids: seq<Tree<V>>, i: nat, index: nat): (r: Shrunk<V>)
    requires AllLeaves(keys, kids) && i < |kids|
    ensures r.node.Inner? && AllLeaves(r.node.keys, r.node.kids)
  {
    var leaf := kids[i];
    if |leaf.items| >= MinKeys(m) then
      Tell(keys, kids, i)
    else if i > 0 && |kids[i - 1].items| > MinKeys(m) && kids[i - 1].items != [] then
      // rotation from the left brother
      var brother := kids[i - 1];
      var n := |brother.items| - 1;
      var kids' := kids[i - 1 := brother.(items := brother.items[..n])]
                       [i := leaf.(items := [brother.items[n]] + leaf.items)];
      var told := Tell(keys, kids', i - 1).node;
      if index == |leaf.items| then Tell(told.keys, kids', i) else Shrunk(told, false)
    else if i < |keys| && |kids[i + 1].items| > MinKeys(m) && kids[i + 1].items != [] then
      // rotation from the right brother
      var brother := kids[i + 1];
      var kids' := kids[i := leaf.(items := leaf.items + [brother.items[0]])]
                       [i + 1 := brother.(items := brother.items[1..])];
      Tell(keys, kids', i)
    else if i > 0 then
      // merge with the left brother
      var brother := kids[i - 1];
      var merged := brother.(items := brother.items + leaf.items, right := leaf.right);
      Tell(DropKey(keys, i), kids[..i - 1] + [merged] + kids[i + 1..], i - 1)
    else if i < |keys| then
      // merge with the right brother
      var brother := kids[i + 1];
      var merged := leaf.(items := leaf.items + brother.items, right := brother.right);
      Tell(DropKey(keys, i + 1), kids[..i] + [merged] + kids[i + 2..], i)
    else
      Shrunk(Inner(keys, kids), false)
  }

  /**
   * Two neighbouring inner nodes in one. The separator between them and all those of the right one are
   * taken anew from the children, by `bpt_nd_check`.
   */
  function MergeInner<V>(a: Tree<V>, b: Tree<V>): (r: Tree<V>)
    requires a.Inner? && b.Inner? && |a.kids| == |a.keys| + 1 && |b.kids| == |b.keys| + 1
    ensures r.Inner? && r.kids == a.kids + b.kids && |r.keys| == |a.keys| + 1 + |b.keys|
  {
    var kids := a.kids + b.kids;
    Inner(seq(|kids| - 1, j requires 0 <= j < |kids| - 1 => if j < |a.keys| then a.keys[j] else MaxKey(kids[j])), kids)
  }

  /** Rotation: inner child `i` takes the last child of its left brother. */
  function FromLeftInner<V>(keys: seq<int>, kids: seq<Tree<V>>, i: nat, ghost h: nat): (r: Tree<V>)
    requires AllInner(keys, kids, h) && 0 < i < |kids| && |kids[i - 1].keys| > 0
    ensures r.Inner? && AllInner(r.keys, r.kids, h)
  {
    var check, brother := kids[i], kids[i - 1];
    var n := |brother.keys| - 1;
    var check' := Inner([keys[i - 1]] + check.keys, [brother.kids[n + 1]] + check.kids);
    Inner(keys[i - 1 := brother.keys[n]], kids[i - 1 := Inner(brother.keys[..n], brother.kids[..n + 1])][i := check'])
  }

  /** Rotation: inner child `i` takes the first child of its right brother. */
  function FromRightInner<V>(keys: seq<int>, kids: seq<Tree<V>>, i: nat, ghost h: nat): (r: Tree<V>)
    requires AllInner(keys, kids, h) && i < |keys| && |kids[i + 1].keys| > 0
    ensures r.Inner? && AllInner(r.keys, r.kids, h)
  {
    var check, brother := kids[i], kids[i + 1];
    var check' := Inner(check.keys + [keys[i]], check.kids + [brother.kids[0]]);
    Inner(keys[i := brother.keys[0]], kids[i := check'][i + 1 := Inner(brother.keys[1..], brother.kids[1..])])
  }

  /** Merge of inner children `p` and `p + 1`. */
  function JoinedInner<V>(keys: seq<int>, kids: seq<Tree<V>>, p: nat, ghost h: nat): (r: Tree<V>)
    requires AllInner(keys, kids, h) && p < |keys|
    ensures r.Inner? && AllInner(r.keys, r.kids, h) && p < |r.kids|
  {
    Inner(DropKey(keys, p + 1), kids[..p] + [MergeInner(kids[p], kids[p + 1])] + kids[p + 2..])
  }

  /** `bpt_ndin_check` for inner child `i`. */
  function FixInner<V>(m: nat, keys: seq<int>, kids: seq<Tree<V>>, i: nat, ghost h: nat): (r: Shrunk<V>)
    requires AllInner(keys, kids, h) && i < |kids|
    ensures r.node.Inner? && AllInner(r.node.keys, r.node.kids, h)
  {
    if |kids[i].keys| >= MinKeys(m) then
      Shrunk(Inner(keys, kids), false)
    else if i > 0 && |kids[i - 1].keys| > MinKeys(m) && |kids[i - 1].keys| > 0 then
      Shrunk(FromLeftInner(keys, kids, i, h), false)
    else if i < |keys| && |kids[i + 1].keys| > MinKeys(m) && |kids[i + 1].keys| > 0 then
      Shrunk(FromRightInner(keys, kids, i, h), false)
    else if i > 0 then
      var joined := JoinedInner(keys, kids, i - 1, h);
      Tell(joined.keys, joined.kids, i - 1)
    else if i < |keys| then
      var joined := JoinedInner(keys, kids, i, h);
      Tell(joined.keys, joined.kids, i)
    else
      Shrunk(Inner(keys, kids), false)
  }

  /** `bpt_item_del` below an inner node; None when the key is not there. */
  function Shrink<V>(m: nat, t: Tree<V>, key: int, ghost h: nat): (r: Option<Shrunk<V>>)
    requires t.Inner? && Uniform(t, h)
    ensures r.Some? ==> Uniform(r.value.node, h)
    decreases h
  {
    UniformKids(t, h);
    var Inner(keys, kids) := t;
    var i := Route(keys, 0, key);
    match kids[i]
    case Leaf(id, items, right) =>
      var index := IndexOf(items, 0, key);
      if index == |items| then None
      else
        var r := FixLeaf(m, keys, kids[i := Leaf(id, Without(items, index), right)], i, index);
        UniformKids(r.node, h);
        Some(r)
    case Inner(_, _) =>
      match Shrink(m, kids[i], key, h - 1)
      case None => None
      case Some(Shrunk(node, climb)) =>
        var kids' := kids[i := node];
        var told := if climb then Tell(keys, kids', i) else Shrunk(Inner(keys, kids'), false);
        var fixed := FixInner(m, told.node.keys, kids', i, h);
        UniformKids(fixed.node, h);
        Some(Shrunk(fixed.node, told.climb || fixed.climb))
  }

  // ---------------------------------------------------------------- the whole tree

  function Insert<V>(m: nat, root: Tree<V>, item: Item<V>, name: nat, ghost h: nat): (r: Option<Tree<V>>)
    requires Uniform(root, h)
  {
    match Grow(m, root, item, name, h)
    case Present(_) => None
    case One(node, _) => Some(node)
    case Two(left, sep, right) => Some(Inner([sep], [left, right]))
  }

  function Delete<V>(m: nat, root: Tree<V>, key: int, ghost h: nat): (r: Option<Tree<V>>)
    requires Uniform(root, h)
  {
    match root
    case Leaf(id, items, right) =>
      var index := IndexOf(items, 0, key);
      if index == |items| then None else Some(Leaf(id, Without(items, index), right))
    case Inner(_, _) =>
      match Shrink(m, root, key, h)
      case None => None
      case Some(s) => Some(if s.node.keys == [] then s.node.kids[0] else s.node)
  }
}
