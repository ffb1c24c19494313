/**
 * The chain of leaves: following the `right` links from the leftmost leaf visits exactly the leaves of
 * the tree, from left to right.
 */
module BPlusTreeChain {
  import opened BPlusTree
  import opened BPlusTreeContents
  import opened Options

  /** The leaves are linked in order, under different names below `name`, and the last link is empty. */
  ghost predicate Chained<V>(leaves: seq<Tree<V>>, name: nat)
  {
    && |leaves| > 0
    && (forall i :: 0 <= i < |leaves| ==> leaves[i].Leaf? && leaves[i].id < name)
    && (forall i, j :: 0 <= i < j < |leaves| ==> leaves[i].id != leaves[j].id)
    && (forall i, j {:trigger leaves[i], leaves[j]} :: 0 <= i < j < |leaves| && j == i + 1 ==> leaves[i].right == Some(leaves[j].id))
    && leaves[|leaves| - 1].right == None
  }

  /** Neighbouring leaves `was` give way to `now`, which enter and leave the chain like them; only `name` may be new. */
  ghost predicate ChainEdit<V>(was: seq<Tree<V>>, now: seq<Tree<V>>, name: nat)
  {
    && |was| > 0 && |now| > 0
    && (forall i :: 0 <= i < |was| ==> was[i].Leaf?) && (forall i :: 0 <= i < |now| ==> now[i].Leaf?)
    && now[0].id == was[0].id && now[|now| - 1].right == was[|was| - 1].right
    && (forall i, j {:trigger now[i], now[j]} :: 0 <= i < j < |now| && j == i + 1 ==> now[i].right == Some(now[j].id))
    && (forall i, j :: 0 <= i < j < |now| ==> now[i].id != now[j].id)
    && (forall j :: 0 <= j < |now| ==> now[j].id == name || Names(was, now[j].id))
  }

  ghost predicate Names<V>(leaves: seq<Tree<V>>, id: nat)
  {
    exists i :: 0 <= i < |leaves| && leaves[i].Leaf? && leaves[i].id == id
  }

  lemma ChainEdited<V>(a: seq<Tree<V>>, was: seq<Tree<V>>, now: seq<Tree<V>>, b: seq<Tree<V>>, name: nat)
    requires Chained(a + was + b, name) && ChainEdit(was, now, name)
    ensures Chained(a + now + b, name + 1)
  {
    var after := a + now + b;
    forall i | 0 <= i < |after| ensures after[i].Leaf? && after[i].id < name + 1 {
      FromBefore(a, was, now, b, name, i);
    }
    forall i, j | 0 <= i < j < |after| ensures after[i].id != after[j].id {
      DistinctAfter(a, was, now, b, name, i, j);
    }
    forall i, j | 0 <= i < j < |after| && j == i + 1 ensures after[i].right == Some(after[j].id) {
      LinkAfter(a, was, now, b, name, i);
    }
    LastAfter(a, was, now, b, name);
  }

  /** Every leaf of the new chain was in the old one, or carries a name of the edit. */
  lemma FromBefore<V>(a: seq<Tree<V>>, was: seq<Tree<V>>, now: seq<Tree<V>>, b: seq<Tree<V>>, name: nat, i: nat)
    requires Chained(a + was + b, name) && ChainEdit(was, now, name) && i < |a + now + b|
    ensures (a + now + b)[i].Leaf? && (a + now + b)[i].id < name + 1
  {
    var before, after := a + was + b, a + now + b;
    if i < |a| {
      assert after[i] == before[i];
    } else if i < |a| + |now| {
      var j := i - |a|;
      assert after[i] == now[j];
      if now[j].id != name {
        var k :| 0 <= k < |was| && was[k].Leaf? && was[k].id == now[j].id;
        assert before[|a| + k] == was[k];
      }
    } else {
      assert after[i] == before[i - |now| + |was|];
    }
  }

  lemma DistinctAfter<V>(a: seq<Tree<V>>, was: seq<Tree<V>>, now: seq<Tree<V>>, b: seq<Tree<V>>, name: nat, i: nat, j: nat)
    requires Chained(a + was + b, name) && ChainEdit(was, now, name) && i < j < |a + now + b|
    requires (a + now + b)[i].Leaf? && (a + now + b)[j].Leaf?
    ensures (a + now + b)[i].id != (a + now + b)[j].id
  {
    var before, after := a + was + b, a + now + b;
    var p, q := |a|, |a| + |now|;
    var i' := Origin(a, was, now, b, name, i);
    var j' := Origin(a, was, now, b, name, j);
    assert after[i].id == name || before[i'].id == after[i].id;
    assert after[j].id == name || before[j'].id == after[j].id;
    if p <= i && j < q {
      assert after[i] == now[i - p] && after[j] == now[j - p];
    } else if after[i].id != name && after[j].id != name {
      assert i' < j';
    }
  }

  /** A leaf of the old chain with the same name, when the name is not new; it keeps to its part of the chain. */
  lemma Origin<V>(a: seq<Tree<V>>, was: seq<Tree<V>>, now: seq<Tree<V>>, b: seq<Tree<V>>, name: nat, i: nat) returns (k: nat)
    requires Chained(a + was + b, name) && ChainEdit(was, now, name) && i < |a + now + b| && (a + now + b)[i].Leaf?
    ensures k < |a + was + b|
    ensures (a + now + b)[i].id == name ==> |a| <= i < |a| + |now|
    ensures (a + now + b)[i].id != name ==> (a + was + b)[k].id == (a + now + b)[i].id
    ensures i < |a| ==> k == i
    ensures |a| <= i < |a| + |now| ==> |a| <= k < |a| + |was|
    ensures |a| + |now| <= i ==> k == i - |now| + |was|
  {
    var before, after := a + was + b, a + now + b;
    if i < |a| {
      k := i;
      assert after[i] == before[k];
    } else if i < |a| + |now| {
      var j := i - |a|;
      assert after[i] == now[j];
      k := |a|;
      if now[j].id != name {
        var w :| 0 <= w < |was| && was[w].Leaf? && was[w].id == now[j].id;
        k := |a| + w;
        assert before[k] == was[w];
      }
    } else {
      k := i - |now| + |was|;
      assert after[i] == before[k];
    }
  }

  lemma LinkAfter<V>(a: seq<Tree<V>>, was: seq<Tree<V>>, now: seq<Tree<V>>, b: seq<Tree<V>>, name: nat, i: nat)
    requires Chained(a + was + b, name) && ChainEdit(was, now, name) && i + 1 < |a + now + b|
    requires (a + now + b)[i].Leaf? && (a + now + b)[i + 1].Leaf?
    ensures (a + now + b)[i].right == Some((a + now + b)[i + 1].id)
  {
    var before, after := a + was + b, a + now + b;
    var p, q, d := |a|, |a| + |now|, |was| - |now|;
    if i + 1 < p {
      assert before[i] == after[i] && before[i + 1] == after[i + 1];
    } else if i + 1 == p {
      assert before[i] == after[i] && before[p] == was[0] && after[p] == now[0];
      assert before[i].right == Some(before[i + 1].id);
    } else if i + 1 < q {
      assert after[i] == now[i - p] && after[i + 1] == now[i + 1 - p];
    } else if i + 1 == q {
      assert after[i] == now[|now| - 1] && before[i + d] == was[|was| - 1];
      assert after[q] == b[0] && before[q + d] == b[0];
      assert before[i + d].right == Some(before[i + d + 1].id);
    } else {
      assert after[i] == before[i + d] && after[i + 1] == before[i + d + 1];
    }
  }

  lemma LastAfter<V>(a: seq<Tree<V>>, was: seq<Tree<V>>, now: seq<Tree<V>>, b: seq<Tree<V>>, name: nat)
    requires Chained(a + was + b, name) && ChainEdit(was, now, name)
    ensures var after := a + now + b; after[|after| - 1].Leaf? && after[|after| - 1].right == None
  {
    var before, after := a + was + b, a + now + b;
    if b == [] {
      assert after[|after| - 1] == now[|now| - 1] && before[|before| - 1] == was[|was| - 1];
    } else {
      assert after[|after| - 1] == before[|before| - 1];
    }
  }

  /** One leaf by another of the same name and link. */
  lemma ReplacedEdit<V>(leaf: Tree<V>, node: Tree<V>, name: nat)
    requires leaf.Leaf? && node.Leaf? && node.id == leaf.id && node.right == leaf.right
    ensures ChainEdit([leaf], [node], name)
  {
    assert [leaf][0].id == node.id;
  }

  /** One leaf by two, the right one new and linked in behind the left one. */
  lemma SplitEdit<V>(leaf: Tree<V>, left: Tree<V>, right: Tree<V>, name: nat)
    requires leaf.Leaf? && left.Leaf? && right.Leaf? && leaf.id < name
    requires left.id == leaf.id && left.right == Some(name) && right.id == name && right.right == leaf.right
    ensures ChainEdit([leaf], [left, right], name)
  {
    assert [leaf][0].id == left.id;
  }

  /** Two halves hold the items of the whole. */
  lemma HalvesItems<V>(left: Tree<V>, right: Tree<V>, items: seq<Item<V>>, half: nat)
    requires left.Leaf? && right.Leaf? && half <= |items| && left.items == items[..half] && right.items == items[half..]
    ensures ItemsOf([left, right]) == items
  {
    LeafItems(left);
    LeafItems(right);
    ItemsConcat([left], [right]);
    assert [left] + [right] == [left, right];
  }

  /** The leaves an insertion leaves behind in the place of one. */
  lemma GrowLeafEdit<V>(m: nat, leaf: Tree<V>, item: Item<V>, name: nat)
    requires m >= 3 && leaf.Leaf? && leaf.id < name
    ensures var g := GrowLeaf(m, leaf.id, leaf.items, leaf.right, item, name);
            !g.Present? ==>
              && ChainEdit([leaf], LeavesGrown(g), name)
              && (var p := SlotFor(KeysOf(leaf.items), item.key);
                  ItemsOf(LeavesGrown(g)) == leaf.items[..p] + [item] + leaf.items[p..])
  {
    match GrowLeaf(m, leaf.id, leaf.items, leaf.right, item, name) {
      case Present(_) =>
      case One(node, _) =>
        ReplacedEdit(leaf, node, name);
        LeafItems(node);
      case Two(left, _, right) =>
        SplitEdit(leaf, left, right, name);
        var p := SlotFor(KeysOf(leaf.items), item.key);
        var grown := leaf.items[..p] + [item] + leaf.items[p..];
        HalvesItems(left, right, grown, |grown| / 2);
        assert LeavesGrown(GrowLeaf(m, leaf.id, leaf.items, leaf.right, item, name)) == [left, right];
    }
  }
}
