/**
 * The linked list of intervals that `init_context` splits in place, with the cursor that survives
 * from one network to the next.
 */
module IntervalList {
  import opened Addresses
  import opened IntervalSplit
  import opened Options
  import opened Sequences

  /** Two insertions put in two elements. */
  lemma PutTwice<T>(s: seq<T>, p: nat, x: T, one: seq<T>, y: T, two: seq<T>)
    requires Put(s, p, x, one) && Put(one, p + 1, y, two)
    ensures two == s[..p] + [x, y] + s[p..]
  {
  }

  /** Two elements put in behind position `k`, followed by the update of position `k`, replace one element by three. */
  lemma ReplacedByThree<T>(s: seq<T>, k: nat, x: T, y: T, z: T)
    requires k < |s|
    ensures (s[..k + 1] + [x, y] + s[k + 1..])[k := z] == s[..k] + [z, x, y] + s[k + 1..]
  {
  }

  lemma ReplacedByTwo<T>(s: seq<T>, k: nat, x: T, one: seq<T>, z: T)
    requires k < |s| && Put(s, k + 1, x, one)
    ensures one[k := z] == s[..k] + [z, x] + s[k + 1..]
  {
  }

  lemma PutChanged<T>(s: seq<T>, p: nat, x: T, r: seq<T>, y: T)
    requires Put(s, p, x, r)
    ensures Put(s, p, y, r[p := y])
  {
  }

  lemma SetTwice<T>(s: seq<T>, p: nat, x: T, y: T)
    requires p < |s|
    ensures s[p := x][p := y] == s[p := y]
  {
  }

  lemma LastChanged<T>(s: seq<T>, x: T, y: T)
    ensures (s + [x])[|s| := y] == s + [y]
  {
  }

  lemma WalkMoves<D>(ivs: seq<Interval<D>>, at: nat, low: nat)
    requires at < |ivs| && ivs[at].high < low
    ensures Walk(ivs, at, low) == Walk(ivs, at + 1, low)
  {
  }

  /** One round of the loop where the conductor moves past the end of the list. */
  lemma StepAppends<D>(width: nat, c: Cursor<D>, cur: Interval<D>)
    requires c.at < |c.ivs| && Walk(c.ivs, c.at, cur.low) == |c.ivs|
    ensures Step(width, c, cur) == Some(Cursor(c.ivs + [cur], |c.ivs|))
  {
  }

  /** One round of the loop where it stops at an interval. */
  lemma StepCuts<D>(width: nat, c: Cursor<D>, cur: Interval<D>, k: nat)
    requires c.at < |c.ivs| && Walk(c.ivs, c.at, cur.low) == k < |c.ivs|
    ensures var pieces := Cut(width, c.ivs[k], cur);
            && Step(width, c, cur).Some? == pieces.Some?
            && (pieces.Some? ==>
                  Step(width, c, cur) == Some(Cursor(c.ivs[..k] + pieces.value + c.ivs[k + 1..], k)))
  {
  }

  /** Pointer slots a fresh interval is allocated with. */
  const DATASLOTS: nat := 8

  /** A list node together with the interval it owns. */
  class Node<D> {
    var low: nat
    var high: nat
    var data: seq<D>
    var arrayLen: nat
    var next: Node?<D>

    /** The data pointers in use fit into the slots allocated for them. */
    ghost predicate Valid()
      reads `data, `arrayLen
    {
      |data| <= arrayLen && DATASLOTS <= arrayLen
    }

    ghost function Interval(): Interval<D>
      reads `low, `high, `data
    {
      IntervalSplit.Interval(low, high, data)
    }

    constructor (low: nat, high: nat)
      ensures Valid() && next == null
      ensures Interval() == IntervalSplit.Interval(low, high, [])
    {
      this.low, this.high := low, high;
      data, arrayLen := [], DATASLOTS;
      next := null;
    }

    /** Appends one data pointer, doubling the slots when they are used up. */
    method AddData(d: D)
      requires Valid()
      modifies this`data, this`arrayLen
      ensures Valid() && data == old(data) + [d]
    {
      if |data| + 1 > arrayLen {
        arrayLen := arrayLen * 2;
      }
      data := data + [d];
    }

    /** Appends all data pointers of `src`, adding its slots when they do not fit. */
    method CopyAllData(src: Node<D>)
      requires Valid() && src.Valid() && src != this
      modifies this`data, this`arrayLen
      ensures Valid() && data == old(data) + src.data
    {
      if |data| + |src.data| > arrayLen {
        arrayLen := arrayLen + src.arrayLen;
      }
      data := data + src.data;
    }
  }

  /** Distinct nodes of `repr` that hold these intervals. */
  ghost predicate Held<D>(nodes: seq<Node<D>>, intervals: seq<Interval<D>>, repr: set<Node<D>>)
    requires |nodes| == |intervals|
    reads repr
  {
    && (forall i :: 0 <= i < |nodes| ==> nodes[i] in repr)
    && (forall i, j :: 0 <= i < j < |nodes| ==> nodes[i] != nodes[j])
    && (forall i {:trigger nodes[i]} {:trigger intervals[i]} :: 0 <= i < |nodes| ==> nodes[i].Valid() && nodes[i].Interval() == intervals[i])
  }

  /** Each node points to the next one, the last one to none. */
  ghost predicate Chained<D>(nodes: seq<Node<D>>, repr: set<Node<D>>)
    requires |nodes| > 0 && forall i :: 0 <= i < |nodes| ==> nodes[i] in repr
    reads repr
  {
    && (forall i, j {:trigger nodes[i], nodes[j]} :: 0 <= i < j < |nodes| && j == i + 1 ==> nodes[i].next == nodes[j])
    && nodes[|nodes| - 1].next == null
  }

  /** A node linked in behind position `k`. */
  lemma LinksInserted<D>(was: seq<Node<D>>, k: nat, node: Node<D>, now: seq<Node<D>>, repr: set<Node<D>>)
    requires k < |was| && Put(was, k + 1, node, now)
    requires forall i :: 0 <= i < |now| ==> now[i] in repr
    requires forall i, j {:trigger was[i], was[j]} :: 0 <= i < j < |was| && j == i + 1 && i != k ==> was[i].next == was[j]
    requires k < |was| - 1 ==> was[|was| - 1].next == null
    requires was[k].next == node && node.next == if k + 1 < |was| then was[k + 1] else null
    ensures Chained(now, repr)
  {
    forall i, j | 0 <= i < j < |now| && j == i + 1
      ensures now[i].next == now[j]
    {
      if i < k {
        assert was[i].next == was[j];
      } else if i > k {
        assert now[j] == was[i];
        if i > k + 1 {
          assert now[i] == was[i - 1] && was[i - 1].next == was[i];
        }
      }
    }
  }

  /** The interval it holds is put in at the same place. */
  lemma HeldInserted<D>(was: seq<Node<D>>, held: seq<Interval<D>>, repr: set<Node<D>>, k: nat, node: Node<D>,
                        now: seq<Node<D>>, holds: seq<Interval<D>>)
    requires k < |was| == |held| && Put(was, k + 1, node, now) && Put(held, k + 1, node.Interval(), holds)
    requires node.Valid() && node !in repr && Held(was, held, repr)
    ensures Held(now, holds, repr + {node})
  {
  }

  /** The two pointers that change when a node is linked in behind position `k`. */
  method LinkBehind<D>(node: Node<D>, position: Node<D>, ghost k: nat, ghost was: seq<Node<D>>, ghost held: seq<Interval<D>>,
                       ghost own: set<Node<D>>, ghost now: seq<Node<D>>, ghost holds: seq<Interval<D>>)
    requires 0 < |was| == |held| && Held(was, held, own) && Chained(was, own)
    requires k < |was| && was[k] == position && node !in own && node.Valid()
    requires Put(was, k + 1, node, now) && Put(held, k + 1, node.Interval(), holds)
    modifies position`next, node`next
    ensures Held(now, holds, own + {node}) && Chained(now, own + {node})
  {
    HeldInserted(was, held, own, k, node, now, holds);
    node.next := position.next;
    position.next := node;
    LinksInserted(was, k, node, now, own + {node});
  }

  class List<D> {
    var head: Node<D>
    var conductor: Node?<D>
    var endOfList: Node<D>
    var intervalCounter: nat

    ghost var nodes: seq<Node<D>>              // the list from its head
    ghost var intervals: seq<Interval<D>>      // what its nodes hold
    ghost var repr: set<Node<D>>               // every node allocated for the list
    ghost var at: nat                          // where the conductor stands; |nodes| past the end

    ghost predicate Linked()
      reads `head, `intervalCounter, `nodes, `intervals, `repr, repr
    {
      && |nodes| > 0 && |intervals| == |nodes| == intervalCounter && head == nodes[0]
      && Held(nodes, intervals, repr)
      && Chained(nodes, repr)
    }

    ghost predicate Valid()
      reads this, repr
    {
      && Linked()
      && endOfList == nodes[|nodes| - 1]
      && at <= |nodes|
      && conductor == if at < |nodes| then nodes[at] else null
    }

    constructor (low: nat, high: nat, d: D)
      ensures Valid() && fresh(repr) && at == 0
      ensures intervals == [Interval(low, high, [d])]
    {
      var root := new Node<D>(low, high);
      root.AddData(d);
      head, conductor, endOfList := root, root, root;
      intervalCounter := 1;
      nodes, intervals, at, repr := [root], [Interval(low, high, [d])], 0, {root};
    }

    /** Links a node in right behind `position`. */
    method LinkIn(node: Node<D>, position: Node<D>, ghost k: nat)
      requires Linked() && k < |nodes| && nodes[k] == position && node !in repr && node.Valid()
      modifies this`intervalCounter, this`nodes, this`intervals, this`repr, position`next, node`next
      ensures Linked() && repr == old(repr) + {node}
      ensures Put(old(nodes), k + 1, node, nodes) && Put(old(intervals), k + 1, old(node.Interval()), intervals)
    {
      ghost var was, held, own := nodes, intervals, repr;
      ghost var now := PutSome(was, k + 1, node);
      ghost var holds := PutSome(held, k + 1, node.Interval());
      nodes, intervals, repr := now, holds, own + {node};
      intervalCounter := intervalCounter + 1;
      LinkBehind(node, position, k, was, held, own, now, holds);
    }

    /** `insert_new_interval`: a new node, without data, right behind `position`. */
    method InsertAfter(position: Node<D>, ghost k: nat, low: nat, high: nat) returns (node: Node<D>)
      requires Linked() && k < |nodes| && nodes[k] == position
      modifies this`intervalCounter, this`nodes, this`intervals, this`repr, position`next
      ensures Linked() && fresh(node) && repr == old(repr) + {node}
      ensures Put(old(nodes), k + 1, node, nodes)
      ensures Put(old(intervals), k + 1, Interval(low, high, []), intervals)
    {
      node := new Node<D>(low, high);
      LinkIn(node, position, k);
    }

    /** A new interval behind `position` that starts with a copy of the conductor's data. */
    method InsertCopy(position: Node<D>, ghost k: nat, low: nat, high: nat) returns (node: Node<D>)
      requires Linked() && at <= k < |nodes| && conductor == nodes[at] && position == nodes[k]
      modifies this`intervalCounter, this`nodes, this`intervals, this`repr, position`next
      ensures Linked() && fresh(node) && repr == old(repr) + {node}
      ensures Put(old(nodes), k + 1, node, nodes)
      ensures Put(old(intervals), k + 1, Interval(low, high, old(intervals)[at].data), intervals)
    {
      ghost var was, none, copy := intervals, Interval(low, high, []), Interval(low, high, intervals[at].data);
      node := InsertAfter(position, k, low, high);
      ghost var one := intervals;
      PutChanged(was, k + 1, none, one, copy);
      assert nodes[at] == conductor && nodes[k + 1] == node && intervals[at] == was[at];
      CopyDataTo(node, k + 1);
      assert intervals == one[k + 1 := copy];
      assert Put(was, k + 1, copy, intervals);
    }

    /** `copy_all_data` of the conductor's interval to the one at position `k`, which has no data yet. */
    method CopyDataTo(node: Node<D>, ghost k: nat)
      requires Linked() && at < k < |nodes| && conductor == nodes[at] && node == nodes[k] && intervals[k].data == []
      modifies this`intervals, node`data, node`arrayLen
      ensures Linked()
      ensures intervals == old(intervals)[k := Interval(old(intervals)[k].low, old(intervals)[k].high, old(intervals)[at].data)]
    {
      assert node.Interval() == intervals[k] && conductor.Interval() == intervals[at];
      ghost var none: seq<D> := [];
      assert none + conductor.data == conductor.data;
      node.CopyAllData(conductor);
      intervals := intervals[k := node.Interval()];
    }

    /** `add_data` on the node at position `k`. */
    method AddDataAt(node: Node<D>, ghost k: nat, d: D)
      requires Linked() && k < |nodes| && node == nodes[k]
      modifies this`intervals, node`data, node`arrayLen
      ensures Linked() && intervals == old(intervals)[k := old(intervals)[k].(data := old(intervals)[k].data + [d])]
    {
      node.AddData(d);
      intervals := intervals[k := node.Interval()];
    }

    /**
     * The list with `n` nodes put in behind the conductor and `endOfList` not yet moved: where the
     * conductor was the last node, `endOfList` still points to it.
     */
    ghost predicate EndStale(n: nat)
      reads this, repr
    {
      && Linked()
      && at + n < |nodes| && conductor == nodes[at]
      && endOfList == nodes[if at + n == |nodes| - 1 then at else |nodes| - 1]
    }

    /** The conductor's interval now ends at `high`. */
    method SetHigh(high: nat, ghost n: nat)
      requires EndStale(n)
      modifies this`intervals, conductor`high
      ensures EndStale(n) && intervals == old(intervals)[at := old(intervals)[at].(high := high)]
    {
      conductor.high := high;
      intervals := intervals[at := conductor.Interval()];
    }

    /** The part of the conductor's interval that the network overlaps, right behind the conductor. */
    method InsertOverlap(low: nat, high: nat, d: D) returns (node: Node<D>)
      requires EndStale(0)
      modifies this`intervalCounter, this`nodes, this`intervals, this`repr, conductor`next
      ensures EndStale(1) && fresh(node) && repr == old(repr) + {node}
      ensures Put(old(nodes), at + 1, node, nodes)
      ensures Put(old(intervals), at + 1, Interval(low, high, old(intervals)[at].data + [d]), intervals)
    {
      node := InsertCopy(conductor, at, low, high);
      AddDataAt(node, at + 1, d);
    }

    /** The overlapped part and the part behind it. */
    method InsertOverlapAndRest(low: nat, high: nat, d: D, after: nat) returns (ghost one: seq<Interval<D>>)
      requires EndStale(0)
      modifies this`intervalCounter, this`nodes, this`intervals, this`repr, conductor`next
      ensures EndStale(2)
      ensures fresh(repr - old(repr))
      ensures var con := old(intervals)[at];
              && Put(old(intervals), at + 1, Interval(low, high, con.data + [d]), one)
              && Put(one, at + 2, Interval(after, con.high, con.data), intervals)
    {
      var overlap := InsertOverlap(low, high, d);
      one := intervals;
      var rest := InsertCopy(overlap, at + 1, after, conductor.high);
    }

    method InsertTwo(low: nat, high: nat, d: D, after: nat)
      requires EndStale(0)
      modifies this`intervalCounter, this`nodes, this`intervals, this`repr, conductor`next
      ensures EndStale(2)
      ensures fresh(repr - old(repr))
      ensures var con := old(intervals)[at];
              intervals == old(intervals)[..at + 1]
                           + [Interval(low, high, con.data + [d]), Interval(after, con.high, con.data)]
                           + old(intervals)[at + 1..]
    {
      ghost var was, con := intervals, intervals[at];
      ghost var one := InsertOverlapAndRest(low, high, d, after);
      PutTwice(was, at + 1, Interval(low, high, con.data + [d]), one, Interval(after, con.high, con.data), intervals);
    }

    method MoveEndOverOne()
      requires EndStale(1)
      modifies this`endOfList
      ensures EndStale(0)
    {
      assert conductor.next == nodes[at + 1];
      if endOfList == conductor {
        endOfList := conductor.next;
      }
    }

    method MoveEndOverTwo()
      requires EndStale(2)
      modifies this`endOfList
      ensures EndStale(0)
    {
      assert conductor.next == nodes[at + 1] && nodes[at + 1].next == nodes[at + 2];
      if endOfList == conductor {
        endOfList := conductor.next.next;
      }
    }

    /** The conductor's interval is cut at `high`, and the end of the list found again behind two new nodes. */
    method CutBeforeTwo(high: nat)
      requires EndStale(2)
      modifies this`intervals, this`endOfList, conductor`high
      ensures Valid() && repr == old(repr) && at == old(at)
      ensures intervals == old(intervals)[at := old(intervals)[at].(high := high)]
    {
      SetHigh(high, 2);
      MoveEndOverTwo();
    }

    /** The network lies strictly inside the conductor's interval. */
    method SplitMiddle(width: nat, low: nat, high: nat, d: D)
      requires Valid() && at < |nodes|
      modifies this`intervalCounter, this`nodes, this`intervals, this`repr, this`endOfList, repr
      ensures Valid() && fresh(repr - old(repr))
      ensures var con := old(intervals)[at];
              intervals == old(intervals)[..at]
                           + [Interval(con.low, Dec(width, low), con.data),
                              Interval(low, high, con.data + [d]),
                              Interval(Inc(width, high), con.high, con.data)]
                           + old(intervals)[at + 1..]
    {
      ghost var was, con, own := intervals, intervals[at], repr;
      InsertTwo(low, high, d, Inc(width, high));
      assert fresh(repr - own);
      ReplacedByThree(was, at, intervals[at + 1], intervals[at + 2], con.(high := Dec(width, low)));
      CutBeforeTwo(Dec(width, low));
    }

    /** The same behind one new node. */
    method CutBeforeOne(high: nat)
      requires EndStale(1)
      modifies this`intervals, this`endOfList, conductor`high
      ensures Valid() && repr == old(repr) && at == old(at)
      ensures intervals == old(intervals)[at := old(intervals)[at].(high := high)]
    {
      SetHigh(high, 1);
      MoveEndOverOne();
    }

    /** The network begins inside the conductor's interval and ends with it. */
    method SplitEnd(width: nat, low: nat, d: D)
      requires Valid() && at < |nodes|
      modifies this`intervalCounter, this`nodes, this`intervals, this`repr, this`endOfList, repr
      ensures Valid() && fresh(repr - old(repr))
      ensures var con := old(intervals)[at];
              intervals == old(intervals)[..at]
                           + [Interval(con.low, Dec(width, low), con.data),
                              Interval(low, con.high, con.data + [d])]
                           + old(intervals)[at + 1..]
    {
      ghost var was, con, own := intervals, intervals[at], repr;
      var overlap := InsertOverlap(low, conductor.high, d);
      assert fresh(repr - own);
      ReplacedByTwo(was, at, intervals[at + 1], intervals, con.(high := Dec(width, low)));
      CutBeforeOne(Dec(width, low));
    }

    /** The conductor's interval now ends at `high` and has one more data pointer; one new node is behind it. */
    method CutFront(high: nat, d: D)
      requires EndStale(1)
      modifies this`intervals, this`endOfList, conductor`high, conductor`data, conductor`arrayLen
      ensures Valid() && repr == old(repr)
      ensures var con := old(intervals)[at];
              intervals == old(intervals)[at := Interval(con.low, high, con.data + [d])]
    {
      ghost var was, con := intervals, intervals[at];
      MoveEndOverOne();
      SetHigh(high, 0);
      SetTwice(was, at, con.(high := high), Interval(con.low, high, con.data + [d]));
      AddDataAt(conductor, at, d);
    }

    /** The part of the conductor's interval behind the network, right behind the conductor. */
    method InsertRest(after: nat) returns (node: Node<D>)
      requires EndStale(0)
      modifies this`intervalCounter, this`nodes, this`intervals, this`repr, conductor`next
      ensures EndStale(1) && fresh(node) && repr == old(repr) + {node}
      ensures var con := old(intervals)[at];
              Put(old(intervals), at + 1, Interval(after, con.high, con.data), intervals)
    {
      assert conductor.Interval() == intervals[at];
      node := InsertCopy(conductor, at, after, conductor.high);
    }

    /** The network begins with the conductor's interval and ends inside it. */
    method SplitFront(width: nat, high: nat, d: D)
      requires Valid() && at < |nodes|
      modifies this`intervalCounter, this`nodes, this`intervals, this`repr, this`endOfList, repr
      ensures Valid() && fresh(repr - old(repr))
      ensures var con := old(intervals)[at];
              intervals == old(intervals)[..at]
                           + [Interval(con.low, high, con.data + [d]),
                              Interval(Inc(width, high), con.high, con.data)]
                           + old(intervals)[at + 1..]
    {
      ghost var was, con, own := intervals, intervals[at], repr;
      var rest := InsertRest(Inc(width, high));
      assert fresh(repr - own);
      ReplacedByTwo(was, at, intervals[at + 1], intervals, Interval(con.low, high, con.data + [d]));
      CutFront(high, d);
    }

    /** The network is the conductor's interval. */
    method AddToWhole(d: D)
      requires Valid() && at < |nodes|
      modifies this`intervals, repr
      ensures Valid()
      ensures var con := old(intervals)[at];
              intervals == old(intervals)[..at] + [con.(data := con.data + [d])] + old(intervals)[at + 1..]
    {
      AddDataAt(conductor, at, d);
    }

    /** A new node, without data, behind the last one. */
    method InsertLast(low: nat, high: nat)
      requires Linked() && endOfList == nodes[|nodes| - 1]
      modifies this`intervalCounter, this`nodes, this`intervals, this`repr, this`endOfList, endOfList`next
      ensures Linked() && fresh(endOfList) && repr == old(repr) + {endOfList} && endOfList == nodes[|nodes| - 1]
      ensures |nodes| == old(|nodes|) + 1 && intervals == old(intervals) + [Interval(low, high, [])]
    {
      var node := InsertAfter(endOfList, |nodes| - 1, low, high);
      assert nodes[|nodes| - 2] == endOfList && nodes[|nodes| - 1] == node;
      endOfList := endOfList.next;
    }

    /** Its data. */
    method AddDataToLast(d: D)
      requires Linked() && endOfList == nodes[|nodes| - 1] && intervals[|nodes| - 1].data == []
      modifies this`intervals, endOfList`data, endOfList`arrayLen
      ensures Linked()
      ensures var last := old(intervals)[|nodes| - 1];
              intervals == old(intervals)[|nodes| - 1 := Interval(last.low, last.high, [d])]
    {
      ghost var none: seq<D> := [];
      assert none + [d] == [d];
      AddDataAt(endOfList, |nodes| - 1, d);
    }

    /** The new last node with its data. */
    method PutLast(low: nat, high: nat, d: D)
      requires Linked() && endOfList == nodes[|nodes| - 1]
      modifies this`intervalCounter, this`nodes, this`intervals, this`repr, this`endOfList, endOfList`next
      ensures Linked() && fresh(endOfList) && repr == old(repr) + {endOfList} && endOfList == nodes[|nodes| - 1]
      ensures |nodes| == old(|nodes|) + 1 && intervals == old(intervals) + [Interval(low, high, [d])]
    {
      ghost var was := intervals;
      InsertLast(low, high);
      LastChanged(was, Interval(low, high, []), Interval(low, high, [d]));
      AddDataToLast(d);
    }

    /** The network lies behind every interval. */
    method Append(low: nat, high: nat, d: D)
      requires Valid() && at == |nodes|
      modifies this, repr
      ensures Valid() && fresh(repr - old(repr))
      ensures intervals == old(intervals) + [Interval(low, high, [d])] && at == |intervals| - 1
    {
      ghost var own := repr;
      PutLast(low, high, d);
      assert fresh(repr - own);
      conductor := endOfList;
      at := |nodes| - 1;
    }

    /** The inner loop: moves the conductor to the first interval that does not end before `low`. */
    method Advance(low: nat)
      requires Valid()
      modifies this`conductor, this`at
      ensures Valid() && at == Walk(intervals, old(at), low)
    {
      while conductor != null && conductor.high < low
        invariant Valid()
        invariant Walk(intervals, old(at), low) == Walk(intervals, at, low)
        decreases |nodes| - at
      {
        MoveOver(low);
      }
      assert at < |nodes| ==> conductor.Interval() == intervals[at];
    }

    /** One round: the conductor's interval ends before `low`. */
    method MoveOver(low: nat)
      requires Valid() && conductor != null && conductor.high < low
      modifies this`conductor, this`at
      ensures Valid() && at == old(at) + 1 && Walk(intervals, old(at), low) == Walk(intervals, at, low)
    {
      assert conductor.Interval() == intervals[at];
      WalkMoves(intervals, at, low);
      assert at < |nodes| - 1 ==> conductor.next == nodes[at + 1];
      conductor := conductor.next;
      at := at + 1;
    }

    /** The case distinction at the interval the conductor stopped at. */
    method CutConductor(width: nat, low: nat, high: nat, d: D) returns (ok: bool)
      requires Valid() && at < |nodes|
      modifies this`intervalCounter, this`nodes, this`intervals, this`repr, this`endOfList, repr
      ensures fresh(repr - old(repr))
      ensures var pieces := Cut(width, old(intervals)[at], Interval(low, high, [d]));
              && ok == pieces.Some?
              && (ok ==> Valid() && intervals == old(intervals)[..at] + pieces.value + old(intervals)[at + 1..])
    {
      assert conductor.Interval() == intervals[at];
      ok := true;
      if conductor.low > low {
        ok := false;
      } else if conductor.low < low {
        if conductor.high > high {
          SplitMiddle(width, low, high, d);
        } else if conductor.high < high {
          ok := false;
        } else {
          SplitEnd(width, low, d);
        }
      } else {
        if conductor.high > high {
          SplitFront(width, high, d);
        } else if conductor.high < high {
          ok := false;
        } else {
          AddToWhole(d);
        }
      }
    }

    /**
     * One round of the loop of `init_context`. It does to the linked list what `Step` does to the
     * sequence of its intervals; false where the source reports an error.
     */
    method Place(width: nat, low: nat, high: nat, d: D) returns (ok: bool)
      requires Valid() && at < |nodes|
      modifies this, repr
      ensures fresh(repr - old(repr))
      ensures var r := Step(width, Cursor(old(intervals), old(at)), Interval(low, high, [d]));
              && ok == r.Some?
              && (ok ==> Valid() && Cursor(intervals, at) == r.value)
    {
      ghost var was := Cursor(intervals, at);
      Advance(low);
      if conductor == null {
        AppendStep(width, low, high, d, was);
        ok := true;
      } else {
        ok := CutStep(width, low, high, d, was);
      }
    }

    /** The branch of a network behind every interval. */
    method AppendStep(width: nat, low: nat, high: nat, d: D, ghost was: Cursor<D>)
      requires Valid() && at == |nodes| && was.ivs == intervals && was.at < |intervals| && Walk(intervals, was.at, low) == at
      modifies this, repr
      ensures fresh(repr - old(repr)) && Valid()
      ensures Step(width, was, Interval(low, high, [d])) == Some(Cursor(intervals, at))
    {
      StepAppends(width, was, Interval(low, high, [d]));
      Append(low, high, d);
    }

    /** The branch of a network that the conductor's interval may contain. */
    method CutStep(width: nat, low: nat, high: nat, d: D, ghost was: Cursor<D>) returns (ok: bool)
      requires Valid() && at < |nodes| && was.ivs == intervals && was.at < |intervals| && Walk(intervals, was.at, low) == at
      modifies this`intervalCounter, this`nodes, this`intervals, this`repr, this`endOfList, repr
      ensures fresh(repr - old(repr)) && ok == Step(width, was, Interval(low, high, [d])).Some?
      ensures ok ==> Valid() && Step(width, was, Interval(low, high, [d])) == Some(Cursor(intervals, at))
    {
      StepCuts(width, was, Interval(low, high, [d]), at);
      ok := CutConductor(width, low, high, d);
    }

    /** Copies the list into an array of `intervalCounter` intervals. */
    method ToArray() returns (a: array<Interval<D>>)
      requires Valid()
      ensures fresh(a) && a[..] == intervals
    {
      a := new Interval<D>[intervalCounter];
      var node: Node?<D> := head;
      var i := 0;
      while node != null
        invariant 0 <= i <= |nodes|
        invariant node == if i < |nodes| then nodes[i] else null
        invariant forall j :: 0 <= j < i ==> a[j] == intervals[j]
        decreases |nodes| - i
      {
        assert node.Interval() == intervals[i];
        assert i < |nodes| - 1 ==> node.next == nodes[i + 1];
        a[i] := IntervalSplit.Interval(node.low, node.high, node.data);
        i := i + 1;
        node := node.next;
      }
    }
  }
}
