/**
 * Whole runs of the stash-aware operations: no key is ever stored twice, nothing appears or vanishes unreported, and
 * the item a full row gives up is always the one of that row used longest ago.
 */
module FastHashRuns {
  import opened FastHashConservation
  import opened FastHashLookup
  import opened FastHashOperations
  import opened FastHashRow
  import opened FastHashSpec
  import opened Options
  import opened Sequences

  datatype Op<K, D> = Put(key: K, data: D) | PutWr(key: K, data: D) | Get(key: K) | Delete(key: K) | Clear

  /** What an operation leaves: the table, the items it took in, and the items it reported, removed or cleared. */
  datatype Effect<K(==), D(==)> = Effect(table: Table<K, D>, added: multiset<(K, D)>, gone: multiset<(K, D)>)

  function Step<K(==), D(==)>(t: Table<K, D>, hash: K -> nat, op: Op<K, D>): (e: Effect<K, D>)
    requires TableOk(t, hash)
  {
    match op
    case Put(key, data) =>
      var r := InsertWithStash(t, hash, key, data);
      Effect(r.0, Accepted(r.1, key, data), Reported(r.1))
    case PutWr(key, data) =>
      var r := InsertWithStashWr(t, hash, key, data);
      Effect(r.0, Accepted(r.1, key, data), multiset{})
    case Get(key) => Effect(GetDataWithStash(t, hash, key).0, multiset{}, multiset{})
    case Delete(key) =>
      var r := RemoveWithStash(t, hash, key);
      Effect(r.0, multiset{}, if r.1 && Lookup(t, hash, key).Some? then multiset{(key, Lookup(t, hash, key).value)} else multiset{})
    case Clear => Effect(Empty(|t.rows|, |t.stash|, t.next), multiset{}, Contents(t))
  }

  lemma {:induction false} EmptyRows<K, D>(n: nat)
    ensures RowsItems<K, D>(seq(n, i => [])) == multiset{}
  {
    var rows: seq<seq<(K, D)>> := seq(n, i => []);
    if n > 0 {
      EmptyRows<K, D>(n - 1);
      assert rows[1..] == seq(n - 1, i => []);
    }
  }

  lemma {:induction false} EmptyStash<K, D>(n: nat)
    ensures StashItems<K, D>(seq(n, i => None)) == multiset{}
  {
    var stash: seq<Option<(K, D)>> := seq(n, i => None);
    if n > 0 {
      EmptyStash<K, D>(n - 1);
      assert stash[1..] == seq(n - 1, i => None);
    }
  }

  lemma EmptyIsEmpty<K, D>(rows: nat, slots: nat, next: nat, hash: K -> nat)
    requires 0 < rows && (slots > 0 ==> next < slots)
    ensures NoKeyTwice(Empty<K, D>(rows, slots, next), hash) && Contents(Empty<K, D>(rows, slots, next)) == multiset{}
  {
    EmptyRows<K, D>(rows);
    EmptyStash<K, D>(slots);
  }

  predicate Kept<K(==), D(==)>(t: Table<K, D>, hash: K -> nat, e: Effect<K, D>)
    requires TableOk(t, hash)
  {
    && NoKeyTwice(e.table, hash) && |e.table.rows| == |t.rows|
    && Moved(Contents(t), Contents(e.table), e.added, e.gone)
  }

  lemma PutRowsStay<K, D>(t: Table<K, D>, hash: K -> nat, key: K, data: D)
    requires TableOk(t, hash)
    ensures |InsertWithStash(t, hash, key, data).0.rows| == |InsertWithStashWr(t, hash, key, data).0.rows| == |t.rows|
  {
  }

  lemma RowsStay<K, D>(t: Table<K, D>, hash: K -> nat, op: Op<K, D>)
    requires TableOk(t, hash)
    ensures |Step(t, hash, op).table.rows| == |t.rows|
  {
    if op.Put? || op.PutWr? {
      PutRowsStay(t, hash, op.key, op.data);
    }
  }

  lemma StepKeeps<K, D>(t: Table<K, D>, hash: K -> nat, op: Op<K, D>)
    requires NoKeyTwice(t, hash)
    ensures var e := Step(t, hash, op); NoKeyTwice(e.table, hash) && Moved(Contents(t), Contents(e.table), e.added, e.gone)
  {
    match op
    case Put(key, data) => InsertWithStashConserves(t, hash, key, data);
    case PutWr(key, data) => InsertWithStashWrKeepsAll(t, hash, key, data);
    case Get(key) => GetDataFinds(t, hash, key);
    case Delete(key) => RemoveTakes(t, hash, key);
    case Clear => EmptyIsEmpty<K, D>(|t.rows|, |t.stash|, t.next, hash);
  }

  function Run<K(==), D(==)>(t: Table<K, D>, hash: K -> nat, ops: seq<Op<K, D>>): (e: Effect<K, D>)
    requires NoKeyTwice(t, hash)
    ensures Kept(t, hash, e)
    decreases |ops|
  {
    if ops == [] then Effect(t, multiset{}, multiset{})
    else
      var n := |ops| - 1;
      var e := Run(t, hash, ops[..n]);
      var e' := Step(e.table, hash, ops[n]);
      assert Kept(t, hash, Effect(e'.table, e.added + e'.added, e.gone + e'.gone)) by {
        StepKeeps(e.table, hash, ops[n]);
        RowsStay(e.table, hash, ops[n]);
        MovedAgain(Contents(t), Contents(e.table), Contents(e'.table), e.added, e'.added, e.gone, e'.gone);
      }
      Effect(e'.table, e.added + e'.added, e.gone + e'.gone)
  }

  lemma MovedAgain<T>(a: multiset<T>, b: multiset<T>, c: multiset<T>, in1: multiset<T>, in2: multiset<T>, out1: multiset<T>, out2: multiset<T>)
    requires Moved(a, b, in1, out1) && Moved(b, c, in2, out2)
    ensures Moved(a, c, in1 + in2, out1 + out2)
  {
    forall e: T | true
      ensures (c + (out1 + out2))[e] == (a + (in1 + in2))[e]
    {
      assert (b + out1)[e] == (a + in1)[e];
      assert (c + out2)[e] == (b + in2)[e];
    }
  }

  /** Every item is in the row that its hash names. */
  predicate RowsByHash<K, D>(rows: seq<seq<(K, D)>>, hash: K -> nat)
  {
    forall i, j :: 0 <= i < |rows| && 0 <= j < |rows[i]| ==> hash(rows[i][j].0) % |rows| == i
  }

  /**
   * From an empty table: after any run no key is stored twice, every item is in the row of its hash, and what came in is stored
   * or was given out.
   */
  lemma RunConserves<K, D>(rows: nat, slots: nat, hash: K -> nat, ops: seq<Op<K, D>>)
    requires 0 < rows
    ensures var t := Empty<K, D>(rows, slots, 0);
            && NoKeyTwice(t, hash)
            && var e := Run(t, hash, ops);
               && NoKeyTwice(e.table, hash) && |e.table.rows| == rows && RowsByHash(e.table.rows, hash)
               && Contents(e.table) + e.gone == e.added
  {
    var t := Empty<K, D>(rows, slots, 0);
    EmptyIsEmpty<K, D>(rows, slots, 0, hash);
    var e := Run(t, hash, ops);
    assert Kept(t, hash, e);
    assert multiset{} + e.added == e.added;
    forall i, j | 0 <= i < |e.table.rows| && 0 <= j < |e.table.rows[i]|
      ensures hash(e.table.rows[i][j].0) % |e.table.rows| == i
    {
      assert RowListOk(e.table.rows[i], hash, |e.table.rows|, i);
    }
  }

  // ---------------------------------------------------------------- least recently used

  /** Each row lists its items from the latest use to the earliest; `last` is when a key was last used, all before `now`. */
  predicate ByUse<K, D>(t: Table<K, D>, last: K -> int, now: int)
  {
    forall i :: 0 <= i < |t.rows| ==> RowByUse(t.rows[i], last, now)
  }

  predicate RowByUse<K, D>(items: seq<(K, D)>, last: K -> int, now: int)
  {
    && (forall j :: 0 <= j < |items| ==> last(items[j].0) < now)
    && (forall j, k :: 0 <= j < k < |items| ==> last(items[j].0) > last(items[k].0))
  }

  /** When each key was last used after an operation at time `now`. */
  function Uses<K(==), D>(last: K -> int, now: int, op: Op<K, D>): (last': K -> int)
  {
    if op.Put? || op.PutWr? || op.Get? then (k: K) => if k == op.key then now else last(k) else last
  }

  lemma UsedElsewhere<K, D>(items: seq<(K, D)>, last: K -> int, now: int, op: Op<K, D>)
    requires RowByUse(items, last, now)
    requires op.Put? || op.PutWr? || op.Get? ==> Index(items, op.key) == |items|
    ensures RowByUse(items, Uses(last, now, op), now + 1)
  {
  }

  lemma UsedHere<K, D>(items: seq<(K, D)>, p: nat, last: K -> int, now: int, op: Op<K, D>)
    requires RowByUse(items, last, now) && KeysOnce(items) && p < |items|
    requires (op.Put? || op.PutWr? || op.Get?) && items[p].0 == op.key
    ensures RowByUse(Promoted(items, p), Uses(last, now, op), now + 1)
  {
    var items', last' := Promoted(items, p), Uses(last, now, op);
    forall j, k | 0 <= j < k < |items'|
      ensures last'(items'[j].0) > last'(items'[k].0)
    {
      assert items'[k] == items[if k <= p then k - 1 else k];
      assert j > 0 ==> items'[j] == items[if j <= p then j - 1 else j];
    }
  }

  lemma UsedNew<K, D>(items: seq<(K, D)>, n: nat, data: D, last: K -> int, now: int, op: Op<K, D>)
    requires RowByUse(items, last, now) && n <= |items|
    requires (op.Put? || op.PutWr? || op.Get?) && Index(items, op.key) == |items|
    ensures RowByUse([(op.key, data)] + items[..n], Uses(last, now, op), now + 1)
  {
    var items', last' := [(op.key, data)] + items[..n], Uses(last, now, op);
    forall j | 0 < j < |items'|
      ensures items'[j] == items[j - 1] && last'(items'[j].0) == last(items[j - 1].0)
    {
    }
  }

  lemma ElsewhereKeeps<K, D>(t: Table<K, D>, hash: K -> nat, i: nat, items: seq<(K, D)>, last: K -> int, now: int, op: Op<K, D>)
    requires TableOk(t, hash) && ByUse(t, last, now) && i < |t.rows|
    requires op.Put? || op.PutWr? || op.Get? ==> Home(hash, |t.rows|, op.key) == i
    requires RowByUse(items, Uses(last, now, op), now + 1)
    ensures ByUse(WithRow(t, i, items), Uses(last, now, op), now + 1)
  {
    forall k | 0 <= k < |t.rows| && k != i
      ensures RowByUse(t.rows[k], Uses(last, now, op), now + 1)
    {
      assert RowListOk(t.rows[k], hash, |t.rows|, k);
      UsedElsewhere(t.rows[k], last, now, op);
    }
  }

  /** Every operation keeps the rows in order of use. */
  lemma StepKeepsUse<K, D>(t: Table<K, D>, hash: K -> nat, op: Op<K, D>, last: K -> int, now: int)
    requires NoKeyTwice(t, hash) && ByUse(t, last, now)
    ensures ByUse(Step(t, hash, op).table, Uses(last, now, op), now + 1)
  {
    match op
    case Put(key, data) => PutKeepsUse(t, hash, op, last, now);
    case PutWr(key, data) => PutKeepsUse(t, hash, op, last, now);
    case Get(key) =>
      var i := Home(hash, |t.rows|, key);
      var p := Index(t.rows[i], key);
      assert RowListOk(t.rows[i], hash, |t.rows|, i);
      if p < |t.rows[i]| {
        UsedHere(t.rows[i], p, last, now, op);
        ElsewhereKeeps(t, hash, i, Promoted(t.rows[i], p), last, now, op);
      } else {
        UsedElsewhere(t.rows[i], last, now, op);
        ElsewhereKeeps(t, hash, i, t.rows[i], last, now, op);
        assert WithRow(t, i, t.rows[i]) == t;
      }
    case Delete(key) =>
      DeleteKeepsUse(t, hash, op, last, now);
    case Clear =>
  }

  lemma DeleteKeepsUse<K, D>(t: Table<K, D>, hash: K -> nat, op: Op<K, D>, last: K -> int, now: int)
    requires NoKeyTwice(t, hash) && ByUse(t, last, now) && op.Delete?
    ensures ByUse(Step(t, hash, op).table, Uses(last, now, op), now + 1)
  {
    var i := Home(hash, |t.rows|, op.key);
    var p := Index(t.rows[i], op.key);
    AllLater(t, last, now);
    if p < |t.rows[i]| {
      UsedLess(t.rows[i], p, last, now);
      ElsewhereKeeps(t, hash, i, Without(t.rows[i], p), last, now, op);
    }
  }

  lemma UsedLess<K, D>(items: seq<(K, D)>, p: nat, last: K -> int, now: int)
    requires RowByUse(items, last, now) && p < |items|
    ensures RowByUse(Without(items, p), last, now + 1)
  {
    var less := Without(items, p);
    forall j | 0 <= j < |less| ensures less[j] == items[if j < p then j else j + 1] {
    }
  }

  lemma AllLater<K, D>(t: Table<K, D>, last: K -> int, now: int)
    requires ByUse(t, last, now)
    ensures ByUse(t, last, now + 1)
  {
    forall i | 0 <= i < |t.rows| ensures RowByUse(t.rows[i], last, now + 1) {
      assert RowByUse(t.rows[i], last, now);
    }
  }

  lemma PutKeepsUse<K, D>(t: Table<K, D>, hash: K -> nat, op: Op<K, D>, last: K -> int, now: int)
    requires NoKeyTwice(t, hash) && ByUse(t, last, now) && (op.Put? || op.PutWr?)
    ensures ByUse(Step(t, hash, op).table, Uses(last, now, op), now + 1)
  {
    var key, data := op.key, op.data;
    var i := Home(hash, |t.rows|, key);
    var items := t.rows[i];
    var p := Index(items, key);
    assert RowListOk(items, hash, |t.rows|, i) && RowByUse(items, last, now);
    if p < |items| {
      UsedHere(items, p, last, now, op);
      ElsewhereKeeps(t, hash, i, Promoted(items, p), last, now, op);
    } else {
      UsedElsewhere(items, last, now, op);
      ElsewhereKeeps(t, hash, i, items, last, now, op);
      assert WithRow(t, i, items) == t;
      if |items| < COLS {
        UsedNew(items, |items|, data, last, now, op);
        assert items[..|items|] == items;
        ElsewhereKeeps(t, hash, i, [(key, data)] + items, last, now, op);
      } else {
        UsedNew(items, 3, data, last, now, op);
        ElsewhereKeeps(t, hash, i, [(key, data)] + items[..3], last, now, op);
      }
    }
  }

  /** When each key was last used after the operations `ops`, numbered from 0. */
  function LastUse<K(==), D>(ops: seq<Op<K, D>>): (last: K -> int)
    decreases |ops|
  {
    if ops == [] then (k: K) => -1 else Uses(LastUse(ops[..|ops| - 1]), |ops| - 1, ops[|ops| - 1])
  }

  lemma {:induction false} RunByUse<K, D>(t: Table<K, D>, hash: K -> nat, ops: seq<Op<K, D>>)
    requires NoKeyTwice(t, hash) && forall i :: 0 <= i < |t.rows| ==> t.rows[i] == []
    ensures ByUse(Run(t, hash, ops).table, LastUse(ops), |ops|)
    decreases |ops|
  {
    if ops != [] {
      var n := |ops| - 1;
      RunByUse(t, hash, ops[..n]);
      var e := Run(t, hash, ops[..n]);
      assert Kept(t, hash, e);
      StepKeepsUse(e.table, hash, ops[n], LastUse(ops[..n]), n);
    }
  }

  /** The row of a new key keeps the three items used last and gives up `item`, the one used longest ago. */
  predicate GivesUp<K(==), D(==)>(t: Table<K, D>, hash: K -> nat, key: K, data: D, last: K -> int, rows: seq<seq<(K, D)>>, item: (K, D))
    requires TableOk(t, hash)
  {
    var i := Home(hash, |t.rows|, key);
    && |t.rows[i]| == COLS
    && rows == t.rows[i := [(key, data)] + t.rows[i][..3]]
    && item == t.rows[i][3]
    && forall j :: 0 <= j < 3 ==> last(t.rows[i][j].0) > last(item.0)
  }

  /**
   * Whichever of the inserts makes its row give up an item, it is the one used longest ago: the one reported lost without a
   * stash, otherwise the one moved to the stash.
   */
  predicate EvictsOldest<K(==), D(==)>(t: Table<K, D>, hash: K -> nat, key: K, data: D, last: K -> int)
    requires TableOk(t, hash)
  {
    var plain, stashed, waiting :=
      Insert(t, hash, key, data), InsertWithStash(t, hash, key, data), InsertWithStashWr(t, hash, key, data);
    && (plain.1.Lost? ==> GivesUp(t, hash, key, data, last, plain.0.rows, plain.1.item))
    && (stashed.1.Lost? ==> GivesUp(t, hash, key, data, last, stashed.0.rows, stashed.1.item))
    && (stashed.1.StashOk? || stashed.1.StashLost? ==> GivesUpTo(t, hash, key, data, last, stashed.0, t.next))
    && (waiting.1.StashOk? ==> GivesUpTo(t, hash, key, data, last, waiting.0, FreeSlot(t.stash)))
  }

  /** The item given up is in slot `s` of the stash. */
  predicate GivesUpTo<K(==), D(==)>(t: Table<K, D>, hash: K -> nat, key: K, data: D, last: K -> int, t': Table<K, D>, s: nat)
    requires TableOk(t, hash)
  {
    && s < |t.stash| == |t'.stash| && t'.stash[s].Some? && t'.stash == t.stash[s := t'.stash[s]]
    && GivesUp(t, hash, key, data, last, t'.rows, t'.stash[s].value)
  }

  lemma EvictsLast<K, D>(t: Table<K, D>, hash: K -> nat, key: K, data: D, last: K -> int, now: int)
    requires TableOk(t, hash) && ByUse(t, last, now)
    ensures EvictsOldest(t, hash, key, data, last)
  {
    var i := Home(hash, |t.rows|, key);
    assert RowListOk(t.rows[i], hash, |t.rows|, i) && RowByUse(t.rows[i], last, now);
    if |t.rows[i]| == COLS {
      assert GivesUp(t, hash, key, data, last, t.rows[i := [(key, data)] + t.rows[i][..3]], t.rows[i][3]);
    }
  }

  /** After any run, the item that a full row gives up is the one of that row used longest ago. */
  lemma EvictsLeastRecentlyUsed<K, D>(rows: nat, slots: nat, hash: K -> nat, ops: seq<Op<K, D>>, key: K, data: D)
    requires 0 < rows
    ensures var t := Empty<K, D>(rows, slots, 0);
            && NoKeyTwice(t, hash)
            && TableOk(Run(t, hash, ops).table, hash)
            && EvictsOldest(Run(t, hash, ops).table, hash, key, data, LastUse(ops))
  {
    var t := Empty<K, D>(rows, slots, 0);
    EmptyIsEmpty<K, D>(rows, slots, 0, hash);
    assert Kept(t, hash, Run(t, hash, ops));
    RunByUse(t, hash, ops);
    EvictsLast(Run(t, hash, ops).table, hash, key, data, LastUse(ops), |ops|);
  }
}
