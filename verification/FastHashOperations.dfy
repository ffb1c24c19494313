/**
 * Every operation of the fast hash table conserves items: what is stored afterwards is what was stored before, plus
 * the new item, minus exactly the item reported lost. The operations that look at the stash keep every key in one place.
 */
module FastHashOperations {
  import opened FastHashConservation
  import opened FastHashLookup
  import opened FastHashRow
  import opened FastHashSpec
  import opened Options
  import opened Sequences

  /** The item an insert takes in. */
  function Accepted<K(==), D(==)>(outcome: Outcome<K, D>, key: K, data: D): (m: multiset<(K, D)>)
  {
    if outcome.Failed? || outcome.Full? then multiset{} else multiset{(key, data)}
  }

  /** The item an insert reports lost. */
  function Reported<K(==), D(==)>(outcome: Outcome<K, D>): (m: multiset<(K, D)>)
  {
    if outcome.Lost? || outcome.StashLost? then multiset{outcome.item} else multiset{}
  }

  function HomeItems<K(==), D>(t: Table<K, D>, hash: K -> nat, key: K): (items: seq<(K, D)>)
    requires 0 < |t.rows|
  {
    t.rows[Home(hash, |t.rows|, key)]
  }

  /** The key is not in its row. */
  predicate NotInRow<K(==), D>(t: Table<K, D>, hash: K -> nat, key: K)
    requires 0 < |t.rows|
  {
    Index(HomeItems(t, hash, key), key) == |HomeItems(t, hash, key)|
  }

  // ---------------------------------------------------------------- case by case

  /** A row list whose keys were in the row before keeps the stash apart. */
  lemma KeepsApart<K, D>(t: Table<K, D>, hash: K -> nat, i: nat, items: seq<(K, D)>)
    requires 0 < |t.rows| && StashApart(t, hash) && i < |t.rows|
    requires forall j :: 0 <= j < |items| ==> HasKey(t.rows[i], items[j].0) || StashIndex(t.stash, items[j].0) == |t.stash|
    ensures StashApart(WithRow(t, i, items), hash)
  {
    var t' := WithRow(t, i, items);
    forall s | 0 <= s < |t.stash| && t.stash[s].Some?
      ensures !HasKey(t'.rows[Home(hash, |t.rows|, t.stash[s].value.0)], t.stash[s].value.0)
    {
      var key := t.stash[s].value.0;
      assert !HasKey(t.rows[Home(hash, |t.rows|, key)], key);
    }
  }

  /** The keys of `items'` are keys of `items`. */
  predicate KeysFrom<K(==), D>(items': seq<(K, D)>, items: seq<(K, D)>)
  {
    forall j :: 0 <= j < |items'| ==> HasKey(items, items'[j].0)
  }

  lemma PromotedOk<K, D>(items: seq<(K, D)>, p: nat, hash: K -> nat, rows: nat, i: nat)
    requires 0 < rows && RowListOk(items, hash, rows, i) && p < |items|
    ensures RowListOk(Promoted(items, p), hash, rows, i) && KeysFrom(Promoted(items, p), items)
  {
    var items' := Promoted(items, p);
    forall j | 0 <= j < |items'|
      ensures HasKey(items, items'[j].0) && Home(hash, rows, items'[j].0) == i
    {
      assert items'[j] == items[if j == 0 then p else if j <= p then j - 1 else j];
    }
  }

  lemma WithoutOk<K, D>(items: seq<(K, D)>, p: nat, hash: K -> nat, rows: nat, i: nat)
    requires 0 < rows && RowListOk(items, hash, rows, i) && p < |items|
    ensures RowListOk(Without(items, p), hash, rows, i) && KeysFrom(Without(items, p), items)
  {
    var items' := Without(items, p);
    forall j | 0 <= j < |items'|
      ensures HasKey(items, items'[j].0) && Home(hash, rows, items'[j].0) == i
    {
      assert items'[j] == items[if j < p then j else j + 1];
    }
  }

  /** The list with a new item in front, cut after `n` of the old ones. */
  function Pushed<K, D>(items: seq<(K, D)>, item: (K, D), n: nat): (r: seq<(K, D)>)
    requires n <= |items|
  {
    [item] + items[..n]
  }

  lemma PushedOk<K, D>(items: seq<(K, D)>, item: (K, D), n: nat, hash: K -> nat, rows: nat, i: nat)
    requires 0 < rows && RowListOk(items, hash, rows, i) && n <= |items| && n < COLS
    requires Index(items, item.0) == |items| && Home(hash, rows, item.0) == i
    ensures RowListOk(Pushed(items, item, n), hash, rows, i)
    ensures forall j :: 0 <= j < n + 1 ==> Pushed(items, item, n)[j] == item || HasKey(items, Pushed(items, item, n)[j].0)
    ensures forall m :: n <= m < |items| ==> !HasKey(Pushed(items, item, n), items[m].0)
  {
    var items' := Pushed(items, item, n);
    forall j | 0 < j < |items'|
      ensures items'[j] == items[j - 1] && HasKey(items, items'[j].0)
    {
    }
  }

  lemma TouchCase<K, D>(t: Table<K, D>, hash: K -> nat, i: nat, p: nat)
    requires TableOk(t, hash) && i < |t.rows| && p < |t.rows[i]|
    ensures var t' := WithRow(t, i, Promoted(t.rows[i], p));
            && TableOk(t', hash)
            && Contents(t') == Contents(t)
            && (StashApart(t, hash) ==> StashApart(t', hash))
  {
    var items := t.rows[i];
    assert RowListOk(items, hash, |t.rows|, i);
    SplitBag(items, p);
    RowReordered(t, i, Promoted(items, p));
    PromotedOk(items, p, hash, |t.rows|, i);
    if StashApart(t, hash) {
      KeepsApart(t, hash, i, Promoted(items, p));
    }
  }

  lemma PushCase<K, D>(t: Table<K, D>, hash: K -> nat, key: K, data: D)
    requires TableOk(t, hash) && NotInRow(t, hash, key) && |HomeItems(t, hash, key)| < COLS
    ensures var t' := WithRow(t, Home(hash, |t.rows|, key), [(key, data)] + HomeItems(t, hash, key));
            && TableOk(t', hash)
            && Moved(Contents(t), Contents(t'), multiset{(key, data)}, multiset{})
            && (StashApart(t, hash) && StashIndex(t.stash, key) == |t.stash| ==> StashApart(t', hash))
  {
    var i := Home(hash, |t.rows|, key);
    var items := t.rows[i];
    assert RowListOk(items, hash, |t.rows|, i);
    assert [(key, data)] + items == Pushed(items, (key, data), |items|);
    PushedOk(items, (key, data), |items|, hash, |t.rows|, i);
    PushedBag(items, (key, data));
    RowMoved(t, i, [(key, data)] + items, multiset{(key, data)}, multiset{});
    if StashApart(t, hash) && StashIndex(t.stash, key) == |t.stash| {
      KeepsApart(t, hash, i, [(key, data)] + items);
    }
  }

  /** A full row takes a new item and gives up its last one. */
  lemma EvictCase<K, D>(t: Table<K, D>, hash: K -> nat, key: K, data: D)
    requires TableOk(t, hash) && NotInRow(t, hash, key) && |HomeItems(t, hash, key)| == COLS
    ensures var i := Home(hash, |t.rows|, key);
            var t' := WithRow(t, i, [(key, data)] + t.rows[i][..3]);
            && TableOk(t', hash)
            && Moved(Contents(t), Contents(t'), multiset{(key, data)}, multiset{t.rows[i][3]})
            && !HasKey(t'.rows[i], t.rows[i][3].0) && Home(hash, |t.rows|, t.rows[i][3].0) == i
            && (StashApart(t, hash) && StashIndex(t.stash, key) == |t.stash| ==> StashApart(t', hash))
  {
    var i := Home(hash, |t.rows|, key);
    var items := t.rows[i];
    assert RowListOk(items, hash, |t.rows|, i);
    assert [(key, data)] + items[..3] == Pushed(items, (key, data), 3);
    PushedOk(items, (key, data), 3, hash, |t.rows|, i);
    EvictedBag(items, (key, data));
    RowMoved(t, i, [(key, data)] + items[..3], multiset{(key, data)}, multiset{items[3]});
    if StashApart(t, hash) && StashIndex(t.stash, key) == |t.stash| {
      KeepsApart(t, hash, i, [(key, data)] + items[..3]);
    }
  }

  /** The stash takes an item whose key is nowhere else. */
  lemma SlotCase<K, D>(t: Table<K, D>, hash: K -> nat, s: nat, slot: Option<(K, D)>)
    requires 0 < |t.rows| && s < |t.stash| && StashApart(t, hash)
    requires slot.Some? ==> !HasKey(HomeItems(t, hash, slot.value.0), slot.value.0) && StashIndex(t.stash, slot.value.0) == |t.stash|
    ensures StashApart(WithSlot(t, s, slot), hash)
  {
  }

  lemma RowKeyNotInStash<K, D>(t: Table<K, D>, hash: K -> nat, i: nat, j: nat)
    requires TableOk(t, hash) && StashApart(t, hash) && i < |t.rows| && j < |t.rows[i]|
    ensures StashIndex(t.stash, t.rows[i][j].0) == |t.stash|
  {
    assert RowListOk(t.rows[i], hash, |t.rows|, i);
    assert HasKey(t.rows[i], t.rows[i][j].0);
  }

  lemma SlotTableOk<K, D>(t: Table<K, D>, hash: K -> nat, s: nat, slot: Option<(K, D)>)
    requires TableOk(t, hash) && s < |t.stash|
    ensures TableOk(Advanced(WithSlot(t, s, slot)), hash)
  {
  }

  /** A full row gives its last item to stash slot `s`, which gives up what it held. */
  lemma StashCase<K, D>(t: Table<K, D>, hash: K -> nat, key: K, data: D, s: nat)
    requires TableOk(t, hash) && NotInRow(t, hash, key) && |HomeItems(t, hash, key)| == COLS && s < |t.stash|
    ensures var i := Home(hash, |t.rows|, key);
            var t' := Advanced(WithSlot(WithRow(t, i, [(key, data)] + t.rows[i][..3]), s, Some(t.rows[i][3])));
            && TableOk(t', hash)
            && Moved(Contents(t), Contents(t'), multiset{(key, data)}, SlotItems(t.stash[s]))
            && (StashApart(t, hash) && StashIndex(t.stash, key) == |t.stash| ==> StashApart(t', hash))
  {
    var i := Home(hash, |t.rows|, key);
    var old3 := t.rows[i][3];
    var m := WithRow(t, i, [(key, data)] + t.rows[i][..3]);
    var t' := WithSlot(m, s, Some(old3));
    EvictCase(t, hash, key, data);
    SlotTableOk(m, hash, s, Some(old3));
    SlotMoved(m, s, Some(old3));
    MovedTwice(Contents(t), Contents(m), Contents(t'), multiset{(key, data)}, multiset{old3}, SlotItems(t.stash[s]));
    if StashApart(t, hash) && StashIndex(t.stash, key) == |t.stash| {
      RowKeyNotInStash(t, hash, i, 3);
      SlotCase(m, hash, s, Some(old3));
    }
  }

  lemma DropCase<K, D>(t: Table<K, D>, hash: K -> nat, i: nat, p: nat)
    requires TableOk(t, hash) && i < |t.rows| && p < |t.rows[i]|
    ensures var t' := WithRow(t, i, Without(t.rows[i], p));
            && TableOk(t', hash)
            && Moved(Contents(t), Contents(t'), multiset{}, multiset{t.rows[i][p]})
            && (StashApart(t, hash) ==> StashApart(t', hash))
  {
    var items := t.rows[i];
    assert RowListOk(items, hash, |t.rows|, i);
    SplitBag(items, p);
    RowMoved(t, i, Without(items, p), multiset{}, multiset{items[p]});
    WithoutOk(items, p, hash, |t.rows|, i);
    if StashApart(t, hash) {
      KeepsApart(t, hash, i, Without(items, p));
    }
  }

  // ---------------------------------------------------------------- the inserts

  /** What an insert that ignores the stash promises of its result `r`. */
  predicate InsertOk<K(==), D(==)>(t: Table<K, D>, hash: K -> nat, key: K, data: D, r: (Table<K, D>, Outcome<K, D>))
    requires TableOk(t, hash)
  {
    var (t', out) := r;
    && TableOk(t', hash)
    && Moved(Contents(t), Contents(t'), Accepted(out, key, data), Reported(out))
    && (out.Failed? <==> !NotInRow(t, hash, key))
    && (out.Lost? <==> NotInRow(t, hash, key) && |HomeItems(t, hash, key)| == COLS)
    && (out.Failed? || out.Ok? || out.Lost?)
    && (out.Lost? ==> out.item.0 != key && out.item == HomeItems(t, hash, key)[3])
    && t'.stash == t.stash
  }

  lemma InsertTouches<K, D>(t: Table<K, D>, hash: K -> nat, key: K, data: D)
    requires TableOk(t, hash) && !NotInRow(t, hash, key)
    ensures InsertOk(t, hash, key, data, Insert(t, hash, key, data))
  {
    TouchCase(t, hash, Home(hash, |t.rows|, key), Index(HomeItems(t, hash, key), key));
  }

  lemma InsertPushes<K, D>(t: Table<K, D>, hash: K -> nat, key: K, data: D)
    requires TableOk(t, hash) && NotInRow(t, hash, key) && |HomeItems(t, hash, key)| < COLS
    ensures InsertOk(t, hash, key, data, Insert(t, hash, key, data))
  {
    PushCase(t, hash, key, data);
  }

  lemma InsertLoses<K, D>(t: Table<K, D>, hash: K -> nat, key: K, data: D)
    requires TableOk(t, hash) && NotInRow(t, hash, key) && |HomeItems(t, hash, key)| == COLS
    ensures InsertOk(t, hash, key, data, Insert(t, hash, key, data))
  {
    EvictCase(t, hash, key, data);
  }

  /** `fht_insert`: conserves items, fails exactly when the row has the key, loses one exactly when the row is full. */
  lemma InsertConserves<K, D>(t: Table<K, D>, hash: K -> nat, key: K, data: D)
    requires TableOk(t, hash)
    ensures InsertOk(t, hash, key, data, Insert(t, hash, key, data))
  {
    assert RowListOk(HomeItems(t, hash, key), hash, |t.rows|, Home(hash, |t.rows|, key));
    if !NotInRow(t, hash, key) {
      InsertTouches(t, hash, key, data);
    } else if |HomeItems(t, hash, key)| < COLS {
      InsertPushes(t, hash, key, data);
    } else {
      InsertLoses(t, hash, key, data);
    }
  }

  lemma InsertDoubles<K, D>(t: Table<K, D>, hash: K -> nat, key: K, data: D)
    requires NoKeyTwice(t, hash) && StashIndex(t.stash, key) < |t.stash|
    ensures !NoKeyTwice(Insert(t, hash, key, data).0, hash)
  {
    var i, s := Home(hash, |t.rows|, key), StashIndex(t.stash, key);
    var t' := Insert(t, hash, key, data).0;
    assert !HasKey(t.rows[i], t.stash[s].value.0);
    assert t'.rows[i][0].0 == key && t'.stash == t.stash;
    assert HasKey(t'.rows[i], t'.stash[s].value.0);
  }

  /** `fht_insert` does not look at the stash: it keeps every key in one place exactly when the stash does not have the new one. */
  lemma InsertIgnoresStash<K, D>(t: Table<K, D>, hash: K -> nat, key: K, data: D)
    requires NoKeyTwice(t, hash)
    ensures NoKeyTwice(Insert(t, hash, key, data).0, hash) <==> StashIndex(t.stash, key) == |t.stash|
  {
    assert RowListOk(HomeItems(t, hash, key), hash, |t.rows|, Home(hash, |t.rows|, key));
    if StashIndex(t.stash, key) < |t.stash| {
      InsertDoubles(t, hash, key, data);
    } else if !NotInRow(t, hash, key) {
      TouchCase(t, hash, Home(hash, |t.rows|, key), Index(HomeItems(t, hash, key), key));
    } else if |HomeItems(t, hash, key)| < COLS {
      PushCase(t, hash, key, data);
    } else {
      EvictCase(t, hash, key, data);
    }
  }

  /** Two tables that differ in the order of items within rows only. */
  predicate SameButRecency<K(==), D(==)>(t: Table<K, D>, t': Table<K, D>)
  {
    && t'.stash == t.stash && t'.next == t.next && |t'.rows| == |t.rows|
    && forall i :: 0 <= i < |t.rows| ==> multiset(t'.rows[i]) == multiset(t.rows[i])
  }

  /** What an insert that never replaces promises of its result `r`. */
  predicate InsertWrOk<K(==), D(==)>(t: Table<K, D>, hash: K -> nat, key: K, data: D, r: (Table<K, D>, Outcome<K, D>))
    requires TableOk(t, hash)
  {
    var (t', out) := r;
    && TableOk(t', hash)
    && Moved(Contents(t), Contents(t'), Accepted(out, key, data), multiset{})
    && (out.Failed? <==> !NotInRow(t, hash, key))
    && (out.Full? <==> NotInRow(t, hash, key) && |HomeItems(t, hash, key)| == COLS)
    && (out.Failed? || out.Ok? || out.Full?)
    && (!out.Ok? ==> SameButRecency(t, t'))
  }

  lemma InsertWrTouches<K, D>(t: Table<K, D>, hash: K -> nat, key: K, data: D)
    requires TableOk(t, hash) && !NotInRow(t, hash, key)
    ensures InsertWrOk(t, hash, key, data, InsertWr(t, hash, key, data))
  {
    var i, p := Home(hash, |t.rows|, key), Index(HomeItems(t, hash, key), key);
    TouchCase(t, hash, i, p);
    SplitBag(t.rows[i], p);
  }

  lemma InsertWrPushes<K, D>(t: Table<K, D>, hash: K -> nat, key: K, data: D)
    requires TableOk(t, hash) && NotInRow(t, hash, key)
    ensures InsertWrOk(t, hash, key, data, InsertWr(t, hash, key, data))
  {
    assert RowListOk(HomeItems(t, hash, key), hash, |t.rows|, Home(hash, |t.rows|, key));
    if |HomeItems(t, hash, key)| < COLS {
      PushCase(t, hash, key, data);
    }
  }

  /** `fht_insert_wr`: never loses an item, and changes nothing but recency when it does not insert. */
  lemma InsertWrKeepsAll<K, D>(t: Table<K, D>, hash: K -> nat, key: K, data: D)
    requires TableOk(t, hash)
    ensures InsertWrOk(t, hash, key, data, InsertWr(t, hash, key, data))
  {
    if !NotInRow(t, hash, key) {
      InsertWrTouches(t, hash, key, data);
    } else {
      InsertWrPushes(t, hash, key, data);
    }
  }

  /** What an insert that minds the stash promises of its result `r`. */
  predicate StashInsertOk<K(==), D(==)>(t: Table<K, D>, hash: K -> nat, key: K, data: D, r: (Table<K, D>, Outcome<K, D>))
    requires TableOk(t, hash)
  {
    var (t', out) := r;
    && NoKeyTwice(t', hash)
    && Moved(Contents(t), Contents(t'), Accepted(out, key, data), Reported(out))
    && (out.Failed? <==> Lookup(t, hash, key).Some?)
    && (out.Ok? <==> Lookup(t, hash, key).None? && |HomeItems(t, hash, key)| < COLS)
    && (out.Lost? ==> t.stash == [] && |HomeItems(t, hash, key)| == COLS && out.item == HomeItems(t, hash, key)[3])
    && (out.StashOk? ==> t.stash != [] && t.stash[t.next] == None)
    && (out.StashLost? ==> t.stash != [] && t.stash[t.next] == Some(out.item))
    && !out.Full?
  }

  lemma FullRowLoses<K, D>(t: Table<K, D>, hash: K -> nat, key: K, data: D)
    requires NoKeyTwice(t, hash) && Lookup(t, hash, key).None? && |HomeItems(t, hash, key)| == COLS && t.stash == []
    ensures StashInsertOk(t, hash, key, data, InsertWithStash(t, hash, key, data))
  {
    EvictCase(t, hash, key, data);
  }

  lemma FullRowStashes<K, D>(t: Table<K, D>, hash: K -> nat, key: K, data: D)
    requires NoKeyTwice(t, hash) && Lookup(t, hash, key).None? && |HomeItems(t, hash, key)| == COLS && t.stash != []
    ensures StashInsertOk(t, hash, key, data, InsertWithStash(t, hash, key, data))
  {
    var (t', out) := InsertWithStash(t, hash, key, data);
    StashCase(t, hash, key, data, t.next);
    assert SlotItems(t.stash[t.next]) == Reported(out);
  }

  lemma RowHasKey<K, D>(t: Table<K, D>, hash: K -> nat, key: K, data: D)
    requires NoKeyTwice(t, hash) && !NotInRow(t, hash, key)
    ensures StashInsertOk(t, hash, key, data, InsertWithStash(t, hash, key, data))
  {
    TouchCase(t, hash, Home(hash, |t.rows|, key), Index(HomeItems(t, hash, key), key));
  }

  lemma RowHasRoom<K, D>(t: Table<K, D>, hash: K -> nat, key: K, data: D)
    requires NoKeyTwice(t, hash) && Lookup(t, hash, key).None? && |HomeItems(t, hash, key)| < COLS
    ensures StashInsertOk(t, hash, key, data, InsertWithStash(t, hash, key, data))
  {
    PushCase(t, hash, key, data);
  }

  /** `fht_insert_with_stash`: conserves items, keeps every key in one place, and fails exactly when the key is stored. */
  lemma InsertWithStashConserves<K, D>(t: Table<K, D>, hash: K -> nat, key: K, data: D)
    requires NoKeyTwice(t, hash)
    ensures StashInsertOk(t, hash, key, data, InsertWithStash(t, hash, key, data))
  {
    assert RowListOk(HomeItems(t, hash, key), hash, |t.rows|, Home(hash, |t.rows|, key));
    if !NotInRow(t, hash, key) {
      RowHasKey(t, hash, key, data);
    } else if StashIndex(t.stash, key) < |t.stash| {
    } else if |HomeItems(t, hash, key)| < COLS {
      RowHasRoom(t, hash, key, data);
    } else if t.stash == [] {
      FullRowLoses(t, hash, key, data);
    } else {
      FullRowStashes(t, hash, key, data);
    }
  }

  /** `fht_insert_with_stash_wr`: never loses an item, keeps every key in one place, and is full only when row and stash are. */
  lemma InsertWithStashWrKeepsAll<K, D>(t: Table<K, D>, hash: K -> nat, key: K, data: D)
    requires NoKeyTwice(t, hash)
    ensures var (t', out) := InsertWithStashWr(t, hash, key, data);
            && NoKeyTwice(t', hash)
            && Moved(Contents(t), Contents(t'), Accepted(out, key, data), multiset{})
            && (out.Failed? <==> Lookup(t, hash, key).Some?)
            && (out.Full? <==> && Lookup(t, hash, key).None? && |HomeItems(t, hash, key)| == COLS
                               && forall s :: 0 <= s < |t.stash| ==> t.stash[s].Some?)
            && (out.Ok? <==> Lookup(t, hash, key).None? && |HomeItems(t, hash, key)| < COLS)
            && (out.Failed? || out.Full? || out.Ok? || out.StashOk?)
            && (out.Failed? || out.Full? ==> SameButRecency(t, t'))
  {
    var i := Home(hash, |t.rows|, key);
    var p := Index(t.rows[i], key);
    assert RowListOk(t.rows[i], hash, |t.rows|, i);
    if p < |t.rows[i]| {
      TouchCase(t, hash, i, p);
      SplitBag(t.rows[i], p);
    } else if StashIndex(t.stash, key) < |t.stash| {
    } else if |t.rows[i]| < COLS {
      PushCase(t, hash, key, data);
    } else if FreeSlot(t.stash) < |t.stash| {
      StashCase(t, hash, key, data, FreeSlot(t.stash));
    }
  }

  // ---------------------------------------------------------------- lookups and removals

  /** A lookup that minds the stash finds what is stored, and changes nothing but recency. */
  lemma GetDataFinds<K, D>(t: Table<K, D>, hash: K -> nat, key: K)
    requires NoKeyTwice(t, hash)
    ensures var (t', d) := GetDataWithStash(t, hash, key);
            NoKeyTwice(t', hash) && d == Lookup(t, hash, key) && SameButRecency(t, t') && Contents(t') == Contents(t)
  {
    var i := Home(hash, |t.rows|, key);
    var p := Index(t.rows[i], key);
    if p < |t.rows[i]| {
      TouchCase(t, hash, i, p);
      SplitBag(t.rows[i], p);
    }
  }

  /** What a removal promises of its result `r`. */
  predicate RemoveOk<K(==), D(==)>(t: Table<K, D>, hash: K -> nat, key: K, r: (Table<K, D>, bool))
    requires NoKeyTwice(t, hash)
  {
    var (t', removed) := r;
    && NoKeyTwice(t', hash)
    && (removed <==> Lookup(t, hash, key).Some?)
    && Lookup(t', hash, key).None?
    && Moved(Contents(t), Contents(t'), multiset{}, if removed then multiset{(key, Lookup(t, hash, key).value)} else multiset{})
  }

  /** Without its item, a row list does not have a key. */
  lemma KeyGone<K, D>(items: seq<(K, D)>, key: K, hash: K -> nat, rows: nat, i: nat)
    requires 0 < rows && RowListOk(items, hash, rows, i) && Index(items, key) < |items|
    ensures var p := Index(items, key); Index(Without(items, p), key) == |items| - 1
  {
  }

  lemma RemoveFromRow<K, D>(t: Table<K, D>, hash: K -> nat, key: K)
    requires NoKeyTwice(t, hash)
    requires var items := t.rows[Home(hash, |t.rows|, key)]; Index(items, key) < |items|
    ensures var i := Home(hash, |t.rows|, key);
            RemoveOk(t, hash, key, (WithRow(t, i, Without(t.rows[i], Index(t.rows[i], key))), true))
  {
    var i := Home(hash, |t.rows|, key);
    var p := Index(t.rows[i], key);
    assert RowListOk(t.rows[i], hash, |t.rows|, i);
    DropCase(t, hash, i, p);
    assert HasKey(t.rows[i], key);
    assert StashIndex(t.stash, key) == |t.stash|;
    KeyGone(t.rows[i], key, hash, |t.rows|, i);
  }

  lemma RemoveFromStash<K, D>(t: Table<K, D>, hash: K -> nat, key: K)
    requires NoKeyTwice(t, hash) && StashIndex(t.stash, key) < |t.stash|
    requires var items := t.rows[Home(hash, |t.rows|, key)]; Index(items, key) == |items|
    ensures RemoveOk(t, hash, key, (WithSlot(t, StashIndex(t.stash, key), None), true))
  {
    var s := StashIndex(t.stash, key);
    SlotMoved(t, s, None);
    SlotCase(t, hash, s, None);
    assert StashIndex(t.stash[s := None], key) == |t.stash|;
  }

  /** A removal that minds the stash takes out the item of the key, and nothing when there is none. */
  lemma RemoveTakes<K, D>(t: Table<K, D>, hash: K -> nat, key: K)
    requires NoKeyTwice(t, hash)
    ensures RemoveOk(t, hash, key, RemoveWithStash(t, hash, key))
  {
    var items := t.rows[Home(hash, |t.rows|, key)];
    if Index(items, key) < |items| {
      RemoveFromRow(t, hash, key);
    } else if StashIndex(t.stash, key) < |t.stash| {
      RemoveFromStash(t, hash, key);
    }
  }
}
