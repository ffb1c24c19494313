/**
 * Conservation and uniqueness in the fast hash table: what every operation does to the multiset of stored items,
 * and why the operations that look at the stash keep every key in one place only.
 */
module FastHashConservation {
  import opened FastHashLookup
  import opened FastHashRow
  import opened FastHashSpec
  import opened Options
  import opened Sequences

  // ---------------------------------------------------------------- stored items

  function RowsItems<K(==), D(==)>(rows: seq<seq<(K, D)>>): (m: multiset<(K, D)>)
  {
    if rows == [] then multiset{} else multiset(rows[0]) + RowsItems(rows[1..])
  }

  function SlotItems<K(==), D(==)>(slot: Option<(K, D)>): (m: multiset<(K, D)>)
  {
    if slot.Some? then multiset{slot.value} else multiset{}
  }

  function StashItems<K(==), D(==)>(stash: seq<Option<(K, D)>>): (m: multiset<(K, D)>)
  {
    if stash == [] then multiset{} else SlotItems(stash[0]) + StashItems(stash[1..])
  }

  /** Everything a table stores. */
  function Contents<K(==), D(==)>(t: Table<K, D>): (m: multiset<(K, D)>)
  {
    RowsItems(t.rows) + StashItems(t.stash)
  }

  /** The same multiset added on both sides. */
  lemma AddBoth<T>(m: multiset<T>, a: multiset<T>, b: multiset<T>, x: multiset<T>, y: multiset<T>)
    requires b + x == a + y
    ensures (m + b) + x == (m + a) + y
  {
    assert (m + b) + x == m + (b + x);
    assert (m + a) + y == m + (a + y);
  }

  lemma {:induction false} RowsItemsPut<K, D>(rows: seq<seq<(K, D)>>, i: nat, items: seq<(K, D)>)
    requires i < |rows|
    ensures RowsItems(rows[i := items]) + multiset(rows[i]) == RowsItems(rows) + multiset(items)
  {
    var rows' := rows[i := items];
    if i == 0 {
      assert rows'[1..] == rows[1..];
    } else {
      RowsItemsPut(rows[1..], i - 1, items);
      assert rows'[1..] == rows[1..][i - 1 := items] && rows[1..][i - 1] == rows[i];
      AddBoth(multiset(rows[0]), RowsItems(rows[1..]), RowsItems(rows'[1..]), multiset(rows[i]), multiset(items));
    }
  }

  lemma {:induction false} StashItemsPut<K, D>(stash: seq<Option<(K, D)>>, i: nat, slot: Option<(K, D)>)
    requires i < |stash|
    ensures StashItems(stash[i := slot]) + SlotItems(stash[i]) == StashItems(stash) + SlotItems(slot)
  {
    var stash' := stash[i := slot];
    if i == 0 {
      assert stash'[1..] == stash[1..];
    } else {
      StashItemsPut(stash[1..], i - 1, slot);
      assert stash'[1..] == stash[1..][i - 1 := slot] && stash[1..][i - 1] == stash[i];
      AddBoth(SlotItems(stash[0]), StashItems(stash[1..]), StashItems(stash'[1..]), SlotItems(stash[i]), SlotItems(slot));
    }
  }

  lemma SplitBag<K, D>(items: seq<(K, D)>, i: nat)
    requires i < |items|
    ensures multiset(items) == multiset(items[..i]) + multiset{items[i]} + multiset(items[i + 1..])
    ensures multiset(Promoted(items, i)) == multiset(items)
    ensures multiset(Without(items, i)) + multiset{items[i]} == multiset(items)
  {
    assert items == items[..i] + [items[i]] + items[i + 1..];
  }

  lemma PushedBag<K, D>(items: seq<(K, D)>, item: (K, D))
    ensures multiset([item] + items) == multiset{item} + multiset(items)
  {
  }

  lemma EvictedBag<K, D>(items: seq<(K, D)>, item: (K, D))
    requires |items| == 4
    ensures multiset([item] + items[..3]) + multiset{items[3]} == multiset{item} + multiset(items)
  {
    assert items == items[..3] + [items[3]];
  }

  // ---------------------------------------------------------------- no key twice

  /** The keys in the stash are different from each other and from the keys of their rows. */
  predicate StashApart<K(==), D>(t: Table<K, D>, hash: K -> nat)
    requires 0 < |t.rows|
  {
    && (forall i, j :: 0 <= i < j < |t.stash| && t.stash[i].Some? && t.stash[j].Some? ==> t.stash[i].value.0 != t.stash[j].value.0)
    && (forall i :: 0 <= i < |t.stash| && t.stash[i].Some? ==>
          !HasKey(t.rows[Home(hash, |t.rows|, t.stash[i].value.0)], t.stash[i].value.0))
  }

  predicate NoKeyTwice<K(==), D>(t: Table<K, D>, hash: K -> nat)
  {
    TableOk(t, hash) && StashApart(t, hash)
  }

  /** What a lookup in the rows and then in the stash finds. */
  function Lookup<K(==), D>(t: Table<K, D>, hash: K -> nat, key: K): (d: Option<D>)
    requires 0 < |t.rows|
  {
    var items := t.rows[Home(hash, |t.rows|, key)];
    var p, s := Index(items, key), StashIndex(t.stash, key);
    if p < |items| then Some(items[p].1) else if s < |t.stash| then Some(t.stash[s].value.1) else None
  }

  lemma {:induction false} RowsItemsMember<K, D>(rows: seq<seq<(K, D)>>, item: (K, D))
    ensures item in RowsItems(rows) <==> exists i :: 0 <= i < |rows| && item in rows[i]
  {
    if rows != [] {
      RowsItemsMember(rows[1..], item);
      if i :| 0 <= i < |rows| && item in rows[i] {
        assert i > 0 ==> rows[1..][i - 1] == rows[i];
      }
      if i :| 0 <= i < |rows[1..]| && item in rows[1..][i] {
        assert rows[i + 1] == rows[1..][i];
      }
    }
  }

  lemma {:induction false} StashItemsMember<K, D>(stash: seq<Option<(K, D)>>, item: (K, D))
    ensures item in StashItems(stash) <==> exists i :: 0 <= i < |stash| && stash[i] == Some(item)
  {
    if stash != [] {
      StashItemsMember(stash[1..], item);
      if i :| 0 <= i < |stash| && stash[i] == Some(item) {
        assert i > 0 ==> stash[1..][i - 1] == stash[i];
      }
      if i :| 0 <= i < |stash[1..]| && stash[1..][i] == Some(item) {
        assert stash[i + 1] == stash[1..][i];
      }
    }
  }

  /** With no key twice, the stored items are a map: an item is stored exactly when a lookup of its key finds its data. */
  lemma LookupFindsContents<K, D>(t: Table<K, D>, hash: K -> nat, key: K, data: D)
    requires NoKeyTwice(t, hash)
    ensures (key, data) in Contents(t) <==> Lookup(t, hash, key) == Some(data)
  {
    var i := Home(hash, |t.rows|, key);
    RowsItemsMember(t.rows, (key, data));
    StashItemsMember(t.stash, (key, data));
    if j :| 0 <= j < |t.rows| && (key, data) in t.rows[j] {
      assert RowListOk(t.rows[j], hash, |t.rows|, j);
      IndexIs(t.rows[j], key, data);
    } else if s :| 0 <= s < |t.stash| && t.stash[s] == Some((key, data)) {
      assert !HasKey(t.rows[i], key);
    }
  }

  lemma IndexIs<K, D>(items: seq<(K, D)>, key: K, data: D)
    requires KeysOnce(items) && (key, data) in items
    ensures Index(items, key) < |items| && items[Index(items, key)] == (key, data)
  {
    var j :| 0 <= j < |items| && items[j] == (key, data);
    assert Index(items, key) == j;
  }

  // ---------------------------------------------------------------- the cases of an operation

  /** Two multisets that differ by what came in and what went out. */
  predicate Moved<T(==)>(before: multiset<T>, after: multiset<T>, added: multiset<T>, gone: multiset<T>)
  {
    after + gone == before + added
  }

  lemma RowMoved<K, D>(t: Table<K, D>, i: nat, items: seq<(K, D)>, added: multiset<(K, D)>, gone: multiset<(K, D)>)
    requires i < |t.rows| && Moved(multiset(t.rows[i]), multiset(items), added, gone)
    ensures Moved(Contents(t), Contents(WithRow(t, i, items)), added, gone)
  {
    RowsItemsPut(t.rows, i, items);
    Balance(RowsItems(t.rows), RowsItems(WithRow(t, i, items).rows), multiset(t.rows[i]), multiset(items), added, gone, StashItems(t.stash));
  }

  lemma RowReordered<K, D>(t: Table<K, D>, i: nat, items: seq<(K, D)>)
    requires i < |t.rows| && multiset(items) == multiset(t.rows[i])
    ensures Contents(WithRow(t, i, items)) == Contents(t)
  {
    RowsItemsPut(t.rows, i, items);
    Cancel(RowsItems(t.rows), RowsItems(WithRow(t, i, items).rows), multiset(items));
  }

  lemma Cancel<T>(a: multiset<T>, b: multiset<T>, m: multiset<T>)
    requires b + m == a + m
    ensures a == b
  {
    assert (a + m) - m == a && (b + m) - m == b;
  }

  lemma SlotMoved<K, D>(t: Table<K, D>, i: nat, slot: Option<(K, D)>)
    requires i < |t.stash|
    ensures Moved(Contents(t), Contents(WithSlot(t, i, slot)), SlotItems(slot), SlotItems(t.stash[i]))
  {
    StashItemsPut(t.stash, i, slot);
    AddBoth(RowsItems(t.rows), StashItems(t.stash), StashItems(WithSlot(t, i, slot).stash), SlotItems(t.stash[i]), SlotItems(slot));
  }

  /** From `a' + x == a + x'` and `x' + gone == x + added`. */
  lemma Balance<T>(a: multiset<T>, a': multiset<T>, x: multiset<T>, x': multiset<T>, added: multiset<T>, gone: multiset<T>, rest: multiset<T>)
    requires a' + x == a + x' && Moved(x, x', added, gone)
    ensures Moved(a + rest, a' + rest, added, gone)
  {
    forall e: T | true
      ensures (a' + rest + gone)[e] == (a + rest + added)[e]
    {
      assert (a' + x)[e] == (a + x')[e];
      assert (x' + gone)[e] == (x + added)[e];
    }
  }

  /** Two moves in a row; what the first sends out, the second takes in. */
  lemma MovedTwice<T>(a: multiset<T>, b: multiset<T>, c: multiset<T>, added: multiset<T>, passed: multiset<T>, gone: multiset<T>)
    requires Moved(a, b, added, passed) && Moved(b, c, passed, gone)
    ensures Moved(a, c, added, gone)
  {
    forall e: T | true
      ensures (c + gone)[e] == (a + added)[e]
    {
      assert (b + passed)[e] == (a + added)[e];
      assert (c + gone)[e] == (b + passed)[e];
    }
  }
}
