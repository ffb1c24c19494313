/**
 * What the fast hash table means: one list of at most four items for each row, the item used last first, and
 * a stash of single slots. Every operation of the table is an operation on these lists.
 */
module FastHashSpec {
  import opened FastHashLookup
  import opened FastHashRow
  import opened Options
  import opened Sequences

  /** `next` is the stash slot that takes the next evicted item. */
  datatype Table<K, D> = Table(rows: seq<seq<(K, D)>>, stash: seq<Option<(K, D)>>, next: nat)

  datatype Outcome<K, D> = Ok | Lost(item: (K, D)) | StashOk | StashLost(item: (K, D)) | Failed | Full

  const COLS: nat := 4

  /** The row of a key. */
  function Home<K>(hash: K -> nat, rows: nat, key: K): (i: nat)
    requires 0 < rows
    ensures i < rows
  {
    hash(key) % rows
  }

  /** Where the key is in a list, the length of the list when it is nowhere. */
  function Index<K(==), D>(items: seq<(K, D)>, key: K): (i: nat)
    ensures i <= |items|
    ensures i < |items| ==> items[i].0 == key
    ensures forall j :: 0 <= j < i ==> items[j].0 != key
  {
    if items == [] then 0 else if items[0].0 == key then 0 else 1 + Index(items[1..], key)
  }

  /** The first stash slot that holds the key, the size of the stash when there is none. */
  function StashIndex<K(==), D>(stash: seq<Option<(K, D)>>, key: K): (i: nat)
    ensures i <= |stash|
    ensures i < |stash| ==> stash[i].Some? && stash[i].value.0 == key
    ensures forall j :: 0 <= j < i ==> stash[j].Some? ==> stash[j].value.0 != key
  {
    if stash == [] then 0 else if stash[0].Some? && stash[0].value.0 == key then 0 else 1 + StashIndex(stash[1..], key)
  }

  /** The first free stash slot, the size of the stash when there is none. */
  function FreeSlot<K, D>(stash: seq<Option<(K, D)>>): (i: nat)
    ensures i <= |stash|
    ensures i < |stash| ==> stash[i].None?
    ensures forall j :: 0 <= j < i ==> stash[j].Some?
  {
    if stash == [] then 0 else if stash[0].None? then 0 else 1 + FreeSlot(stash[1..])
  }

  // ---------------------------------------------------------------- invariants

  /** What one list keeps: at most four items, no key twice, every key at home. */
  predicate RowListOk<K(==), D>(items: seq<(K, D)>, hash: K -> nat, rows: nat, i: nat)
    requires 0 < rows
  {
    && |items| <= 4
    && KeysOnce(items)
    && forall j :: 0 <= j < |items| ==> hash(items[j].0) % rows == i
  }

  predicate TableOk<K(==), D>(t: Table<K, D>, hash: K -> nat)
  {
    && 0 < |t.rows|
    && (t.stash != [] ==> t.next < |t.stash|)
    && forall i :: 0 <= i < |t.rows| ==> RowListOk(t.rows[i], hash, |t.rows|, i)
  }

  // ---------------------------------------------------------------- operations

  function WithRow<K, D>(t: Table<K, D>, i: nat, items: seq<(K, D)>): (t': Table<K, D>)
    requires i < |t.rows|
  {
    t.(rows := t.rows[i := items])
  }

  function WithSlot<K, D>(t: Table<K, D>, i: nat, slot: Option<(K, D)>): (t': Table<K, D>)
    requires i < |t.stash|
  {
    t.(stash := t.stash[i := slot])
  }

  /** Row `i` has lost exactly the item. */
  predicate TakenFromRow<K(==), D(==)>(t: Table<K, D>, t': Table<K, D>, i: nat, item: (K, D))
  {
    i < |t.rows| && exists p :: 0 <= p < |t.rows[i]| && t.rows[i][p] == item && t' == WithRow(t, i, Without(t.rows[i], p))
  }

  /** The stash index goes on to the next slot, and from the last one to the first. */
  function Advanced<K, D>(t: Table<K, D>): (t': Table<K, D>)
    requires t.next < |t.stash|
  {
    t.(next := if t.next + 1 == |t.stash| then 0 else t.next + 1)
  }

  function Insert<K(==), D>(t: Table<K, D>, hash: K -> nat, key: K, data: D): (r: (Table<K, D>, Outcome<K, D>))
    requires TableOk(t, hash)
  {
    var i := Home(hash, |t.rows|, key);
    var items := t.rows[i];
    var p := Index(items, key);
    if p < |items| then (WithRow(t, i, Promoted(items, p)), Failed)
    else if |items| < COLS then (WithRow(t, i, [(key, data)] + items), Ok)
    else (WithRow(t, i, [(key, data)] + items[..3]), Lost(items[3]))
  }

  function InsertWr<K(==), D>(t: Table<K, D>, hash: K -> nat, key: K, data: D): (r: (Table<K, D>, Outcome<K, D>))
    requires TableOk(t, hash)
  {
    var i := Home(hash, |t.rows|, key);
    var items := t.rows[i];
    var p := Index(items, key);
    if p < |items| then (WithRow(t, i, Promoted(items, p)), Failed)
    else if |items| < COLS then (WithRow(t, i, [(key, data)] + items), Ok)
    else (t, Full)
  }

  function InsertWithStash<K(==), D>(t: Table<K, D>, hash: K -> nat, key: K, data: D): (r: (Table<K, D>, Outcome<K, D>))
    requires TableOk(t, hash)
  {
    var i := Home(hash, |t.rows|, key);
    var items := t.rows[i];
    var p := Index(items, key);
    if p < |items| then (WithRow(t, i, Promoted(items, p)), Failed)
    else if StashIndex(t.stash, key) < |t.stash| then (t, Failed)
    else if |items| < COLS then (WithRow(t, i, [(key, data)] + items), Ok)
    else
      var t' := WithRow(t, i, [(key, data)] + items[..3]);
      if t.stash == [] then (t', Lost(items[3]))
      else (Advanced(WithSlot(t', t.next, Some(items[3]))),
            if t.stash[t.next].None? then StashOk else StashLost(t.stash[t.next].value))
  }

  function InsertWithStashWr<K(==), D>(t: Table<K, D>, hash: K -> nat, key: K, data: D): (r: (Table<K, D>, Outcome<K, D>))
    requires TableOk(t, hash)
  {
    var i := Home(hash, |t.rows|, key);
    var items := t.rows[i];
    var p := Index(items, key);
    var free := FreeSlot(t.stash);
    if p < |items| then (WithRow(t, i, Promoted(items, p)), Failed)
    else if StashIndex(t.stash, key) < |t.stash| then (t, Failed)
    else if |items| < COLS then (WithRow(t, i, [(key, data)] + items), Ok)
    else if free < |t.stash| then
      (Advanced(WithSlot(WithRow(t, i, [(key, data)] + items[..3]), free, Some(items[3]))), StashOk)
    else (t, Full)
  }

  function GetData<K(==), D>(t: Table<K, D>, hash: K -> nat, key: K): (r: (Table<K, D>, Option<D>))
    requires TableOk(t, hash)
  {
    var i := Home(hash, |t.rows|, key);
    var p := Index(t.rows[i], key);
    if p < |t.rows[i]| then (WithRow(t, i, Promoted(t.rows[i], p)), Some(t.rows[i][p].1)) else (t, None)
  }

  function GetDataWithStash<K(==), D>(t: Table<K, D>, hash: K -> nat, key: K): (r: (Table<K, D>, Option<D>))
    requires TableOk(t, hash)
  {
    var s := StashIndex(t.stash, key);
    var r := GetData(t, hash, key);
    if r.1.None? && s < |t.stash| then (t, Some(t.stash[s].value.1)) else r
  }

  /** The flag says that an item was removed (the function's 0). */
  function Remove<K(==), D>(t: Table<K, D>, hash: K -> nat, key: K): (r: (Table<K, D>, bool))
    requires TableOk(t, hash)
  {
    var i := Home(hash, |t.rows|, key);
    var p := Index(t.rows[i], key);
    if p < |t.rows[i]| then (WithRow(t, i, Without(t.rows[i], p)), true) else (t, false)
  }

  function RemoveWithStash<K(==), D>(t: Table<K, D>, hash: K -> nat, key: K): (r: (Table<K, D>, bool))
    requires TableOk(t, hash)
  {
    var s := StashIndex(t.stash, key);
    var r := Remove(t, hash, key);
    if !r.1 && s < |t.stash| then (WithSlot(t, s, None), true) else r
  }

  /** A table of empty rows and free slots. */
  function Empty<K, D>(rows: nat, slots: nat, next: nat): (t: Table<K, D>)
  {
    Table(seq(rows, i => []), seq(slots, i => None), next)
  }
}
