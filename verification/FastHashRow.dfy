/**
 * One row of the fast hash table: four columns, a free flag and a replacement byte. Seen as the list of its
 * items in order of use, every row operation is one step of move-to-front with eviction from the back.
 */
module FastHashRow {
  import opened FastHashLookup
  import opened Sequences

  datatype Row<K, D> = Row(flags: bv8, vector: nat, keys: Four<K>, data: Four<D>)

  /** The test made for each column of a row: in use, and holding this key. */
  predicate Holds<K(==), D>(row: Row<K, D>, key: K, col: nat)
    requires col < 4
  {
    Occupied(row.flags, col) && row.keys.At(col) == key
  }

  /** The first column that holds the key, 4 when there is none. */
  function Find<K(==), D>(row: Row<K, D>, key: K): (col: nat)
  {
    if Holds(row, key, 0) then 0 else if Holds(row, key, 1) then 1
    else if Holds(row, key, 2) then 2 else if Holds(row, key, 3) then 3 else 4
  }

  function Touched<K, D>(row: Row<K, D>, col: nat): (r: Row<K, D>)
    requires col < 4
  {
    row.(vector := LtReplacementVector(row.vector).At(col))
  }

  /** The row with a new item in its first free column. */
  function Added<K, D>(row: Row<K, D>, key: K, data: D): (r: Row<K, D>)
  {
    var col := LtFreeFlag(row.flags);
    Row(row.flags + LtPowOfTwo(col), LtReplacementVector(row.vector).At(col), row.keys.Put(col, key), row.data.Put(col, data))
  }

  /** The row with a new item in place of its oldest one. */
  function Replaced<K, D>(row: Row<K, D>, key: K, data: D): (r: Row<K, D>)
  {
    var col := LtReplacementIndex(row.vector);
    Row(row.flags, LtReplacementVector(row.vector).At(col), row.keys.Put(col, key), row.data.Put(col, data))
  }

  function Removed<K, D>(row: Row<K, D>, col: nat): (r: Row<K, D>)
    requires col < 4
  {
    row.(vector := LtReplacementVectorRemove(row.vector).At(col), flags := WithoutFlag(row.flags, col))
  }

  // ---------------------------------------------------------------- what a row keeps

  /** The occupied columns come first in the order `o`. */
  predicate Packed(flags: bv8, o: seq<nat>)
    requires IsOrder(o)
  {
    && flags <= COL_FULL
    && forall i :: 0 <= i < 4 ==> (Occupied(flags, o[i]) <==> i < Count(flags))
  }

  /** No key is in two occupied columns. */
  predicate DistinctKeys<K(==)>(flags: bv8, keys: Four<K>)
  {
    forall c: nat, d: nat :: c < d < 4 && Occupied(flags, c) && Occupied(flags, d) ==> keys.At(c) != keys.At(d)
  }

  predicate RowOk<K(==), D>(row: Row<K, D>)
  {
    && IsVector(row.vector)
    && IsOrder(Order(row.vector))
    && Packed(row.flags, Order(row.vector))
    && DistinctKeys(row.flags, row.keys)
  }

  // ---------------------------------------------------------------- a row as a list

  /** The first `n` items in the order `o`. */
  function Items<K, D>(o: seq<nat>, keys: Four<K>, data: Four<D>, n: nat): (items: seq<(K, D)>)
    requires IsOrder(o) && n <= 4
    ensures |items| == n
    ensures forall i :: 0 <= i < n ==> items[i] == (keys.At(o[i]), data.At(o[i]))
  {
    [(keys.At(o[0]), data.At(o[0])), (keys.At(o[1]), data.At(o[1])),
     (keys.At(o[2]), data.At(o[2])), (keys.At(o[3]), data.At(o[3]))][..n]
  }

  /** The items of a row, the one used last first. */
  function Recent<K, D>(row: Row<K, D>): (items: seq<(K, D)>)
    requires IsOrder(Order(row.vector))
  {
    Items(Order(row.vector), row.keys, row.data, Count(row.flags))
  }

  predicate HasKey<K(==), D>(items: seq<(K, D)>, key: K)
  {
    exists i :: 0 <= i < |items| && items[i].0 == key
  }

  /** A list in which no key occurs twice. */
  predicate KeysOnce<K(==), D>(items: seq<(K, D)>)
  {
    forall i, j :: 0 <= i < j < |items| ==> items[i].0 != items[j].0
  }

  /** The four tests find the key exactly when the list has it, at the rank of the column found. */
  lemma FindFinds<K, D>(row: Row<K, D>, key: K)
    requires RowOk(row)
    ensures Find(row, key) < 4 <==> HasKey(Recent(row), key)
    ensures var c := Find(row, key);
            c < 4 ==> && Rank(row.vector, c) < |Recent(row)|
                      && Recent(row)[Rank(row.vector, c)] == (key, row.data.At(c))
  {
    var o, c := Order(row.vector), Find(row, key);
    OrderOk(row.vector);
    if c < 4 {
      FoundItem(o, Rank(row.vector, c), row, key);
    } else {
      AbsentItem(o, row, key);
    }
  }

  lemma FoundItem<K, D>(o: seq<nat>, i: nat, row: Row<K, D>, key: K)
    requires IsOrder(o) && Packed(row.flags, o) && i < 4 && Holds(row, key, o[i])
    ensures i < Count(row.flags) && Items(o, row.keys, row.data, Count(row.flags))[i] == (key, row.data.At(o[i]))
  {
  }

  lemma AbsentItem<K, D>(o: seq<nat>, row: Row<K, D>, key: K)
    requires IsOrder(o) && Packed(row.flags, o) && Find(row, key) == 4
    ensures !HasKey(Items(o, row.keys, row.data, Count(row.flags)), key)
  {
    forall i | 0 <= i < Count(row.flags)
      ensures row.keys.At(o[i]) != key
    {
      assert !Holds(row, key, o[i]);
    }
  }

  /** The item of an occupied column is listed. */
  lemma ColumnListed<K, D>(row: Row<K, D>, col: nat)
    requires RowOk(row) && col < 4 && Occupied(row.flags, col)
    ensures Rank(row.vector, col) < |Recent(row)| && Recent(row)[Rank(row.vector, col)] == (row.keys.At(col), row.data.At(col))
  {
    OrderOk(row.vector);
    FoundItem(Order(row.vector), Rank(row.vector, col), row, row.keys.At(col));
  }

  /** A listed item is in an occupied column. */
  lemma ListedColumn<K, D>(row: Row<K, D>, item: (K, D)) returns (col: nat)
    requires RowOk(row) && item in Recent(row)
    ensures col < 4 && Occupied(row.flags, col) && item == (row.keys.At(col), row.data.At(col))
  {
    col := ItemColumn(Order(row.vector), row, item);
  }

  lemma ItemColumn<K, D>(o: seq<nat>, row: Row<K, D>, item: (K, D)) returns (col: nat)
    requires IsOrder(o) && Packed(row.flags, o) && item in Items(o, row.keys, row.data, Count(row.flags))
    ensures col < 4 && Occupied(row.flags, col) && item == (row.keys.At(col), row.data.At(col))
  {
    var rank :| 0 <= rank < Count(row.flags) && Items(o, row.keys, row.data, Count(row.flags))[rank] == item;
    col := o[rank];
  }

  lemma RecentOnce<K, D>(row: Row<K, D>)
    requires RowOk(row)
    ensures KeysOnce(Recent(row))
  {
    ItemsOnce(Order(row.vector), row.flags, row.keys, row.data);
  }

  lemma ItemsOnce<K, D>(o: seq<nat>, flags: bv8, keys: Four<K>, data: Four<D>)
    requires IsOrder(o) && Packed(flags, o) && DistinctKeys(flags, keys)
    ensures KeysOnce(Items(o, keys, data, Count(flags)))
  {
    forall i, j | 0 <= i < j < Count(flags)
      ensures keys.At(o[i]) != keys.At(o[j])
    {
      assert Occupied(flags, o[i]) && Occupied(flags, o[j]);
      assert o[i] != o[j];
    }
  }

  // ---------------------------------------------------------------- the list after a change of the order

  /** Promoting a column keeps an order. */
  lemma PromotedOrder(o: seq<nat>, p: nat)
    requires IsOrder(o) && p < 4
    ensures IsOrder(Promoted(o, p))
  {
  }

  lemma DroppedOrder(o: seq<nat>, p: nat)
    requires IsOrder(o) && p < 4
    ensures IsOrder(Without(o, p) + [o[p]])
  {
  }

  /** The column of an order that is occupied or not by its rank. */
  lemma RankedFree(o: seq<nat>, flags: bv8, p: nat)
    requires IsOrder(o) && Packed(flags, o) && p < 4
    ensures Occupied(flags, o[p]) <==> p < Count(flags)
  {
  }

  lemma PromotedPacked(o: seq<nat>, p: nat, flags: bv8)
    requires IsOrder(o) && Packed(flags, o) && p < Count(flags) && IsOrder(Promoted(o, p))
    ensures Packed(flags, Promoted(o, p))
  {
  }

  lemma PromotedList<K, D>(o: seq<nat>, p: nat, n: nat, keys: Four<K>, data: Four<D>)
    requires IsOrder(o) && p < n <= 4 && IsOrder(Promoted(o, p))
    ensures Items(Promoted(o, p), keys, data, n) == Promoted(Items(o, keys, data, n), p)
  {
  }

  lemma PromotedItems<K, D>(o: seq<nat>, o': seq<nat>, p: nat, flags: bv8, keys: Four<K>, data: Four<D>)
    requires IsOrder(o) && Packed(flags, o) && p < Count(flags) && o' == Promoted(o, p)
    ensures IsOrder(o') && Packed(flags, o')
    ensures Items(o', keys, data, Count(flags)) == Promoted(Items(o, keys, data, Count(flags)), p)
  {
    PromotedOrder(o, p);
    PromotedPacked(o, p, flags);
    PromotedList(o, p, Count(flags), keys, data);
  }

  lemma PushedPacked(o: seq<nat>, p: nat, flags: bv8, flags': bv8)
    requires IsOrder(o) && Packed(flags, o) && Count(flags) <= p < 4 && IsOrder(Promoted(o, p))
    requires flags' <= COL_FULL && Count(flags') == Count(flags) + 1
    requires forall c: nat :: c < 4 ==> Occupied(flags', c) == (c == o[p] || Occupied(flags, c))
    ensures Packed(flags', Promoted(o, p))
  {
    var o' := Promoted(o, p);
    forall i | 0 <= i < 4
      ensures Occupied(flags', o'[i]) <==> i < Count(flags')
    {
      assert i > 0 ==> o'[i] == (if i <= p then o[i - 1] else o[i]) != o[p];
    }
  }

  lemma PushedList<K, D>(o: seq<nat>, p: nat, n: nat, keys: Four<K>, data: Four<D>, key: K, datum: D)
    requires IsOrder(o) && n <= p < 4 && IsOrder(Promoted(o, p))
    ensures Items(Promoted(o, p), keys.Put(o[p], key), data.Put(o[p], datum), n + 1) == [(key, datum)] + Items(o, keys, data, n)
  {
    var o' := Promoted(o, p);
    assert forall i :: 0 < i <= n ==> o'[i] == o[i - 1] != o[p];
  }

  lemma PushedItems<K, D>(o: seq<nat>, o': seq<nat>, p: nat, flags: bv8, flags': bv8, keys: Four<K>, data: Four<D>, key: K, datum: D)
    requires IsOrder(o) && Packed(flags, o) && p < 4 && !Occupied(flags, o[p]) && o' == Promoted(o, p)
    requires flags' <= COL_FULL && Count(flags') == Count(flags) + 1
    requires forall c: nat :: c < 4 ==> Occupied(flags', c) == (c == o[p] || Occupied(flags, c))
    ensures IsOrder(o') && Packed(flags', o')
    ensures Items(o', keys.Put(o[p], key), data.Put(o[p], datum), Count(flags'))
         == [(key, datum)] + Items(o, keys, data, Count(flags))
  {
    RankedFree(o, flags, p);
    PromotedOrder(o, p);
    PushedPacked(o, p, flags, flags');
    PushedList(o, p, Count(flags), keys, data, key, datum);
  }

  lemma EvictedList<K, D>(o: seq<nat>, keys: Four<K>, data: Four<D>, key: K, datum: D)
    requires IsOrder(o) && IsOrder(Promoted(o, 3))
    ensures Items(Promoted(o, 3), keys.Put(o[3], key), data.Put(o[3], datum), 4) == [(key, datum)] + Items(o, keys, data, 4)[..3]
  {
    PushedList(o, 3, 3, keys, data, key, datum);
    assert Items(o, keys, data, 4)[..3] == Items(o, keys, data, 3);
  }

  lemma EvictedItems<K, D>(o: seq<nat>, o': seq<nat>, flags: bv8, keys: Four<K>, data: Four<D>, key: K, datum: D)
    requires IsOrder(o) && Packed(flags, o) && Count(flags) == 4 && o' == Promoted(o, 3)
    ensures IsOrder(o') && Packed(flags, o')
    ensures Items(o', keys.Put(o[3], key), data.Put(o[3], datum), 4) == [(key, datum)] + Items(o, keys, data, 4)[..3]
  {
    PromotedOrder(o, 3);
    PromotedPacked(o, 3, flags);
    EvictedList(o, keys, data, key, datum);
  }

  lemma DroppedPacked(o: seq<nat>, p: nat, flags: bv8, flags': bv8)
    requires IsOrder(o) && Packed(flags, o) && p < Count(flags) && IsOrder(Without(o, p) + [o[p]])
    requires flags' <= COL_FULL && Count(flags') == Count(flags) - 1
    requires forall c: nat :: c < 4 ==> Occupied(flags', c) == (c != o[p] && Occupied(flags, c))
    ensures Packed(flags', Without(o, p) + [o[p]])
  {
    var o' := Without(o, p) + [o[p]];
    forall i | 0 <= i < 4
      ensures Occupied(flags', o'[i]) <==> i < Count(flags')
    {
      assert i < 3 ==> o'[i] == (if i < p then o[i] else o[i + 1]) != o[p];
    }
  }

  lemma DroppedList<K, D>(o: seq<nat>, p: nat, n: nat, keys: Four<K>, data: Four<D>)
    requires IsOrder(o) && p < n <= 4 && IsOrder(Without(o, p) + [o[p]])
    ensures Items(Without(o, p) + [o[p]], keys, data, n - 1) == Without(Items(o, keys, data, n), p)
  {
    var o', items := Without(o, p) + [o[p]], Items(o, keys, data, n);
    var left, right := Items(o', keys, data, n - 1), Without(items, p);
    forall i | 0 <= i < n - 1
      ensures left[i] == right[i]
    {
      var j := if i < p then i else i + 1;
      assert o'[i] == o[j] && right[i] == items[j];
    }
    assert |left| == |right|;
  }

  lemma DroppedItems<K, D>(o: seq<nat>, o': seq<nat>, p: nat, flags: bv8, flags': bv8, keys: Four<K>, data: Four<D>)
    requires IsOrder(o) && Packed(flags, o) && p < Count(flags) && o' == Without(o, p) + [o[p]]
    requires flags' <= COL_FULL && Count(flags') == Count(flags) - 1
    requires forall c: nat :: c < 4 ==> Occupied(flags', c) == (c != o[p] && Occupied(flags, c))
    ensures IsOrder(o') && Packed(flags', o')
    ensures Items(o', keys, data, Count(flags')) == Without(Items(o, keys, data, Count(flags)), p)
  {
    DroppedOrder(o, p);
    DroppedPacked(o, p, flags, flags');
    DroppedList(o, p, Count(flags), keys, data);
  }

  // ---------------------------------------------------------------- the row operations as list operations

  /** Using an item moves it to the front and leaves the order of the others. */
  lemma TouchedPromotes<K, D>(row: Row<K, D>, col: nat)
    requires RowOk(row) && col < 4 && Occupied(row.flags, col)
    ensures RowOk(Touched(row, col))
    ensures var i := Rank(row.vector, col);
            i < |Recent(row)| && Recent(Touched(row, col)) == Promoted(Recent(row), i)
  {
    OrderOk(row.vector);
    FrontOrder(row.vector, col);
    PromotedItems(Order(row.vector), Order(Touched(row, col).vector), Rank(row.vector, col), row.flags, row.keys, row.data);
  }

  /** A key found in no column goes to one. */
  lemma NewKeyDistinct<K, D>(row: Row<K, D>, key: K, col: nat, flags: bv8)
    requires DistinctKeys(row.flags, row.keys) && Find(row, key) == 4 && col < 4
    requires forall c: nat :: c < 4 && c != col ==> Occupied(flags, c) == Occupied(row.flags, c)
    ensures DistinctKeys(flags, row.keys.Put(col, key))
  {
    forall c: nat, d: nat | c < d < 4 && Occupied(flags, c) && Occupied(flags, d)
      ensures row.keys.Put(col, key).At(c) != row.keys.Put(col, key).At(d)
    {
      assert !Holds(row, key, c) && !Holds(row, key, d);
    }
  }

  /** The same for any byte that says the free column of rank `p` moved to the front. */
  lemma NewItemPushes<K, D>(row: Row<K, D>, key: K, data: D, p: nat, flags: bv8, vector: nat)
    requires RowOk(row) && Find(row, key) == 4
    requires p < 4 && !Occupied(row.flags, Order(row.vector)[p])
    requires IsVector(vector) && Order(vector) == Promoted(Order(row.vector), p)
    requires flags <= COL_FULL && Count(flags) == Count(row.flags) + 1
    requires forall c: nat :: c < 4 ==> Occupied(flags, c) == (c == Order(row.vector)[p] || Occupied(row.flags, c))
    ensures var col := Order(row.vector)[p];
            var row' := Row(flags, vector, row.keys.Put(col, key), row.data.Put(col, data));
            RowOk(row') && Recent(row') == [(key, data)] + Recent(row)
  {
    var o := Order(row.vector);
    NewKeyDistinct(row, key, o[p], flags);
    PushedItems(o, Order(vector), p, row.flags, flags, row.keys, row.data, key, data);
  }

  /** A new item goes to the front of a row that has a free column. */
  lemma AddedPushes<K, D>(row: Row<K, D>, key: K, data: D)
    requires RowOk(row) && row.flags < COL_FULL && Find(row, key) == 4
    ensures RowOk(Added(row, key, data))
    ensures Recent(Added(row, key, data)) == [(key, data)] + Recent(row)
  {
    var col := LtFreeFlag(row.flags);
    OrderOk(row.vector);
    FreeEntry(row.flags);
    FrontOrder(row.vector, col);
    NewItemPushes(row, key, data, Rank(row.vector, col), row.flags + LtPowOfTwo(col), LtReplacementVector(row.vector).At(col));
  }

  /** A new item goes to the front of a full row, and the item used longest ago is the one that goes. */
  lemma ReplacedEvicts<K, D>(row: Row<K, D>, key: K, data: D)
    requires RowOk(row) && row.flags == COL_FULL && Find(row, key) == 4
    ensures RowOk(Replaced(row, key, data))
    ensures |Recent(row)| == 4 && Recent(Replaced(row, key, data)) == [(key, data)] + Recent(row)[..3]
    ensures var col := LtReplacementIndex(row.vector); Recent(row)[3] == (row.keys.At(col), row.data.At(col))
  {
    var col := LtReplacementIndex(row.vector);
    OrderOk(row.vector);
    OldestOrder(row.vector);
    FrontOrder(row.vector, col);
    FullRow(row.flags);
    NewKeyDistinct(row, key, col, row.flags);
    EvictedItems(Order(row.vector), Order(LtReplacementVector(row.vector).At(col)), row.flags, row.keys, row.data, key, data);
  }

  /** Removing an item closes the gap and leaves the order of the others. */
  lemma RemovedDrops<K, D>(row: Row<K, D>, col: nat)
    requires RowOk(row) && col < 4 && Occupied(row.flags, col)
    ensures RowOk(Removed(row, col))
    ensures var i := Rank(row.vector, col);
            i < |Recent(row)| && Recent(Removed(row, col)) == Without(Recent(row), i)
  {
    OrderOk(row.vector);
    Cleared(row.flags, col);
    BackOrder(row.vector, col);
    DroppedItems(Order(row.vector), Order(LtReplacementVectorRemove(row.vector).At(col)), Rank(row.vector, col),
                 row.flags, WithoutFlag(row.flags, col), row.keys, row.data);
  }
}
