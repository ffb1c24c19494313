/**
 * The iterator of the fast hash table: the rows column by column, then the stash. From the start to the end it stops
 * at each occupied slot exactly once, and hands out the bytes found there: those of the item in it wherever 32 bits can
 * address them.
 */
module FastHashIteration {
  import opened FastHashConservation
  import opened FastHashLookup
  import opened FastHashRow
  import opened FastHashSpec
  import opened FastHashTable
  import opened Options
  import opened SlotBytes

  const ITER_START: int := -1
  const ITER_STASH: int := -2
  const ITER_END: int := -3

  /** Where an iterator stands. */
  datatype Position = Start | Cell(row: nat, col: nat) | Slot(index: nat) | End

  predicate Before(p: Position, q: Position)
  {
    match p
    case Start => !q.Start?
    case Cell(row, col) => (q.Cell? && (row < q.row || (row == q.row && col < q.col))) || q.Slot? || q.End?
    case Slot(index) => (q.Slot? && index < q.index) || q.End?
    case End => false
  }

  /** The slot exists and holds an item. */
  predicate Used<K(==, 0), D(0)>(t: HashTable<K, D>, p: Position)
    reads t.free_flag_field, t.stash_free_flag_field
  {
    || (p.Cell? && p.row < t.free_flag_field.Length && p.col < 4 && Occupied(t.free_flag_field[p.row], p.col))
    || (p.Slot? && p.index < t.stash_free_flag_field.Length && t.stash_free_flag_field[p.index])
  }

  /** The item in a used slot. */
  function ItemAt<K(==, 0), D(0)>(t: HashTable<K, D>, p: Position): (item: (K, D))
    requires t.Allocated() && Used(t, p)
    reads t.key_field, t.data_field, t.free_flag_field, t.stash_key_field, t.stash_data_field, t.stash_free_flag_field
  {
    if p.Cell? then (t.key_field[4 * p.row + p.col], t.data_field[4 * p.row + p.col])
    else (t.stash_key_field[p.index], t.stash_data_field[p.index])
  }

  /** The row or the stash slot of the position has lost exactly the item, and nothing else has changed. */
  predicate TakenOut<K(==), D(==)>(t: Table<K, D>, t': Table<K, D>, p: Position, item: (K, D))
  {
    match p
    case Cell(row, _) => TakenFromRow(t, t', row, item)
    case Slot(s) => s < |t.stash| && t.stash[s] == Some(item) && t' == WithSlot(t, s, None)
    case _ => false
  }

  // ---------------------------------------------------------------- reading in 32 bits

  /** Every slot has the bytes of a key and of its data. */
  ghost predicate TableSized(t: HashTable<Blob, Blob>)
    reads t.key_field, t.data_field, t.stash_key_field, t.stash_data_field
  {
    && 0 < t.key_size && 0 < t.data_size
    && Sized(t.key_field[..], t.key_size) && Sized(t.data_field[..], t.data_size)
    && Sized(t.stash_key_field[..], t.key_size) && Sized(t.stash_data_field[..], t.data_size)
  }

  /** The number of a slot in its array. */
  function SlotNumber(p: Position): (n: nat)
    requires p.Cell? || p.Slot?
  {
    if p.Cell? then 4 * p.row + p.col else p.index
  }

  /** What the iterator points at: it computes all offsets in 32 bits. */
  function ItemRead(t: HashTable<Blob, Blob>, p: Position): (item: (Blob, Blob))
    requires t.Allocated() && TableSized(t) && Used(t, p)
    reads t.key_field, t.data_field, t.free_flag_field, t.stash_key_field, t.stash_data_field, t.stash_free_flag_field
  {
    var n := SlotNumber(p);
    SlotWithin(if p.Cell? then t.key_field.Length else t.stash_size, t.key_size, n);
    SlotWithin(if p.Cell? then t.key_field.Length else t.stash_size, t.data_size, n);
    if p.Cell? then
      (BytesFrom(t.key_field[..], t.key_size, Offset32(n, t.key_size)), BytesFrom(t.data_field[..], t.data_size, Offset32(n, t.data_size)))
    else
      (BytesFrom(t.stash_key_field[..], t.key_size, Offset32(n, t.key_size)), BytesFrom(t.stash_data_field[..], t.data_size, Offset32(n, t.data_size)))
  }

  /** 32 bits give the offset of slot `p`, of its key and of its data. */
  ghost predicate OwnOffset<K(0), D(0)>(t: HashTable<K, D>, p: Position)
    requires p.Cell? || p.Slot?
  {
    Offset32(SlotNumber(p), t.key_size) == SlotNumber(p) * t.key_size && Offset32(SlotNumber(p), t.data_size) == SlotNumber(p) * t.data_size
  }

  /** Every used slot is looked up at its own bytes. */
  ghost predicate Addressable<K(0), D(0)>(t: HashTable<K, D>)
    reads t.free_flag_field, t.stash_free_flag_field
  {
    forall q :: Used(t, q) ==> OwnOffset(t, q)
  }

  /** The used slots are looked up at their own bytes exactly when 32 bits can address each of them. */
  lemma IteratorAddresses<K(0), D(0)>(t: HashTable<K, D>)
    ensures Addressable(t) <==>
            forall q :: Used(t, q) ==> SlotNumber(q) * t.key_size < WORD32 && SlotNumber(q) * t.data_size < WORD32
  {
    if forall q :: Used(t, q) ==> SlotNumber(q) * t.key_size < WORD32 && SlotNumber(q) * t.data_size < WORD32 {
      forall q | Used(t, q)
        ensures OwnOffset(t, q)
      {
        assert SlotNumber(q) * t.key_size < WORD32 && SlotNumber(q) * t.data_size < WORD32;
      }
    } else {
      var q :| Used(t, q) && !(SlotNumber(q) * t.key_size < WORD32 && SlotNumber(q) * t.data_size < WORD32);
      assert !OwnOffset(t, q);
    }
  }

  /** A slot looked up at its own bytes is read as it is. */
  lemma ReadsOwn(t: HashTable<Blob, Blob>, p: Position)
    requires t.Allocated() && TableSized(t) && Used(t, p) && OwnOffset(t, p)
    ensures ItemRead(t, p) == ItemAt(t, p)
  {
    if p.Cell? {
      OwnBytes(t.key_field[..], t.key_size, SlotNumber(p));
      OwnBytes(t.data_field[..], t.data_size, SlotNumber(p));
    } else {
      OwnBytes(t.stash_key_field[..], t.key_size, SlotNumber(p));
      OwnBytes(t.stash_data_field[..], t.data_size, SlotNumber(p));
    }
  }

  /**
   * A table that the iterator reads wrongly: in a slot whose key starts at 2^32 it reads the key of the first slot; if that
   * is used too, its key is handed out twice, and the one of the slot never.
   */
  lemma WrongItem(t: HashTable<Blob, Blob>, p: Position)
    requires t.Valid() && TableSized(t) && p.Cell? && p.row > 0 && Used(t, p) && SlotNumber(p) * t.key_size == 0x1_0000_0000
    ensures !Addressable(t) && ItemRead(t, p).0 == t.key_field[0]
    ensures Used(t, Cell(0, 0)) ==> ItemRead(t, p).0 == ItemAt(t, Cell(0, 0)).0 != ItemAt(t, p).0
  {
    OwnBytes(t.key_field[..], t.key_size, 0);
    assert Offset32(SlotNumber(p), t.key_size) == 0;
    assert !OwnOffset(t, p);
    if Used(t, Cell(0, 0)) {
      HomeRow(t, p);
      HomeRow(t, Cell(0, 0));
    }
  }

  /** A stored key is in its row. */
  lemma HomeRow<K(0), D(0)>(t: HashTable<K, D>, p: Position)
    requires t.Valid() && p.Cell? && Used(t, p)
    ensures Home(t.hash, t.table_rows, ItemAt(t, p).0) == p.row
  {
    SlotItemInRow(t, p);
    assert RowListOk(t.model.rows[p.row], t.hash, t.table_rows, p.row);
    var j :| 0 <= j < |t.model.rows[p.row]| && t.model.rows[p.row][j] == ItemAt(t, p);
  }

  // ---------------------------------------------------------------- iterating

  class Iter {
    const table: HashTable<Blob, Blob>
    var row: int
    var col: int
    var item: Option<(Blob, Blob)>

    constructor (table: HashTable<Blob, Blob>)
      ensures this.table == table && At() == Start && item == None
    {
      this.table := table;
      row, col, item := ITER_START, ITER_START, None;
    }

    function At(): (p: Position)
      reads this
    {
      if row >= 0 && col >= 0 then Cell(row, col)
      else if row == ITER_STASH && col >= 0 then Slot(col)
      else if row == ITER_START then Start
      else End
    }

    /** The iterator is in one of the states its functions leave it in. */
    predicate Valid()
      reads this
    {
      && (row >= 0 ==> 0 <= col < 4 && row < table.table_rows)
      && (row == ITER_STASH ==> 0 <= col < table.stash_size)
      && row >= ITER_END
    }

    /** The bytes at the offsets of a used column. */
    function ReadCell(r: nat, c: nat): (item: (Blob, Blob))
      requires table.Allocated() && TableSized(table) && Used(table, Cell(r, c))
      reads table.key_field, table.data_field, table.free_flag_field, table.stash_key_field, table.stash_data_field, table.stash_free_flag_field
      ensures item == ItemRead(table, Cell(r, c))
    {
      var n := 4 * r + c;
      SlotWithin(table.key_field.Length, table.key_size, n);
      SlotWithin(table.data_field.Length, table.data_size, n);
      (BytesFrom(table.key_field[..], table.key_size, Offset32(n, table.key_size)),
       BytesFrom(table.data_field[..], table.data_size, Offset32(n, table.data_size)))
    }

    /** The bytes at the offsets of a used slot of the stash. */
    function ReadSlot(i: nat): (item: (Blob, Blob))
      requires table.Allocated() && TableSized(table) && Used(table, Slot(i))
      reads table.key_field, table.data_field, table.free_flag_field, table.stash_key_field, table.stash_data_field, table.stash_free_flag_field
      ensures item == ItemRead(table, Slot(i))
    {
      SlotWithin(table.stash_size, table.key_size, i);
      SlotWithin(table.stash_size, table.data_size, i);
      (BytesFrom(table.stash_key_field[..], table.key_size, Offset32(i, table.key_size)),
       BytesFrom(table.stash_data_field[..], table.data_size, Offset32(i, table.data_size)))
    }

    /** `fht_get_next_iter`: the next used slot, or the end when no used slot follows; the flag is set in the first case. */
    method GetNext() returns (ok: bool)
      requires Valid() && table.Allocated() && TableSized(table)
      modifies this
      ensures Valid()
      ensures ok ==> Used(table, At()) && item == Some(ItemRead(table, At())) && Before(old(At()), At())
      ensures ok ==> forall q :: Used(table, q) && Before(old(At()), q) ==> q == At() || Before(At(), q)
      ensures !ok ==> At() == End && item == None && forall q :: Used(table, q) ==> !Before(old(At()), q)
    {
      ghost var from := At();
      if row >= 0 {
        var j := col + 1;
        while j < 4
          invariant col < j <= 4
          invariant forall k: nat :: col < k < j ==> !Occupied(table.free_flag_field[row], k)
        {
          if Occupied(table.free_flag_field[row], j) {
            col := j;
            item := Some(ReadCell(row, j));
            return true;
          }
          j := j + 1;
        }
      }
      if row >= 0 || row == ITER_START {
        var i := row + 1;
        while i < table.table_rows
          invariant row < i <= table.table_rows && 0 <= i
          invariant forall r: nat, k: nat :: row < r < i && k < 4 ==> !Occupied(table.free_flag_field[r], k)
        {
          var j := 0;
          while j < 4
            invariant 0 <= j <= 4
            invariant forall k: nat :: k < j ==> !Occupied(table.free_flag_field[i], k)
          {
            if Occupied(table.free_flag_field[i], j) {
              row, col := i, j;
              item := Some(ReadCell(i, j));
              return true;
            }
            j := j + 1;
          }
          i := i + 1;
        }
      }
      if row != ITER_END {
        var i := if row == ITER_STASH then col + 1 else 0;
        ghost var first := i;
        while i < table.stash_size
          invariant first <= i
          invariant forall k: nat :: first <= k < i && k < table.stash_size ==> !table.stash_free_flag_field[k]
        {
          if table.stash_free_flag_field[i] {
            row, col := ITER_STASH, i;
            item := Some(ReadSlot(i));
            return true;
          }
          i := i + 1;
        }
      }
      row, col, item := ITER_END, ITER_END, None;
      ok := false;
    }

    /** Takes out the item of the column the iterator stands at. */
    method RemoveCell()
      requires Valid() && table.Valid() && row >= 0 && Used(table, At())
      modifies this`item, table.free_flag_field, table.replacement_vector_field, table`model
      ensures At() == old(At()) && table.Valid() && !Used(table, At()) && item == None
      ensures forall q :: q != At() ==> Used(table, q) == old(Used(table, q))
      ensures TakenOut(old(table.model), table.model, At(), old(ItemAt(table, At())))
    {
      ghost var flags := table.free_flag_field[..];
      table.FlagsSayFull(row);
      Cleared(table.free_flag_field[row], col);
      table.FreeColumn(row, col);
      assert table.free_flag_field[row] == table.free_flag_field[..][row];
      forall q | q != At()
        ensures Used(table, q) == old(Used(table, q))
      {
        if q.Cell? && q.row < |flags| {
          assert table.free_flag_field[..][q.row] == table.free_flag_field[q.row];
        }
      }
      item := None;
    }

    /** Takes out the item of the stash slot the iterator stands at. */
    method RemoveSlot()
      requires Valid() && table.Valid() && row == ITER_STASH && Used(table, At())
      modifies this`item, table.stash_free_flag_field, table`model
      ensures At() == old(At()) && table.Valid() && !Used(table, At()) && item == None
      ensures forall q :: q != At() ==> Used(table, q) == old(Used(table, q))
      ensures TakenOut(old(table.model), table.model, At(), old(ItemAt(table, At())))
    {
      assert table.model.stash[col] == table.SlotAt(col);
      ghost var flags := table.stash_free_flag_field[..];
      table.FreeStash(col);
      forall q | q != At()
        ensures Used(table, q) == old(Used(table, q))
      {
        if q.Slot? && q.index < |flags| {
          assert table.stash_free_flag_field[..][q.index] == table.stash_free_flag_field[q.index];
        }
      }
      item := None;
    }

    /** `fht_remove_iter`: takes out the item the iterator stands at, if it is still there. */
    method RemoveCurrent() returns (removed: bool)
      requires Valid() && table.Valid()
      modifies this`item, table.free_flag_field, table.replacement_vector_field, table.stash_free_flag_field, table`model
      ensures Valid() && At() == old(At()) && removed == old(Used(table, At()))
      ensures table.Valid() && (!removed ==> table.model == old(table.model))
      ensures removed ==> !Used(table, At()) && item == None
      ensures removed ==> TakenOut(old(table.model), table.model, At(), old(ItemAt(table, At())))
      ensures forall q :: q != At() ==> Used(table, q) == old(Used(table, q))
    {
      if row >= 0 {
        if Occupied(table.free_flag_field[row], col) {
          RemoveCell();
          return true;
        }
      } else if row == ITER_STASH {
        if table.stash_free_flag_field[col] {
          RemoveSlot();
          return true;
        }
      }
      return false;
    }
  }

  /** The positions in the order the iterator takes. */
  predicate Ascending(s: seq<Position>)
  {
    forall i, j :: 0 <= i < j < |s| ==> Before(s[i], s[j])
  }

  /** All of them are before `p`. */
  predicate AllBefore(s: seq<Position>, p: Position)
  {
    forall i :: 0 <= i < |s| ==> Before(s[i], p)
  }

  lemma StopAdded(s: seq<Position>, p: Position)
    requires Ascending(s) && AllBefore(s, p)
    ensures Ascending(s + [p])
  {
  }

  lemma NextIsBehind(s: seq<Position>, p: Position, next: Position)
    requires AllBefore(s, p) && Before(p, next)
    ensures AllBefore(s + [p], next)
  {
  }

  /** What was handed out is what was read at the stops. */
  ghost predicate Handed(t: HashTable<Blob, Blob>, items: seq<(Blob, Blob)>, stops: seq<Position>)
    requires t.Allocated() && TableSized(t)
    reads t.key_field, t.data_field, t.free_flag_field, t.stash_key_field, t.stash_data_field, t.stash_free_flag_field
  {
    |items| == |stops| && forall i :: 0 <= i < |stops| ==> Used(t, stops[i]) && items[i] == ItemRead(t, stops[i])
  }

  /** How many slots follow a position. */
  ghost function Remaining<K(0), D(0)>(t: HashTable<K, D>, p: Position): (n: int)
  {
    match p
    case Start => 4 * t.table_rows + t.stash_size + 1
    case Cell(row, col) => 4 * (t.table_rows - row) - col + t.stash_size
    case Slot(index) => t.stash_size - index
    case End => 0
  }

  lemma CloserToEnd<K(0), D(0)>(t: HashTable<K, D>, p: Position, q: Position)
    requires t.Allocated() && Used(t, p) && Used(t, q) && Before(p, q)
    ensures 0 <= Remaining(t, q) < Remaining(t, p)
  {
  }

  /** Everything before `p` has been handed out. */
  ghost predicate Sweeping(t: HashTable<Blob, Blob>, items: seq<(Blob, Blob)>, stops: seq<Position>, ok: bool, p: Position)
    requires t.Allocated() && TableSized(t)
    reads t.key_field, t.data_field, t.free_flag_field, t.stash_key_field, t.stash_data_field, t.stash_free_flag_field
  {
    && Ascending(stops) && Handed(t, items, stops)
    && (ok ==> AllBefore(stops, p) && Used(t, p))
    && forall q :: Used(t, q) ==> q in stops || (ok && (q == p || Before(p, q)))
  }

  lemma SweepOn(t: HashTable<Blob, Blob>, items: seq<(Blob, Blob)>, stops: seq<Position>, p: Position, ok: bool, next: Position)
    requires t.Allocated() && TableSized(t) && Sweeping(t, items, stops, true, p)
    requires ok ==> Used(t, next) && Before(p, next) && forall q :: Used(t, q) && Before(p, q) ==> q == next || Before(next, q)
    requires !ok ==> forall q :: Used(t, q) ==> !Before(p, q)
    ensures Sweeping(t, items + [ItemRead(t, p)], stops + [p], ok, next)
    ensures ok ==> 0 <= Remaining(t, next) < Remaining(t, p)
  {
    StopAdded(stops, p);
    if ok {
      NextIsBehind(stops, p, next);
      CloserToEnd(t, p, next);
    }
    forall q | Used(t, q) && q !in stops
      ensures q in stops + [p] || (ok && (q == next || Before(next, q)))
    {
      if q == p {
        assert (stops + [p])[|stops|] == q;
      }
    }
  }

  lemma SweepDone(t: HashTable<Blob, Blob>, items: seq<(Blob, Blob)>, stops: seq<Position>, p: Position)
    requires t.Allocated() && TableSized(t) && Sweeping(t, items, stops, false, p)
    ensures forall q :: Used(t, q) <==> q in stops
    ensures Addressable(t) ==> forall i :: 0 <= i < |stops| ==> items[i] == ItemAt(t, stops[i])
  {
    if Addressable(t) {
      forall i | 0 <= i < |stops|
        ensures items[i] == ItemAt(t, stops[i])
      {
        ReadsOwn(t, stops[i]);
      }
    }
  }

  /**
   * A whole iteration: it stops at every used slot, at each once and in order, and hands out what it reads there. Where every
   * used slot is looked up at its own bytes, that is the item in it.
   */
  method Sweep(t: HashTable<Blob, Blob>) returns (items: seq<(Blob, Blob)>, stops: seq<Position>)
    requires t.Allocated() && TableSized(t)
    ensures Ascending(stops) && Handed(t, items, stops)
    ensures forall q :: Used(t, q) <==> q in stops
    ensures Addressable(t) ==> forall i :: 0 <= i < |stops| ==> items[i] == ItemAt(t, stops[i])
  {
    var it := new Iter(t);
    items, stops := [], [];
    var ok := it.GetNext();
    while ok
      invariant it.Valid() && it.table == t
      invariant Sweeping(t, items, stops, ok, it.At())
      invariant ok ==> it.item == Some(ItemRead(t, it.At()))
      decreases ok, Remaining(t, it.At())
    {
      ghost var from, passed, handed := it.At(), stops, items;
      items, stops := items + [it.item.value], stops + [it.At()];
      ok := it.GetNext();
      SweepOn(t, handed, passed, from, ok, it.At());
    }
    SweepDone(t, items, stops, it.At());
  }

  /** The used slots hold exactly the stored items. */
  lemma UsedSlotsHoldContents<K(0), D(0)>(t: HashTable<K, D>, item: (K, D))
    requires t.Valid()
    ensures item in Contents(t.model) <==> exists q :: Used(t, q) && ItemAt(t, q) == item
  {
    RowsItemsMember(t.model.rows, item);
    StashItemsMember(t.model.stash, item);
    if item in Contents(t.model) {
      if i :| 0 <= i < t.table_rows && item in t.model.rows[i] {
        assert t.RowLinked(i);
        var q := RowItemSlot(t, i, item);
      } else if s :| 0 <= s < t.stash_size && t.model.stash[s] == Some(item) {
        assert t.model.stash[s] == t.SlotAt(s);
        assert Used(t, Slot(s)) && ItemAt(t, Slot(s)) == item;
      }
    }
    if q :| Used(t, q) && ItemAt(t, q) == item {
      if q.Cell? {
        SlotItemInRow(t, q);
      } else {
        assert t.model.stash[q.index] == t.SlotAt(q.index);
      }
    }
  }

  /** The item of a column is the one of its cell. */
  lemma CellItem<K(0), D(0)>(t: HashTable<K, D>, i: nat, col: nat)
    requires t.Allocated() && Used(t, Cell(i, col))
    ensures ItemAt(t, Cell(i, col)) == (t.RowAt(i).keys.At(col), t.RowAt(i).data.At(col))
  {
  }

  lemma RowItemSlot<K(0), D(0)>(t: HashTable<K, D>, i: nat, item: (K, D)) returns (q: Position)
    requires t.Valid() && i < t.table_rows && item in t.model.rows[i]
    ensures Used(t, q) && ItemAt(t, q) == item
  {
    assert t.RowLinked(i);
    var col := ListedColumn(t.RowAt(i), item);
    q := Cell(i, col);
    CellItem(t, i, col);
  }

  lemma SlotItemInRow<K(0), D(0)>(t: HashTable<K, D>, q: Position)
    requires t.Valid() && Used(t, q) && q.Cell?
    ensures ItemAt(t, q) in t.model.rows[q.row]
  {
    assert t.RowLinked(q.row);
    ColumnListed(t.RowAt(q.row), q.col);
    CellItem(t, q.row, q.col);
  }
}
