/**
 * The fast hash table in its arrays: four columns of keys and data a row, a free flag and a replacement byte a row,
 * and the stash. Each function refines the operation of `FastHashSpec` with its name.
 */
module FastHashTable {
  import opened Arithmetic
  import opened FastHashConservation
  import opened FastHashLookup
  import opened FastHashOperations
  import opened FastHashRow
  import opened FastHashSpec
  import opened Options
  import opened Sequences
  import opened SlotBytes

  class HashTable<K(==, 0), D(0)> {
    const table_rows: nat
    const stash_size: nat
    const key_size: nat
    const data_size: nat
    const hash: K -> nat
    const key_field: array<K>
    const data_field: array<D>
    const free_flag_field: array<bv8>
    const replacement_vector_field: array<nat>
    const stash_key_field: array<K>
    const stash_data_field: array<D>
    const stash_free_flag_field: array<bool>
    var stash_index: nat
    ghost var model: Table<K, D>

    /** The arrays are seven different objects of the sizes allocated for them. */
    ghost predicate Allocated()
    {
      var k: object, d: object, f: object, r: object, sk: object, sd: object, sf: object :=
        key_field, data_field, free_flag_field, replacement_vector_field, stash_key_field, stash_data_field, stash_free_flag_field;
      && k !in {d, f, r, sk, sd, sf} && d !in {f, r, sk, sd, sf} && f !in {r, sk, sd, sf}
      && r !in {sk, sd, sf} && sk !in {sd, sf} && sd != sf
      && 0 < table_rows
      && key_field.Length == 4 * table_rows && data_field.Length == 4 * table_rows
      && free_flag_field.Length == table_rows && replacement_vector_field.Length == table_rows
      && stash_key_field.Length == stash_size && stash_data_field.Length == stash_size && stash_free_flag_field.Length == stash_size
    }

    function RowAt(i: nat): (row: Row<K, D>)
      requires i < free_flag_field.Length && i < replacement_vector_field.Length
      requires 4 * i + 3 < key_field.Length && 4 * i + 3 < data_field.Length
      reads key_field, data_field, free_flag_field, replacement_vector_field
    {
      Row(free_flag_field[i], replacement_vector_field[i],
          Four(key_field[4 * i], key_field[4 * i + 1], key_field[4 * i + 2], key_field[4 * i + 3]),
          Four(data_field[4 * i], data_field[4 * i + 1], data_field[4 * i + 2], data_field[4 * i + 3]))
    }

    function SlotAt(s: nat): (slot: Option<(K, D)>)
      requires s < stash_key_field.Length && s < stash_data_field.Length && s < stash_free_flag_field.Length
      reads stash_key_field, stash_data_field, stash_free_flag_field
    {
      if stash_free_flag_field[s] then Some((stash_key_field[s], stash_data_field[s])) else None
    }

    /** List `i` of the model is what row `i` holds. */
    ghost predicate RowLinked(i: nat)
      requires Allocated() && i < table_rows && i < |model.rows|
      reads this`model, key_field, data_field, free_flag_field, replacement_vector_field
    {
      RowOk(RowAt(i)) && model.rows[i] == Recent(RowAt(i))
    }

    /** The model lists what the rows hold. */
    ghost predicate RowsLinked()
      requires Allocated()
      reads this`model, key_field, data_field, free_flag_field, replacement_vector_field
    {
      && |model.rows| == table_rows
      && forall i :: 0 <= i < table_rows ==> RowLinked(i)
    }

    /** The model lists what the stash holds. */
    ghost predicate StashLinked()
      requires Allocated()
      reads this, stash_key_field, stash_data_field, stash_free_flag_field
    {
      && |model.stash| == stash_size
      && model.next == stash_index
      && forall s :: 0 <= s < stash_size ==> model.stash[s] == SlotAt(s)
    }

    ghost predicate Linked()
      reads this, key_field, data_field, free_flag_field, replacement_vector_field
      reads stash_key_field, stash_data_field, stash_free_flag_field
    {
      Allocated() && RowsLinked() && StashLinked()
    }

    ghost predicate Valid()
      reads this, key_field, data_field, free_flag_field, replacement_vector_field
      reads stash_key_field, stash_data_field, stash_free_flag_field
    {
      Linked() && TableOk(model, hash)
    }

    /** The offsets of stash slots, which are computed in 32 bits, are apart: see `SlotsApart`. */
    predicate StashAddressable()
    {
      Within32(stash_size, key_size) && Within32(stash_size, data_size)
    }

    /** `fht_init`, once the sizes have passed its tests. */
    constructor (rows: nat, slots: nat, key_size: nat, data_size: nat, hash: K -> nat)
      requires 0 < rows && 0 < key_size < WORD32 && 0 < data_size < WORD32
      ensures this.key_size == key_size && this.data_size == data_size
      ensures Valid() && model == Empty(rows, slots, 0) && table_rows == rows && stash_size == slots && this.hash == hash
    {
      table_rows, stash_size, this.key_size, this.data_size := rows, slots, key_size, data_size;
      this.hash, stash_index := hash, 0;
      key_field, data_field := new K[4 * rows], new D[4 * rows];
      free_flag_field := new bv8[rows](i => 0);
      replacement_vector_field := new nat[rows](i => DEFAULT_REPLACEMENT_VECTOR);
      stash_key_field, stash_data_field := new K[slots], new D[slots];
      stash_free_flag_field := new bool[slots](i => false);
      model := Empty(rows, slots, 0);
      new;
      DefaultIsVector();
      forall i | 0 <= i < rows
        ensures RowLinked(i)
      {
        EmptyRowLinked(i);
      }
    }

    lemma EmptyRowLinked(i: nat)
      requires Allocated() && i < table_rows == |model.rows| && model.rows[i] == []
      requires free_flag_field[i] == 0 && IsVector(replacement_vector_field[i])
      ensures RowLinked(i)
    {
      EmptyRow(RowAt(i));
    }

    /** A row with no column in use. */
    static lemma EmptyRow(row: Row<K, D>)
      requires row.flags == 0 && IsVector(row.vector)
      ensures RowOk(row) && Recent(row) == []
    {
      OrderOk(row.vector);
    }

    // -------------------------------------------------------------- one row

    /** The four tests for a key in a row. */
    method TestColumns(i: nat, key: K) returns (col: nat)
      requires Allocated() && i < table_rows
      ensures col == Find(RowAt(i), key)
      ensures col < 4 ==> RowAt(i).data.At(col) == data_field[4 * i + col]
    {
      if free_flag_field[i] & 0x01 != 0 && key_field[4 * i] == key {
        col := 0;
      } else if free_flag_field[i] & 0x02 != 0 && key_field[4 * i + 1] == key {
        col := 1;
      } else if free_flag_field[i] & 0x04 != 0 && key_field[4 * i + 2] == key {
        col := 2;
      } else if free_flag_field[i] & 0x08 != 0 && key_field[4 * i + 3] == key {
        col := 3;
      } else {
        col := 4;
      }
    }

    /** Looks for a key in its row; the column found holds the item that the list has at the column's rank. */
    method FindColumn(i: nat, key: K) returns (col: nat)
      requires Linked() && i < table_rows
      ensures col == Find(RowAt(i), key)
      ensures col < 4 ==> Occupied(free_flag_field[i], col) && Index(model.rows[i], key) == Rank(replacement_vector_field[i], col) < |model.rows[i]|
      ensures col < 4 ==> model.rows[i][Rank(replacement_vector_field[i], col)] == (key, data_field[4 * i + col])
      ensures col >= 4 ==> Index(model.rows[i], key) == |model.rows[i]|
    {
      col := TestColumns(i, key);
      assert RowLinked(i);
      FoundAtRank(RowAt(i), key, model.rows[i]);
    }

    // -------------------------------------------------------------- changes of one row

    /** No row but row `i` has changed. */
    twostate predicate OthersKept(i: nat)
      requires Allocated() && i < table_rows
      reads key_field, data_field, free_flag_field, replacement_vector_field
    {
      forall k :: 0 <= k < table_rows && k != i ==> RowAt(k) == old(RowAt(k))
    }

    /** After a change of row `i` the other rows are linked as before. */
    twostate lemma Relink(i: nat)
      requires old(Linked()) && i < table_rows && |model.rows| == table_rows && OthersKept(i)
      requires forall k :: 0 <= k < table_rows && k != i ==> model.rows[k] == old(model.rows[k])
      requires RowLinked(i)
      ensures RowsLinked()
    {
      forall k | 0 <= k < table_rows
        ensures RowLinked(k)
      {
        if k != i {
          assert old(RowLinked(k));
        }
      }
    }

    /** Records the use of a column. */
    method Touch(i: nat, col: nat)
      requires Linked() && i < table_rows && col < 4 && Occupied(free_flag_field[i], col)
      modifies replacement_vector_field, this`model
      ensures Linked() && old(Rank(replacement_vector_field[i], col)) < |old(model.rows[i])|
      ensures model == WithRow(old(model), i, Promoted(old(model.rows[i]), old(Rank(replacement_vector_field[i], col))))
    {
      assert RowLinked(i);
      ghost var was, items, p := RowAt(i), model.rows[i], Rank(replacement_vector_field[i], col);
      TouchedPromotes(was, col);
      replacement_vector_field[i] := LtReplacementVector(replacement_vector_field[i]).At(col);
      assert RowAt(i) == Touched(was, col);
      model := WithRow(model, i, Promoted(items, p));
      Relink(i);
    }

    /** Copies an item to a column. */
    method Store(i: nat, col: nat, key: K, data: D)
      requires Allocated() && i < table_rows && col < 4
      modifies key_field, data_field
      ensures OthersKept(i)
      ensures RowAt(i) == old(RowAt(i)).(keys := old(RowAt(i)).keys.Put(col, key), data := old(RowAt(i)).data.Put(col, data))
    {
      key_field[4 * i + col] := key;
      data_field[4 * i + col] := data;
    }

    /** The row's arrays with a new item in its first free column. */
    method StoreFree(i: nat, key: K, data: D)
      requires Allocated() && i < table_rows && free_flag_field[i] < COL_FULL
      modifies key_field, data_field, free_flag_field, replacement_vector_field
      ensures OthersKept(i) && RowAt(i) == Added(old(RowAt(i)), key, data)
    {
      var col := LtFreeFlag(free_flag_field[i]);
      FreeEntry(free_flag_field[i]);
      Store(i, col, key, data);
      replacement_vector_field[i] := LtReplacementVector(replacement_vector_field[i]).At(col);
      free_flag_field[i] := free_flag_field[i] + LtPowOfTwo(col);
    }

    /** Puts a new item in the first free column. */
    method Add(i: nat, key: K, data: D)
      requires Linked() && i < table_rows && free_flag_field[i] < COL_FULL && Find(RowAt(i), key) == 4
      modifies key_field, data_field, free_flag_field, replacement_vector_field, this`model
      ensures Linked() && model == WithRow(old(model), i, [(key, data)] + old(model.rows[i]))
    {
      assert RowLinked(i);
      ghost var was, items := RowAt(i), model.rows[i];
      AddedPushes(was, key, data);
      StoreFree(i, key, data);
      model := WithRow(model, i, [(key, data)] + items);
      Relink(i);
    }

    method Load(i: nat, col: nat) returns (item: (K, D))
      requires Allocated() && i < table_rows && col < 4
      ensures item == (RowAt(i).keys.At(col), RowAt(i).data.At(col))
    {
      item := (key_field[4 * i + col], data_field[4 * i + col]);
    }

    /** The item of a full row that was used longest ago. */
    method Oldest(i: nat) returns (item: (K, D))
      requires Linked() && i < table_rows && free_flag_field[i] == COL_FULL
      ensures |model.rows[i]| == 4 && item == model.rows[i][3]
    {
      var col := LtReplacementIndex(replacement_vector_field[i]);
      item := Load(i, col);
      assert RowLinked(i);
      OldestIsLast(RowAt(i));
    }

    static lemma OldestIsLast(row: Row<K, D>)
      requires RowOk(row) && row.flags == COL_FULL
      ensures |Recent(row)| == 4
      ensures var col := LtReplacementIndex(row.vector); Recent(row)[3] == (row.keys.At(col), row.data.At(col))
    {
      OldestOrder(row.vector);
      FullRow(row.flags);
    }

    /** Stores an item in the oldest column and makes it the newest. */
    method StoreOldest(i: nat, key: K, data: D)
      requires Allocated() && i < table_rows && IsVector(replacement_vector_field[i])
      modifies key_field, data_field, replacement_vector_field
      ensures OthersKept(i) && RowAt(i) == Replaced(old(RowAt(i)), key, data)
    {
      var col := LtReplacementIndex(replacement_vector_field[i]);
      Store(i, col, key, data);
      replacement_vector_field[i] := LtReplacementVector(replacement_vector_field[i]).At(col);
    }

    /** Puts a new item in place of the oldest one. */
    method Replace(i: nat, key: K, data: D)
      requires Linked() && i < table_rows && free_flag_field[i] == COL_FULL && Find(RowAt(i), key) == 4
      modifies key_field, data_field, replacement_vector_field, this`model
      ensures Linked() && |old(model.rows[i])| == 4
      ensures model == WithRow(old(model), i, [(key, data)] + old(model.rows[i])[..3])
    {
      assert RowLinked(i);
      ghost var was, items := RowAt(i), model.rows[i];
      ReplacedEvicts(was, key, data);
      StoreOldest(i, key, data);
      model := WithRow(model, i, [(key, data)] + items[..3]);
      Relink(i);
    }

    /** Frees a column and makes it the oldest. */
    method Free(i: nat, col: nat)
      requires Linked() && i < table_rows && col < 4 && Occupied(free_flag_field[i], col)
      modifies free_flag_field, replacement_vector_field, this`model
      ensures Linked() && old(Rank(replacement_vector_field[i], col)) < |old(model.rows[i])|
      ensures model == WithRow(old(model), i, Without(old(model.rows[i]), old(Rank(replacement_vector_field[i], col))))
      ensures free_flag_field[..] == old(free_flag_field[..])[i := WithoutFlag(old(free_flag_field[i]), col)]
    {
      assert RowLinked(i);
      ghost var was, items, p := RowAt(i), model.rows[i], Rank(replacement_vector_field[i], col);
      RemovedDrops(was, col);
      replacement_vector_field[i] := LtReplacementVectorRemove(replacement_vector_field[i]).At(col);
      free_flag_field[i] := WithoutFlag(free_flag_field[i], col);
      assert RowAt(i) == Removed(was, col);
      model := WithRow(model, i, Without(items, p));
      Relink(i);
    }

    /** The item of an occupied column in the list of its row. */
    lemma ItemOfColumn(i: nat, col: nat)
      requires Linked() && i < table_rows && col < 4 && Occupied(free_flag_field[i], col)
      ensures var p := Rank(replacement_vector_field[i], col);
              p < |model.rows[i]| && model.rows[i][p] == (key_field[4 * i + col], data_field[4 * i + col])
    {
      assert RowLinked(i);
      ColumnListed(RowAt(i), col);
      CellOf(i, col);
    }

    lemma CellOf(i: nat, col: nat)
      requires Allocated() && i < table_rows && col < 4
      ensures RowAt(i).keys.At(col) == key_field[4 * i + col] && RowAt(i).data.At(col) == data_field[4 * i + col]
      ensures RowAt(i).vector == replacement_vector_field[i]
    {
      if col == 0 {
      } else if col == 1 {
      } else if col == 2 {
      }
    }

    static lemma Taken(t: Table<K, D>, t': Table<K, D>, i: nat, p: nat, item: (K, D))
      requires i < |t.rows| && p < |t.rows[i]| && t.rows[i][p] == item && t' == WithRow(t, i, Without(t.rows[i], p))
      ensures TakenFromRow(t, t', i, item)
    {
    }

    /** Frees a column for good: keys stay at home and unique in their rows. */
    method FreeColumn(i: nat, col: nat)
      requires Valid() && i < table_rows && col < 4 && Occupied(free_flag_field[i], col)
      modifies free_flag_field, replacement_vector_field, this`model
      ensures Valid() && free_flag_field[..] == old(free_flag_field[..])[i := WithoutFlag(old(free_flag_field[i]), col)]
      ensures TakenFromRow(old(model), model, i, old((key_field[4 * i + col], data_field[4 * i + col])))
    {
      ghost var was, rank := model, Rank(replacement_vector_field[i], col);
      ghost var item := (key_field[4 * i + col], data_field[4 * i + col]);
      ItemOfColumn(i, col);
      Free(i, col);
      Taken(was, model, i, rank, item);
      DropCase(was, hash, i, rank);
    }

    static lemma FoundAtRank(row: Row<K, D>, key: K, items: seq<(K, D)>)
      requires RowOk(row) && items == Recent(row)
      ensures var col := Find(row, key);
              if col < 4 then && Rank(row.vector, col) < |items|
                              && Index(items, key) == Rank(row.vector, col)
                              && items[Rank(row.vector, col)] == (key, row.data.At(col))
              else Index(items, key) == |items|
    {
      FindFinds(row, key);
      RecentOnce(row);
    }

    /** What the free flag of a row says about its list. */
    lemma FlagsSayFull(i: nat)
      requires Linked() && i < table_rows
      ensures free_flag_field[i] <= COL_FULL
      ensures free_flag_field[i] == COL_FULL <==> |model.rows[i]| == COLS
      ensures |model.rows[i]| <= COLS
    {
      assert RowLinked(i);
      FullRow(free_flag_field[i]);
    }

    // -------------------------------------------------------------- the stash

    method FindInStash(key: K) returns (s: nat)
      requires Linked()
      ensures s == StashIndex(model.stash, key)
    {
      s := 0;
      while s < stash_size
        invariant s <= stash_size
        invariant forall j :: 0 <= j < s ==> model.stash[j].Some? ==> model.stash[j].value.0 != key
      {
        assert model.stash[s] == SlotAt(s);
        if stash_free_flag_field[s] && stash_key_field[s] == key {
          return;
        }
        s := s + 1;
      }
    }

    method FindFreeSlot() returns (s: nat)
      requires Linked()
      ensures s == FreeSlot(model.stash)
    {
      s := 0;
      while s < stash_size
        invariant s <= stash_size
        invariant forall j :: 0 <= j < s ==> model.stash[j].Some?
      {
        assert model.stash[s] == SlotAt(s);
        if !stash_free_flag_field[s] {
          return;
        }
        s := s + 1;
      }
    }

    /** The stash index within the stash, where it is past the end. */
    static method Masked(index: nat, size: nat) returns (masked: nat)
      requires 0 < index <= size
      ensures masked == if index == size then 0 else index
    {
      WrapsAround(index - 1, size);
      Remainder(index - 1, size, 0, index - 1);
      masked := index % size;
    }

    /** Copies an item to stash slot `s` and advances the stash index. */
    method Stash(s: nat, item: (K, D))
      requires Linked() && s < stash_size && stash_index < stash_size
      modifies stash_key_field, stash_data_field, stash_free_flag_field, this`stash_index, this`model
      ensures Linked() && model == Advanced(WithSlot(old(model), s, Some(item)))
    {
      stash_key_field[s] := item.0;
      stash_data_field[s] := item.1;
      stash_free_flag_field[s] := true;
      stash_index := stash_index + 1;
      stash_index := Masked(stash_index, stash_size);
      model := Advanced(WithSlot(model, s, Some(item)));
      RowsStayLinked();
    }

    method FreeStash(s: nat)
      requires Linked() && s < stash_size
      modifies stash_free_flag_field, this`model
      ensures Linked() && model == WithSlot(old(model), s, None)
      ensures stash_free_flag_field[..] == old(stash_free_flag_field[..])[s := false]
    {
      stash_free_flag_field[s] := false;
      model := WithSlot(model, s, None);
      RowsStayLinked();
    }

    /** Changes of the stash leave the rows alone. */
    twostate lemma RowsStayLinked()
      requires old(Linked()) && model.rows == old(model.rows)
      requires forall k :: 0 <= k < table_rows ==> RowAt(k) == old(RowAt(k))
      ensures RowsLinked()
    {
      forall k | 0 <= k < table_rows
        ensures RowLinked(k)
      {
        assert old(RowLinked(k));
      }
    }

    // -------------------------------------------------------------- the functions of the table

    /** `fht_insert`. */
    method Insert(key: K, data: D) returns (out: Outcome<K, D>)
      requires Valid()
      modifies key_field, data_field, free_flag_field, replacement_vector_field, this`model
      ensures Valid() && (model, out) == FastHashSpec.Insert(old(model), hash, key, data)
    {
      ghost var was := model;
      var i := hash(key) % table_rows;
      var col := FindColumn(i, key);
      FlagsSayFull(i);
      if col < 4 {
        Touch(i, col);
        out := Failed;
      } else if free_flag_field[i] < COL_FULL {
        Add(i, key, data);
        out := Ok;
      } else {
        var lost := Oldest(i);
        Replace(i, key, data);
        out := Lost(lost);
      }
      InsertConserves(was, hash, key, data);
    }

    /** `fht_insert_wr`. */
    method InsertWr(key: K, data: D) returns (out: Outcome<K, D>)
      requires Valid()
      modifies key_field, data_field, free_flag_field, replacement_vector_field, this`model
      ensures Valid() && (model, out) == FastHashSpec.InsertWr(old(model), hash, key, data)
    {
      ghost var was := model;
      var i := hash(key) % table_rows;
      var col := FindColumn(i, key);
      FlagsSayFull(i);
      if col < 4 {
        Touch(i, col);
        out := Failed;
      } else if free_flag_field[i] < COL_FULL {
        Add(i, key, data);
        out := Ok;
      } else {
        out := Full;
      }
      InsertWrKeepsAll(was, hash, key, data);
    }

    /** Makes room in a full row: its oldest item goes to the stash slot in turn, or is lost when there is no stash. */
    method Overflow(i: nat, key: K, data: D) returns (out: Outcome<K, D>)
      requires Linked() && i < table_rows && free_flag_field[i] == COL_FULL && Find(RowAt(i), key) == 4
      requires stash_size > 0 ==> stash_index < stash_size
      modifies key_field, data_field, replacement_vector_field, this`model
      modifies stash_key_field, stash_data_field, stash_free_flag_field, this`stash_index
      ensures Linked() && |old(model.rows[i])| == COLS
      ensures var t, items := old(model), old(model.rows[i]);
              var t' := WithRow(t, i, [(key, data)] + items[..3]);
              if t.stash == [] then model == t' && out == Lost(items[3])
              else && model == Advanced(WithSlot(t', t.next, Some(items[3])))
                   && out == if t.stash[t.next].None? then StashOk else StashLost(t.stash[t.next].value)
    {
      var oldest := Oldest(i);
      out := Lost(oldest);
      if stash_size > 0 {
        assert model.stash[stash_index] == SlotAt(stash_index);
        if !stash_free_flag_field[stash_index] {
          out := StashOk;
        } else {
          out := StashLost((stash_key_field[stash_index], stash_data_field[stash_index]));
        }
        Stash(stash_index, oldest);
      }
      Replace(i, key, data);
    }

    /** Makes room in a full row: its oldest item goes to a free stash slot. */
    method OverflowTo(s: nat, i: nat, key: K, data: D)
      requires Linked() && i < table_rows && free_flag_field[i] == COL_FULL && Find(RowAt(i), key) == 4 && s < stash_size && stash_index < stash_size
      modifies key_field, data_field, replacement_vector_field, this`model
      modifies stash_key_field, stash_data_field, stash_free_flag_field, this`stash_index
      ensures Linked() && |old(model.rows[i])| == COLS
      ensures model == Advanced(WithSlot(WithRow(old(model), i, [(key, data)] + old(model.rows[i])[..3]), s, Some(old(model.rows[i])[3])))
    {
      var oldest := Oldest(i);
      Stash(s, oldest);
      Replace(i, key, data);
    }

    /** The branches of `fht_insert_with_stash`. */
    method TryWithStash(key: K, data: D) returns (out: Outcome<K, D>)
      requires Valid() && NoKeyTwice(model, hash) && StashAddressable()
      modifies key_field, data_field, free_flag_field, replacement_vector_field, this`model
      modifies stash_key_field, stash_data_field, stash_free_flag_field, this`stash_index
      ensures Linked() && (model, out) == FastHashSpec.InsertWithStash(old(model), hash, key, data)
    {
      var i := hash(key) % table_rows;
      var col := FindColumn(i, key);
      FlagsSayFull(i);
      var s := FindInStash(key);
      if col < 4 {
        Touch(i, col);
        out := Failed;
      } else if s < stash_size {
        out := Failed;
      } else if free_flag_field[i] < COL_FULL {
        Add(i, key, data);
        out := Ok;
      } else {
        out := Overflow(i, key, data);
      }
    }

    /** `fht_insert_with_stash`. */
    method InsertWithStash(key: K, data: D) returns (out: Outcome<K, D>)
      requires Valid() && NoKeyTwice(model, hash) && StashAddressable()
      modifies key_field, data_field, free_flag_field, replacement_vector_field, this`model
      modifies stash_key_field, stash_data_field, stash_free_flag_field, this`stash_index
      ensures Valid() && NoKeyTwice(model, hash)
      ensures (model, out) == FastHashSpec.InsertWithStash(old(model), hash, key, data)
    {
      ghost var was := model;
      out := TryWithStash(key, data);
      InsertWithStashConserves(was, hash, key, data);
    }

    /** The branches of `fht_insert_with_stash_wr`. */
    method TryWithStashWr(key: K, data: D) returns (out: Outcome<K, D>)
      requires Valid() && NoKeyTwice(model, hash) && StashAddressable()
      modifies key_field, data_field, free_flag_field, replacement_vector_field, this`model
      modifies stash_key_field, stash_data_field, stash_free_flag_field, this`stash_index
      ensures Linked() && (model, out) == FastHashSpec.InsertWithStashWr(old(model), hash, key, data)
    {
      var i := hash(key) % table_rows;
      var col := FindColumn(i, key);
      FlagsSayFull(i);
      var s := FindInStash(key);
      var free := FindFreeSlot();
      if col < 4 {
        Touch(i, col);
        out := Failed;
      } else if s < stash_size {
        out := Failed;
      } else if free_flag_field[i] < COL_FULL {
        Add(i, key, data);
        out := Ok;
      } else if free < stash_size {
        OverflowTo(free, i, key, data);
        out := StashOk;
      } else {
        out := Full;
      }
    }

    /** `fht_insert_with_stash_wr`. */
    method InsertWithStashWr(key: K, data: D) returns (out: Outcome<K, D>)
      requires Valid() && NoKeyTwice(model, hash) && StashAddressable()
      modifies key_field, data_field, free_flag_field, replacement_vector_field, this`model
      modifies stash_key_field, stash_data_field, stash_free_flag_field, this`stash_index
      ensures Valid() && NoKeyTwice(model, hash)
      ensures (model, out) == FastHashSpec.InsertWithStashWr(old(model), hash, key, data)
    {
      ghost var was := model;
      out := TryWithStashWr(key, data);
      InsertWithStashWrKeepsAll(was, hash, key, data);
    }

    /** `fht_get_data`. */
    method GetData(key: K) returns (d: Option<D>)
      requires Valid()
      modifies replacement_vector_field, this`model
      ensures Valid() && (model, d) == FastHashSpec.GetData(old(model), hash, key)
    {
      ghost var was := model;
      var i := hash(key) % table_rows;
      var col := FindColumn(i, key);
      d := None;
      if col < 4 {
        TouchCase(was, hash, i, Index(was.rows[i], key));
        Touch(i, col);
        d := Some(data_field[4 * i + col]);
      }
    }

    /** `fht_get_data_with_stash`. */
    method GetDataWithStash(key: K) returns (d: Option<D>)
      requires Valid() && StashAddressable()
      modifies replacement_vector_field, this`model
      ensures Valid() && (model, d) == FastHashSpec.GetDataWithStash(old(model), hash, key)
    {
      d := GetData(key);
      if d.None? {
        var s := FindInStash(key);
        if s < stash_size {
          assert model.stash[s] == SlotAt(s);
          d := Some(stash_data_field[s]);
        }
      }
    }

    /** `fht_remove`; the flag is set when an item was removed. */
    method Remove(key: K) returns (removed: bool)
      requires Valid()
      modifies free_flag_field, replacement_vector_field, this`model
      ensures Valid() && (model, removed) == FastHashSpec.Remove(old(model), hash, key)
    {
      ghost var was := model;
      var i := hash(key) % table_rows;
      var col := FindColumn(i, key);
      removed := col < 4;
      if removed {
        DropCase(was, hash, i, Index(was.rows[i], key));
        Free(i, col);
      }
    }

    /** `fht_remove_with_stash`. */
    method RemoveWithStash(key: K) returns (removed: bool)
      requires Valid() && StashAddressable()
      modifies free_flag_field, replacement_vector_field, stash_free_flag_field, this`model
      ensures Valid() && (model, removed) == FastHashSpec.RemoveWithStash(old(model), hash, key)
    {
      removed := Remove(key);
      if !removed {
        var s := FindInStash(key);
        if s < stash_size {
          FreeStash(s);
          removed := true;
        }
      }
    }

    /** `fht_clear`. */
    method Clear()
      requires Valid()
      modifies free_flag_field, stash_free_flag_field, this`model
      ensures Valid() && model == Empty(table_rows, stash_size, old(model.next))
    {
      ClearRows();
      var s := 0;
      while s < stash_size
        invariant s <= stash_size
        invariant forall j :: 0 <= j < s ==> !stash_free_flag_field[j]
        modifies stash_free_flag_field
      {
        stash_free_flag_field[s] := false;
        s := s + 1;
      }
      model := Empty(table_rows, stash_size, model.next);
      assert forall i :: 0 <= i < table_rows ==> RowLinked(i) by {
        forall i | 0 <= i < table_rows
          ensures RowLinked(i)
        {
          EmptyRow(RowAt(i));
        }
      }
    }

    /** Clears the free flags of all rows. */
    method ClearRows()
      requires Valid()
      modifies free_flag_field
      ensures forall k :: 0 <= k < table_rows ==> RowAt(k).flags == 0 && IsVector(RowAt(k).vector)
    {
      assert forall k :: 0 <= k < table_rows ==> IsVector(replacement_vector_field[k]) by {
        forall k | 0 <= k < table_rows
          ensures IsVector(replacement_vector_field[k])
        {
          assert RowLinked(k);
        }
      }
      var i := 0;
      while i < table_rows
        invariant i <= table_rows
        invariant forall k :: 0 <= k < i ==> free_flag_field[k] == 0
      {
        free_flag_field[i] := 0;
        i := i + 1;
      }
    }
  }
}
