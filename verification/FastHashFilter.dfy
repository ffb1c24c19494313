/**
 * The fast hash filter: rows of eight columns that turn new keys down when full, and the resize that moves everything to
 * a larger table. Whatever was stored is a finite map, and a resize that succeeds keeps the map.
 */
module FastHashFilter {
  import opened Arithmetic
  import opened Options
  import opened SlotBytes

  datatype Outcome = Ok | Failed | Full
  datatype Resizing = Resized | FailedAlloc | FailedInsert

  const COLS: nat := 8
  const WORD: nat := 0x1_0000_0000_0000_0000
  const MAX_ROWS: nat := 0x8000_0000_0000_0000

  /** The row of a key; the hash has a seed, which differs from table to table. */
  function Home(hash: (Blob, nat) -> nat, seed: nat, rows: nat, key: Blob): (r: nat)
    requires 0 < rows
    ensures r < rows
  {
    hash(key, seed) % rows
  }

  /** The keys whose row is `r`. */
  ghost function Crowd(keys: set<Blob>, hash: (Blob, nat) -> nat, seed: nat, rows: nat, r: nat): set<Blob>
    requires 0 < rows
  {
    set key | key in keys && hash(key, seed) % rows == r
  }

  /** No row of a table of that many rows gets more keys than it has columns. */
  ghost predicate Fits(keys: set<Blob>, hash: (Blob, nat) -> nat, seed: nat, rows: nat)
    requires 0 < rows
  {
    forall r :: 0 <= r < rows ==> |Crowd(keys, hash, seed, rows, r)| <= 8
  }

  class Filter {
    const table_rows: nat
    const key_size: nat
    const data_size: nat
    const seed: nat
    const hash: (Blob, nat) -> nat
    const key_field: array<Blob>
    const data_field: array<Blob>
    const used: array<bool>
    ghost var contents: map<Blob, Blob>
    ghost var place: map<Blob, nat>

    /** Slot `p` holds the key whose place is `p`. */
    ghost predicate SlotOk(p: nat)
      requires p < used.Length == key_field.Length
      reads this`place, used, key_field
    {
      used[p] ==> key_field[p] in place && place[key_field[p]] == p
    }

    /** The key is in a used slot of its row, with its data. */
    ghost predicate KeyOk(key: Blob)
      requires used.Length == key_field.Length == data_field.Length && 0 < table_rows
      reads this`place, this`contents, used, key_field, data_field
    {
      key in place && key in contents && place[key] < used.Length && used[place[key]]
      && key_field[place[key]] == key && data_field[place[key]] == contents[key]
      && var r := hash(key, seed) % table_rows; COLS * r <= place[key] < COLS * r + COLS
    }

    ghost predicate Allocated()
    {
      var k: object, d: object, u: object := key_field, data_field, used;
      && k !in {d, u} && d != u && 0 < table_rows
      && key_field.Length == data_field.Length == used.Length == COLS * table_rows
    }

    /** Every slot has the bytes of a key and of its data. */
    ghost predicate SlotsSized()
      reads key_field, data_field
    {
      0 < key_size && 0 < data_size && Sized(key_field[..], key_size) && Sized(data_field[..], data_size)
    }

    /** The slots hold the finite map `contents`, each key once, in its row. */
    ghost predicate Valid()
      reads this, key_field, data_field, used
    {
      && Allocated() && SlotsSized()
      && contents.Keys == place.Keys
      && (forall p :: 0 <= p < used.Length ==> SlotOk(p))
      && (forall key :: key in contents ==> KeyOk(key))
    }

    constructor (rows: nat, key_size: nat, data_size: nat, seed: nat, hash: (Blob, nat) -> nat)
      requires 0 < rows && 0 < key_size && 0 < data_size
      ensures Valid() && contents == map[] && table_rows == rows && this.seed == seed && this.hash == hash
      ensures this.key_size == key_size && this.data_size == data_size
      ensures fresh(key_field) && fresh(data_field) && fresh(used)
    {
      table_rows, this.key_size, this.data_size, this.seed, this.hash := rows, key_size, data_size, seed, hash;
      key_field := new Blob[COLS * rows](p => seq(key_size, k => 0));
      data_field := new Blob[COLS * rows](p => seq(data_size, k => 0));
      used := new bool[COLS * rows](p => false);
      contents, place := map[], map[];
    }

    /** The keys in the first `n` columns of row `r`. */
    ghost function KeysIn(r: nat, n: nat): set<Blob>
      requires Allocated() && r < table_rows && n <= COLS
      reads key_field, used
    {
      if n == 0 then {}
      else KeysIn(r, n - 1) + if used[COLS * r + n - 1] then {key_field[COLS * r + n - 1]} else {}
    }

    /** The keys in the first columns of a row are the stored ones whose places are there. */
    lemma {:induction false} KeysInColumns(r: nat, n: nat)
      requires Valid() && r < table_rows && n <= COLS
      ensures forall k :: k in KeysIn(r, n) <==> k in contents && COLS * r <= place[k] < COLS * r + n
    {
      if n > 0 {
        KeysInColumns(r, n - 1);
        SlotHolds(COLS * r + n - 1);
      }
    }

    lemma NextKeyIsNew(r: nat, n: nat)
      requires Valid() && r < table_rows && n < COLS
      ensures used[COLS * r + n] ==> key_field[COLS * r + n] !in KeysIn(r, n)
    {
      KeysInColumns(r, n);
      SlotHolds(COLS * r + n);
    }

    /** Columns and keys of a row are one to one. */
    lemma {:induction false} KeysCounted(r: nat, n: nat)
      requires Valid() && r < table_rows && n <= COLS
      ensures |KeysIn(r, n)| <= n && ((forall p :: COLS * r <= p < COLS * r + n ==> used[p]) ==> |KeysIn(r, n)| == n)
    {
      if n > 0 {
        KeysCounted(r, n - 1);
        NextKeyIsNew(r, n - 1);
      }
    }

    lemma SlotHolds(p: nat)
      requires Valid() && p < used.Length
      ensures forall k :: k in contents && place[k] == p <==> used[p] && k == key_field[p]
    {
      assert SlotOk(p);
      forall k | k in contents
        ensures place[k] == p <==> used[p] && k == key_field[p]
      {
        assert KeyOk(k);
      }
      assert used[p] ==> KeyOk(key_field[p]);
    }

    /** A row has at most eight of the keys, and exactly eight when it is full. */
    lemma RowCrowd(r: nat)
      requires Valid() && r < table_rows
      ensures |Crowd(contents.Keys, hash, seed, table_rows, r)| <= 8
      ensures RowFull(r) ==> |Crowd(contents.Keys, hash, seed, table_rows, r)| == 8
    {
      KeysInColumns(r, COLS);
      KeysCounted(r, COLS);
      forall k | k in contents
        ensures hash(k, seed) % table_rows == r <==> COLS * r <= place[k] < COLS * r + COLS
      {
        assert KeyOk(k);
      }
      assert KeysIn(r, COLS) == Crowd(contents.Keys, hash, seed, table_rows, r);
    }

    /** The column of the key in row `r`, 8 when it is not there. */
    method FindColumn(r: nat, key: Blob) returns (col: nat)
      requires Valid() && r == Home(hash, seed, table_rows, key)
      ensures col <= COLS && (col < COLS <==> key in contents)
      ensures col < COLS ==> used[COLS * r + col] && key_field[COLS * r + col] == key && place[key] == COLS * r + col
    {
      assert key in contents ==> KeyOk(key);
      col := 0;
      while col < COLS
        invariant col <= COLS && (key in contents ==> COLS * r + col <= place[key] < COLS * r + COLS)
      {
        SlotHolds(COLS * r + col);
        if used[COLS * r + col] && key_field[COLS * r + col] == key {
          return;
        }
        col := col + 1;
      }
    }

    /** The first free column of row `r`, 8 when it is full. */
    method FreeColumn(r: nat) returns (col: nat)
      requires Allocated() && r < table_rows
      ensures col <= COLS && (forall p :: COLS * r <= p < COLS * r + col ==> used[p]) && (col < COLS ==> !used[COLS * r + col])
    {
      col := 0;
      while col < COLS && used[COLS * r + col]
        invariant col <= COLS && forall p :: COLS * r <= p < COLS * r + col ==> used[p]
      {
        col := col + 1;
      }
    }

    /** `fhf_insert`: fails exactly on a stored key, is full exactly when the row of a new key is. */
    method Insert(key: Blob, data: Blob) returns (out: Outcome)
      requires Valid() && |key| == key_size && |data| == data_size
      modifies this`contents, this`place, key_field, data_field, used
      ensures Valid()
      ensures out.Failed? <==> key in old(contents)
      ensures out.Full? <==> key !in old(contents) && old(RowFull(hash(key, seed) % table_rows))
      ensures contents == if out.Ok? then old(contents)[key := data] else old(contents)
    {
      var r := Home(hash, seed, table_rows, key);
      var col := FindColumn(r, key);
      if col < COLS {
        return Failed;
      }
      col := FreeColumn(r);
      if col == COLS {
        return Full;
      }
      Put(r, col, key, data);
      return Ok;
    }

    predicate RowFull(r: nat)
      requires COLS * r + COLS <= used.Length
      reads used
    {
      forall p :: COLS * r <= p < COLS * r + COLS ==> used[p]
    }

    /** Puts a new item in a free slot of its row. */
    method Put(r: nat, col: nat, key: Blob, data: Blob)
      requires Valid() && |key| == key_size && |data| == data_size
      requires key !in contents && r == Home(hash, seed, table_rows, key) && col < COLS && !used[COLS * r + col]
      modifies this`contents, this`place, key_field, data_field, used
      ensures Valid() && contents == old(contents)[key := data]
    {
      var p := COLS * r + col;
      ghost var was := contents;
      assert forall k :: k in contents ==> KeyOk(k) && place[k] != p;
      key_field[p] := key;
      data_field[p] := data;
      used[p] := true;
      contents := contents[key := data];
      place := place[key := p];
      forall q | 0 <= q < used.Length
        ensures SlotOk(q)
      {
        assert q != p ==> old(SlotOk(q));
      }
      forall k | k in contents
        ensures KeyOk(k)
      {
        assert k != key ==> old(KeyOk(k));
      }
    }

    /** `fhf_get_data`. */
    method GetData(key: Blob) returns (d: Option<Blob>)
      requires Valid()
      ensures d == if key in contents then Some(contents[key]) else None
    {
      var r := Home(hash, seed, table_rows, key);
      var col := FindColumn(r, key);
      if col < COLS {
        assert KeyOk(key);
        return Some(data_field[COLS * r + col]);
      }
      return None;
    }

    /** `fhf_remove`. */
    method Remove(key: Blob) returns (removed: bool)
      requires Valid()
      modifies this`contents, this`place, used
      ensures Valid() && contents == old(contents) - {key} && (removed <==> key in old(contents))
    {
      var r := Home(hash, seed, table_rows, key);
      var col := FindColumn(r, key);
      removed := col < COLS;
      if removed {
        var p := COLS * r + col;
        used[p] := false;
        contents, place := contents - {key}, place - {key};
        forall q | 0 <= q < used.Length
          ensures SlotOk(q)
        {
          assert old(SlotOk(q));
        }
        forall k | k in contents
          ensures KeyOk(k)
        {
          assert old(KeyOk(k)) && old(SlotOk(place[k]));
        }
      }
    }

    // -------------------------------------------------------------- the iterator

    /** No slot of the row in front of slot `p` is used. */
    predicate FirstInRow(p: nat)
      requires p < used.Length
      reads used
    {
      forall q :: COLS * (p / COLS) <= q < p ==> !used[q]
    }

    /**
     * Where the iterator looks for the bytes of the used slot `p`: the first one of a row is reached by the loop over the
     * rows, which counts in 32 bits, the others from the slot before them, with the row in 64 bits.
     */
    function Looks(p: nat, size: nat): (o: nat)
      requires p < used.Length
      reads used
      ensures o <= p * size
    {
      if FirstInRow(p) then Offset32(p, size) else p * size
    }

    /** The key that the iterator points to at slot `p`. */
    function KeyRead(p: nat): (key: Blob)
      requires Allocated() && SlotsSized() && p < used.Length
      reads used, key_field, data_field
      ensures |key| == key_size
    {
      SlotWithin(used.Length, key_size, p);
      BytesFrom(key_field[..], key_size, Looks(p, key_size))
    }

    function DataRead(p: nat): (data: Blob)
      requires Allocated() && SlotsSized() && p < used.Length
      reads used, key_field, data_field
      ensures |data| == data_size
    {
      SlotWithin(used.Length, data_size, p);
      BytesFrom(data_field[..], data_size, Looks(p, data_size))
    }

    /** What the iterator hands out, slot by slot. */
    ghost function Reads(): (r: seq<Option<(Blob, Blob)>>)
      requires Allocated() && SlotsSized()
      reads used, key_field, data_field
      ensures |r| == used.Length && forall p :: 0 <= p < |r| ==> (r[p].Some? <==> used[p])
    {
      seq(used.Length, p requires 0 <= p < used.Length && Allocated() && SlotsSized() reads used, key_field, data_field =>
        if used[p] then Some((KeyRead(p), DataRead(p))) else None)
    }

    /** Every used slot is looked up at its own bytes. */
    ghost predicate Addressable()
      requires Allocated()
      reads used
    {
      forall p :: 0 <= p < used.Length && used[p] ==> Looks(p, key_size) == p * key_size && Looks(p, data_size) == p * data_size
    }

    /** The first used slot of row `r` from column `from` on, 8 when there is none. */
    method ScanRow(r: nat, from: nat) returns (col: nat)
      requires Allocated() && r < table_rows && from <= COLS
      ensures from <= col <= COLS && (col < COLS ==> used[COLS * r + col])
      ensures forall q :: COLS * r + from <= q < COLS * r + col ==> !used[q]
    {
      col := from;
      while col < COLS && !used[COLS * r + col]
        invariant from <= col <= COLS && forall q :: COLS * r + from <= q < COLS * r + col ==> !used[q]
      {
        col := col + 1;
      }
    }

    /**
     * `fhf_get_next_iter` from the used slot `row`, `col`, or from the start, where `row` is negative: the next used slot,
     * and the offsets of its key and of its data.
     */
    method GetNextIter(row: int, col: nat) returns (ok: bool, row': nat, col': nat, keyAt: nat, dataAt: nat)
      requires Allocated() && table_rows < WORD32 && row < table_rows && col < COLS
      requires row >= 0 ==> used[COLS * row + col]
      ensures var from := if row >= 0 then COLS * row + col + 1 else 0;
              if ok then
                && row' < table_rows && col' < COLS && from <= COLS * row' + col' && used[COLS * row' + col']
                && (forall q :: from <= q < COLS * row' + col' ==> !used[q])
                && keyAt == Looks(COLS * row' + col', key_size) && dataAt == Looks(COLS * row' + col', data_size)
              else forall q :: from <= q < used.Length ==> !used[q]
    {
      if row >= 0 {
        var j := ScanRow(row, col + 1);
        if j < COLS {
          var p: nat := COLS * row + j;
          assert p / COLS == row && !FirstInRow(p);
          return true, row, j, p * key_size, p * data_size;
        }
      }
      var i: nat := if row >= 0 then row + 1 else 0;
      ghost var first := i;
      while i < table_rows
        invariant first <= i <= table_rows && forall q :: COLS * first <= q < COLS * i ==> !used[q]
      {
        var j := ScanRow(i, 0);
        if j < COLS {
          var p: nat := COLS * i + j;
          assert p / COLS == i && FirstInRow(p);
          return true, i, j, Offset32(p, key_size), Offset32(p, data_size);
        }
        i := (i + 1) % WORD32;
      }
      return false, 0, 0, 0, 0;
    }
  }

  /** The used slots are looked up at their own bytes exactly when 32 bits can address the first used one of every row. */
  lemma IteratorAddresses(t: Filter)
    requires t.Allocated()
    ensures t.Addressable() <==>
            forall p :: 0 <= p < t.used.Length && t.used[p] && t.FirstInRow(p) ==> p * t.key_size < WORD32 && p * t.data_size < WORD32
  {
    if forall p :: 0 <= p < t.used.Length && t.used[p] && t.FirstInRow(p) ==> p * t.key_size < WORD32 && p * t.data_size < WORD32 {
      forall p | 0 <= p < t.used.Length && t.used[p]
        ensures t.Looks(p, t.key_size) == p * t.key_size && t.Looks(p, t.data_size) == p * t.data_size
      {
        assert t.FirstInRow(p) ==> Offset32(p, t.key_size) == p * t.key_size && Offset32(p, t.data_size) == p * t.data_size;
      }
    }
  }

  /** The loop over the rows, which counts in 32 bits from `start`, comes to its end exactly for less than 2^32 rows. */
  lemma RowLoopEnds(start: nat, rows: nat)
    requires start < WORD32
    ensures (exists n: nat :: CountedTo(start, n) >= rows) <==> rows < 0x1_0000_0000
  {
    if rows < WORD32 {
      assert CountedTo(start, WORD32 - 1 - start) == WORD32 - 1;
    }
  }

  /** The row after `n` steps of the loop. */
  function CountedTo(start: nat, n: nat): (i: nat)
    ensures i < WORD32
  {
    (start + n) % WORD32
  }

  // ---------------------------------------------------------------- moving

  /** Slot `q` is used, and its key is `k`. */
  ghost predicate ReadsKey(seen: seq<Option<(Blob, Blob)>>, q: nat, k: Blob)
  {
    q < |seen| && seen[q].Some? && seen[q].value.0 == k
  }

  /** `moved` has what is read in the used slots below `p`, every key once. */
  ghost predicate ReadInto(seen: seq<Option<(Blob, Blob)>>, moved: map<Blob, Blob>, p: nat)
    requires p <= |seen|
  {
    && (forall q :: 0 <= q < p && seen[q].Some? ==> seen[q].value.0 in moved && moved[seen[q].value.0] == seen[q].value.1)
    && (forall k :: k in moved ==> exists q :: 0 <= q < p && ReadsKey(seen, q, k))
    && (forall q, q' :: 0 <= q < q' < p && seen[q].Some? && seen[q'].Some? ==> seen[q].value.0 != seen[q'].value.0)
  }

  /** Slots that are not used hold nothing to move. */
  lemma Skipped(seen: seq<Option<(Blob, Blob)>>, moved: map<Blob, Blob>, p: nat, q: nat)
    requires p <= q <= |seen| && ReadInto(seen, moved, p)
    requires forall i :: p <= i < q ==> seen[i].None?
    ensures ReadInto(seen, moved, q)
  {
    forall k | k in moved
      ensures exists i :: 0 <= i < q && ReadsKey(seen, i, k)
    {
      var i :| 0 <= i < p && ReadsKey(seen, i, k);
    }
  }

  /** What is read in slot `p` is moved, if its key is new. */
  lemma ReadOne(seen: seq<Option<(Blob, Blob)>>, moved: map<Blob, Blob>, p: nat)
    requires p < |seen| && ReadInto(seen, moved, p) && seen[p].Some? && seen[p].value.0 !in moved
    ensures ReadInto(seen, moved[seen[p].value.0 := seen[p].value.1], p + 1)
  {
    var moved' := moved[seen[p].value.0 := seen[p].value.1];
    forall k | k in moved'
      ensures exists i :: 0 <= i < p + 1 && ReadsKey(seen, i, k)
    {
      if k == seen[p].value.0 {
        assert ReadsKey(seen, p, k);
      } else {
        var i :| 0 <= i < p && ReadsKey(seen, i, k);
      }
    }
  }

  // ---------------------------------------------------------------- what can be moved

  /** The iterator reads no key twice. */
  ghost predicate Distinct(seen: seq<Option<(Blob, Blob)>>)
  {
    forall q, q' :: 0 <= q < q' < |seen| && seen[q].Some? && seen[q'].Some? ==> seen[q].value.0 != seen[q'].value.0
  }

  /** The keys that the iterator reads. */
  ghost function KeysRead(seen: seq<Option<(Blob, Blob)>>): (keys: set<Blob>)
    ensures forall k :: k in keys <==> exists q: nat :: ReadsKey(seen, q, k)
  {
    var keys := set q: nat | q < |seen| && seen[q].Some? :: seen[q].value.0;
    assert forall k :: k in keys <==> exists q: nat :: ReadsKey(seen, q, k) by {
      forall k | true
        ensures k in keys <==> exists q: nat :: ReadsKey(seen, q, k)
      {
        if q: nat :| ReadsKey(seen, q, k) {
          assert seen[q].value.0 in keys;
        }
        if q: nat :| q < |seen| && seen[q].Some? && seen[q].value.0 == k {
          assert ReadsKey(seen, q, k);
        }
      }
    }
    keys
  }

  /** A table of that many rows can take what the iterator reads: every key once, and at most eight in a row. */
  ghost predicate Insertable(seen: seq<Option<(Blob, Blob)>>, hash: (Blob, nat) -> nat, seed: nat, rows: nat)
    requires 0 < rows
  {
    Distinct(seen) && Fits(KeysRead(seen), hash, seed, rows)
  }

  /** Where every slot is looked up at its own bytes, a used slot is read as it is. */
  lemma ReadsOwn(source: Filter, p: nat)
    requires source.Valid() && source.Addressable() && p < source.used.Length && source.used[p]
    ensures source.KeyRead(p) == source.key_field[p] && source.DataRead(p) == source.data_field[p]
    ensures var k := source.KeyRead(p); k in source.contents && source.place[k] == p && source.DataRead(p) == source.contents[k]
  {
    OwnBytes(source.key_field[..], source.key_size, p);
    OwnBytes(source.data_field[..], source.data_size, p);
    assert source.SlotOk(p) && source.KeyOk(source.key_field[p]);
  }

  /** Where every slot is looked up at its own bytes, the iterator reads every stored key, once. */
  lemma ReadsAreStored(source: Filter)
    requires source.Valid() && source.Addressable()
    ensures Distinct(source.Reads()) && KeysRead(source.Reads()) == source.contents.Keys
  {
    var seen := source.Reads();
    forall q: nat | q < |seen| && seen[q].Some?
      ensures seen[q].value.0 in source.contents && source.place[seen[q].value.0] == q
    {
      ReadsOwn(source, q);
    }
    forall k | k in source.contents
      ensures ReadsKey(seen, source.place[k], k)
    {
      assert source.KeyOk(k);
      ReadsOwn(source, source.place[k]);
    }
  }

  /** There what can be moved is what has room. */
  lemma InsertableIsFits(source: Filter, seed: nat, rows: nat)
    requires source.Valid() && source.Addressable() && 0 < rows
    ensures Insertable(source.Reads(), source.hash, seed, rows) <==> Fits(source.contents.Keys, source.hash, seed, rows)
  {
    ReadsAreStored(source);
  }

  /** What has been moved at the end has the keys that were read, every key once. */
  lemma MovedKeys(seen: seq<Option<(Blob, Blob)>>, moved: map<Blob, Blob>)
    requires ReadInto(seen, moved, |seen|)
    ensures Distinct(seen) && moved.Keys == KeysRead(seen)
  {
    forall k | k in moved
      ensures exists q: nat :: ReadsKey(seen, q, k)
    {
      var q :| 0 <= q < |seen| && ReadsKey(seen, q, k);
    }
  }

  lemma MovedData(source: Filter, moved: map<Blob, Blob>, k: Blob)
    requires source.Valid() && source.Addressable() && ReadInto(source.Reads(), moved, source.used.Length)
    requires k in moved && k in source.contents
    ensures moved[k] == source.contents[k]
  {
    var q :| 0 <= q < source.used.Length && ReadsKey(source.Reads(), q, k);
    ReadsOwn(source, q);
  }

  lemma MovedKeysStored(source: Filter, moved: map<Blob, Blob>)
    requires source.Valid() && source.Addressable() && ReadInto(source.Reads(), moved, source.used.Length)
    ensures moved.Keys == source.contents.Keys
  {
    MovedKeys(source.Reads(), moved);
    ReadsAreStored(source);
  }

  lemma SameMap<K, D>(a: map<K, D>, b: map<K, D>)
    requires a.Keys == b.Keys && forall k :: k in a ==> a[k] == b[k]
    ensures a == b
  {
  }

  /** Where every slot is looked up at its own bytes, what has been moved at the end is the map. */
  lemma AllMoved(source: Filter, moved: map<Blob, Blob>)
    requires source.Valid() && source.Addressable() && ReadInto(source.Reads(), moved, source.used.Length)
    ensures moved == source.contents
  {
    MovedKeysStored(source, moved);
    forall k | k in moved
      ensures moved[k] == source.contents[k]
    {
      assert k in moved.Keys;
      MovedData(source, moved, k);
    }
    SameMap(moved, source.contents);
  }

  /**
   * A table that the iterator reads wrongly: where the bytes of the first used slot `p` of a row start at 2^32, the key of
   * slot 0 is read. If that one is used too, nothing can be moved for good.
   */
  lemma WrongItem(t: Filter, p: nat)
    requires t.Valid() && p < t.used.Length && t.used[p] && t.FirstInRow(p) && p * t.key_size == 0x1_0000_0000
    ensures t.KeyRead(p) == t.key_field[0] && !t.Addressable()
    ensures t.used[0] ==> t.key_field[0] != t.key_field[p] && !Distinct(t.Reads())
  {
    OwnBytes(t.key_field[..], t.key_size, 0);
    assert t.Looks(p, t.key_size) == 0;
    if t.used[0] {
      assert t.SlotOk(0) && t.SlotOk(p) && t.FirstInRow(0);
      assert t.Looks(0, t.key_size) == 0;
      assert t.Reads()[0].value.0 == t.Reads()[p].value.0;
    }
  }

  /** A key that finds its row full is one of nine. */
  lemma OneTooMany(keys: set<Blob>, target: Filter, key: Blob)
    requires target.Valid() && key !in target.contents && key in keys && target.contents.Keys <= keys
    requires target.RowFull(Home(target.hash, target.seed, target.table_rows, key))
    ensures !Fits(keys, target.hash, target.seed, target.table_rows)
  {
    var r := Home(target.hash, target.seed, target.table_rows, key);
    target.RowCrowd(r);
    var few := Crowd(target.contents.Keys, target.hash, target.seed, target.table_rows, r);
    var many := Crowd(keys, target.hash, target.seed, target.table_rows, r);
    Larger(few + {key}, many);
  }

  /** A part of a finite set has no more elements. */
  lemma {:induction false} Larger<T>(a: set<T>, b: set<T>)
    requires a <= b
    ensures |a| <= |b|
  {
    assert b == a + (b - a);
  }

  /** An item that cannot be inserted has a key that was read before, or is one of nine of its row. */
  lemma CannotInsert(target: Filter, seen: seq<Option<(Blob, Blob)>>, p: nat)
    requires target.Valid() && p < |seen| && seen[p].Some? && ReadInto(seen, target.contents, p)
    requires seen[p].value.0 !in target.contents ==> target.RowFull(Home(target.hash, target.seed, target.table_rows, seen[p].value.0))
    ensures !Insertable(seen, target.hash, target.seed, target.table_rows)
  {
    var key := seen[p].value.0;
    assert ReadsKey(seen, p, key);
    if key in target.contents {
      var q :| 0 <= q < p && ReadsKey(seen, q, key);
    } else {
      forall k | k in target.contents
        ensures k in KeysRead(seen)
      {
        var q :| 0 <= q < p && ReadsKey(seen, q, k);
      }
      OneTooMany(KeysRead(seen), target, key);
    }
  }

  /** The bytes at the offsets where the iterator points at slot `p`. */
  method ReadItem(source: Filter, p: nat, keyAt: nat, dataAt: nat) returns (key: Blob, data: Blob)
    requires source.Valid() && p < source.used.Length && source.used[p]
    requires keyAt == source.Looks(p, source.key_size) && dataAt == source.Looks(p, source.data_size)
    ensures key == source.KeyRead(p) && data == source.DataRead(p) && source.Reads()[p] == Some((key, data))
  {
    SlotWithin(source.used.Length, source.key_size, p);
    SlotWithin(source.used.Length, source.data_size, p);
    key := BytesFrom(source.key_field[..], source.key_size, keyAt);
    data := BytesFrom(source.data_field[..], source.data_size, dataAt);
  }

  /** The two tables share no array. */
  ghost predicate Separate(source: Filter, target: Filter)
  {
    var a: set<object>, b: set<object> :=
      {source, source.key_field, source.data_field, source.used}, {target, target.key_field, target.data_field, target.used};
    a !! b
  }

  /** In the middle of moving: `seen` is what the iterator reads, and what it read below slot `p` is in the new table. */
  ghost predicate Moving(source: Filter, target: Filter, seen: seq<Option<(Blob, Blob)>>, p: nat)
    reads source, source.key_field, source.data_field, source.used, target, target.key_field, target.data_field, target.used
  {
    && source.Valid() && source.table_rows < WORD32 && target.Valid() && Separate(source, target)
    && target.key_size == source.key_size && target.data_size == source.data_size
    && seen == source.Reads() && p <= |seen| && ReadInto(seen, target.contents, p)
  }

  /** What is known of the item at slot `p` before it is inserted. */
  lemma BeforeInsert(source: Filter, target: Filter, seen: seq<Option<(Blob, Blob)>>, p: nat, key: Blob, data: Blob)
    requires Moving(source, target, seen, p) && p < |seen| && seen[p] == Some((key, data))
    ensures key !in target.contents ==> ReadInto(seen, target.contents[key := data], p + 1)
    ensures key in target.contents || target.RowFull(Home(target.hash, target.seed, target.table_rows, key)) ==>
              !Insertable(seen, target.hash, target.seed, target.table_rows)
  {
    if key !in target.contents {
      ReadOne(seen, target.contents, p);
    }
    if key in target.contents || target.RowFull(Home(target.hash, target.seed, target.table_rows, key)) {
      CannotInsert(target, seen, p);
    }
  }

  /** Inserts what the iterator reads at slot `p` in the new table. */
  method MoveItem(source: Filter, target: Filter, ghost p: nat, key: Blob, data: Blob, ghost seen: seq<Option<(Blob, Blob)>>) returns (ok: bool)
    requires Moving(source, target, seen, p) && p < source.used.Length && source.used[p]
    requires key == source.KeyRead(p) && source.Reads()[p] == Some((key, data))
    modifies target, target.key_field, target.data_field, target.used
    ensures target.Valid() && source.used[p] && (ok ==> Moving(source, target, seen, p + 1))
    ensures !ok ==> !Insertable(seen, target.hash, target.seed, target.table_rows)
  {
    BeforeInsert(source, target, seen, p, key, data);
    ok := InsertApart(source, target, key, data);
  }

  /** An insert in the new table leaves the old one as it is. */
  method InsertApart(source: Filter, target: Filter, key: Blob, data: Blob) returns (ok: bool)
    requires source.Valid() && target.Valid() && Separate(source, target) && |key| == target.key_size && |data| == target.data_size
    modifies target, target.key_field, target.data_field, target.used
    ensures source.Valid() && source.Reads() == old(source.Reads()) && source.Addressable() == old(source.Addressable())
    ensures target.Valid() && (ok <==> key !in old(target.contents) && !old(target.RowFull(Home(target.hash, target.seed, target.table_rows, key))))
    ensures ok ==> target.contents == old(target.contents)[key := data]
  {
    var out := target.Insert(key, data);
    ok := out == Ok;
    Untouched(source);
  }

  twostate lemma Untouched(source: Filter)
    requires old(source.Valid()) && unchanged(source, source.key_field, source.data_field, source.used)
    ensures source.Valid() && source.Reads() == old(source.Reads()) && source.Addressable() == old(source.Addressable())
  {
  }

  /** The iterator of the old table, at slot `p`, or at the end where `p` is the number of slots. */
  ghost predicate Standing(source: Filter, found: bool, row: nat, col: nat, keyAt: nat, dataAt: nat, p: nat)
    requires source.Allocated()
    reads source.used
  {
    && p <= source.used.Length && (found <==> p < source.used.Length)
    && (found ==> && row < source.table_rows && col < COLS && p == COLS * row + col && source.used[p]
                  && keyAt == source.Looks(p, source.key_size) && dataAt == source.Looks(p, source.data_size))
  }

  /** Moves on to the next used slot, or to the first one where `row` is negative. */
  method NextSlot(source: Filter, target: Filter, row: int, col: nat, ghost from: nat, ghost seen: seq<Option<(Blob, Blob)>>)
    returns (found: bool, row': nat, col': nat, keyAt: nat, dataAt: nat, ghost p: nat)
    requires Moving(source, target, seen, from) && row < source.table_rows && col < COLS
    requires (row >= 0 ==> source.used[COLS * row + col]) && from == if row >= 0 then COLS * row + col + 1 else 0
    ensures Moving(source, target, seen, p) && Standing(source, found, row', col', keyAt, dataAt, p) && from <= p
  {
    found, row', col', keyAt, dataAt := source.GetNextIter(row, col);
    p := if found then COLS * row' + col' else source.used.Length;
    Skipped(seen, target.contents, from, p);
  }

  /** One item moved, and on to the next used slot. */
  method MoveOn(source: Filter, target: Filter, row: nat, col: nat, keyAt: nat, dataAt: nat, ghost p: nat, ghost seen: seq<Option<(Blob, Blob)>>)
    returns (ok: bool, found: bool, row': nat, col': nat, keyAt': nat, dataAt': nat, ghost p': nat)
    requires Moving(source, target, seen, p) && Standing(source, true, row, col, keyAt, dataAt, p)
    modifies target, target.key_field, target.data_field, target.used
    ensures target.Valid()
    ensures ok ==> Moving(source, target, seen, p') && Standing(source, found, row', col', keyAt', dataAt', p') && p < p'
    ensures !ok ==> !Insertable(seen, target.hash, target.seed, target.table_rows)
  {
    found, row', col', keyAt', dataAt', p' := false, row, col, keyAt, dataAt, p;
    var key, data := ReadItem(source, COLS * row + col, keyAt, dataAt);
    ok := MoveItem(source, target, p, key, data, seen);
    if ok {
      found, row', col', keyAt', dataAt', p' := NextSlot(source, target, row, col, p + 1, seen);
    }
  }

  /** Inserts what the iterator reads in an empty table, until an item does not fit. */
  method MoveItems(source: Filter, target: Filter) returns (ok: bool)
    requires source.Valid() && source.table_rows < WORD32 && target.Valid() && Separate(source, target) && target.contents == map[]
    requires target.key_size == source.key_size && target.data_size == source.data_size
    modifies target, target.key_field, target.data_field, target.used
    ensures target.Valid() && (ok ==> ReadInto(source.Reads(), target.contents, source.used.Length))
    ensures !ok ==> !Insertable(old(source.Reads()), target.hash, target.seed, target.table_rows)
  {
    ghost var seen := source.Reads();
    var found, row, col, keyAt, dataAt, p := NextSlot(source, target, -1, 0, 0, seen);
    ok := true;
    while found
      invariant Moving(source, target, seen, p) && Standing(source, found, row, col, keyAt, dataAt, p)
      decreases source.used.Length - p
    {
      ok, found, row, col, keyAt, dataAt, p := MoveOn(source, target, row, col, keyAt, dataAt, p, seen);
      if !ok {
        return;
      }
    }
  }

  /**
   * One attempt of `fhf_resize`: what the iterator reads in the old table, slot by slot, goes to a new one, until an item
   * cannot be inserted. The attempt succeeds exactly when no key is read twice and no row gets more than eight.
   */
  method MoveAll(source: Filter, rows: nat, seed: nat) returns (ok: bool, target: Filter)
    requires source.Valid() && source.table_rows < WORD32 && 0 < rows
    ensures fresh(target) && target.Valid() && target.table_rows == rows && target.seed == seed && target.hash == source.hash
    ensures target.key_size == source.key_size && target.data_size == source.data_size
    ensures ok <==> Insertable(source.Reads(), source.hash, seed, rows)
    ensures ok ==> ReadInto(source.Reads(), target.contents, source.used.Length)
    ensures ok && source.Addressable() ==> target.contents == source.contents
  {
    target := new Filter(rows, source.key_size, source.data_size, seed, source.hash);
    ok := MoveItems(source, target);
    if ok {
      MovedKeys(source.Reads(), target.contents);
      RoomForAll(target);
      if source.Addressable() {
        AllMoved(source, target.contents);
      }
    }
  }

  /** A table has room for what it has. */
  lemma RoomForAll(t: Filter)
    requires t.Valid()
    ensures Fits(t.contents.Keys, t.hash, t.seed, t.table_rows)
  {
    forall r | 0 <= r < t.table_rows
      ensures |Crowd(t.contents.Keys, t.hash, t.seed, t.table_rows, r)| <= COLS
    {
      t.RowCrowd(r);
    }
  }

  /** A table of that many rows can be had, but cannot take what the iterator reads. */
  ghost predicate TooSmall(seen: seq<Option<(Blob, Blob)>>, hash: (Blob, nat) -> nat, allocates: nat -> bool, seeds: nat -> nat, rows: nat)
  {
    0 < rows <= MAX_ROWS && allocates(rows) && !Insertable(seen, hash, seeds(rows), rows)
  }

  /** The rows of attempt `n`, attempt 0 being the old table. */
  function RowsAt(first: nat, n: nat): (rows: nat)
  {
    if n == 0 then first else 2 * RowsAt(first, n - 1)
  }

  lemma {:induction false} RowsAtIs(first: nat, n: nat)
    ensures RowsAt(first, n) == first * Pow2(n)
  {
    if n > 0 {
      RowsAtIs(first, n - 1);
      assert first * (2 * Pow2(n - 1)) == 2 * (first * Pow2(n - 1));
    }
  }

  /** No attempt before number `attempt` succeeds. */
  ghost predicate AllTooSmall(seen: seq<Option<(Blob, Blob)>>, hash: (Blob, nat) -> nat, allocates: nat -> bool, seeds: nat -> nat,
                              first: nat, attempt: nat)
  {
    forall i :: 0 < i < attempt ==> TooSmall(seen, hash, allocates, seeds, RowsAt(first, i))
  }

  lemma OneMoreTooSmall(seen: seq<Option<(Blob, Blob)>>, hash: (Blob, nat) -> nat, allocates: nat -> bool, seeds: nat -> nat,
                        first: nat, attempt: nat)
    requires AllTooSmall(seen, hash, allocates, seeds, first, attempt) && TooSmall(seen, hash, allocates, seeds, RowsAt(first, attempt))
    ensures AllTooSmall(seen, hash, allocates, seeds, first, attempt + 1)
  {
  }

  /** In the numbers of rows themselves. */
  lemma AllTooSmallIs(seen: seq<Option<(Blob, Blob)>>, hash: (Blob, nat) -> nat, allocates: nat -> bool, seeds: nat -> nat,
                      first: nat, attempt: nat)
    requires AllTooSmall(seen, hash, allocates, seeds, first, attempt)
    ensures forall i :: 0 < i < attempt ==> TooSmall(seen, hash, allocates, seeds, first * Pow2(i))
  {
    forall i | 0 < i < attempt
      ensures TooSmall(seen, hash, allocates, seeds, first * Pow2(i))
    {
      RowsAtIs(first, i);
    }
  }

  /** The rows of the next attempt, in 64 bits: they become 0 at 2^64, and before that exceed the limit. */
  method NextRows(ghost first: nat, ghost n: nat, rows: nat) returns (next: nat)
    requires rows == RowsAt(first, n) && 0 < rows <= MAX_ROWS
    ensures rows < RowsAt(first, n + 1) && Left(first, n + 1, next)
  {
    next := 2 * rows % WORD;
  }

  /** The variable with the rows of attempt `n`, unless they exceed the limit. */
  predicate Left(first: nat, n: nat, rows: nat)
  {
    if 0 < rows <= MAX_ROWS then rows == RowsAt(first, n) else MAX_ROWS < RowsAt(first, n)
  }

  /** One round of `fhf_resize`, with a table of `rows` rows. */
  method TryRows(table: Filter, rows: nat, allocates: nat -> bool, seeds: nat -> nat)
    returns (done: bool, r: Resizing, t: Filter)
    requires table.Valid() && table.table_rows < WORD32 && 0 < rows <= MAX_ROWS
    ensures !done ==> t == table && TooSmall(table.Reads(), table.hash, allocates, seeds, rows)
    ensures done && r.Resized? ==> && fresh(t) && t.Valid() && t.table_rows == rows && allocates(rows)
                                   && Insertable(table.Reads(), table.hash, seeds(rows), rows)
                                   && ReadInto(table.Reads(), t.contents, table.used.Length)
    ensures done && r.Resized? && table.Addressable() ==> t.contents == table.contents
    ensures done && !r.Resized? ==> r.FailedAlloc? && t == table && !allocates(rows)
  {
    if !allocates(rows) {
      return true, FailedAlloc, table;
    }
    var ok, target := MoveAll(table, rows, seeds(rows));
    done, r, t := ok, Resized, if ok then target else table;
  }

  /** A table of that many rows could be had and could take all, and it has what was read. */
  ghost predicate Taken(seen: seq<Option<(Blob, Blob)>>, hash: (Blob, nat) -> nat, allocates: nat -> bool, seeds: nat -> nat,
                        rows: nat, has: nat, moved: map<Blob, Blob>)
    requires 0 < rows
  {
    has == rows && allocates(rows) && Insertable(seen, hash, seeds(rows), rows) && ReadInto(seen, moved, |seen|)
  }

  /** Attempt `n` of `fhf_resize`, and the rows of the next one. */
  method TryAttempt(table: Filter, rows: nat, allocates: nat -> bool, seeds: nat -> nat, ghost n: nat,
                    ghost seen: seq<Option<(Blob, Blob)>>)
    returns (done: bool, r: Resizing, t: Filter, next: nat)
    requires table.Valid() && seen == table.Reads() && table.table_rows < WORD32
    requires 0 < rows <= MAX_ROWS && rows == RowsAt(table.table_rows, n)
    requires AllTooSmall(seen, table.hash, allocates, seeds, table.table_rows, n)
    ensures table.Valid() && seen == table.Reads()
    ensures !done ==> t == table && rows < RowsAt(table.table_rows, n + 1) && Left(table.table_rows, n + 1, next)
    ensures !done ==> AllTooSmall(seen, table.hash, allocates, seeds, table.table_rows, n + 1)
    ensures done && r.Resized? ==> fresh(t) && t.Valid() && Taken(seen, table.hash, allocates, seeds, rows, t.table_rows, t.contents)
    ensures done && r.Resized? && table.Addressable() ==> t.contents == table.contents
    ensures done && !r.Resized? ==> r.FailedAlloc? && t == table && !allocates(rows)
  {
    next := rows;
    done, r, t := TryRows(table, rows, allocates, seeds);
    if !done {
      OneMoreTooSmall(seen, table.hash, allocates, seeds, table.table_rows, n);
      next := NextRows(table.table_rows, n, rows);
    }
  }

  /** The loop of `fhf_resize`. */
  method TryAll(table: Filter, allocates: nat -> bool, seeds: nat -> nat)
    returns (r: Resizing, t: Filter, ghost attempt: nat, ghost size: nat)
    requires table.Valid() && table.table_rows < WORD32
    ensures 0 < attempt && size == RowsAt(table.table_rows, attempt) && RowsAt(table.table_rows, attempt - 1) <= MAX_ROWS
    ensures AllTooSmall(table.Reads(), table.hash, allocates, seeds, table.table_rows, attempt)
    ensures r.Resized? ==> && 0 < size <= MAX_ROWS && fresh(t) && t.Valid()
                           && Taken(table.Reads(), table.hash, allocates, seeds, size, t.table_rows, t.contents)
                           && (table.Addressable() ==> t.contents == table.contents)
    ensures r.FailedAlloc? ==> t == table && size <= MAX_ROWS && !allocates(size)
    ensures r.FailedInsert? ==> t == table && MAX_ROWS < size
  {
    t := table;
    ghost var seen := table.Reads();
    var rows: nat := NextRows(table.table_rows, 0, table.table_rows);
    attempt, size := 1, RowsAt(table.table_rows, 1);
    while rows <= MAX_ROWS && rows != 0
      invariant t == table && table.Valid() && table.Reads() == seen && 0 < attempt && size == RowsAt(table.table_rows, attempt)
      invariant RowsAt(table.table_rows, attempt - 1) <= MAX_ROWS && Left(table.table_rows, attempt, rows)
      invariant AllTooSmall(seen, table.hash, allocates, seeds, table.table_rows, attempt)
      decreases WORD - size
    {
      var done;
      done, r, t, rows := TryAttempt(table, rows, allocates, seeds, attempt, seen);
      if done {
        return;
      }
      attempt, size := attempt + 1, RowsAt(table.table_rows, attempt + 1);
    }
    return FailedInsert, table, attempt, size;
  }

  /**
   * `fhf_resize`: tries tables of 2, 4, 8 ... times the size, with seeds of their own, until one takes all that the iterator
   * reads in the old table, which stays as it is. `allocates` tells whether a table of that many rows can be had. The resize
   * fails exactly when no table can be had before, or when none is left. Where every used slot is looked up at its own bytes,
   * the new table has the same map, and can take it exactly when it has room for all keys (`InsertableIsFits`).
   */
  method Resize(table: Filter, allocates: nat -> bool, seeds: nat -> nat)
    returns (r: Resizing, t: Filter, ghost attempt: nat)
    requires table.Valid() && table.table_rows < WORD32
    ensures 0 < attempt && table.table_rows * Pow2(attempt - 1) <= 0x8000_0000_0000_0000
    ensures forall i :: 0 < i < attempt ==> TooSmall(table.Reads(), table.hash, allocates, seeds, table.table_rows * Pow2(i))
    ensures var rows: nat := table.table_rows * Pow2(attempt);
            match r
            case Resized =>
              && rows <= 0x8000_0000_0000_0000 && allocates(rows) && fresh(t) && t.Valid() && t.table_rows == rows
              && Insertable(table.Reads(), table.hash, seeds(rows), rows)
              && ReadInto(table.Reads(), t.contents, table.used.Length)
              && (table.Addressable() ==> t.contents == table.contents)
            case FailedAlloc => t == table && rows <= 0x8000_0000_0000_0000 && !allocates(rows)
            case FailedInsert => t == table && 0x8000_0000_0000_0000 < rows
  {
    ghost var size;
    r, t, attempt, size := TryAll(table, allocates, seeds);
    AllTooSmallIs(table.Reads(), table.hash, allocates, seeds, table.table_rows, attempt);
    RowsAtIs(table.table_rows, attempt);
    RowsAtIs(table.table_rows, attempt - 1);
  }
}
