/**
 * The stash over whole runs: evicted items take its slots in turn, so the item a full stash gives up is always the one
 * stashed longest ago, and none is given up while a slot is free.
 */
module FastHashStash {
  import opened Arithmetic
  import opened FastHashConservation
  import opened FastHashOperations
  import opened FastHashRuns
  import opened FastHashSpec
  import opened Options

  /** The item that an operation moves from a full row to the stash, if there is one. */
  function Evicted<K(==), D(==)>(t: Table<K, D>, hash: K -> nat, op: Op<K, D>): (items: seq<(K, D)>)
    requires TableOk(t, hash)
    ensures |items| <= 1
  {
    if !op.Put? && !op.PutWr? then []
    else if Lookup(t, hash, op.key).Some? || |HomeItems(t, hash, op.key)| < COLS || t.stash == [] then []
    else if op.PutWr? && AllUsed(t.stash) then []
    else [HomeItems(t, hash, op.key)[3]]
  }

  predicate AllUsed<T>(stash: seq<Option<T>>)
  {
    forall s :: 0 <= s < |stash| ==> stash[s].Some?
  }

  /** The items moved to the stash in a run, in order. */
  function Evictions<K(==), D(==)>(t: Table<K, D>, hash: K -> nat, ops: seq<Op<K, D>>): (items: seq<(K, D)>)
    requires NoKeyTwice(t, hash)
    decreases |ops|
  {
    if ops == [] then []
    else
      var e := Run(t, hash, ops[..|ops| - 1]);
      assert Kept(t, hash, e);
      Evictions(t, hash, ops[..|ops| - 1]) + Evicted(e.table, hash, ops[|ops| - 1])
  }

  // ---------------------------------------------------------------- slots in turn

  /** The slot of turn `j`: the slots follow each other, the first after the last. */
  function Turn(j: nat, n: nat): (s: nat)
    requires 0 < n
    ensures s < n
  {
    if j == 0 || Turn(j - 1, n) + 1 == n then 0 else Turn(j - 1, n) + 1
  }

  lemma {:induction false} TurnIsRemainder(j: nat, n: nat)
    requires 0 < n
    ensures Turn(j, n) == j % n
  {
    if j == 0 {
      Remainder(0, n, 0, 0);
    } else {
      TurnIsRemainder(j - 1, n);
      WrapsAround(j - 1, n);
    }
  }

  lemma Later(a: nat, d: nat, n: nat)
    requires d <= n && 0 < n
    ensures (a + d) % n == if a % n + d < n then a % n + d else a % n + d - n
  {
    var round := n * (a / n);
    assert a == round + a % n;
    if a % n + d < n {
      Remainder(a + d, n, a / n, a % n + d);
    } else {
      assert n * (a / n + 1) == round + n;
      Remainder(a + d, n, a / n + 1, a % n + d - n);
    }
  }

  lemma OneMoreTurn(j: nat, more: nat, n: nat)
    requires 0 < n && more <= 1
    ensures Turn(j + more, n) == if more == 0 then Turn(j, n) else if Turn(j, n) + 1 == n then 0 else Turn(j, n) + 1
  {
  }

  /** Less than `n` turns apart, the slots differ. */
  lemma TurnsDiffer(a: nat, b: nat, n: nat)
    requires a < b < a + n
    ensures Turn(a, n) != Turn(b, n)
  {
    TurnIsRemainder(a, n);
    TurnIsRemainder(b, n);
    Later(a, b - a, n);
  }

  /** In the first round each slot is its own turn. */
  lemma {:induction false} FirstRound(j: nat, n: nat)
    requires j < n
    ensures Turn(j, n) == j
  {
    if j > 0 {
      FirstRound(j - 1, n);
    }
  }

  /** A turn of slot `s` among `n` turns in a row from turn `a` on. */
  lemma SomeTurn(a: nat, n: nat, s: nat) returns (j: nat)
    requires s < n
    ensures a <= j < a + n && Turn(j, n) == s
  {
    var round := n * (a / n);
    assert a == round + a % n;
    if a % n <= s {
      j := round + s;
      Remainder(j, n, a / n, s);
    } else {
      j := round + n + s;
      assert n * (a / n + 1) == round + n;
      Remainder(j, n, a / n + 1, s);
    }
    TurnIsRemainder(j, n);
  }

  /** Among `n` turns in a row from turn `a` on, slot `s` has exactly one, turn `j`. */
  lemma EverySlotOnce(a: nat, n: nat, s: nat) returns (j: nat)
    requires s < n
    ensures a <= j < a + n && forall k :: a <= k < a + n ==> (Turn(k, n) == s <==> k == j)
  {
    j := SomeTurn(a, n, s);
    forall k | a <= k < a + n && k != j
      ensures Turn(k, n) != s
    {
      if k < j {
        TurnsDiffer(k, j, n);
      } else {
        TurnsDiffer(j, k, n);
      }
    }
  }

  // ---------------------------------------------------------------- one operation

  /** The stash index stays without an eviction, and with one it goes on to the next slot. */
  predicate Advances<K(==), D>(t: Table<K, D>, t': Table<K, D>, evicts: bool)
  {
    && |t'.stash| == |t.stash|
    && t'.next == if !evicts then t.next else if t.next + 1 == |t.stash| then 0 else t.next + 1
  }

  lemma PutAdvances<K, D>(t: Table<K, D>, hash: K -> nat, op: Op<K, D>)
    requires NoKeyTwice(t, hash) && t.stash != [] && op.Put?
    ensures Advances(t, InsertWithStash(t, hash, op.key, op.data).0, Evicted(t, hash, op) != [])
  {
    assert RowListOk(HomeItems(t, hash, op.key), hash, |t.rows|, Home(hash, |t.rows|, op.key));
  }

  lemma PutWrAdvances<K, D>(t: Table<K, D>, hash: K -> nat, op: Op<K, D>)
    requires NoKeyTwice(t, hash) && t.stash != [] && op.PutWr?
    ensures Advances(t, InsertWithStashWr(t, hash, op.key, op.data).0, Evicted(t, hash, op) != [])
  {
    assert RowListOk(HomeItems(t, hash, op.key), hash, |t.rows|, Home(hash, |t.rows|, op.key));
  }

  lemma StepAdvances<K, D>(t: Table<K, D>, hash: K -> nat, op: Op<K, D>)
    requires NoKeyTwice(t, hash) && t.stash != []
    ensures Advances(t, Step(t, hash, op).table, Evicted(t, hash, op) != [])
  {
    if op.Put? {
      PutAdvances(t, hash, op);
    } else if op.PutWr? {
      PutWrAdvances(t, hash, op);
    }
  }

  lemma PutStashes<K, D>(t: Table<K, D>, hash: K -> nat, op: Op<K, D>)
    requires NoKeyTwice(t, hash) && t.stash != [] && op.Put?
    ensures var stash', items := InsertWithStash(t, hash, op.key, op.data).0.stash, Evicted(t, hash, op);
            stash' == if items != [] then t.stash[t.next := Some(items[0])] else t.stash
  {
    assert RowListOk(HomeItems(t, hash, op.key), hash, |t.rows|, Home(hash, |t.rows|, op.key));
  }

  /** Without the insert that looks for a free slot, an eviction goes to the slot in turn, and nothing else enters the stash. */
  lemma StepStashes<K, D>(t: Table<K, D>, hash: K -> nat, op: Op<K, D>)
    requires NoKeyTwice(t, hash) && t.stash != [] && !op.PutWr?
    ensures var stash', items := Step(t, hash, op).table.stash, Evicted(t, hash, op);
            if items != [] then stash' == t.stash[t.next := Some(items[0])]
            else
              && |stash'| == |t.stash|
              && (forall s :: 0 <= s < |t.stash| ==> stash'[s] == None || stash'[s] == t.stash[s])
              && (op.Put? || op.Get? ==> stash' == t.stash)
  {
    if op.Put? {
      PutStashes(t, hash, op);
    }
  }

  // ---------------------------------------------------------------- whole runs

  /** The slot whose turn is the eviction `j`. */
  function Slot<T>(stash: seq<Option<T>>, j: nat): (slot: Option<T>)
    requires stash != []
  {
    stash[Turn(j, |stash|)]
  }

  predicate Stands<T(==)>(stash: seq<Option<T>>, items: seq<T>, j: nat)
    requires stash != [] && j < |items|
  {
    Slot(stash, j) == Some(items[j])
  }

  /** The stash after the evictions `items`: a slot holds the last of them whose turn it was, or nothing. */
  predicate InTurn<T(==)>(stash: seq<Option<T>>, items: seq<T>)
    requires stash != []
  {
    && (forall j :: 0 <= j < |items| && |items| - |stash| <= j ==> Stands(stash, items, j) || Slot(stash, j) == None)
    && (forall s :: |items| <= s < |stash| ==> stash[s] == None)
  }

  /** The last evictions are all still there. */
  predicate Held<T(==)>(stash: seq<Option<T>>, items: seq<T>)
    requires stash != []
  {
    forall j :: 0 <= j < |items| && |items| - |stash| <= j ==> Stands(stash, items, j)
  }

  lemma OneMoreInTurn<T>(stash: seq<Option<T>>, items: seq<T>, item: T)
    requires stash != [] && InTurn(stash, items)
    ensures var stash' := stash[Turn(|items|, |stash|) := Some(item)];
            && InTurn(stash', items + [item])
            && (Held(stash, items) ==> Held(stash', items + [item]))
  {
    var n := |stash|;
    var stash', items' := stash[Turn(|items|, n) := Some(item)], items + [item];
    forall j | 0 <= j < |items'| && |items'| - n <= j
      ensures Stands(stash', items', j) || (j < |items| && !Stands(stash, items, j) && Slot(stash', j) == None)
    {
      assert j < |items| ==> Stands(stash, items, j) || Slot(stash, j) == None;
      if j < |items| {
        TurnsDiffer(j, |items|, n);
      }
    }
    if |items| < n {
      FirstRound(|items|, n);
    }
  }

  lemma FewerInTurn<T>(stash: seq<Option<T>>, items: seq<T>, stash': seq<Option<T>>)
    requires stash != [] && InTurn(stash, items) && |stash'| == |stash|
    requires forall s :: 0 <= s < |stash| ==> stash'[s] == None || stash'[s] == stash[s]
    ensures InTurn(stash', items)
  {
    forall j | 0 <= j < |items| && |items| - |stash| <= j
      ensures Stands(stash', items, j) || Slot(stash', j) == None
    {
      assert Stands(stash, items, j) || Slot(stash, j) == None;
    }
  }

  lemma StepTakesTurn<K, D>(t: Table<K, D>, hash: K -> nat, op: Op<K, D>, items: seq<(K, D)>)
    requires NoKeyTwice(t, hash) && t.stash != [] && t.next == Turn(|items|, |t.stash|)
    ensures var t' := Step(t, hash, op).table;
            |t'.stash| == |t.stash| && t'.next == Turn(|items + Evicted(t, hash, op)|, |t.stash|)
  {
    StepAdvances(t, hash, op);
    OneMoreTurn(|items|, |Evicted(t, hash, op)|, |t.stash|);
  }

  lemma StepKeepsTurns<K, D>(t: Table<K, D>, hash: K -> nat, op: Op<K, D>, items: seq<(K, D)>)
    requires NoKeyTwice(t, hash) && t.stash != [] && t.next == Turn(|items|, |t.stash|) && InTurn(t.stash, items) && !op.PutWr?
    ensures var stash', items' := Step(t, hash, op).table.stash, items + Evicted(t, hash, op);
            |stash'| == |t.stash| && InTurn(stash', items') && (Held(t.stash, items) && (op.Put? || op.Get?) ==> Held(stash', items'))
  {
    StepStashes(t, hash, op);
    if Evicted(t, hash, op) != [] {
      OneMoreInTurn(t.stash, items, Evicted(t, hash, op)[0]);
      assert Evicted(t, hash, op) == [Evicted(t, hash, op)[0]];
    } else {
      FewerInTurn(t.stash, items, Step(t, hash, op).table.stash);
      assert items + Evicted(t, hash, op) == items;
    }
  }

  /** The stash index counts the evictions, whichever inserts make them. */
  lemma {:induction false} NextInTurn<K, D>(t: Table<K, D>, hash: K -> nat, ops: seq<Op<K, D>>)
    requires NoKeyTwice(t, hash) && t.stash != [] && t.next == 0
    ensures var t' := Run(t, hash, ops).table;
            |t'.stash| == |t.stash| && t'.next == Turn(|Evictions(t, hash, ops)|, |t.stash|)
    decreases |ops|
  {
    if ops != [] {
      var n := |ops| - 1;
      NextInTurn(t, hash, ops[..n]);
      var e, items := Run(t, hash, ops[..n]), Evictions(t, hash, ops[..n]);
      assert Kept(t, hash, e);
      StepTakesTurn(e.table, hash, ops[n], items);
    }
  }

  /** Every operation but the insert that looks for a free slot. */
  predicate NoneWr<K, D>(ops: seq<Op<K, D>>)
  {
    forall i :: 0 <= i < |ops| ==> !ops[i].PutWr?
  }

  predicate PutsAndGets<K, D>(ops: seq<Op<K, D>>)
  {
    forall i :: 0 <= i < |ops| ==> ops[i].Put? || ops[i].Get?
  }

  lemma {:induction false} RunInTurn<K, D>(t: Table<K, D>, hash: K -> nat, ops: seq<Op<K, D>>)
    requires NoKeyTwice(t, hash) && t.stash != [] && t.next == 0 && (forall s :: 0 <= s < |t.stash| ==> t.stash[s] == None)
    requires NoneWr(ops)
    ensures |Run(t, hash, ops).table.stash| == |t.stash|
    ensures InTurn(Run(t, hash, ops).table.stash, Evictions(t, hash, ops))
    ensures PutsAndGets(ops) ==> Held(Run(t, hash, ops).table.stash, Evictions(t, hash, ops))
    decreases |ops|
  {
    if ops != [] {
      var n := |ops| - 1;
      RunInTurn(t, hash, ops[..n]);
      NextInTurn(t, hash, ops[..n]);
      assert ops[n] in ops && (PutsAndGets(ops) ==> PutsAndGets(ops[..n]));
      var e, items := Run(t, hash, ops[..n]), Evictions(t, hash, ops[..n]);
      assert Kept(t, hash, e);
      StepKeepsTurns(e.table, hash, ops[n], items);
    }
  }

  /** A whole round later the same slot has its turn. */
  lemma SameTurn(a: nat, n: nat)
    requires 0 < n
    ensures Turn(a + n, n) == Turn(a, n)
  {
    TurnIsRemainder(a, n);
    TurnIsRemainder(a + n, n);
    Later(a, n, n);
  }

  /** A whole round of evictions that are still there fills the stash. */
  lemma AllInUse<T>(stash: seq<Option<T>>, items: seq<T>)
    requires stash != [] && |stash| <= |items| && Held(stash, items)
    ensures AllUsed(stash)
  {
    var n := |stash|;
    forall s | 0 <= s < n
      ensures stash[s].Some?
    {
      var j := SomeTurn(|items| - n, n, s);
      assert Stands(stash, items, j);
    }
  }

  /** The slot in turn has the oldest eviction that can still be there, or is free. */
  lemma OldestInTurn<T>(stash: seq<Option<T>>, next: nat, items: seq<T>)
    requires stash != [] && next == Turn(|items|, |stash|) && InTurn(stash, items)
    ensures stash[next].Some? ==> |stash| <= |items| && stash[next].value == items[|items| - |stash|]
    ensures Held(stash, items) && stash[next].Some? ==> AllUsed(stash)
    ensures Held(stash, items) && stash[next].None? ==> |items| < |stash| && next == |items|
  {
    var n := |stash|;
    if |items| < n {
      FirstRound(|items|, n);
    } else {
      SameTurn(|items| - n, n);
      if Held(stash, items) {
        AllInUse(stash, items);
      }
      assert Stands(stash, items, |items| - n) || Slot(stash, |items| - n) == None;
    }
  }

  /**
   * An insert after the evictions `items` that reports an item lost from the stash reports the one a whole round of slots
   * back. Where all of the last round are `held`, it does so only with every slot in use.
   */
  predicate LosesOldest<K(==), D(==)>(t: Table<K, D>, hash: K -> nat, items: seq<(K, D)>, held: bool, key: K, data: D)
    requires TableOk(t, hash)
  {
    var out := InsertWithStash(t, hash, key, data).1;
    && (out.StashLost? ==> |t.stash| <= |items| && out.item == items[|items| - |t.stash|])
    && (held && out.StashLost? ==> AllUsed(t.stash))
    && (held && out.StashOk? ==> |items| < |t.stash| && t.stash[|items|] == None)
  }

  lemma LosesInTurn<K, D>(t: Table<K, D>, hash: K -> nat, items: seq<(K, D)>, held: bool, key: K, data: D)
    requires TableOk(t, hash) && t.stash != [] && t.next == Turn(|items|, |t.stash|) && InTurn(t.stash, items)
    requires held ==> Held(t.stash, items)
    ensures LosesOldest(t, hash, items, held, key, data)
  {
    OldestInTurn(t.stash, t.next, items);
  }

  /** From an empty table, after the evictions `items`: slot `j` modulo the size has eviction `j`, the rest is free. */
  predicate HoldsLatest<T(==)>(stash: seq<Option<T>>, next: nat, items: seq<T>)
    requires stash != []
  {
    && next == |items| % |stash|
    && (forall j :: 0 <= j < |items| && |items| - |stash| <= j ==> stash[j % |stash|] == Some(items[j]))
    && (forall s :: |items| <= s < |stash| ==> stash[s] == None)
  }

  lemma HeldInTurn<T>(stash: seq<Option<T>>, next: nat, items: seq<T>)
    requires stash != [] && next == Turn(|items|, |stash|) && InTurn(stash, items) && Held(stash, items)
    ensures HoldsLatest(stash, next, items)
  {
    TurnIsRemainder(|items|, |stash|);
    forall j | 0 <= j < |items| && |items| - |stash| <= j
      ensures stash[j % |stash|] == Some(items[j])
    {
      TurnIsRemainder(j, |stash|);
      assert Stands(stash, items, j);
    }
  }

  /** After any run of inserts and lookups from an empty table, the stash holds the latest evictions, as many as it has slots. */
  lemma LatestAreStashed<K, D>(rows: nat, slots: nat, hash: K -> nat, ops: seq<Op<K, D>>)
    requires 0 < rows && 0 < slots && PutsAndGets(ops)
    ensures var t := Empty<K, D>(rows, slots, 0);
            && NoKeyTwice(t, hash)
            && var now := Run(t, hash, ops).table;
            |now.stash| == slots && HoldsLatest(now.stash, now.next, Evictions(t, hash, ops))
  {
    var t := Empty<K, D>(rows, slots, 0);
    EmptyIsEmpty<K, D>(rows, slots, 0, hash);
    RunInTurn(t, hash, ops);
    NextInTurn(t, hash, ops);
    HeldInTurn(Run(t, hash, ops).table.stash, Run(t, hash, ops).table.next, Evictions(t, hash, ops));
  }

  /**
   * After any run from an empty table, of all operations but the insert that looks for a free slot, the item that the next
   * insert reports lost from the stash is the oldest eviction that can still be there; where the run is of inserts and lookups
   * only, no item is lost while a slot is free.
   */
  lemma LosesOldestStashed<K, D>(rows: nat, slots: nat, hash: K -> nat, ops: seq<Op<K, D>>, key: K, data: D)
    requires 0 < rows && 0 < slots && NoneWr(ops)
    ensures var t := Empty<K, D>(rows, slots, 0);
            && NoKeyTwice(t, hash)
            && var now := Run(t, hash, ops).table;
            && TableOk(now, hash) && |now.stash| == slots
            && LosesOldest(now, hash, Evictions(t, hash, ops), PutsAndGets(ops), key, data)
  {
    var t := Empty<K, D>(rows, slots, 0);
    EmptyIsEmpty<K, D>(rows, slots, 0, hash);
    RunInTurn(t, hash, ops);
    NextInTurn(t, hash, ops);
    assert Kept(t, hash, Run(t, hash, ops));
    LosesInTurn(Run(t, hash, ops).table, hash, Evictions(t, hash, ops), PutsAndGets(ops), key, data);
  }
}
