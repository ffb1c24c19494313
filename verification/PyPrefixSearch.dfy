/**
 * The Python prefix search: intervals are cut in a list rather than under a cursor, and `hop` skips
 * the front of the list. On sorted networks it builds the very intervals the C code builds.
 */
module PyPrefixSearch {
  import opened Addresses
  import opened IntervalSplit
  import opened Options

  /** `IPPSInterval.__lt__`. */
  predicate Less<D>(a: Interval<D>, b: Interval<D>)
  {
    if a.low == b.low then a.high > b.high else a.low < b.low
  }

  /** `list.sort` leaves no interval that is less than one in front of it. */
  ghost predicate SortedByLess<D>(nets: seq<Interval<D>>)
  {
    forall i, j :: 0 <= i < j < |nets| ==> !Less(nets[j], nets[i])
  }

  /** That is the order of the C comparison: lower start first, then the larger network. */
  lemma LessIsOrder<D>(nets: seq<Interval<D>>)
    requires SortedByLess(nets)
    ensures SortedNetworks(nets)
  {
    forall i, j | 0 <= i < j < |nets|
      ensures NotAfter(nets[i], nets[j])
    {
      assert !Less(nets[j], nets[i]);
    }
  }

  // ---------------------------------------------------------------- the splitter as a function

  /** `interval_list` and `hop`. */
  datatype State<D> = State(list: seq<Interval<D>>, hop: nat)

  /** `isOverlap`: the range holds the start of the other one. */
  predicate IsOverlap<D>(inte: Interval<D>, other: Interval<D>)
  {
    inte.low <= other.low <= inte.high
  }

  function FirstOverlap<D>(list: seq<Interval<D>>, idx: nat, interval: Interval<D>): (k: nat)
    requires idx <= |list|
    ensures idx <= k <= |list|
    ensures k < |list| ==> IsOverlap(list[k], interval)
    ensures forall i :: idx <= i < k ==> !IsOverlap(list[i], interval)
    decreases |list| - idx
  {
    if idx == |list| || IsOverlap(list[idx], interval) then idx else FirstOverlap(list, idx + 1, interval)
  }

  /** What replaces an overlapping interval, and whether `hop` moves on; None for the returned TypeError. */
  function Replace<D>(width: nat, inte: Interval<D>, interval: Interval<D>): (r: Option<(seq<Interval<D>>, nat)>)
    ensures r.Some? ==> r.value.1 <= 1
  {
    if interval.low == inte.low then
      if interval.high == inte.high then
        Some(([inte.(data := inte.data + interval.data)], 0))
      else if interval.high > inte.high then
        None
      else
        Some(([Interval(interval.low, interval.high, inte.data + interval.data),
               Interval(Inc(width, interval.high), inte.high, inte.data)], 0))
    else if interval.low > inte.low then
      if interval.high == inte.high then
        Some(([Interval(inte.low, Dec(width, interval.low), inte.data),
               Interval(interval.low, inte.high, inte.data + interval.data)], 1))
      else if interval.high > inte.high then
        None
      else
        Some(([Interval(inte.low, Dec(width, interval.low), inte.data),
               Interval(interval.low, interval.high, inte.data + interval.data),
               Interval(Inc(width, interval.high), inte.high, inte.data)], 1))
    else
      None
  }

  function PyStep<D>(width: nat, s: State<D>, interval: Interval<D>): (r: Option<State<D>>)
    requires s.hop <= |s.list|
    ensures r.Some? ==> r.value.hop <= |r.value.list|
  {
    var k := FirstOverlap(s.list, s.hop, interval);
    if k == |s.list| then Some(State(s.list + [interval], s.hop + 1))
    else
      match Replace(width, s.list[k], interval)
      case None => None
      case Some((pieces, moved)) => Some(State(s.list[..k] + pieces + s.list[k + 1..], s.hop + moved))
  }

  function PyFold<D>(width: nat, nets: seq<Interval<D>>): (r: Option<State<D>>)
    requires |nets| > 0
    ensures r.Some? ==> r.value.hop <= |r.value.list|
    decreases |nets|
  {
    if |nets| == 1 then Some(State([nets[0]], 0))
    else
      match PyFold(width, nets[..|nets| - 1])
      case None => None
      case Some(s) => PyStep(width, s, nets[|nets| - 1])
  }

  // ---------------------------------------------------------------- agreement with the C splitter

  /** `hop` never passes the interval that holds the start of the last network. */
  ghost predicate HopInv<D>(s: State<D>, nets: seq<Interval<D>>)
  {
    && |nets| > 0 && s.hop < |s.list|
    && forall i :: 0 <= i < s.hop ==> s.list[i].high < nets[|nets| - 1].low
  }

  /** Everything in front of the interval where the conductor stops ends before the network begins. */
  lemma AllBeforeWalk<D>(c: Cursor<D>, nets: seq<Interval<D>>, cur: Interval<D>)
    requires CursorInv(c, nets) && nets[|nets| - 1].low <= cur.low
    ensures forall i :: 0 <= i < Walk(c.ivs, c.at, cur.low) ==> c.ivs[i].high < cur.low
  {
  }

  /** The first overlap is at an interval in front of which nothing reaches the network. */
  lemma OverlapIs<D>(list: seq<Interval<D>>, hop: nat, cur: Interval<D>, k: nat)
    requires hop <= |list| && k <= |list|
    requires forall i :: 0 <= i < k ==> list[i].high < cur.low
    requires forall i :: 0 <= i < hop ==> list[i].high < cur.low
    requires k < |list| ==> IsOverlap(list[k], cur)
    ensures FirstOverlap(list, hop, cur) == k
  {
  }

  lemma OverlapIsWalk<D>(c: Cursor<D>, s: State<D>, nets: seq<Interval<D>>, cur: Interval<D>)
    requires CursorInv(c, nets) && s.list == c.ivs && HopInv(s, nets)
    requires nets[|nets| - 1].low <= cur.low
    requires var k := Walk(c.ivs, c.at, cur.low); k < |c.ivs| ==> IsOverlap(c.ivs[k], cur)
    ensures FirstOverlap(s.list, s.hop, cur) == Walk(c.ivs, c.at, cur.low)
  {
    var k := Walk(c.ivs, c.at, cur.low);
    AllBeforeWalk(c, nets, cur);
    OverlapIs(s.list, s.hop, cur, k);
  }

  lemma ReplaceIsCut<D>(width: nat, inte: Interval<D>, cur: Interval<D>)
    requires inte.low <= cur.low <= cur.high <= inte.high
    ensures Cut(width, inte, cur).Some?
    ensures Replace(width, inte, cur)
            == Some((Cut(width, inte, cur).value, if cur.low > inte.low then 1 else 0))
  {
  }

  lemma HopMovesOn<D>(s: State<D>, k: nat, nets: seq<Interval<D>>, cur: Interval<D>)
    requires HopInv(s, nets) && Disjoint(s.list) && s.hop <= k < |s.list|
    requires nets[|nets| - 1].low <= cur.low
    requires s.list[k].low <= cur.low <= cur.high <= s.list[k].high
    ensures var moved := if cur.low > s.list[k].low then 1 else 0;
            HopInv(State(s.list[..k] + Pieces(s.list[k], cur) + s.list[k + 1..], s.hop + moved), nets + [cur])
  {
    var p := Pieces(s.list[k], cur);
    PiecesPartition(s.list[k], cur);
    var moved := if cur.low > s.list[k].low then 1 else 0;
    assert moved == 1 ==> |p| >= 2 && p[0].high < cur.low;
    var list := s.list[..k] + p + s.list[k + 1..];
    forall i | 0 <= i < s.hop + moved ensures list[i].high < cur.low {
      if i < k {
        assert list[i] == s.list[i];
        assert s.list[i].high < s.list[k].low;
      } else {
        assert list[i] == p[0];
      }
    }
  }

  lemma HopAppends<D>(s: State<D>, nets: seq<Interval<D>>, cur: Interval<D>)
    requires HopInv(s, nets) && forall i :: 0 <= i < |s.list| ==> s.list[i].high < cur.low
    ensures HopInv(State(s.list + [cur], s.hop + 1), nets + [cur])
  {
  }

  lemma PyStepAgrees<D>(width: nat, c: Cursor<D>, s: State<D>, nets: seq<Interval<D>>, cur: Interval<D>)
    requires Inv(c, nets) && s.list == c.ivs && HopInv(s, nets)
    requires Masked(width, nets + [cur]) && SortedNetworks(nets + [cur])
    ensures Step(width, c, cur).Some? && PyStep(width, s, cur).Some?
    ensures PyStep(width, s, cur).value.list == Step(width, c, cur).value.ivs
    ensures HopInv(PyStep(width, s, cur).value, nets + [cur])
  {
    var all := nets + [cur];
    assert NotAfter(all[|nets| - 1], all[|nets|]);
    var k := Walk(c.ivs, c.at, cur.low);
    StepCutsOneInterval(width, c, nets, cur);
    OverlapIsWalk(c, s, nets, cur);
    if k < |c.ivs| {
      ReplaceIsCut(width, c.ivs[k], cur);
      PiecesPartition(c.ivs[k], cur);
      HopMovesOn(s, k, nets, cur);
    } else {
      assert s.hop < |s.list|;
      HopAppends(s, nets, cur);
    }
  }

  /**
   * On sorted networks no TypeError is returned, and the list is the one the C code builds: the
   * `hop` shortcut never skips the interval that has to be cut.
   */
  lemma {:induction false} PyFoldAgrees<D>(width: nat, nets: seq<Interval<D>>)
    requires |nets| > 0 && Masked(width, nets) && SortedNetworks(nets)
    ensures Fold(width, nets).Some? && PyFold(width, nets).Some?
    ensures PyFold(width, nets).value.list == Fold(width, nets).value.ivs
    ensures HopInv(PyFold(width, nets).value, nets)
    decreases |nets|
  {
    if |nets| > 1 {
      var front, cur := nets[..|nets| - 1], nets[|nets| - 1];
      assert nets == front + [cur];
      PyFoldAgrees(width, front);
      FoldRepresents(width, front);
      PyStepAgrees(width, Fold(width, front).value, PyFold(width, front).value, front, cur);
    }
  }

  // ---------------------------------------------------------------- the splitter as it runs

  lemma SortedIsSplit<D>(width: nat, sorted: seq<Interval<D>>)
    requires |sorted| > 0 && Masked(width, sorted) && SortedByLess(sorted)
    ensures PyFold(width, sorted).Some?
    ensures var list := PyFold(width, sorted).value.list; Represents(list, sorted) && |list| <= 2 * |sorted| - 1
  {
    LessIsOrder(sorted);
    PyFoldAgrees(width, sorted);
    FoldRepresents(width, sorted);
  }

  lemma PyFoldNext<D>(width: nat, sorted: seq<Interval<D>>, n: nat)
    requires 1 <= n < |sorted| && PyFold(width, sorted[..n]).Some?
    ensures PyFold(width, sorted[..n + 1]) == PyStep(width, PyFold(width, sorted[..n]).value, sorted[n])
  {
    assert sorted[..n + 1][..n] == sorted[..n];
  }

  /** `split_overlaps_intervals`: None for the returned TypeError. */
  method SplitOverlapsIntervals<D>(width: nat, sorted: seq<Interval<D>>) returns (r: Option<seq<Interval<D>>>)
    requires |sorted| > 0
    ensures r == match PyFold(width, sorted) case None => None case Some(s) => Some(s.list)
    ensures Masked(width, sorted) && SortedByLess(sorted) ==>
              r.Some? && Represents(r.value, sorted) && |r.value| <= 2 * |sorted| - 1
  {
    if Masked(width, sorted) && SortedByLess(sorted) {
      SortedIsSplit(width, sorted);
    }
    var list := [sorted[0]];
    var hop: nat := 0;
    assert sorted[..1] == [sorted[0]];
    for n := 1 to |sorted|
      invariant hop <= |list| && PyFold(width, sorted[..n]) == Some(State(list, hop))
    {
      var interval := sorted[n];
      PyFoldNext(width, sorted, n);
      var ok;
      ok, list, hop := SplitOne(width, list, hop, interval);
      if !ok {
        PyFoldFails(width, sorted, n + 1);
        return None;
      }
    }
    assert sorted[..|sorted|] == sorted;
    return Some(list);
  }

  lemma {:induction false} PyFoldFails<D>(width: nat, nets: seq<Interval<D>>, n: nat)
    requires 1 <= n <= |nets| && PyFold(width, nets[..n]).None?
    ensures PyFold(width, nets).None?
    decreases |nets| - n
  {
    if n < |nets| {
      assert nets[..n + 1][..n] == nets[..n];
      PyFoldFails(width, nets, n + 1);
    } else {
      assert nets[..n] == nets;
    }
  }

  /** Cuts the interval at `index`: the pieces are inserted in front of it from the last to the first, then it is popped. */
  method CutAt<D>(width: nat, interval_list: seq<Interval<D>>, index: nat, interval: Interval<D>)
    returns (ok: bool, list: seq<Interval<D>>, moved: nat)
    requires index < |interval_list|
    ensures var r := Replace(width, interval_list[index], interval);
            && ok == r.Some?
            && (ok ==> list == interval_list[..index] + r.value.0 + interval_list[index + 1..] && moved == r.value.1)
  {
    ok, list, moved := true, interval_list, 0;
    var inte := list[index];
    if interval.low == inte.low {
      if interval.high == inte.high {
        list := list[index := inte.(data := inte.data + interval.data)];
      } else if interval.high > inte.high {
        ok := false;
      } else {
        var rest := Interval(Inc(width, interval.high), inte.high, inte.data);
        var overlap := Interval(interval.low, interval.high, inte.data + interval.data);
        PutTwo(list, index, overlap, rest);
        list := Inserted(list, index, rest);
        list := Inserted(list, index, overlap);
        list := Popped(list, index + 2);
      }
    } else if interval.low > inte.low {
      if interval.high == inte.high {
        var overlap := Interval(interval.low, inte.high, inte.data + interval.data);
        var front := Interval(inte.low, Dec(width, interval.low), inte.data);
        PutTwo(list, index, front, overlap);
        list := Inserted(list, index, overlap);
        list := Inserted(list, index, front);
        list := Popped(list, index + 2);
        moved := 1;
      } else if interval.high > inte.high {
        ok := false;
      } else {
        var rest := Interval(Inc(width, interval.high), inte.high, inte.data);
        var overlap := Interval(interval.low, interval.high, inte.data + interval.data);
        var front := Interval(inte.low, Dec(width, interval.low), inte.data);
        PutThree(list, index, front, overlap, rest);
        list := Inserted(list, index, rest);
        list := Inserted(list, index, overlap);
        list := Inserted(list, index, front);
        list := Popped(list, index + 3);
        moved := 1;
      }
    } else {
      ok := false;
    }
  }

  /** The inner loop: looks for the interval to cut from `hop` on, appends when there is none. */
  method SplitOne<D>(width: nat, interval_list: seq<Interval<D>>, hop: nat, interval: Interval<D>)
    returns (ok: bool, list: seq<Interval<D>>, newHop: nat)
    requires hop <= |interval_list|
    ensures var r := PyStep(width, State(interval_list, hop), interval);
            && ok == r.Some?
            && (ok ==> State(list, newHop) == r.value)
  {
    var index := hop;
    while index < |interval_list|
      invariant hop <= index <= |interval_list|
      invariant FirstOverlap(interval_list, hop, interval) == FirstOverlap(interval_list, index, interval)
    {
      if IsOverlap(interval_list[index], interval) {
        var moved;
        ok, list, moved := CutAt(width, interval_list, index, interval);
        newHop := hop + moved;
        return;
      }
      index := index + 1;
    }
    return true, interval_list + [interval], hop + 1;
  }

  /** `list.insert(index, x)` */
  function Inserted<T>(s: seq<T>, index: nat, x: T): (r: seq<T>)
    requires index <= |s|
  {
    s[..index] + [x] + s[index..]
  }

  /** `list.pop(index)` */
  function Popped<T>(s: seq<T>, index: nat): (r: seq<T>)
    requires index < |s|
  {
    s[..index] + s[index + 1..]
  }

  lemma PutTwo<T>(s: seq<T>, i: nat, x: T, y: T)
    requires i < |s|
    ensures Popped(Inserted(Inserted(s, i, y), i, x), i + 2) == s[..i] + [x, y] + s[i + 1..]
  {
    assert Inserted(Inserted(s, i, y), i, x) == s[..i] + [x, y] + s[i..];
  }

  lemma PutThree<T>(s: seq<T>, i: nat, x: T, y: T, z: T)
    requires i < |s|
    ensures Popped(Inserted(Inserted(Inserted(s, i, z), i, y), i, x), i + 3) == s[..i] + [x, y, z] + s[i + 1..]
  {
    assert Inserted(Inserted(s, i, z), i, y) == s[..i] + [y, z] + s[i..];
    assert Inserted(Inserted(Inserted(s, i, z), i, y), i, x) == s[..i] + [x, y, z] + s[i..];
  }

  // ---------------------------------------------------------------- ip_search

  datatype Answer<D> = NotFound | FoundWithoutData | Found(data: seq<D>)

  /** `isIn`: negative below the range, zero inside, positive above. */
  function IsIn<D>(iv: Interval<D>, x: nat): (c: int)
  {
    if iv.low == x then 0
    else if iv.low > x then -1
    else if iv.high >= x then 0
    else 1
  }

  /**
   * `ip_search` on the list built from `nets` answers like a scan of `nets`: False where no network
   * contains the address, True where those that do carry no data, else their data in order.
   */
  method IpSearch<D>(list: seq<Interval<D>>, x: nat, ghost nets: seq<Interval<D>>) returns (r: Answer<D>)
    requires Represents(list, nets)
    ensures r.NotFound? <==> !Covered(nets, x)
    ensures r.FoundWithoutData? <==> Covered(nets, x) && Matches(nets, x) == []
    ensures r.Found? ==> r.data == Matches(nets, x)
  {
    var first, last := 0, |list| - 1;
    while first <= last
      invariant 0 <= first <= last + 1 <= |list|
      invariant forall i :: 0 <= i < first ==> list[i].high < x
      invariant forall i :: last < i < |list| ==> x < list[i].low
      decreases last - first
    {
      var middle := (first + last) / 2;
      var midpoint := list[middle];
      var position := IsIn(midpoint, x);
      if position == 0 {
        assert In(x, list[middle]);
        assert Covered(list, x);
        return if |midpoint.data| > 0 then Found(midpoint.data) else FoundWithoutData;
      } else if position < 0 {
        last := middle - 1;
      } else {
        first := middle + 1;
      }
    }
    assert !Covered(list, x);
    return NotFound;
  }
}
