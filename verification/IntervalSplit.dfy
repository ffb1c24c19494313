/**
 * What the prefix search builds out of sorted networks, as functions on sequences: one step of the
 * splitting loop, branch by branch, and the proof that on masked, sorted input the intervals always
 * describe exactly the networks folded in so far.
 */
module IntervalSplit {
  import opened Arithmetic
  import opened Addresses
  import opened Options

  /** Both a network (its first and last address) and a piece of the search structure. */
  datatype Interval<D> = Interval(low: nat, high: nat, data: seq<D>)

  ghost predicate In<D>(x: nat, iv: Interval<D>)
  {
    iv.low <= x <= iv.high
  }

  ghost predicate Covered<D>(ivs: seq<Interval<D>>, x: nat)
  {
    exists i :: 0 <= i < |ivs| && In(x, ivs[i])
  }

  /** The reference: a linear scan that collects the data of every network containing `x`, in order. */
  function Matches<D>(nets: seq<Interval<D>>, x: nat): (r: seq<D>)
  {
    if nets == [] then []
    else
      var last := nets[|nets| - 1];
      Matches(nets[..|nets| - 1], x) + (if last.low <= x <= last.high then last.data else [])
  }

  lemma {:induction false} UncoveredMatchesNothing<D>(nets: seq<Interval<D>>, x: nat)
    requires !Covered(nets, x)
    ensures Matches(nets, x) == []
    decreases |nets|
  {
    if nets != [] {
      var front := nets[..|nets| - 1];
      assert !In(x, nets[|nets| - 1]);
      forall i | 0 <= i < |front| ensures !In(x, front[i]) {
        assert front[i] == nets[i];
      }
      UncoveredMatchesNothing(front, x);
    }
  }

  // ---------------------------------------------------------------- networks

  /** An aligned block of a power of two addresses inside the address space. */
  ghost predicate Block<D>(width: nat, iv: Interval<D>)
  {
    exists host: nat, index: nat {:trigger index * Pow2(host)} ::
      host <= width && iv.low == index * Pow2(host) && iv.high == iv.low + Pow2(host) - 1 && iv.high < Pow2(width)
  }

  /** Any two masked networks are nested or disjoint. */
  lemma BlocksNestOrSeparate<D>(width: nat, a: Interval<D>, b: Interval<D>)
    requires Block(width, a) && Block(width, b)
    ensures || a.high < b.low || b.high < a.low
            || (a.low <= b.low && b.high <= a.high)
            || (b.low <= a.low && a.high <= b.high)
  {
    var ha: nat, ia: nat :| ha <= width && a.low == ia * Pow2(ha) && a.high == a.low + Pow2(ha) - 1 && a.high < Pow2(width);
    var hb: nat, ib: nat :| hb <= width && b.low == ib * Pow2(hb) && b.high == b.low + Pow2(hb) - 1 && b.high < Pow2(width);
    if ha <= hb {
      NestOrSeparate(ha, ia, hb, ib);
    } else {
      NestOrSeparate(hb, ib, ha, ia);
    }
  }

  lemma NestOrSeparate(small: nat, i: nat, large: nat, j: nat)
    requires small <= large
    ensures || i * Pow2(small) + Pow2(small) <= j * Pow2(large)
            || j * Pow2(large) + Pow2(large) <= i * Pow2(small)
            || (j * Pow2(large) <= i * Pow2(small) && i * Pow2(small) + Pow2(small) <= j * Pow2(large) + Pow2(large))
  {
    Pow2Add(large - small, small);
    ScaledNestOrSeparate(Pow2(small), i, Pow2(large - small), j, Pow2(large));
  }

  lemma ScaledNestOrSeparate(p: nat, i: nat, r: nat, j: nat, size: nat)
    requires size == r * p
    ensures || i * p + p <= j * size
            || j * size + size <= i * p
            || (j * size <= i * p && i * p + p <= j * size + size)
  {
    var first := j * r;
    assert j * size == first * p;
    assert j * size + size == (first + r) * p;
    if i < first {
      MulStep(i, first, p);
    } else {
      MulAtMost(first, i, p);
      if i < first + r {
        MulStep(i, first + r, p);
      } else {
        MulAtMost(first + r, i, p);
      }
    }
  }

  lemma MulAtMost(a: nat, b: nat, p: nat)
    requires a <= b
    ensures a * p <= b * p
  {
    if a < b {
      MulStep(a, b, p);
    }
  }

  /** The order of the sort: by first address, and of two networks with the same one the larger first. */
  predicate NotAfter<D>(a: Interval<D>, b: Interval<D>)
  {
    a.low < b.low || (a.low == b.low && a.high >= b.high)
  }

  ghost predicate SortedNetworks<D>(nets: seq<Interval<D>>)
  {
    forall i, j :: 0 <= i < j < |nets| ==> NotAfter(nets[i], nets[j])
  }

  ghost predicate Masked<D>(width: nat, nets: seq<Interval<D>>)
  {
    forall i :: 0 <= i < |nets| ==> Block(width, nets[i])
  }

  // ---------------------------------------------------------------- the splitting loop

  /** The interval list and the position the conductor stands at. */
  datatype Cursor<D> = Cursor(ivs: seq<Interval<D>>, at: nat)

  /** The inner loop: the conductor moves on while its interval ends before the new network begins. */
  function Walk<D>(ivs: seq<Interval<D>>, at: nat, low: nat): (k: nat)
    requires at <= |ivs|
    ensures at <= k <= |ivs|
    ensures forall i :: at <= i < k ==> ivs[i].high < low
    ensures k < |ivs| ==> ivs[k].high >= low
    decreases |ivs| - at
  {
    if at == |ivs| || ivs[at].high >= low then at else Walk(ivs, at + 1, low)
  }

  /**
   * What becomes of the interval the conductor stopped at; None where the source reports that it
   * cannot insert the network.
   */
  function Cut<D>(width: nat, con: Interval<D>, cur: Interval<D>): (r: Option<seq<Interval<D>>>)
    ensures r.Some? ==> |r.value| > 0
  {
    if con.low > cur.low then
      None
    else if con.low < cur.low then
      if con.high > cur.high then
        Some([Interval(con.low, Dec(width, cur.low), con.data),
              Interval(cur.low, cur.high, con.data + cur.data),
              Interval(Inc(width, cur.high), con.high, con.data)])
      else if con.high < cur.high then
        None
      else
        Some([Interval(con.low, Dec(width, cur.low), con.data),
              Interval(cur.low, con.high, con.data + cur.data)])
    else
      if con.high > cur.high then
        Some([Interval(con.low, cur.high, con.data + cur.data),
              Interval(Inc(width, cur.high), con.high, con.data)])
      else if con.high < cur.high then
        None
      else
        Some([con.(data := con.data + cur.data)])
  }

  /** One round of the outer loop. */
  function Step<D>(width: nat, c: Cursor<D>, cur: Interval<D>): (r: Option<Cursor<D>>)
    requires c.at < |c.ivs|
    ensures r.Some? ==> r.value.at < |r.value.ivs|
  {
    var k := Walk(c.ivs, c.at, cur.low);
    if k == |c.ivs| then Some(Cursor(c.ivs + [cur], k))
    else
      match Cut(width, c.ivs[k], cur)
      case None => None
      case Some(pieces) => Some(Cursor(c.ivs[..k] + pieces + c.ivs[k + 1..], k))
  }

  /** All networks folded in, the first one as the root of the list. */
  function Fold<D>(width: nat, nets: seq<Interval<D>>): (r: Option<Cursor<D>>)
    requires |nets| > 0
    ensures r.Some? ==> r.value.at < |r.value.ivs|
    decreases |nets|
  {
    if |nets| == 1 then Some(Cursor([nets[0]], 0))
    else
      match Fold(width, nets[..|nets| - 1])
      case None => None
      case Some(c) => Step(width, c, nets[|nets| - 1])
  }

  // ---------------------------------------------------------------- the invariant

  /** The list is sorted, and no two intervals share an address. */
  ghost predicate Disjoint<D>(ivs: seq<Interval<D>>)
  {
    && (forall i :: 0 <= i < |ivs| ==> ivs[i].low <= ivs[i].high)
    && (forall i, j :: 0 <= i < j < |ivs| ==> ivs[i].high < ivs[j].low)
  }

  /** The intervals say about every address exactly what a scan of the networks says. */
  ghost predicate Represents<D>(ivs: seq<Interval<D>>, nets: seq<Interval<D>>)
  {
    && Disjoint(ivs)
    && (forall i, x: nat :: 0 <= i < |ivs| && In(x, ivs[i]) ==> ivs[i].data == Matches(nets, x))
    && (forall x: nat :: Covered(ivs, x) <==> Covered(nets, x))
  }

  ghost predicate EndsWithSome<D>(iv: Interval<D>, nets: seq<Interval<D>>)
  {
    exists j :: 0 <= j < |nets| && iv.high == nets[j].high
  }

  /** Where the conductor may stand once `last` has been folded in. */
  ghost predicate CursorInv<D>(c: Cursor<D>, nets: seq<Interval<D>>)
  {
    && |nets| > 0 && c.at < |c.ivs|
    && var low := nets[|nets| - 1].low;
    && c.ivs[c.at].low <= low
    && (forall i :: 0 <= i < c.at ==> c.ivs[i].high < low)
    // from the conductor on there are no gaps ...
    && (forall i :: c.at <= i < |c.ivs| - 1 ==> c.ivs[i].high + 1 == c.ivs[i + 1].low)
    // ... and every interval that reaches the last network ends where some network does
    && (forall i :: c.at <= i < |c.ivs| && c.ivs[i].high >= low ==> EndsWithSome(c.ivs[i], nets))
  }

  ghost predicate Inv<D>(c: Cursor<D>, nets: seq<Interval<D>>)
  {
    && Represents(c.ivs, nets)
    && CursorInv(c, nets)
    && |c.ivs| <= 2 * |nets| - 1
  }

  /** The parts of `con` left of, at, and right of the network inside it. */
  function Pieces<D>(con: Interval<D>, cur: Interval<D>): (p: seq<Interval<D>>)
    requires con.low <= cur.low <= cur.high <= con.high
  {
    (if con.low < cur.low then [Interval(con.low, cur.low - 1, con.data)] else [])
    + [Interval(cur.low, cur.high, con.data + cur.data)]
    + (if cur.high < con.high then [Interval(cur.high + 1, con.high, con.data)] else [])
  }

  lemma BlockBounds<D>(width: nat, nets: seq<Interval<D>>, cur: Interval<D>)
    requires Masked(width, nets + [cur])
    ensures cur.low <= cur.high < Pow2(width) && Block(width, cur)
    ensures Masked(width, nets)
  {
    var all := nets + [cur];
    assert Block(width, all[|nets|]);
    forall i | 0 <= i < |nets| ensures Block(width, nets[i]) {
      assert all[i] == nets[i];
    }
  }

  lemma LastNotAfter<D>(nets: seq<Interval<D>>, cur: Interval<D>, j: nat)
    requires SortedNetworks(nets + [cur]) && j < |nets|
    ensures NotAfter(nets[j], cur)
  {
    var all := nets + [cur];
    assert all[j] == nets[j] && all[|nets|] == cur;
  }

  /** An interval that reaches the new network and ends with an earlier one ends with it or behind it. */
  lemma EndIsBehind<D>(width: nat, nets: seq<Interval<D>>, cur: Interval<D>, iv: Interval<D>)
    requires Masked(width, nets + [cur]) && SortedNetworks(nets + [cur])
    requires EndsWithSome(iv, nets) && cur.low <= iv.high
    ensures cur.high <= iv.high < Pow2(width)
  {
    var j :| 0 <= j < |nets| && iv.high == nets[j].high;
    BlockBounds(width, nets, cur);
    LastNotAfter(nets, cur, j);
    BlocksNestOrSeparate(width, nets[j], cur);
    assert Block(width, nets[j]);
  }

  lemma WalkStopsInside<D>(width: nat, c: Cursor<D>, nets: seq<Interval<D>>, cur: Interval<D>)
    requires CursorInv(c, nets) && Masked(width, nets + [cur]) && SortedNetworks(nets + [cur])
    ensures var k := Walk(c.ivs, c.at, cur.low);
            k < |c.ivs| ==> c.ivs[k].low <= cur.low && cur.high <= c.ivs[k].high < Pow2(width)
  {
    var k := Walk(c.ivs, c.at, cur.low);
    LastNotAfter(nets, cur, |nets| - 1);
    if k < |c.ivs| {
      if k > c.at {
        assert c.ivs[k - 1].high + 1 == c.ivs[k].low;
      }
      assert EndsWithSome(c.ivs[k], nets);
      EndIsBehind(width, nets, cur, c.ivs[k]);
    }
  }

  lemma CutIsPieces<D>(width: nat, con: Interval<D>, cur: Interval<D>)
    requires con.low <= cur.low <= cur.high <= con.high < Pow2(width)
    ensures Cut(width, con, cur) == Some(Pieces(con, cur))
  {
    var mid := Interval(cur.low, cur.high, con.data + cur.data);
    if con.low < cur.low {
      var l := Interval(con.low, cur.low - 1, con.data);
      if cur.high < con.high {
        assert Pieces(con, cur) == [l, mid, Interval(cur.high + 1, con.high, con.data)];
      } else {
        assert Pieces(con, cur) == [l, mid];
      }
    } else if cur.high < con.high {
      assert Pieces(con, cur) == [mid, Interval(cur.high + 1, con.high, con.data)];
    } else {
      assert Pieces(con, cur) == [mid];
    }
  }

  lemma StepIsCut<D>(width: nat, c: Cursor<D>, cur: Interval<D>)
    requires c.at < |c.ivs|
    requires var k := Walk(c.ivs, c.at, cur.low);
             k < |c.ivs| && c.ivs[k].low <= cur.low <= cur.high <= c.ivs[k].high < Pow2(width)
    ensures var k := Walk(c.ivs, c.at, cur.low);
            Step(width, c, cur) == Some(Cursor(c.ivs[..k] + Pieces(c.ivs[k], cur) + c.ivs[k + 1..], k))
  {
    CutIsPieces(width, c.ivs[Walk(c.ivs, c.at, cur.low)], cur);
  }

  /**
   * On sorted, masked networks the conductor stops past the end, or at an interval that contains
   * the whole new network: none of the error branches is reached and no address wraps.
   */
  lemma StepCutsOneInterval<D>(width: nat, c: Cursor<D>, nets: seq<Interval<D>>, cur: Interval<D>)
    requires Inv(c, nets) && Masked(width, nets + [cur]) && SortedNetworks(nets + [cur])
    ensures var k := Walk(c.ivs, c.at, cur.low);
            && cur.low <= cur.high < Pow2(width)
            && (k == |c.ivs| ==> Step(width, c, cur) == Some(Cursor(c.ivs + [cur], k)))
            && (k < |c.ivs| ==>
                  && c.ivs[k].low <= cur.low <= cur.high <= c.ivs[k].high
                  && Step(width, c, cur) == Some(Cursor(c.ivs[..k] + Pieces(c.ivs[k], cur) + c.ivs[k + 1..], k)))
  {
    var k := Walk(c.ivs, c.at, cur.low);
    BlockBounds(width, nets, cur);
    if k < |c.ivs| {
      WalkStopsInside(width, c, nets, cur);
      StepIsCut(width, c, cur);
    }
  }

  // ---------------------------------------------------------------- one step keeps the invariant

  lemma MatchesAppend<D>(nets: seq<Interval<D>>, cur: Interval<D>, x: nat)
    ensures Matches(nets + [cur], x) == Matches(nets, x) + (if In(x, cur) then cur.data else [])
    ensures Covered(nets + [cur], x) <==> Covered(nets, x) || In(x, cur)
  {
    var all := nets + [cur];
    assert all[..|all| - 1] == nets;
    assert all[|nets|] == cur;
    if Covered(nets, x) {
      var i :| 0 <= i < |nets| && In(x, nets[i]);
      assert In(x, all[i]);
    }
    if In(x, cur) {
      assert In(x, all[|nets|]);
    }
  }

  /** The pieces touch, and end with the interval, with the network, or right before it. */
  lemma PieceEnds<D>(con: Interval<D>, cur: Interval<D>)
    requires con.low <= cur.low <= cur.high <= con.high
    ensures var p := Pieces(con, cur);
            && 1 <= |p| <= 3 && p[0].low == con.low && p[|p| - 1].high == con.high
            && (forall i :: 0 <= i < |p| - 1 ==> p[i].high + 1 == p[i + 1].low)
            && (forall i :: 0 <= i < |p| ==>
                  p[i].high == con.high || p[i].high == cur.high || (i == 0 && p[0].high + 1 == cur.low))
  {
  }

  /** The pieces partition `con`, and inside `cur` they carry the new data as well. */
  lemma PiecesPartition<D>(con: Interval<D>, cur: Interval<D>)
    requires con.low <= cur.low <= cur.high <= con.high
    ensures var p := Pieces(con, cur);
            && Disjoint(p)
            && 1 <= |p| <= 3
            && (forall i :: 0 <= i < |p| ==> con.low <= p[i].low && p[i].high <= con.high)
            && (forall i, x: nat :: 0 <= i < |p| && In(x, p[i]) ==>
                  p[i].data == con.data + (if In(x, cur) then cur.data else []))
            && (forall x: nat :: In(x, con) ==> Covered(p, x))
  {
    var p := Pieces(con, cur);
    forall x: nat | In(x, con) ensures Covered(p, x) {
      if x < cur.low {
        assert In(x, p[0]);
      } else if x <= cur.high {
        assert In(x, p[if con.low < cur.low then 1 else 0]);
      } else {
        assert In(x, p[|p| - 1]);
      }
    }
  }

  lemma AppendKeeps<D>(c: Cursor<D>, nets: seq<Interval<D>>, cur: Interval<D>)
    requires Inv(c, nets) && cur.low <= cur.high
    requires nets[|nets| - 1].low <= cur.low
    requires forall i :: 0 <= i < |c.ivs| ==> c.ivs[i].high < cur.low
    ensures Inv(Cursor(c.ivs + [cur], |c.ivs|), nets + [cur])
  {
    var ivs, all := c.ivs + [cur], nets + [cur];
    forall x: nat
      ensures Covered(ivs, x) <==> Covered(all, x)
    {
      MatchesAppend(c.ivs, cur, x);
      MatchesAppend(nets, cur, x);
    }
    forall i, x: nat | 0 <= i < |ivs| && In(x, ivs[i])
      ensures ivs[i].data == Matches(all, x)
    {
      MatchesAppend(nets, cur, x);
      if i == |c.ivs| {
        assert !Covered(c.ivs, x);
        UncoveredMatchesNothing(nets, x);
      }
    }
    assert all[|nets|] == cur;
  }

  lemma StillEndsWithSome<D>(iv: Interval<D>, nets: seq<Interval<D>>, cur: Interval<D>)
    requires EndsWithSome(iv, nets) || iv.high == cur.high
    ensures EndsWithSome(iv, nets + [cur])
  {
    var all := nets + [cur];
    if iv.high == cur.high {
      assert all[|nets|] == cur;
    } else {
      var j :| 0 <= j < |nets| && iv.high == nets[j].high;
      assert all[j] == nets[j];
    }
  }

  /** From the cut interval on, every interval that reaches the new network ends where some network does. */
  lemma CutEnds<D>(c: Cursor<D>, k: nat, nets: seq<Interval<D>>, cur: Interval<D>, i: nat)
    requires CursorInv(c, nets) && c.at <= k < |c.ivs|
    requires nets[|nets| - 1].low <= cur.low
    requires c.ivs[k].low <= cur.low <= cur.high <= c.ivs[k].high
    requires forall j :: k < j < |c.ivs| ==> c.ivs[k].high < c.ivs[j].high
    requires var p := Pieces(c.ivs[k], cur);
             k <= i < |c.ivs| - 1 + |p| && (c.ivs[..k] + p + c.ivs[k + 1..])[i].high >= cur.low
    ensures EndsWithSome((c.ivs[..k] + Pieces(c.ivs[k], cur) + c.ivs[k + 1..])[i], nets + [cur])
  {
    var p := Pieces(c.ivs[k], cur);
    PieceEnds(c.ivs[k], cur);
    CutOrigin(c.ivs, k, p, i);
    if i < k + |p| {
      assert p[i - k].high != cur.high ==> EndsWithSome(c.ivs[k], nets);
      StillEndsWithSome(p[i - k], nets, cur);
    } else {
      assert EndsWithSome(c.ivs[i - |p| + 1], nets);
      StillEndsWithSome(c.ivs[i - |p| + 1], nets, cur);
    }
  }

  lemma CutNoGaps<D>(ivs: seq<Interval<D>>, k: nat, cur: Interval<D>, i: nat)
    requires k < |ivs| && ivs[k].low <= cur.low <= cur.high <= ivs[k].high
    requires forall j :: k <= j < |ivs| - 1 ==> ivs[j].high + 1 == ivs[j + 1].low
    requires k <= i < |ivs| - 2 + |Pieces(ivs[k], cur)|
    ensures var cut := ivs[..k] + Pieces(ivs[k], cur) + ivs[k + 1..];
            cut[i].high + 1 == cut[i + 1].low
  {
    var p := Pieces(ivs[k], cur);
    PieceEnds(ivs[k], cur);
    CutOrigin(ivs, k, p, i);
    CutOrigin(ivs, k, p, i + 1);
    if i >= k + |p| - 1 {
      assert ivs[i - |p| + 1].high + 1 == ivs[i - |p| + 2].low;
    }
  }

  lemma CutKeeps<D>(c: Cursor<D>, k: nat, nets: seq<Interval<D>>, cur: Interval<D>)
    requires Inv(c, nets) && c.at <= k < |c.ivs|
    requires nets[|nets| - 1].low <= cur.low
    requires c.ivs[k].low <= cur.low <= cur.high <= c.ivs[k].high
    requires forall i :: c.at <= i < k ==> c.ivs[i].high < cur.low
    ensures Inv(Cursor(c.ivs[..k] + Pieces(c.ivs[k], cur) + c.ivs[k + 1..], k), nets + [cur])
  {
    CutRepresents(c.ivs, k, nets, cur);
    CutCursor(c, k, nets, cur);
  }

  lemma CutCursor<D>(c: Cursor<D>, k: nat, nets: seq<Interval<D>>, cur: Interval<D>)
    requires Disjoint(c.ivs) && CursorInv(c, nets) && c.at <= k < |c.ivs|
    requires nets[|nets| - 1].low <= cur.low
    requires c.ivs[k].low <= cur.low <= cur.high <= c.ivs[k].high
    requires forall i :: c.at <= i < k ==> c.ivs[i].high < cur.low
    ensures CursorInv(Cursor(c.ivs[..k] + Pieces(c.ivs[k], cur) + c.ivs[k + 1..], k), nets + [cur])
    ensures |Pieces(c.ivs[k], cur)| <= 3
  {
    var p := Pieces(c.ivs[k], cur);
    var cut := c.ivs[..k] + p + c.ivs[k + 1..];
    PieceEnds(c.ivs[k], cur);
    CutOrigin(c.ivs, k, p, k);
    forall i | 0 <= i < k ensures cut[i].high < cur.low {
      CutOrigin(c.ivs, k, p, i);
    }
    forall i | k <= i < |cut| - 1 ensures cut[i].high + 1 == cut[i + 1].low {
      CutNoGaps(c.ivs, k, cur, i);
    }
    forall j | k < j < |c.ivs| ensures c.ivs[k].high < c.ivs[j].high {
      assert c.ivs[k].high < c.ivs[j].low;
    }
    forall i | k <= i < |cut| && cut[i].high >= cur.low ensures EndsWithSome(cut[i], nets + [cur]) {
      CutEnds(c, k, nets, cur, i);
    }
  }

  /** Where an interval of the cut list comes from. */
  lemma CutOrigin<D>(ivs: seq<Interval<D>>, k: nat, p: seq<Interval<D>>, i: nat)
    requires k < |ivs| && i < |ivs| - 1 + |p|
    ensures var cut := ivs[..k] + p + ivs[k + 1..];
            cut[i] == if i < k then ivs[i] else if i < k + |p| then p[i - k] else ivs[i - |p| + 1]
  {
  }

  lemma CutDisjoint<D>(ivs: seq<Interval<D>>, k: nat, cur: Interval<D>)
    requires Disjoint(ivs) && k < |ivs|
    requires ivs[k].low <= cur.low <= cur.high <= ivs[k].high
    ensures Disjoint(ivs[..k] + Pieces(ivs[k], cur) + ivs[k + 1..])
  {
    PiecesPartition(ivs[k], cur);
  }

  lemma CutData<D>(ivs: seq<Interval<D>>, k: nat, nets: seq<Interval<D>>, cur: Interval<D>, i: nat, x: nat)
    requires Represents(ivs, nets) && k < |ivs|
    requires ivs[k].low <= cur.low <= cur.high <= ivs[k].high
    requires var p := Pieces(ivs[k], cur);
             i < |ivs| - 1 + |p| && In(x, (ivs[..k] + p + ivs[k + 1..])[i])
    ensures (ivs[..k] + Pieces(ivs[k], cur) + ivs[k + 1..])[i].data == Matches(nets + [cur], x)
  {
    var p := Pieces(ivs[k], cur);
    PiecesPartition(ivs[k], cur);
    CutOrigin(ivs, k, p, i);
    MatchesAppend(nets, cur, x);
    if i < k {
      assert In(x, ivs[i]);
    } else if i < k + |p| {
      assert In(x, p[i - k]) && In(x, ivs[k]);
    } else {
      assert In(x, ivs[i - |p| + 1]);
    }
  }

  lemma CutRepresents<D>(ivs: seq<Interval<D>>, k: nat, nets: seq<Interval<D>>, cur: Interval<D>)
    requires Represents(ivs, nets) && k < |ivs|
    requires ivs[k].low <= cur.low <= cur.high <= ivs[k].high
    ensures Represents(ivs[..k] + Pieces(ivs[k], cur) + ivs[k + 1..], nets + [cur])
  {
    var cut, all := ivs[..k] + Pieces(ivs[k], cur) + ivs[k + 1..], nets + [cur];
    CutDisjoint(ivs, k, cur);
    forall x: nat
      ensures Covered(cut, x) <==> Covered(all, x)
    {
      MatchesAppend(nets, cur, x);
      CutCovers(ivs, k, cur, x);
    }
    forall i, x: nat | 0 <= i < |cut| && In(x, cut[i])
      ensures cut[i].data == Matches(all, x)
    {
      CutData(ivs, k, nets, cur, i, x);
    }
  }

  lemma CutCoversAll<D>(ivs: seq<Interval<D>>, k: nat, cur: Interval<D>, x: nat, i: nat)
    requires k < |ivs| && i < |ivs| && In(x, ivs[i])
    requires ivs[k].low <= cur.low <= cur.high <= ivs[k].high
    ensures Covered(ivs[..k] + Pieces(ivs[k], cur) + ivs[k + 1..], x)
  {
    var p := Pieces(ivs[k], cur);
    var cut := ivs[..k] + p + ivs[k + 1..];
    PiecesPartition(ivs[k], cur);
    var j := if i < k then i else i + |p| - 1;
    if i == k {
      var m :| 0 <= m < |p| && In(x, p[m]);
      j := k + m;
    }
    CutOrigin(ivs, k, p, j);
    assert In(x, cut[j]);
  }

  lemma CutCoversOnly<D>(ivs: seq<Interval<D>>, k: nat, cur: Interval<D>, x: nat, i: nat)
    requires k < |ivs|
    requires ivs[k].low <= cur.low <= cur.high <= ivs[k].high
    requires var p := Pieces(ivs[k], cur);
             i < |ivs| - 1 + |p| && In(x, (ivs[..k] + p + ivs[k + 1..])[i])
    ensures Covered(ivs, x)
  {
    var p := Pieces(ivs[k], cur);
    PiecesPartition(ivs[k], cur);
    CutOrigin(ivs, k, p, i);
    assert In(x, ivs[if i < k then i else if i < k + |p| then k else i - |p| + 1]);
  }

  lemma CutCovers<D>(ivs: seq<Interval<D>>, k: nat, cur: Interval<D>, x: nat)
    requires k < |ivs|
    requires ivs[k].low <= cur.low <= cur.high <= ivs[k].high
    ensures Covered(ivs[..k] + Pieces(ivs[k], cur) + ivs[k + 1..], x) <==> Covered(ivs, x)
  {
    var cut := ivs[..k] + Pieces(ivs[k], cur) + ivs[k + 1..];
    if Covered(ivs, x) {
      var i :| 0 <= i < |ivs| && In(x, ivs[i]);
      CutCoversAll(ivs, k, cur, x, i);
    }
    if Covered(cut, x) {
      var i :| 0 <= i < |cut| && In(x, cut[i]);
      CutCoversOnly(ivs, k, cur, x, i);
    }
  }

  lemma StepKeeps<D>(width: nat, c: Cursor<D>, nets: seq<Interval<D>>, cur: Interval<D>)
    requires Inv(c, nets) && Masked(width, nets + [cur]) && SortedNetworks(nets + [cur])
    ensures Step(width, c, cur).Some? && Inv(Step(width, c, cur).value, nets + [cur])
  {
    var k := Walk(c.ivs, c.at, cur.low);
    LastNotAfter(nets, cur, |nets| - 1);
    StepCutsOneInterval(width, c, nets, cur);
    if k == |c.ivs| {
      AppendKeeps(c, nets, cur);
    } else {
      CutKeeps(c, k, nets, cur);
    }
  }

  /**
   * Folding sorted, masked networks always succeeds, the resulting intervals say about every address
   * what a scan of all the networks says, and n networks make at most 2n-1 intervals.
   */
  lemma {:induction false} FoldRepresents<D>(width: nat, nets: seq<Interval<D>>)
    requires |nets| > 0 && Masked(width, nets) && SortedNetworks(nets)
    ensures Fold(width, nets).Some? && Inv(Fold(width, nets).value, nets)
    decreases |nets|
  {
    if |nets| == 1 {
      assert Block(width, nets[0]);
      assert nets == [] + [nets[0]];
      forall x: nat {
        MatchesAppend([], nets[0], x);
      }
    } else {
      var front := nets[..|nets| - 1];
      assert nets == front + [nets[|nets| - 1]];
      FoldRepresents(width, front);
      StepKeeps(width, Fold(width, front).value, front, nets[|nets| - 1]);
    }
  }
}
