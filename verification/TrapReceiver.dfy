/**
 * The TRAP input interface counts what it received and what it missed from the numbers in the container headers. A
 * session lasts from one reset of the state machine to the next; the totals are over the sessions before.
 */
module TrapReceiver {
  /**
   * The counters of the receiver as numbers without a bound; `isReset` is `is_session_reset`, `last` is the size in the last
   * header, and `pending` says that a payload is still to be completed (`data_pointer` is set).
   */
  datatype Counters = Counters(
    pending: bool, isReset: bool, seqNum: int, offset: int, last: int, received: int, missed: int,
    totalSeq: int, totalReceived: int, totalMissed: int)

  function Initial(): (c: Counters)
  {
    Counters(false, true, 0, 0, 0, 0, 0, 0, 0, 0)
  }

  /** A header arrives. The gap is negative when its number is below the end of the last container. */
  function AfterHeader(c: Counters, seqNum: nat, size: nat): (c': Counters)
  {
    var gap := if c.isReset then 0 else seqNum - (c.seqNum + c.last);
    c.(isReset := false, seqNum := seqNum, offset := if c.isReset then seqNum else c.offset, last := size,
       received := c.received + size, missed := c.missed + gap)
  }

  /** The state `reset`: the session is added to the totals. */
  function AfterReset(c: Counters): (c': Counters)
  {
    Counters(c.pending, true, 0, 0, 0, 0, 0, c.totalSeq + (c.seqNum + c.last - c.offset), c.totalReceived + c.received, c.totalMissed + c.missed)
  }

  /** The number handed out with a container by `tcpip_receiver_recv_seq_number`. */
  function Number(c: Counters): (n: int)
  {
    c.totalSeq + (c.seqNum - c.offset) + 1
  }

  /** Records received or missed so far. */
  function Seen(c: Counters): (n: int)
  {
    c.totalReceived + c.totalMissed + c.received + c.missed
  }

  /** In a session, what was received and missed adds up to the span of the numbers seen; over all sessions to the total. */
  predicate Inv(c: Counters)
  {
    && c.totalSeq == c.totalReceived + c.totalMissed
    && c.received + c.missed == c.seqNum + c.last - c.offset
    && (c.isReset ==> c.seqNum == 0 && c.last == 0 && c.offset == 0)
    && (c.pending ==> c.isReset)
  }

  /** The next header is not older than the end of the last container. */
  predicate Follows(c: Counters, seqNum: nat)
  {
    !c.isReset ==> c.seqNum + c.last <= seqNum
  }

  lemma ResetKeeps(c: Counters)
    requires Inv(c)
    ensures Inv(AfterReset(c)) && Seen(AfterReset(c)) == Seen(c)
  {
  }

  /** The number of a container is one more than all records received before it or counted missed before it. */
  lemma NumberIsNext(c: Counters, seqNum: nat, size: nat)
    requires Inv(c) && !c.pending
    ensures var c' := AfterHeader(c, seqNum, size);
            && Inv(c')
            && Number(c') == Seen(c') - size + 1
            && (c.isReset ==> Number(c') == Seen(c) + 1)
            && (!c.isReset ==> Number(c') == Seen(c) + (seqNum - (c.seqNum + c.last)) + 1)
  {
  }

  // ---------------------------------------------------------------- events

  /**
   * What a receiver can go through: a whole container; a header whose payload is cut off by a disconnect; a header whose
   * payload is late; the rest of a late payload; anything else that resets the session, dropping a late payload or not.
   */
  datatype Event = Got(seqNum: nat, size: nat) | Cut(seqNum: nat, size: nat) | Late(seqNum: nat, size: nat) | Resumed | Reset(discard: bool)

  /** A container starts to arrive. */
  predicate Starts(e: Event)
  {
    e.Got? || e.Cut? || e.Late?
  }

  predicate Possible(c: Counters, e: Event)
  {
    && (Starts(e) ==> !c.pending)
    && (e.Resumed? ==> c.pending)
  }

  function After(c: Counters, e: Event): (c': Counters)
    requires Inv(c) && Possible(c, e)
    ensures Inv(c')
  {
    match e
    case Got(seqNum, size) => AfterHeader(c, seqNum, size)
    case Cut(seqNum, size) => AfterReset(AfterHeader(c, seqNum, size))
    case Late(seqNum, size) => AfterReset(AfterHeader(c, seqNum, size)).(pending := true)
    case Resumed => c.(pending := false)
    case Reset(discard) => if discard then AfterReset(c.(pending := false)) else AfterReset(c)
  }

  /** Whether the events can follow each other from `c`. */
  predicate Run(c: Counters, es: seq<Event>)
    requires Inv(c)
    decreases |es|
  {
    es == [] || (Possible(c, es[0]) && Run(After(c, es[0]), es[1..]))
  }

  /** The counters after a run: what was received and missed still adds up, whatever the headers said. */
  function Final(c: Counters, es: seq<Event>): (c': Counters)
    requires Inv(c) && Run(c, es)
    ensures Inv(c')
    decreases |es|
  {
    if es == [] then c else Final(After(c, es[0]), es[1..])
  }

  /** No header in the run is older than the end of the container before it. */
  predicate Orderly(c: Counters, es: seq<Event>)
    requires Inv(c) && Run(c, es)
    decreases |es|
  {
    es == [] || ((Starts(es[0]) ==> Follows(c, es[0].seqNum)) && Orderly(After(c, es[0]), es[1..]))
  }

  /** The numbers handed out: one for each container that arrives whole or completes. */
  function Numbers(c: Counters, es: seq<Event>): (ns: seq<int>)
    requires Inv(c) && Run(c, es)
    decreases |es|
  {
    if es == [] then []
    else
      var c' := After(c, es[0]);
      (if es[0].Got? || es[0].Resumed? then [Number(c')] else []) + Numbers(c', es[1..])
  }

  lemma RunCons(c: Counters, e: Event, rest: seq<Event>)
    requires Inv(c)
    ensures Run(c, [e] + rest) <==> Possible(c, e) && Run(After(c, e), rest)
    ensures Run(c, [e] + rest) ==>
              && Final(c, [e] + rest) == Final(After(c, e), rest)
              && Numbers(c, [e] + rest) == (if e.Got? || e.Resumed? then [Number(After(c, e))] else []) + Numbers(After(c, e), rest)
              && (Orderly(c, [e] + rest) <==> (Starts(e) ==> Follows(c, e.seqNum)) && Orderly(After(c, e), rest))
  {
    assert ([e] + rest)[1..] == rest && ([e] + rest)[0] == e;
  }

  lemma OneEvent(c: Counters, e: Event)
    requires Inv(c) && Possible(c, e)
    ensures Run(c, [e]) && Final(c, [e]) == After(c, e)
    ensures Numbers(c, [e]) == if e.Got? || e.Resumed? then [Number(After(c, e))] else []
  {
    assert [e][1..] == [];
  }

  /** One more event at the end of a run. */
  lemma {:induction false} RunSnoc(c: Counters, es: seq<Event>, e: Event)
    requires Inv(c) && Run(c, es) && Possible(Final(c, es), e)
    ensures Run(c, es + [e])
    ensures Final(c, es + [e]) == After(Final(c, es), e)
    ensures Numbers(c, es + [e]) == Numbers(c, es) + if e.Got? || e.Resumed? then [Number(After(Final(c, es), e))] else []
    decreases |es|
  {
    var all := es + [e];
    if es == [] {
      assert all == [e];
      OneEvent(c, e);
    } else {
      RunSnoc(After(c, es[0]), es[1..], e);
      assert all[1..] == es[1..] + [e] && all[0] == es[0];
    }
  }

  /** No container is empty. */
  predicate Sized(es: seq<Event>)
  {
    forall i :: 0 <= i < |es| ==> Starts(es[i]) ==> es[i].size > 0
  }

  predicate Increasing(ns: seq<int>)
  {
    forall i, j :: 0 <= i < j < |ns| ==> ns[i] < ns[j]
  }

  /** Numbers are above what was seen before; what is seen grows with each event. */
  lemma EventGrows(c: Counters, e: Event)
    requires Inv(c) && Possible(c, e) && (Starts(e) ==> Follows(c, e.seqNum))
    ensures Seen(c) + (if Starts(e) then e.size else 0) <= Seen(After(c, e))
    ensures e.Got? ==> Seen(c) < Number(After(c, e)) <= Seen(After(c, e)) - e.size + 1
    ensures e.Got? && c.isReset ==> Number(After(c, e)) == Seen(c) + 1
    ensures e.Resumed? ==> Number(After(c, e)) == Seen(c) + 1 && Seen(After(c, e)) == Seen(c)
    ensures e.Reset? ==> Seen(After(c, e)) == Seen(c)
  {
    if Starts(e) {
      NumberIsNext(c, e.seqNum, e.size);
      ResetKeeps(AfterHeader(c, e.seqNum, e.size));
    }
  }

  lemma {:induction false} NumbersAbove(c: Counters, es: seq<Event>)
    requires Inv(c) && Run(c, es) && Orderly(c, es)
    ensures forall i :: 0 <= i < |Numbers(c, es)| ==> Seen(c) < Numbers(c, es)[i]
    decreases |es|
  {
    if es != [] {
      NumbersAbove(After(c, es[0]), es[1..]);
      EventGrows(c, es[0]);
    }
  }

  /** What was received and missed never shrinks. */
  lemma {:induction false} SeenGrows(c: Counters, es: seq<Event>)
    requires Inv(c) && Run(c, es) && Orderly(c, es)
    ensures Seen(c) <= Seen(Final(c, es))
    decreases |es|
  {
    if es != [] {
      EventGrows(c, es[0]);
      SeenGrows(After(c, es[0]), es[1..]);
    }
  }

  /** Containers start in the order of their numbers, and none before `floor`. */
  predicate Ascending(es: seq<Event>, floor: int)
  {
    && (forall i :: 0 <= i < |es| && Starts(es[i]) ==> floor <= es[i].seqNum)
    && (forall i, j :: 0 <= i < j < |es| && Starts(es[i]) && Starts(es[j]) ==> es[i].seqNum + es[i].size <= es[j].seqNum)
  }

  lemma {:induction false} AscendingIsOrderly(c: Counters, es: seq<Event>)
    requires Inv(c) && Run(c, es) && Ascending(es, c.seqNum + c.last)
    ensures Orderly(c, es)
    decreases |es|
  {
    if es != [] {
      var rest := es[1..];
      assert forall i :: 0 <= i < |rest| ==> rest[i] == es[i + 1];
      AscendingIsOrderly(After(c, es[0]), rest);
    }
  }

  /** The next container to start arrives whole. */
  predicate NextIsWhole(es: seq<Event>)
  {
    es != [] && (es[0].Got? || (es[0].Reset? && NextIsWhole(es[1..])))
  }

  /** A late payload completes, and the next container arrives whole. */
  predicate Repeats(es: seq<Event>)
  {
    es != [] && ((es[0].Resumed? && NextIsWhole(es[1..])) || Repeats(es[1..]))
  }

  /** Right after a reset, the first number handed out follows what was seen exactly when the next container arrives whole. */
  lemma {:induction false} FirstNumber(c: Counters, es: seq<Event>)
    requires Inv(c) && Run(c, es) && Orderly(c, es) && Sized(es) && c.isReset && !c.pending
    ensures NextIsWhole(es) <==> Numbers(c, es) != [] && Numbers(c, es)[0] == Seen(c) + 1
    decreases |es|
  {
    if es != [] {
      var c' := After(c, es[0]);
      EventGrows(c, es[0]);
      if es[0].Reset? {
        assert forall i :: 0 <= i < |es[1..]| ==> es[1..][i] == es[i + 1];
        FirstNumber(c', es[1..]);
      } else if !es[0].Got? {
        NumbersAbove(c', es[1..]);
      }
    }
  }

  lemma IncreasingCons(n: int, ns: seq<int>)
    requires forall i :: 0 <= i < |ns| ==> n <= ns[i]
    ensures Increasing([n] + ns) <==> Increasing(ns) && (ns != [] ==> n < ns[0])
  {
    var all := [n] + ns;
    assert forall i :: 0 <= i < |ns| ==> all[i + 1] == ns[i];
    if Increasing(all) {
      forall i, j | 0 <= i < j < |ns|
        ensures ns[i] < ns[j]
      {
        assert all[i + 1] < all[j + 1];
      }
      assert ns != [] ==> all[0] < all[1];
    }
  }

  /**
   * While containers come in the order of their numbers, the numbers handed out strictly increase, over any losses,
   * disconnects and reconnects, exactly when no container follows whole upon one whose payload came late.
   */
  lemma {:induction false} NumbersIncrease(c: Counters, es: seq<Event>)
    requires Inv(c) && Run(c, es) && Orderly(c, es) && Sized(es)
    ensures Increasing(Numbers(c, es)) <==> !Repeats(es)
    decreases |es|
  {
    if es != [] {
      var c', rest := After(c, es[0]), es[1..];
      assert forall i :: 0 <= i < |rest| ==> rest[i] == es[i + 1];
      NumbersIncrease(c', rest);
      NumbersAbove(c', rest);
      EventGrows(c, es[0]);
      if es[0].Got? {
        IncreasingCons(Number(c'), Numbers(c', rest));
      } else if es[0].Resumed? {
        IncreasingCons(Number(c'), Numbers(c', rest));
        FirstNumber(c', rest);
      } else {
        assert Numbers(c, es) == Numbers(c', rest);
      }
    }
  }

  /**
   * A payload that comes late ends its session between header and payload: the number handed out for its container when it
   * completes is too high by its own size.
   */
  lemma LateNumber(c: Counters, seqNum: nat, size: nat)
    requires Inv(c) && !c.pending
    ensures var late := After(c, Late(seqNum, size));
            Possible(late, Resumed) && Number(After(late, Resumed)) == Number(AfterHeader(c, seqNum, size)) + size
  {
  }
}
