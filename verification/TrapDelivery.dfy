/**
 * From an output interface to an input interface: what the receiver counts and the numbers it hands out when containers of
 * a buffered run arrive in order, some of them left out, with disconnects in between.
 */
module TrapDelivery {
  import opened Bytes
  import opened Options
  import opened TrapContainer
  import opened TrapInput
  import opened TrapReceiver
  import opened TrapSender

  /**
   * What happens to the containers sent: number `i` of them arrives whole, its payload is cut off by a disconnect, or is
   * late; the rest of a late payload arrives; the connection is lost or silent, with or without dropping a late payload.
   */
  datatype Arrival = Whole(i: nat) | CutOff(i: nat) | Delayed(i: nat) | Rest | Lost(discard: bool)

  predicate Starting(a: Arrival)
  {
    a.Whole? || a.CutOff? || a.Delayed?
  }

  /** The containers that start to arrive are a choice from the first `count` ones, in order, none before `from`. */
  predicate Chosen(count: nat, arrivals: seq<Arrival>, from: nat)
    decreases |arrivals|
  {
    || arrivals == []
    || (if Starting(arrivals[0])
        then from <= arrivals[0].i < count && Chosen(count, arrivals[1..], arrivals[0].i + 1)
        else Chosen(count, arrivals[1..], from))
  }

  /** What the receiver goes through when it reads these headers. */
  function EventOf(hs: seq<Header>, a: Arrival): (e: Event)
    requires Starting(a) ==> a.i < |hs|
    ensures Starts(e) <==> Starting(a)
  {
    match a
    case Whole(i) => Got(hs[i].seqNum, hs[i].size)
    case CutOff(i) => Cut(hs[i].seqNum, hs[i].size)
    case Delayed(i) => Late(hs[i].seqNum, hs[i].size)
    case Rest => Resumed
    case Lost(discard) => Reset(discard)
  }

  function Events(hs: seq<Header>, arrivals: seq<Arrival>, from: nat): (es: seq<Event>)
    requires Chosen(|hs|, arrivals, from)
    decreases |arrivals|
  {
    if arrivals == [] then []
    else [EventOf(hs, arrivals[0])] + Events(hs, arrivals[1..], Passed(arrivals[0], from))
  }

  /** Containers before this one are no longer in question. */
  function Passed(a: Arrival, from: nat): (from': nat)
  {
    if Starting(a) then a.i + 1 else from
  }

  // ---------------------------------------------------------------- the reference

  /** The container that started last in the session. */
  function LastIn(a: Arrival, last: Option<nat>): (last': Option<nat>)
  {
    match a
    case Whole(i) => Some(i)
    case Rest => last
    case _ => None
  }

  /** The messages of the containers left out before container `i` in its session. */
  function Skipped(ps: seq<Packet>, last: Option<nat>, i: nat): (n: nat)
    requires i < |ps| && (last.Some? ==> last.value < i)
  {
    if last.None? then 0 else Total(ps[last.value + 1..i])
  }

  /** One arrival: messages left out before it, messages it brings or begins to bring, and whether a number is handed out. */
  datatype Share = Share(left: nat, brought: nat, answers: bool)

  function ShareOf(ps: seq<Packet>, a: Arrival, last: Option<nat>): (s: Share)
    requires Starting(a) ==> a.i < |ps| && (last.Some? ==> last.value < a.i)
  {
    if Starting(a) then Share(Skipped(ps, last, a.i), |ps[a.i].messages|, a.Whole?) else Share(0, 0, a.Rest?)
  }

  predicate Behind(last: Option<nat>, from: nat)
  {
    last.Some? ==> last.value < from
  }

  function Shares(ps: seq<Packet>, arrivals: seq<Arrival>, from: nat, last: Option<nat>): (shares: seq<Share>)
    requires Chosen(|ps|, arrivals, from) && Behind(last, from)
    decreases |arrivals|
  {
    if arrivals == [] then []
    else
      [ShareOf(ps, arrivals[0], last)]
      + Shares(ps, arrivals[1..], Passed(arrivals[0], from), LastIn(arrivals[0], last))
  }

  function AllLeft(shares: seq<Share>): (n: nat)
  {
    if shares == [] then 0 else shares[0].left + AllLeft(shares[1..])
  }

  function AllBrought(shares: seq<Share>): (n: nat)
  {
    if shares == [] then 0 else shares[0].brought + AllBrought(shares[1..])
  }

  /**
   * The numbers that the containers ought to get: one more than the messages brought or left out before, where `seen` of them
   * are before the first arrival. A late container is numbered when its rest arrives.
   */
  function Expected(shares: seq<Share>, seen: int): (ns: seq<int>)
  {
    if shares == [] then []
    else
      var before := seen + shares[0].left;
      (if shares[0].answers then [before + 1] else []) + Expected(shares[1..], before + shares[0].brought)
  }

  // ---------------------------------------------------------------- one arrival

  lemma {:induction false} TotalConcat(a: seq<Packet>, b: seq<Packet>)
    ensures Total(a + b) == Total(a) + Total(b)
    decreases |b|
  {
    if b == [] {
      assert a + b == a;
    } else {
      var front := b[..|b| - 1];
      TotalConcat(a, front);
      TotalSnoc(a + front, b[|b| - 1]);
      assert a + b == a + front + [b[|b| - 1]];
    }
  }

  lemma TotalBetween(ps: seq<Packet>, j: nat, i: nat)
    requires j <= i <= |ps|
    ensures Total(ps[..i]) == Total(ps[..j]) + Total(ps[j..i])
  {
    TotalConcat(ps[..j], ps[j..i]);
    assert ps[..i] == ps[..j] + ps[j..i];
  }

  /** What is read from the headers is what the sender meant: the messages before the container, and those in it. */
  predicate Exact(ps: seq<Packet>, hs: seq<Header>)
  {
    && |hs| == |ps|
    && forall i :: 0 <= i < |ps| ==> hs[i].seqNum == Total(ps[..i]) && hs[i].size == |ps[i].messages| > 0
  }

  /** The receiver is at the end of the last container of the session, if there is one. */
  predicate At(c: Counters, ps: seq<Packet>, last: Option<nat>, from: nat)
  {
    && Behind(last, from)
    && (last.None? <==> c.isReset)
    && (last.Some? ==> last.value < |ps| && c.seqNum + c.last == Total(ps[..last.value + 1]))
  }

  lemma SkippedBetween(c: Counters, ps: seq<Packet>, i: nat, last: Option<nat>, from: nat)
    requires At(c, ps, last, from) && from <= i < |ps|
    ensures Skipped(ps, last, i) == if c.isReset then 0 else Total(ps[..i]) - (c.seqNum + c.last)
  {
    if last.Some? {
      TotalBetween(ps, last.value + 1, i);
    }
  }

  lemma TotalNext(ps: seq<Packet>, i: nat)
    requires i < |ps|
    ensures Total(ps[..i + 1]) == Total(ps[..i]) + |ps[i].messages|
  {
    assert ps[..i + 1] == ps[..i] + [ps[i]];
    TotalSnoc(ps[..i], ps[i]);
  }

  function Missed(c: Counters): (n: int)
  {
    c.totalMissed + c.missed
  }

  /** What an event does that brings this share. */
  predicate Takes(c: Counters, e: Event, s: Share)
    requires Inv(c) && Possible(c, e)
  {
    var c' := After(c, e);
    && (Starts(e) ==> Follows(c, e.seqNum))
    && Missed(c') == Missed(c) + s.left
    && Seen(c') == Seen(c) + s.left + s.brought
    && (s.answers <==> e.Got? || e.Resumed?)
    && (s.answers ==> Number(c') == Seen(c) + s.left + 1)
  }

  lemma StartTakes(c: Counters, e: Event, left: nat)
    requires Inv(c) && Possible(c, e) && Starts(e)
    requires e.seqNum == (if c.isReset then e.seqNum else c.seqNum + c.last + left) && (c.isReset ==> left == 0)
    ensures Takes(c, e, Share(left, e.size, e.Got?))
  {
    NumberIsNext(c, e.seqNum, e.size);
    ResetKeeps(AfterHeader(c, e.seqNum, e.size));
  }

  lemma OtherTakes(c: Counters, e: Event)
    requires Inv(c) && Possible(c, e) && !Starts(e)
    ensures Takes(c, e, Share(0, 0, e.Resumed?))
  {
  }

  /** One arrival: the counters take in what it leaves out and what it brings. */
  lemma ArrivalTakes(c: Counters, ps: seq<Packet>, hs: seq<Header>, a: Arrival, last: Option<nat>, from: nat)
    requires Exact(ps, hs) && Inv(c) && At(c, ps, last, from)
    requires Starting(a) ==> from <= a.i < |ps|
    requires Possible(c, EventOf(hs, a))
    ensures Takes(c, EventOf(hs, a), ShareOf(ps, a, last))
  {
    if Starting(a) {
      SkippedBetween(c, ps, a.i, last, from);
      StartTakes(c, EventOf(hs, a), Skipped(ps, last, a.i));
    } else {
      OtherTakes(c, EventOf(hs, a));
    }
  }

  lemma StaysAt(c: Counters, ps: seq<Packet>, hs: seq<Header>, a: Arrival, last: Option<nat>, from: nat)
    requires Exact(ps, hs) && Inv(c) && At(c, ps, last, from)
    requires Starting(a) ==> from <= a.i < |ps|
    requires Possible(c, EventOf(hs, a))
    ensures At(After(c, EventOf(hs, a)), ps, LastIn(a, last), Passed(a, from))
  {
    if a.Whole? {
      TotalNext(ps, a.i);
    }
  }

  // ---------------------------------------------------------------- all of them

  /** Every event takes its share. */
  predicate AllTake(c: Counters, es: seq<Event>, shares: seq<Share>)
    requires Inv(c) && Run(c, es) && |es| == |shares|
    decreases |es|
  {
    es == [] || (Takes(c, es[0], shares[0]) && AllTake(After(c, es[0]), es[1..], shares[1..]))
  }

  lemma {:induction false} AllArrive(c: Counters, ps: seq<Packet>, hs: seq<Header>, arrivals: seq<Arrival>, last: Option<nat>, from: nat)
    requires Exact(ps, hs) && Inv(c) && At(c, ps, last, from) && Chosen(|ps|, arrivals, from)
    requires Run(c, Events(hs, arrivals, from))
    ensures |Events(hs, arrivals, from)| == |Shares(ps, arrivals, from, last)|
    ensures AllTake(c, Events(hs, arrivals, from), Shares(ps, arrivals, from, last))
    decreases |arrivals|
  {
    if arrivals != [] {
      var a, e, rest := arrivals[0], EventOf(hs, arrivals[0]), Events(hs, arrivals[1..], Passed(arrivals[0], from));
      RunCons(c, e, rest);
      ArrivalTakes(c, ps, hs, a, last, from);
      StaysAt(c, ps, hs, a, last, from);
      AllArrive(After(c, e), ps, hs, arrivals[1..], LastIn(a, last), Passed(a, from));
      TakeCons(c, e, rest, ShareOf(ps, a, last), Shares(ps, arrivals[1..], Passed(a, from), LastIn(a, last)));
    }
  }

  lemma TakeCons(c: Counters, e: Event, es: seq<Event>, s: Share, shares: seq<Share>)
    requires Inv(c) && Possible(c, e) && Run(After(c, e), es) && Run(c, [e] + es) && |es| == |shares|
    requires Takes(c, e, s) && AllTake(After(c, e), es, shares)
    ensures AllTake(c, [e] + es, [s] + shares)
  {
    assert ([e] + es)[1..] == es && ([s] + shares)[1..] == shares;
  }

  /** Counters and numbers after events that take their shares. */
  lemma {:induction false} SharesCounted(c: Counters, es: seq<Event>, shares: seq<Share>)
    requires Inv(c) && Run(c, es) && |es| == |shares| && AllTake(c, es, shares)
    ensures Orderly(c, es)
    ensures Missed(Final(c, es)) == Missed(c) + AllLeft(shares)
    ensures Seen(Final(c, es)) == Seen(c) + AllLeft(shares) + AllBrought(shares)
    ensures Numbers(c, es) == Expected(shares, Seen(c))
    decreases |es|
  {
    if es != [] {
      SharesCounted(After(c, es[0]), es[1..], shares[1..]);
    }
  }

  lemma {:induction false} EventsSized(ps: seq<Packet>, hs: seq<Header>, arrivals: seq<Arrival>, from: nat)
    requires Exact(ps, hs) && Chosen(|ps|, arrivals, from)
    ensures Sized(Events(hs, arrivals, from))
    decreases |arrivals|
  {
    if arrivals != [] {
      var rest := Events(hs, arrivals[1..], Passed(arrivals[0], from));
      EventsSized(ps, hs, arrivals[1..], Passed(arrivals[0], from));
      var es := Events(hs, arrivals, from);
      forall i | 0 <= i < |es| && Starts(es[i]) ensures es[i].size > 0 {
        assert i > 0 ==> es[i] == rest[i - 1];
      }
    }
  }

  /** The header as the receiver reads it from the bytes of the container. */
  function Head(p: Packet): (h: Header)
  {
    ReadHeader(Wire(p)[..HEADER_SIZE])
  }

  function Heads(ps: seq<Packet>): (hs: seq<Header>)
    ensures |hs| == |ps| && forall i :: 0 <= i < |ps| ==> hs[i] == Head(ps[i])
  {
    seq(|ps|, i requires 0 <= i < |ps| => Head(ps[i]))
  }

  lemma HeadExact(p: Packet, len: nat)
    requires Used(p.messages) <= len < EXACT_LENGTH && p.seqNum < WORD64
    ensures Head(p).seqNum == p.seqNum && Head(p).size == |p.messages|
  {
    HeaderExact(p, len);
    WireReadBack(p);
    WordBytes();
  }

  lemma TiledExact(o: Output, log: seq<Message>, len: nat)
    requires Tiled(o, log, len) && len < EXACT_LENGTH && |log| < WORD64
    ensures Exact(o.sent, Heads(o.sent))
  {
    var ps := o.sent;
    assert ps[..|ps|] == ps;
    forall i | 0 <= i < |ps|
      ensures Head(ps[i]).seqNum == Total(ps[..i]) && Head(ps[i]).size == |ps[i].messages| > 0
    {
      TotalBetween(ps, i, |ps|);
      HeadExact(ps[i], len);
    }
  }

  lemma WordBytes()
    ensures Pow256(8) == WORD64
  {
    assert Pow256(4) == 256 * (256 * (256 * (256 * Pow256(0))));
    assert Pow256(8) == 256 * (256 * (256 * (256 * Pow256(4))));
  }

  /** No late payload is completed: containers arrive whole, are cut off, or are lost. */
  predicate NoneLate(arrivals: seq<Arrival>)
  {
    forall i :: 0 <= i < |arrivals| ==> !arrivals[i].Rest?
  }

  lemma {:induction false} NoneRepeats(hs: seq<Header>, arrivals: seq<Arrival>, from: nat)
    requires Chosen(|hs|, arrivals, from) && NoneLate(arrivals)
    ensures !Repeats(Events(hs, arrivals, from))
    decreases |arrivals|
  {
    if arrivals != [] {
      NoneRepeats(hs, arrivals[1..], Passed(arrivals[0], from));
      assert Events(hs, arrivals, from)[1..] == Events(hs, arrivals[1..], Passed(arrivals[0], from));
    }
  }

  /** What the receiver makes of events is what the reference says about their shares. */
  ghost predicate AsReferred(c: Counters, es: seq<Event>, shares: seq<Share>)
    requires Inv(c) && Run(c, es)
  {
    && Orderly(c, es)
    && Numbers(c, es) == Expected(shares, 0)
    && Missed(Final(c, es)) == AllLeft(shares)
    && Seen(Final(c, es)) == AllLeft(shares) + AllBrought(shares)
    && (Increasing(Numbers(c, es)) <==> !Repeats(es))
  }

  /** A receiver that has seen nothing yet, as the initial one. */
  predicate New(c: Counters)
    ensures c == Initial() ==> New(c)
  {
    Inv(c) && c.isReset && !c.pending && Seen(c) == 0 && Missed(c) == 0
  }

  lemma ExactDelivered(c: Counters, ps: seq<Packet>, hs: seq<Header>, arrivals: seq<Arrival>)
    requires New(c) && Exact(ps, hs) && Chosen(|ps|, arrivals, 0) && Run(c, Events(hs, arrivals, 0))
    ensures AsReferred(c, Events(hs, arrivals, 0), Shares(ps, arrivals, 0, None))
    ensures NoneLate(arrivals) ==> Increasing(Numbers(c, Events(hs, arrivals, 0)))
  {
    var es := Events(hs, arrivals, 0);
    AllArrive(c, ps, hs, arrivals, None, 0);
    SharesCounted(c, es, Shares(ps, arrivals, 0, None));
    EventsSized(ps, hs, arrivals, 0);
    NumbersIncrease(c, es);
    if NoneLate(arrivals) {
      NoneRepeats(hs, arrivals, 0);
    }
  }

  /**
   * From end to end: of the containers of any buffered run, whichever arrive in order, and whatever disconnects and delays
   * are between them, the numbers handed out are those of the reference, what is counted missed is exactly the messages of
   * the containers left out within a session, and what is counted received is what arrived or began to. The numbers strictly
   * increase exactly when no container arrives whole upon a late one; always so where none is completed late.
   */
  lemma Delivered(calls: seq<Call>, len: nat, ps: seq<Packet>, hs: seq<Header>, c: Counters, arrivals: seq<Arrival>)
    requires HEADER_SIZE <= len < EXACT_LENGTH && |Log(calls, len)| < WORD64
    requires ps == Ran(calls, len, true).sent && hs == Heads(ps)
    requires New(c) && Chosen(|ps|, arrivals, 0) && Run(c, Events(hs, arrivals, 0))
    ensures AsReferred(c, Events(hs, arrivals, 0), Shares(ps, arrivals, 0, None))
    ensures NoneLate(arrivals) ==> Increasing(Numbers(c, Events(hs, arrivals, 0)))
  {
    RunTiles(calls, len);
    TiledExact(Ran(calls, len, true), Log(calls, len), len);
    ExactDelivered(c, ps, hs, arrivals);
  }

  lemma StandsInLog(ps: seq<Packet>, open: seq<Message>, place: nat, i: nat, k: nat)
    requires Numbered(ps) && i < |ps| && k < |ps[i].messages| && place == ps[i].seqNum + k
    ensures place < |Unpacked(ps) + open| && (Unpacked(ps) + open)[place] == ps[i].messages[k]
  {
    PacketInLog(ps, i, k);
  }

  /**
   * In one session the numbers of messages are as far apart as their places in the sender's log: here message `k` of
   * container `i` and the first one of the container before it in the session.
   */
  lemma NumbersArePlaces(ps: seq<Packet>, hs: seq<Header>, open: seq<Message>, c: Counters, j: nat, i: nat, k: nat)
    requires Exact(ps, hs) && Numbered(ps) && j < i < |ps| && k < |ps[i].messages|
    requires Inv(c) && !c.pending && At(c, ps, Some(j), i) && c.last == hs[j].size
    ensures var place := hs[i].seqNum + k;
            && place < |Unpacked(ps) + open| && (Unpacked(ps) + open)[place] == ps[i].messages[k]
            && Number(AfterHeader(c, hs[i].seqNum, hs[i].size)) + k - Number(c) == place - hs[j].seqNum
  {
    StandsInLog(ps, open, hs[i].seqNum + k, i, k);
    TotalNext(ps, j);
    NumberShift(c, hs[i].seqNum, hs[i].size, hs[j].seqNum);
  }

  lemma NumberShift(c: Counters, seqNum: nat, size: nat, was: int)
    requires !c.isReset && c.seqNum == was
    ensures Number(AfterHeader(c, seqNum, size)) - Number(c) == seqNum - was
  {
  }
}
