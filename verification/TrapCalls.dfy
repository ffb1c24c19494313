/**
 * The state machine of the TRAP input interface: what a call goes through for whatever the network answers. Each round makes
 * the one event that the answer and the state before it say, and the call ends exactly with a container, a refused format,
 * the caller's time or the module.
 */
module TrapCalls {
  import opened Options
  import opened TrapReceiver

  datatype Connecting = Connected | Mismatch | Refused

  /** How an attempt to receive a part of a container ends. */
  datatype Part = Complete | TimedOut | Broken

  type Word64 = x: int | 0 <= x < 0x1_0000_0000_0000_0000
  type Word32 = x: int | 0 <= x < 0x1_0000_0000
  type Word16 = x: int | 0 <= x < 0x1_0000

  /**
   * What the network answers in one round of the state machine, with the fields of a header that arrives, and whether the
   * caller's time is up after a failure.
   */
  datatype Round = Round(connect: Connecting, header: Part, length: Word32, seqNum: Word64, size: Word16, payload: Part, timeUp: bool)

  datatype Result = Received | Timeout | FormatMismatch | Terminated

  /** Whether a payload is still to be completed, and whether there is a connection; the first needs the second. */
  datatype Link = Link(pending: bool, connected: bool)

  /** What one round makes of a state: at most one event, the state behind it, and the result when the call ends with it. */
  datatype Turn = Turn(events: seq<Event>, link: Link, end: Option<Result>)

  /** A round without a container ends the call when the caller's time is up. */
  function Failed(r: Round, e: Event, link: Link): (t: Turn)
  {
    Turn([e], link, if r.timeUp then Some(Timeout) else None)
  }

  /** One round, from `init` to a return or to the end of `reset`. */
  function TurnOf(r: Round, l: Link): (t: Turn)
  {
    if l.pending then
      match r.payload
      case Complete => Turn([Resumed], Link(false, true), Some(Received))
      case Broken => Failed(r, Reset(true), Link(false, false))
      case TimedOut => Failed(r, Reset(false), Link(true, true))
    else if !l.connected && r.connect.Refused? then Failed(r, Reset(false), l)
    else if !l.connected && r.connect.Mismatch? then Turn([], Link(false, true), Some(FormatMismatch))
    else if !r.header.Complete? then Failed(r, Reset(r.header.Broken?), Link(false, !r.header.Broken?))
    else
      match r.payload
      case Complete => Turn([Got(r.seqNum, r.size)], Link(false, true), Some(Received))
      case Broken => Failed(r, Cut(r.seqNum, r.size), Link(false, false))
      case TimedOut => Failed(r, Late(r.seqNum, r.size), Link(true, true))
  }

  datatype Course = Course(events: seq<Event>, link: Link, result: Result)

  /** A call over the rounds that the network answers until the module is terminated. */
  function CallOf(rounds: seq<Round>, l: Link): (c: Course)
  {
    if rounds == [] then Course([], l, Terminated)
    else
      var t := TurnOf(rounds[0], l);
      if t.end.Some? then Course(t.events, t.link, t.end.value)
      else
        var rest := CallOf(rounds[1..], t.link);
        Course(t.events + rest.events, rest.link, rest.result)
  }

  /** One more round of a call that goes on. */
  lemma {:induction false} CallSnoc(rounds: seq<Round>, k: nat, l: Link)
    requires k < |rounds| && CallOf(rounds[..k], l).result == Terminated
    ensures var b := CallOf(rounds[..k], l);
            var t := TurnOf(rounds[k], b.link);
            && CallOf(rounds[..k + 1], l) == Course(b.events + t.events, t.link, if t.end.Some? then t.end.value else Terminated)
            && (t.end.Some? ==> CallOf(rounds, l) == CallOf(rounds[..k + 1], l))
    decreases k
  {
    if k == 0 {
      assert rounds[..1][1..] == [];
    } else {
      var t := TurnOf(rounds[0], l);
      assert rounds[..k][1..] == rounds[1..][..k - 1] && rounds[..k + 1][1..] == rounds[1..][..k];
      CallSnoc(rounds[1..], k - 1, t.link);
      Assoc(t.events, CallOf(rounds[..k][1..], t.link).events, TurnOf(rounds[k], CallOf(rounds[..k], l).link).events);
    }
  }

  lemma Assoc<T>(a: seq<T>, b: seq<T>, c: seq<T>)
    ensures a + (b + c) == (a + b) + c
  {
  }

  predicate Completes(e: Event)
  {
    e.Got? || e.Resumed?
  }

  /** Rounds that end no call. */
  predicate GoesOn(rounds: seq<Round>, es: seq<Event>, n: nat)
    requires n <= |es| <= |rounds|
  {
    forall k :: 0 <= k < n ==> !Completes(es[k]) && !rounds[k].timeUp
  }

  /**
   * When a call ends and with which result: with a container when one is complete, on a timeout when the caller's time is up
   * after a round without one, on a mismatch when a connection is refused for its format, and otherwise not before all rounds
   * are used.
   */
  predicate EndsRightly(rounds: seq<Round>, es: seq<Event>, result: Result)
  {
    var n := |es|;
    && n <= |rounds|
    && (result == Received <==> n > 0 && Completes(es[n - 1]))
    && (result == Timeout <==> n > 0 && !Completes(es[n - 1]) && rounds[n - 1].timeUp)
    && (result == Terminated <==> n == |rounds| && GoesOn(rounds, es, n))
    && (result == FormatMismatch ==> n < |rounds| && rounds[n].connect.Mismatch? && GoesOn(rounds, es, n))
    && (n > 0 ==> GoesOn(rounds, es, n - 1))
  }

  lemma GoesOnLater(r: Round, rounds: seq<Round>, e: Event, es: seq<Event>, n: nat)
    requires n <= |es| <= |rounds| && !Completes(e) && !r.timeUp
    ensures GoesOn([r] + rounds, [e] + es, n + 1) <==> GoesOn(rounds, es, n)
  {
    var all, events := [r] + rounds, [e] + es;
    if GoesOn(all, events, n + 1) {
      forall k | 0 <= k < n
        ensures !Completes(es[k]) && !rounds[k].timeUp
      {
        assert events[k + 1] == es[k] && all[k + 1] == rounds[k];
      }
    }
    if GoesOn(rounds, es, n) {
      forall k | 0 <= k < n + 1
        ensures !Completes(events[k]) && !all[k].timeUp
      {
        assert k > 0 ==> events[k] == es[k - 1] && all[k] == rounds[k - 1];
      }
    }
  }

  lemma LaterEnd(r: Round, rounds: seq<Round>, e: Event, es: seq<Event>, result: Result)
    requires EndsRightly(rounds, es, result) && !Completes(e) && !r.timeUp
    ensures EndsRightly([r] + rounds, [e] + es, result)
  {
    GoesOnLater(r, rounds, e, es, |es|);
    if es == [] {
      GoesOnLater(r, rounds, e, es, 0);
      assert ([e] + es)[0] == e && ([r] + rounds)[0] == r;
    } else {
      GoesOnLater(r, rounds, e, es, |es| - 1);
      assert ([e] + es)[|es|] == es[|es| - 1] && ([r] + rounds)[|es|] == rounds[|es| - 1];
    }
  }

  lemma {:induction false} CallEnds(rounds: seq<Round>, l: Link)
    ensures EndsRightly(rounds, CallOf(rounds, l).events, CallOf(rounds, l).result)
  {
    if rounds != [] {
      var t := TurnOf(rounds[0], l);
      if t.end.None? {
        var rest := CallOf(rounds[1..], t.link);
        CallEnds(rounds[1..], t.link);
        LaterEnd(rounds[0], rounds[1..], t.events[0], rest.events, rest.result);
        assert rounds == [rounds[0]] + rounds[1..] && t.events == [t.events[0]];
      }
    }
  }

  /** The containers that start to arrive in a call are those of its headers, number and size. */
  lemma {:induction false} CallStarts(rounds: seq<Round>, l: Link)
    ensures var es := CallOf(rounds, l).events;
            && |es| <= |rounds|
            && forall k :: 0 <= k < |es| && Starts(es[k]) ==>
                 && rounds[k].header.Complete?
                 && es[k] == match rounds[k].payload
                             case Complete => Got(rounds[k].seqNum, rounds[k].size)
                             case Broken => Cut(rounds[k].seqNum, rounds[k].size)
                             case TimedOut => Late(rounds[k].seqNum, rounds[k].size)
  {
    if rounds != [] {
      var t := TurnOf(rounds[0], l);
      if t.end.None? {
        CallStarts(rounds[1..], t.link);
        var es := t.events + CallOf(rounds[1..], t.link).events;
        forall k | 0 < k < |es|
          ensures es[k] == CallOf(rounds[1..], t.link).events[k - 1] && rounds[k] == rounds[1..][k - 1]
        {
        }
      }
    }
  }

  /** The first event when there is a connection and nothing is pending: the network's answers alone decide. */
  lemma FirstRound(rounds: seq<Round>, connected: bool)
    requires rounds != [] && (connected || rounds[0].connect.Connected?)
    ensures var r, c := rounds[0], CallOf(rounds, Link(false, connected));
            && c.events != []
            && c.events[0] == (match r.header
                               case TimedOut => Reset(false)
                               case Broken => Reset(true)
                               case Complete =>
                                 match r.payload
                                 case Complete => Got(r.seqNum, r.size)
                                 case Broken => Cut(r.seqNum, r.size)
                                 case TimedOut => Late(r.seqNum, r.size))
            && (r.header.Complete? && r.payload.Complete? ==> c == Course([Got(r.seqNum, r.size)], Link(false, true), Received))
  {
    assert rounds == [rounds[0]] + rounds[1..];
  }

  /**
   * Rounds depend on each other: after a disconnect nothing arrives but on a new connection, and after a late payload the next
   * round goes on with it.
   */
  lemma {:induction false} NextRound(rounds: seq<Round>, l: Link, k: nat)
    requires k + 1 < |CallOf(rounds, l).events|
    ensures var es := CallOf(rounds, l).events;
            && k + 1 < |rounds|
            && (es[k].Cut? || es[k] == Reset(true) ==>
                  (Starts(es[k + 1]) <==> rounds[k + 1].connect.Connected? && rounds[k + 1].header.Complete?))
            && (es[k].Late? ==> es[k + 1] == match rounds[k + 1].payload
                                             case Complete => Resumed
                                             case Broken => Reset(true)
                                             case TimedOut => Reset(false))
    decreases k
  {
    CallStarts(rounds, l);
    var t := TurnOf(rounds[0], l);
    var rest := CallOf(rounds[1..], t.link);
    assert CallOf(rounds, l).events == t.events + rest.events;
    if k > 0 {
      NextRound(rounds[1..], t.link, k - 1);
      assert rounds[1..][k] == rounds[k + 1];
    } else {
      assert rounds[1..][0] == rounds[1];
      assert rest.events[0] == TurnOf(rounds[1], t.link).events[0];
    }
  }
}
