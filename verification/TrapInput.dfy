/**
 * The input interface as a state machine over what the network does, and what its numbers mean for the messages that an
 * output interface sent.
 */
module TrapInput {
  import opened Bytes
  import opened Options
  import opened TrapCalls
  import opened TrapContainer
  import opened TrapReceiver
  import opened TrapSender

  // ---------------------------------------------------------------- the state machine

  const WORD64: nat := 0x1_0000_0000_0000_0000

  /** Arithmetic on unsigned 64-bit numbers. */
  function Wrap(n: int): (w: Word64)
  {
    n % WORD64
  }

  /** A number in range that differs by rounds of 2^64 is what the arithmetic gives. */
  lemma WrapIs(n: int, w: Word64, rounds: int)
    requires n == rounds * WORD64 + w
    ensures Wrap(n) == w
  {
  }

  lemma WrapShift(n: int, rounds: int)
    ensures Wrap(n + rounds * WORD64) == Wrap(n)
  {
    WrapIs(n + rounds * WORD64, Wrap(n), n / WORD64 + rounds);
  }

  lemma WrapAdd(a: int, b: int)
    ensures Wrap(Wrap(a) + b) == Wrap(a + b)
  {
    WrapShift(Wrap(a) + b, a / WORD64);
  }

  lemma WrapAdds(a: int, b: int)
    ensures Wrap(Wrap(a) + Wrap(b)) == Wrap(a + b)
  {
    WrapAdd(a, Wrap(b));
    WrapAdd(b, a);
  }

  /** The length in the last header that arrived, where event `i` is that of round `i`. */
  function Frame(rounds: seq<Round>, es: seq<Event>): (length: Option<Word32>)
    requires |es| <= |rounds|
    decreases |es|
  {
    if es == [] then None
    else
      var n := |es| - 1;
      if Starts(es[n]) then Some(rounds[n].length) else Frame(rounds, es[..n])
  }

  predicate StartsIn(es: seq<Event>)
  {
    exists k :: 0 <= k < |es| && Starts(es[k])
  }

  lemma {:induction false} FrameFilled(rounds: seq<Round>, es: seq<Event>)
    requires |es| <= |rounds|
    ensures Frame(rounds, es).Some? <==> StartsIn(es)
    decreases |es|
  {
    if es != [] {
      var n := |es| - 1;
      FrameFilled(rounds, es[..n]);
      if StartsIn(es[..n]) {
        var k :| 0 <= k < n && Starts(es[..n][k]);
        assert Starts(es[k]);
      }
    }
  }

  /** The frame is the length in the header of the last round that had one. */
  lemma {:induction false} FrameIsLast(rounds: seq<Round>, es: seq<Event>, k: nat)
    requires k < |es| <= |rounds| && Starts(es[k]) && forall j :: k < j < |es| ==> !Starts(es[j])
    ensures Frame(rounds, es) == Some(rounds[k].length)
    decreases |es|
  {
    if k < |es| - 1 {
      FrameIsLast(rounds, es[..|es| - 1], k);
    }
  }

  /** The length in the last header that arrived, none when no header did. */
  predicate LastLength(rounds: seq<Round>, es: seq<Event>, length: Option<Word32>)
    requires |es| <= |rounds|
  {
    && (forall k :: 0 <= k < |es| && Starts(es[k]) && !StartsIn(es[k + 1..]) ==> length == Some(rounds[k].length))
    && (!StartsIn(es) ==> length == None)
  }

  lemma FrameIs(rounds: seq<Round>, es: seq<Event>)
    requires |es| <= |rounds|
    ensures LastLength(rounds, es, Frame(rounds, es))
  {
    FrameFilled(rounds, es);
    forall k | 0 <= k < |es| && Starts(es[k]) && !StartsIn(es[k + 1..])
      ensures Frame(rounds, es) == Some(rounds[k].length)
    {
      forall j | k < j < |es|
        ensures !Starts(es[j])
      {
        assert es[k + 1..][j - k - 1] == es[j];
      }
      FrameIsLast(rounds, es, k);
    }
  }

  /** Without a header on the way, what is pending at the end was so at the start. */
  lemma {:induction false} PendingBefore(c: Counters, es: seq<Event>)
    requires Inv(c) && Run(c, es) && es != [] && Completes(es[|es| - 1]) && !StartsIn(es)
    ensures c.pending
    decreases |es|
  {
    assert !Starts(es[0]);
    if |es| > 1 {
      forall k | 0 <= k < |es[1..]| ensures !Starts(es[1..][k]) {
        assert !Starts(es[k + 1]);
      }
      PendingBefore(After(c, es[0]), es[1..]);
    }
  }

  /**
   * A call that hands out a container knows its size exactly when the header arrived in this call; it does when no late
   * payload was left from an earlier one.
   */
  lemma SizeKnown(c: Counters, rounds: seq<Round>, es: seq<Event>)
    requires Inv(c) && Run(c, es) && es != [] && Completes(es[|es| - 1]) && |es| <= |rounds|
    ensures Frame(rounds, es).Some? <==> StartsIn(es)
    ensures !c.pending ==> Frame(rounds, es).Some?
    ensures c.pending && |es| == 1 ==> Frame(rounds, es).None?
  {
    FrameFilled(rounds, es);
    if !StartsIn(es) {
      PendingBefore(c, es);
    }
  }

  /** The fields of the receiver are its counters, in 64 bits. `exact` are the counters without a bound. */
  class Receiver {
    var connected: bool
    var pending: bool
    var is_session_reset: bool
    var session_sequence_number: Word64
    var session_sequence_number_offset: Word64
    var session_last_record_size: Word16
    var session_received_records: Word64
    var session_missed_records: Word64
    var total_sequence_number: Word64
    var total_received_records: Word64
    var total_missed_records: Word64
    ghost var exact: Counters

    ghost predicate Session()
      reads this
    {
      && pending == exact.pending && is_session_reset == exact.isReset
      && session_sequence_number == exact.seqNum && session_sequence_number_offset == exact.offset
      && session_last_record_size == exact.last
      && session_received_records == Wrap(exact.received) && session_missed_records == Wrap(exact.missed)
    }

    ghost predicate Totals()
      reads this
    {
      && total_sequence_number == Wrap(exact.totalSeq)
      && total_received_records == Wrap(exact.totalReceived) && total_missed_records == Wrap(exact.totalMissed)
    }

    ghost predicate Counting()
      reads this
    {
      Inv(exact) && Session() && Totals()
    }

    ghost predicate Valid()
      reads this
    {
      Counting() && (pending ==> connected)
    }

    constructor ()
      ensures Valid() && exact == Initial() && !connected
    {
      connected, pending, is_session_reset := false, false, true;
      session_sequence_number := 0;
      session_sequence_number_offset := 0;
      session_last_record_size := 0;
      session_received_records := 0;
      session_missed_records := 0;
      total_sequence_number := 0;
      total_received_records := 0;
      total_missed_records := 0;
      exact := Initial();
    }

    /** The counters at the state `reset`. */
    method ResetSession()
      requires Counting()
      modifies this
      ensures Counting() && exact == AfterReset(old(exact)) && connected == old(connected)
    {
      AddTotals();
      is_session_reset := true;
      session_sequence_number := 0;
      session_missed_records := 0;
      session_received_records := 0;
      session_last_record_size := 0;
      session_sequence_number_offset := 0;
      ResetKeeps(exact);
      exact := AfterReset(exact);
    }

    /** The session is added to the totals. */
    method AddTotals()
      requires Counting()
      modifies this`total_sequence_number, this`total_received_records, this`total_missed_records
      ensures total_sequence_number == Wrap(exact.totalSeq + (exact.seqNum + exact.last - exact.offset))
      ensures total_received_records == Wrap(exact.totalReceived + exact.received)
      ensures total_missed_records == Wrap(exact.totalMissed + exact.missed)
    {
      WrapAdds(exact.totalSeq, exact.seqNum + exact.last - exact.offset);
      WrapAdds(exact.totalReceived, exact.received);
      WrapAdds(exact.totalMissed, exact.missed);
      total_sequence_number := Wrap(total_sequence_number + Wrap(session_sequence_number + session_last_record_size - session_sequence_number_offset));
      total_received_records := Wrap(total_received_records + session_received_records);
      total_missed_records := Wrap(total_missed_records + session_missed_records);
    }

    /** What the header's number says was missed since the last container. */
    method CountMissed(seqNum: Word64)
      requires Counting()
      modifies this`session_missed_records
      ensures session_missed_records == Wrap(exact.missed + if exact.isReset then 0 else seqNum - (exact.seqNum + exact.last))
    {
      GapWraps(exact.missed, seqNum, exact.seqNum + exact.last);
      if !is_session_reset && Wrap(session_sequence_number + session_last_record_size) != seqNum {
        session_missed_records := Wrap(session_missed_records + Wrap(seqNum - Wrap(session_sequence_number + session_last_record_size)));
      }
    }

    method CountReceived(size: Word16)
      requires session_received_records == Wrap(exact.received)
      modifies this`session_received_records
      ensures session_received_records == Wrap(exact.received + size)
    {
      WrapAdd(exact.received, size);
      session_received_records := Wrap(session_received_records + size);
    }

    /** The counters when a header has arrived, whatever its number. */
    method CountHeader(seqNum: Word64, size: Word16)
      requires Counting() && !pending
      modifies this
      ensures Counting() && exact == AfterHeader(old(exact), seqNum, size) && connected == old(connected)
    {
      CountMissed(seqNum);
      if is_session_reset {
        session_sequence_number_offset := seqNum;
        is_session_reset := false;
      }
      CountReceived(size);
      session_sequence_number := seqNum;
      session_last_record_size := size;
      NumberIsNext(exact, seqNum, size);
      exact := AfterHeader(exact, seqNum, size);
    }

    /** The state `head_wait`, and the reset after a failure there. */
    method AwaitHeader(r: Round) returns (arrived: bool)
      requires Counting() && !pending && connected
      modifies this
      ensures Counting() && arrived == r.header.Complete? && connected == !r.header.Broken?
      ensures exact == if arrived then AfterHeader(old(exact), r.seqNum, r.size) else AfterReset(old(exact))
    {
      match r.header {
        case Complete =>
          CountHeader(r.seqNum, r.size);
          return true;
        case Broken =>
          connected := false;
          ResetSession();
          return false;
        case TimedOut =>
          ResetSession();
          return false;
      }
    }

    /** Remembers whether a payload is still to be completed. */
    method SetPending(p: bool)
      requires Counting() && (p ==> is_session_reset)
      modifies this`pending, this`exact
      ensures Counting() && exact == old(exact).(pending := p)
    {
      pending, exact := p, exact.(pending := p);
    }

    /** The state `mess_wait`, and the reset after a failure there. */
    method AwaitPayload(r: Round) returns (done: bool, result: Result)
      requires Counting() && connected
      modifies this
      ensures Counting() && connected == !r.payload.Broken? && result == (if r.payload.Complete? then Received else Timeout)
      ensures done == (r.payload.Complete? || r.timeUp)
      ensures var c := old(exact).(pending := false);
              exact == match r.payload
                       case Complete => c
                       case Broken => AfterReset(c)
                       case TimedOut => AfterReset(c).(pending := true)
    {
      SetPending(false);
      match r.payload {
        case Complete =>
          return true, Received;
        case Broken =>
          connected := false;
          ResetSession();
          return r.timeUp, Timeout;
        case TimedOut =>
          ResetSession();
          SetPending(true);
          return r.timeUp, Timeout;
      }
    }

    /** The states from `init` to a header: connecting, and the reset after a failure on the way. */
    method AwaitContainer(r: Round) returns (arrived: bool, done: bool, result: Result, ghost es: seq<Event>)
      requires Valid() && !pending
      modifies this
      ensures Counting() && !pending
      ensures arrived <==> (old(connected) || r.connect.Connected?) && r.header.Complete?
      ensures arrived ==> connected && es == [] && exact == AfterHeader(old(exact), r.seqNum, r.size)
      ensures !arrived ==> Stopped(old(exact), done, result, es) && Turns(TurnOf(r, Link(false, old(connected))), done, result, es)
    {
      if !connected {
        match r.connect {
          case Mismatch =>
            connected := true;
            return false, true, FormatMismatch, [];
          case Connected => connected := true;
          case Refused =>
            ResetSession();
            return false, r.timeUp, Timeout, [Reset(false)];
        }
      }
      arrived := AwaitHeader(r);
      return arrived, r.timeUp, Timeout, if arrived then [] else [Reset(r.header.Broken?)];
    }

    /** A round that ends without a container. */
    ghost predicate Stopped(was: Counters, done: bool, result: Result, es: seq<Event>)
      requires Inv(was)
      reads this
    {
      || (es == [] && exact == was && done && result == FormatMismatch)
      || (|es| == 1 && es[0].Reset? && exact == After(was, es[0]) && result == Timeout)
    }

    /** The events, the state and the end are those of the turn. */
    ghost predicate Turns(t: Turn, done: bool, result: Result, es: seq<Event>)
      reads this
    {
      es == t.events && Link(pending, connected) == t.link && done == t.end.Some? && (done ==> result == t.end.value)
    }

    /** One round: from `init` to a return (`done`) or to the end of `reset`; `started` when a header arrives. */
    method DoRound(r: Round) returns (done: bool, result: Result, started: bool, ghost es: seq<Event>)
      requires Valid()
      modifies this
      ensures Valid() && |es| <= 1 && started == (es != [] && Starts(es[0]))
      ensures Turns(TurnOf(r, Link(old(pending), old(connected))), done, result, es)
      ensures es == [] ==> exact == old(exact) && done && result == FormatMismatch
      ensures es != [] ==> Possible(old(exact), es[0]) && exact == After(old(exact), es[0])
      ensures done && result == Received <==> es != [] && (es[0].Got? || es[0].Resumed?)
      ensures done ==> result != Terminated
    {
      ghost var t := TurnOf(r, Link(pending, connected));
      started := false;
      if !pending {
        started, done, result, es := AwaitContainer(r);
        if !started {
          return;
        }
      }
      done, result := AwaitPayload(r);
      es := t.events;
    }

    method HandedOut() returns (number: Word64)
      requires Counting()
      ensures number == Wrap(Number(exact))
    {
      WrapAdd(exact.totalSeq, exact.seqNum - exact.offset + 1);
      number := Wrap(total_sequence_number + (session_sequence_number - session_sequence_number_offset) + 1);
    }

    /**
     * `tcpip_receiver_recv` over the rounds that the network answers until the module is terminated. The size is the length in
     * `messageframe`; None where no header has filled it in this call.
     */
    method Recv(rounds: seq<Round>) returns (result: Result, size: Option<Word32>, ghost es: seq<Event>)
      requires Valid()
      modifies this
      ensures Along(old(exact), es) && Numbers(old(exact), es) == if result == Received then [Number(exact)] else []
      ensures |es| <= |rounds| && size == Frame(rounds, es)
      ensures Course(es, Link(pending, connected), result) == CallOf(rounds, Link(old(pending), old(connected)))
    {
      ghost var start, l := exact, Link(pending, connected);
      es, size := [], None;
      var i := 0;
      while i < |rounds|
        invariant i <= |rounds| && Along(start, es) && Numbers(start, es) == []
        invariant |es| == i && size == Frame(rounds, es)
        invariant CallOf(rounds[..i], l) == Course(es, Link(pending, connected), Terminated)
      {
        var done, started;
        CallSnoc(rounds, i, l);
        done, result, started, es := DoRoundAfter(rounds[i], start, es);
        size := if started then Some(rounds[i].length) else size;
        FrameAfter(rounds, es, i);
        if done {
          return;
        }
        i := i + 1;
      }
      assert rounds[..i] == rounds;
      result := Terminated;
    }

    /**
     * `tcpip_receiver_recv_seq_number`: the number handed out is that of the counters, in 64 bits. Each event has the number
     * and the size in the header of its round, and the call ends as the rounds say.
     */
    method RecvSeqNumber(rounds: seq<Round>) returns (result: Result, number: Word64, size: Option<Word32>, ghost es: seq<Event>)
      requires Valid()
      modifies this
      ensures Valid() && Run(old(exact), es) && exact == Final(old(exact), es)
      ensures result == Received ==> Numbers(old(exact), es) == [Number(exact)] && number == Wrap(Number(exact))
      ensures result != Received ==> Numbers(old(exact), es) == []
      ensures |es| <= |rounds| && size == Frame(rounds, es) && LastLength(rounds, es, size)
      ensures Course(es, Link(pending, connected), result) == CallOf(rounds, Link(old(pending), old(connected)))
      ensures forall k :: 0 <= k < |es| && Starts(es[k]) ==> es[k].seqNum == rounds[k].seqNum && es[k].size == rounds[k].size
      ensures EndsRightly(rounds, es, result)
    {
      CallStarts(rounds, Link(pending, connected));
      CallEnds(rounds, Link(pending, connected));
      result, size, es := Recv(rounds);
      FrameIs(rounds, es);
      number := 0;
      if result == Received {
        number := HandedOut();
      }
    }

    /** The counters after the events from `start`. */
    ghost predicate Along(start: Counters, es: seq<Event>)
      reads this
    {
      Valid() && Inv(start) && Run(start, es) && exact == Final(start, es)
    }

    /** One more round. */
    method DoRoundAfter(r: Round, ghost start: Counters, ghost es: seq<Event>)
      returns (done: bool, result: Result, started: bool, ghost all: seq<Event>)
      requires Along(start, es) && Numbers(start, es) == []
      modifies this
      ensures var t := TurnOf(r, Link(old(pending), old(connected))); all == es + t.events && Turns(t, done, result, t.events)
      ensures Along(start, all) && (all == es || (|all| == |es| + 1 && all[..|es|] == es))
      ensures started == (all != es && Starts(all[|es|])) && (!done ==> all != es)
      ensures Numbers(start, all) == if done && result == Received then [Number(exact)] else []
      ensures done && result == Received ==> all != es && Completes(all[|es|])
      ensures done ==> result != Terminated
    {
      ghost var e: seq<Event>;
      done, result, started, e := DoRound(r);
      if e == [] {
        all := es;
      } else {
        RunSnoc(start, es, e[0]);
        all := es + [e[0]];
        assert all[..|es|] == es;
      }
    }
  }

  lemma FrameAfter(rounds: seq<Round>, all: seq<Event>, i: nat)
    requires i < |rounds| && i <= |all| <= i + 1
    ensures Frame(rounds, all) == if |all| > i && Starts(all[i]) then Some(rounds[i].length) else Frame(rounds, all[..i])
  {
    if |all| == i {
      assert all[..i] == all;
    }
  }

  /** The gap in 64 bits: no gap is added exactly when the number is the end of the last container in 64 bits. */
  lemma GapWraps(missed: int, seqNum: Word64, end: int)
    ensures Wrap(Wrap(missed) + Wrap(seqNum - Wrap(end))) == Wrap(missed + (seqNum - end))
    ensures Wrap(end) == seqNum ==> Wrap(missed) == Wrap(missed + (seqNum - end))
  {
    WrapShift(seqNum - Wrap(end), -(end / WORD64));
    WrapAdds(missed, seqNum - end);
    WrapAdd(missed, seqNum - end);
  }

  // ---------------------------------------------------------------- messages

  lemma {:induction false} PacketInFront(ps: seq<Packet>, n: nat, i: nat, k: nat)
    requires Numbered(ps) && i < n <= |ps| && k < |ps[i].messages|
    ensures ps[i].seqNum + k < Total(ps[..n]) && Unpacked(ps[..n])[ps[i].seqNum + k] == ps[i].messages[k]
    decreases n
  {
    var front := ps[..n - 1];
    assert ps[..n] == front + [ps[n - 1]];
    TotalSnoc(front, ps[n - 1]);
    if i < n - 1 {
      PacketInFront(ps, n - 1, i, k);
    } else {
      assert ps[i].seqNum == Total(front);
    }
  }

  /** The containers with their places in the log of messages: message `k` of a container is `seqNum + k` of the log. */
  lemma PacketInLog(ps: seq<Packet>, i: nat, k: nat)
    requires Numbered(ps) && i < |ps| && k < |ps[i].messages|
    ensures ps[i].seqNum + k < Total(ps) && Unpacked(ps)[ps[i].seqNum + k] == ps[i].messages[k]
  {
    assert ps[..|ps|] == ps;
    PacketInFront(ps, |ps|, i, k);
  }

  /** Containers of one sender that arrive in order, some of them lost, can be counted. */
  lemma SenderFollows(ps: seq<Packet>, i: nat, j: nat, c: Counters)
    requires Numbered(ps) && i < j < |ps| && Inv(c) && !c.pending
    ensures Follows(AfterHeader(c, ps[i].seqNum, |ps[i].messages|), ps[j].seqNum)
    ensures var c' := AfterHeader(c, ps[i].seqNum, |ps[i].messages|);
            var c'' := AfterHeader(c', ps[j].seqNum, |ps[j].messages|);
            c''.missed - c'.missed == Total(ps[..j]) - Total(ps[..i + 1])
  {
    PacketsInOrder(ps, i, j);
    assert ps[..i + 1][..i] == ps[..i];
  }

  /**
   * What the receiver makes of the first two containers of a run without buffering: the second one, number 0 again, does not
   * follow the first, and the gap of minus one makes a missed count of 2^64 - 1.
   */
  lemma UnbufferedMissed(calls: seq<Call>, len: nat)
    requires len >= HEADER_SIZE && |Log(calls, len)| >= 2
    ensures var sent := Ran(calls, len, false).sent;
            && |sent| >= 2
            && var c := AfterHeader(Initial(), sent[0].seqNum, |sent[0].messages|);
               && !Follows(c, sent[1].seqNum)
               && Wrap(AfterHeader(c, sent[1].seqNum, |sent[1].messages|).missed) == WORD64 - 1
  {
    UnbufferedRun(calls, len);
  }

  /** From the second container on, unbuffered containers follow each other, and nothing is counted missed. */
  lemma UnbufferedFollows(calls: seq<Call>, len: nat, i: nat, c: Counters)
    requires len >= HEADER_SIZE && 0 < i && i + 1 < |Log(calls, len)| && Inv(c) && !c.pending
    ensures var sent := Ran(calls, len, false).sent;
            && i + 1 < |sent|
            && var c' := AfterHeader(c, sent[i].seqNum, |sent[i].messages|);
               Follows(c', sent[i + 1].seqNum) && AfterHeader(c', sent[i + 1].seqNum, |sent[i + 1].messages|).missed == c'.missed
  {
    UnbufferedRun(calls, len);
  }

  // ---------------------------------------------------------------- reading a buffer

  /** The buffer of an input interface, from which messages are read one by one. */
  class InputBuffer {
    var buffer: seq<Byte>
    var pointer: nat
    var unread: nat
    var sequence_number: nat

    ghost predicate Valid()
      reads this
    {
      pointer + unread == |buffer|
    }

    /** What has not been read yet. */
    function Unread(): (b: seq<Byte>)
      requires Valid()
      reads this
    {
      buffer[pointer..]
    }

    /** A new buffer has been received with the number of its first message. */
    constructor (buffer: seq<Byte>, number: nat)
      ensures Valid() && Unread() == buffer && sequence_number == number
    {
      this.buffer, pointer, unread, sequence_number := buffer, 0, |buffer|, number;
    }

    /** `trap_read_from_buffer` when there are unread bytes; nothing is returned when fewer bytes are left than the message says. */
    method Next() returns (m: Option<Message>, number: nat)
      requires Valid() && unread >= 2
      modifies this
      ensures Valid() && number == old(sequence_number) && sequence_number == number + 1
      ensures var b := old(Unread());
              var high: int, low: int := b[0], b[1];
              var size := 256 * high + low;
              if |b| < size + 2 then m == None && Unread() == [] else m == Some(b[2..size + 2]) && Unread() == b[size + 2..]
      ensures forall ms :: Read(old(Unread())) == Some(ms) ==>
                |ms| > 0 && m == Some(ms[0]) && Read(Unread()) == Some(ms[1..]) && unread == |Unread()|
    {
      ghost var b := Unread();
      var high: int, low: int := buffer[pointer], buffer[pointer + 1];
      var size := 256 * high + low;
      if unread < size + 2 {
        unread := 0;
        pointer := |buffer|;
        m := None;
        assert Unread() == [];
      } else {
        m := Some(buffer[pointer + 2..pointer + 2 + size]);
        unread := unread - (size + 2);
        pointer := pointer + (size + 2);
        assert Unread() == b[size + 2..];
        assert m.value == b[2..size + 2];
      }
      number := sequence_number;
      sequence_number := sequence_number + 1;
    }
  }

  /** Reading a whole container hands out its messages in order, numbered one by one. */
  method ReadAll(ms: seq<Message>, number: nat) returns (got: seq<Message>, numbers: seq<nat>)
    ensures got == ms && |numbers| == |ms| && forall k :: 0 <= k < |ms| ==> numbers[k] == number + k
  {
    ReadUndoesPayload(ms);
    var input := new InputBuffer(Payload(ms), number);
    got, numbers := [], [];
    while input.unread > 0
      invariant input.Valid() && fresh(input) && |got| <= |ms| && got == ms[..|got|] && |numbers| == |got|
      invariant Read(input.Unread()) == Some(ms[|got|..])
      invariant input.sequence_number == number + |got|
      invariant forall k :: 0 <= k < |numbers| ==> numbers[k] == number + k
      decreases |ms| - |got|
    {
      assert |input.Unread()| == input.unread && input.unread >= 2;
      var m, n := input.Next();
      assert ms[|got|..][0] == ms[|got|] && ms[|got|..][1..] == ms[|got| + 1..];
      got, numbers := got + [m.value], numbers + [n];
    }
    assert input.Unread() == [];
  }
}
