/**
 * The TRAP output interface numbers messages: the containers it sends follow each other in the message numbers without a
 * gap or an overlap, as long as it buffers. Without buffering every container but the first is numbered one message too low.
 */
module TrapSender {
  import opened Bytes
  import opened Options
  import opened TrapContainer

  /** A finished container: the number in its header and the messages it carries. */
  datatype Packet = Packet(seqNum: nat, messages: seq<Message>)

  /** What was sent, the messages and the number of the open container, and how many messages were processed. */
  datatype Output = Output(sent: seq<Packet>, open: seq<Message>, first: nat, processed: nat)

  function Start(): (o: Output)
  {
    Output([], [], 0, 0)
  }

  /** The open container is sent and an empty one opened, numbered by the messages processed so far. */
  function Finished(o: Output): (o': Output)
  {
    Output(o.sent + [Packet(o.first, o.open)], [], o.processed, o.processed)
  }

  predicate Fits(m: Message, len: nat)
    requires len >= HEADER_SIZE
  {
    |m| + 2 <= len - HEADER_SIZE
  }

  /** `tcpip_sender_send` in a container of `len` bytes. */
  function Sent(o: Output, m: Message, len: nat, buffering: bool): (o': Output)
    requires len >= HEADER_SIZE
  {
    if !Fits(m, len) then o
    else
      var o1 := if Used(o.open) + |m| + 2 <= len then o.(open := o.open + [m]) else Finished(o).(open := [m]);
      var o2 := if buffering then o1 else Finished(o1);
      o2.(processed := o2.processed + 1)
  }

  /** `tcpip_sender_flush`. */
  function Flushed(o: Output): (o': Output)
  {
    if Used(o.open) == HEADER_SIZE then o else Finished(o)
  }

  // ---------------------------------------------------------------- tiling

  /** Messages in the packets. */
  function Total(ps: seq<Packet>): (n: nat)
  {
    if ps == [] then 0 else Total(ps[..|ps| - 1]) + |ps[|ps| - 1].messages|
  }

  /** All messages in the packets, in order. */
  function Unpacked(ps: seq<Packet>): (ms: seq<Message>)
    ensures |ms| == Total(ps)
  {
    if ps == [] then [] else Unpacked(ps[..|ps| - 1]) + ps[|ps| - 1].messages
  }

  /** Every packet is numbered by the messages before it, and carries some. */
  predicate Numbered(ps: seq<Packet>)
  {
    forall i :: 0 <= i < |ps| ==> ps[i].seqNum == Total(ps[..i]) && ps[i].messages != []
  }

  /** The packets and the open container tile the messages of `log`. */
  predicate Tiled(o: Output, log: seq<Message>, len: nat)
  {
    && Numbered(o.sent)
    && o.first == Total(o.sent)
    && o.processed == |log|
    && Unpacked(o.sent) + o.open == log
    && Used(o.open) <= len
    && forall i :: 0 <= i < |o.sent| ==> Used(o.sent[i].messages) <= len
  }

  lemma TotalSnoc(ps: seq<Packet>, p: Packet)
    ensures Total(ps + [p]) == Total(ps) + |p.messages|
    ensures Unpacked(ps + [p]) == Unpacked(ps) + p.messages
  {
    assert (ps + [p])[..|ps|] == ps;
  }

  lemma NumberedSnoc(ps: seq<Packet>, p: Packet)
    requires Numbered(ps) && p.seqNum == Total(ps) && p.messages != []
    ensures Numbered(ps + [p])
  {
    var all := ps + [p];
    forall i | 0 <= i < |all|
      ensures all[i].seqNum == Total(all[..i]) && all[i].messages != []
    {
      assert all[..i] == if i < |ps| then ps[..i] else ps;
    }
  }

  lemma FinishTiles(o: Output, log: seq<Message>, len: nat)
    requires Tiled(o, log, len) && o.open != [] && len >= HEADER_SIZE
    ensures Tiled(Finished(o), log, len)
  {
    var p := Packet(o.first, o.open);
    TotalSnoc(o.sent, p);
    NumberedSnoc(o.sent, p);
  }

  /** A message goes to the log unless it is too large for any container. */
  function Logged(log: seq<Message>, m: Message, len: nat): (log': seq<Message>)
    requires len >= HEADER_SIZE
  {
    if Fits(m, len) then log + [m] else log
  }

  lemma OpenTakes(o: Output, log: seq<Message>, m: Message, len: nat)
    requires Tiled(o, log, len) && len >= HEADER_SIZE && Fits(m, len)
    requires o.open == [] || Used(o.open) + |m| + 2 <= len
    ensures Tiled(o.(open := o.open + [m], processed := o.processed + 1), log + [m], len)
  {
    PayloadSnoc(o.open, m);
    assert Unpacked(o.sent) + (o.open + [m]) == (Unpacked(o.sent) + o.open) + [m];
  }

  /** Sending with buffering on keeps the tiling. */
  lemma SendTiles(o: Output, log: seq<Message>, m: Message, len: nat)
    requires Tiled(o, log, len) && len >= HEADER_SIZE
    ensures Tiled(Sent(o, m, len, true), Logged(log, m, len), len)
  {
    if Fits(m, len) {
      if Used(o.open) + |m| + 2 <= len {
        OpenTakes(o, log, m, len);
      } else {
        FinishTiles(o, log, len);
        OpenTakes(Finished(o), log, m, len);
        assert [] + [m] == [m];
      }
    }
  }

  lemma FlushTiles(o: Output, log: seq<Message>, len: nat)
    requires Tiled(o, log, len) && len >= HEADER_SIZE
    ensures Tiled(Flushed(o), log, len) && Flushed(o).open == []
  {
    UsedBound(o.open);
    if o.open != [] {
      FinishTiles(o, log, len);
    }
  }

  /** One send keeps the tiling exactly when it buffers or drops its message as too large. */
  lemma SendTilesIff(o: Output, log: seq<Message>, m: Message, len: nat, buffering: bool)
    requires Tiled(o, log, len) && len >= HEADER_SIZE
    ensures Tiled(Sent(o, m, len, buffering), Logged(log, m, len), len) <==> buffering || !Fits(m, len)
  {
    SendTiles(o, log, m, len);
    if !buffering && Fits(m, len) {
      var o1 := if Used(o.open) + |m| + 2 <= len then o.(open := o.open + [m]) else Finished(o).(open := [m]);
      TotalSnoc(o1.sent, Packet(o1.first, o1.open));
      var p := Packet(o.first, o.open);
      TotalSnoc(o.sent, p);
      assert Total(Finished(o1).sent) == |log| + 1;
      assert Finished(o1).first == |log|;
    }
  }

  /** What a send does, in bytes: a message too large for any container is dropped, every other one is behind what was there. */
  lemma SentKeepsAll(o: Output, m: Message, len: nat, buffering: bool)
    requires len >= HEADER_SIZE
    ensures var o' := Sent(o, m, len, buffering);
            && (|m| + 16 > len ==> o' == o)
            && (|m| + 16 <= len ==>
                  && Unpacked(o'.sent) + o'.open == Unpacked(o.sent) + o.open + [m] && o'.processed == o.processed + 1
                  && (!buffering ==> o'.open == []))
  {
    if |m| + 16 <= len {
      var o1 := if Used(o.open) + |m| + 2 <= len then o.(open := o.open + [m]) else Finished(o).(open := [m]);
      TotalSnoc(o.sent, Packet(o.first, o.open));
      Grouped(Unpacked(o.sent), o.open, [m]);
      assert Unpacked(o1.sent) + o1.open == Unpacked(o.sent) + o.open + [m];
      TotalSnoc(o1.sent, Packet(o1.first, o1.open));
      assert Unpacked(Finished(o1).sent) + [] == Unpacked(Finished(o1).sent);
    }
  }

  /** The message fills the open container if it fits behind the others; else these are sent, and it is the first of the next one. */
  predicate Fills(o: Output, m: Message, len: nat, o': Output)
  {
    if 14 + |Payload(o.open)| + |m| + 2 <= len then o'.sent == o.sent && o'.open == o.open + [m] && o'.first == o.first
    else o'.sent == o.sent + [Packet(o.first, o.open)] && o'.open == [m] && o'.first == o.processed
  }

  /** A flush sends the open container if it has a message. */
  lemma FlushedKeepsAll(o: Output)
    ensures Flushed(o) == if o.open == [] then o else Output(o.sent + [Packet(o.first, o.open)], [], o.processed, o.processed)
    ensures Unpacked(Flushed(o).sent) + Flushed(o).open == Unpacked(o.sent) + o.open
  {
    UsedBound(o.open);
    TotalSnoc(o.sent, Packet(o.first, o.open));
    assert Unpacked(o.sent) + o.open + [] == Unpacked(o.sent) + o.open;
  }

  // ---------------------------------------------------------------- runs

  datatype Call = Send(m: Message) | Flush

  function Ran(calls: seq<Call>, len: nat, buffering: bool): (o: Output)
    requires len >= HEADER_SIZE
    decreases |calls|
  {
    if calls == [] then Start()
    else
      var o := Ran(calls[..|calls| - 1], len, buffering);
      match calls[|calls| - 1]
      case Send(m) => Sent(o, m, len, buffering)
      case Flush => Flushed(o)
  }

  /** The messages of a run that fit, in order. */
  function Log(calls: seq<Call>, len: nat): (log: seq<Message>)
    requires len >= HEADER_SIZE
    decreases |calls|
  {
    if calls == [] then []
    else
      var log := Log(calls[..|calls| - 1], len);
      match calls[|calls| - 1]
      case Send(m) => Logged(log, m, len)
      case Flush => log
  }

  /** The messages of the calls that have at most `limit` bytes, in order. */
  function MessagesOf(calls: seq<Call>, limit: int): (ms: seq<Message>)
  {
    if calls == [] then []
    else (if calls[0].Send? && |calls[0].m| <= limit then [calls[0].m] else []) + MessagesOf(calls[1..], limit)
  }

  lemma {:induction false} MessagesSnoc(calls: seq<Call>, limit: int)
    requires calls != []
    ensures var n := |calls| - 1;
            MessagesOf(calls, limit)
            == MessagesOf(calls[..n], limit) + (if calls[n].Send? && |calls[n].m| <= limit then [calls[n].m] else [])
  {
    var n := |calls| - 1;
    if n > 0 {
      MessagesSnoc(calls[1..], limit);
      assert calls[..n][1..] == calls[1..][..n - 1];
    }
  }

  /** The log of a run has exactly its messages of at most `len` - 16 bytes, in order. */
  lemma {:induction false} LogIsMessages(calls: seq<Call>, len: nat)
    requires len >= HEADER_SIZE
    ensures Log(calls, len) == MessagesOf(calls, len - 16)
    decreases |calls|
  {
    if calls != [] {
      LogIsMessages(calls[..|calls| - 1], len);
      MessagesSnoc(calls, len - 16);
    }
  }

  /** After every run with buffering on, the containers tile the messages that were sent. */
  lemma {:induction false} RunTiles(calls: seq<Call>, len: nat)
    requires len >= HEADER_SIZE
    ensures Tiled(Ran(calls, len, true), Log(calls, len), len)
    decreases |calls|
  {
    if calls != [] {
      var n := |calls| - 1;
      RunTiles(calls[..n], len);
      match calls[n]
      case Send(m) => SendTiles(Ran(calls[..n], len, true), Log(calls[..n], len), m, len);
      case Flush => FlushTiles(Ran(calls[..n], len, true), Log(calls[..n], len), len);
    }
  }

  /** The number of container `i` when every message has a container of its own. */
  function LateBy(i: nat): (seqNum: nat)
  {
    if i == 0 then 0 else i - 1
  }

  /** Every message of the log is in a container of its own, which is numbered one too low unless it is the first. */
  predicate OneEach(o: Output, log: seq<Message>)
  {
    && o.open == [] && o.processed == |log| == |o.sent| && o.first == LateBy(|log|)
    && forall i :: 0 <= i < |log| ==> o.sent[i] == Packet(LateBy(i), [log[i]])
  }

  /** What an unbuffered run sends. */
  lemma {:induction false} UnbufferedRun(calls: seq<Call>, len: nat)
    requires len >= HEADER_SIZE
    ensures OneEach(Ran(calls, len, false), Log(calls, len))
    decreases |calls|
  {
    if calls != [] {
      UnbufferedRun(calls[..|calls| - 1], len);
      assert Used([]) == HEADER_SIZE;
    }
  }

  lemma {:induction false} OneEachTotal(ps: seq<Packet>)
    requires forall i :: 0 <= i < |ps| ==> |ps[i].messages| == 1
    ensures Total(ps) == |ps|
  {
    if ps != [] {
      OneEachTotal(ps[..|ps| - 1]);
    }
  }

  /** The containers of a run tile its messages exactly when it buffers, or sends nothing at all. */
  lemma RunTilesIff(calls: seq<Call>, len: nat, buffering: bool)
    requires len >= HEADER_SIZE
    ensures Tiled(Ran(calls, len, buffering), Log(calls, len), len) <==> buffering || Log(calls, len) == []
  {
    if buffering {
      RunTiles(calls, len);
    } else {
      UnbufferedRun(calls, len);
      var o := Ran(calls, len, false);
      OneEachTotal(o.sent);
      assert Used([]) == HEADER_SIZE;
    }
  }

  /** Packets follow each other in the message numbers: the next one starts where the last one ends, a later one not before. */
  lemma {:induction false} PacketsInOrder(ps: seq<Packet>, i: nat, j: nat)
    requires Numbered(ps) && i < j < |ps|
    ensures ps[i].seqNum + |ps[i].messages| <= ps[j].seqNum
    ensures j == i + 1 ==> ps[i].seqNum + |ps[i].messages| == ps[j].seqNum
    decreases j
  {
    assert ps[..j][..j - 1] == ps[..j - 1] && ps[..j][j - 1] == ps[j - 1];
    assert Total(ps[..j]) == Total(ps[..j - 1]) + |ps[j - 1].messages|;
    if i < j - 1 {
      PacketsInOrder(ps, i, j - 1);
    }
  }

  // ---------------------------------------------------------------- the size in the header

  const SIZES: nat := 0x1_0000

  /** The 16-bit size in the header is right for every container that can be sent exactly when containers are shorter than this. */
  const EXACT_LENGTH: nat := 131086

  lemma FewMessages(ms: seq<Message>, len: nat)
    requires Used(ms) <= len < EXACT_LENGTH
    ensures |ms| < SIZES
  {
    UsedBound(ms);
  }

  /** The bytes of a finished container. */
  function Wire(p: Packet): (b: seq<Byte>)
  {
    HeaderBytes(Header(|Payload(p.messages)|, p.seqNum, |p.messages|)) + Payload(p.messages)
  }

  /** What a receiver reads from the bytes of a container: its messages, and a size in 16 bits. */
  lemma WireReadBack(p: Packet)
    ensures |Wire(p)| >= HEADER_SIZE && Read(Wire(p)[HEADER_SIZE..]) == Some(p.messages)
    ensures ReadHeader(Wire(p)[..HEADER_SIZE]) == Header(|Payload(p.messages)| % Pow256(4), p.seqNum % Pow256(8), |p.messages| % SIZES)
  {
    var h := Header(|Payload(p.messages)|, p.seqNum, |p.messages|);
    assert Wire(p)[..HEADER_SIZE] == HeaderBytes(h) && Wire(p)[HEADER_SIZE..] == Payload(p.messages);
    HeaderReadBack(h);
    ReadUndoesPayload(p.messages);
    assert Pow256(2) == 256 * (256 * Pow256(0));
  }

  lemma SaysSize(p: Packet)
    ensures |Wire(p)| >= HEADER_SIZE && ReadHeader(Wire(p)[..HEADER_SIZE]).size == |p.messages| % SIZES
  {
    WireReadBack(p);
  }

  /** In a container of a length below that, as all containers of a tiled output are, the size read is the number of messages. */
  lemma HeaderExact(p: Packet, len: nat)
    requires Used(p.messages) <= len < EXACT_LENGTH
    ensures |Wire(p)| >= HEADER_SIZE && ReadHeader(Wire(p)[..HEADER_SIZE]).size == |p.messages|
  {
    FewMessages(p.messages, len);
    SaysSize(p);
  }

  /** A run of `n` empty messages fills one container while they fit. */
  lemma {:induction false} EmptyMessages(n: nat, len: nat)
    requires HEADER_SIZE + 2 * n <= len && len >= HEADER_SIZE + 2
    ensures Ran(seq(n, i => Send([])), len, true) == Output([], seq(n, i => []), 0, n)
    ensures Used(seq(n, i => [])) == HEADER_SIZE + 2 * n
  {
    if n > 0 {
      EmptyMessages(n - 1, len);
      assert seq(n, i => Send([]))[..n - 1] == seq(n - 1, i => Send([]));
      var open: seq<Message>, less: seq<Message> := seq(n, i => []), seq(n - 1, i => []);
      assert open == less + [[]];
      PayloadSnoc(less, []);
    }
  }

  /** In longer containers there is a run whose container of 65536 messages says that it has none. */
  lemma HeaderWraps(len: nat)
    requires len >= EXACT_LENGTH
    ensures exists calls :: SaysNone(Ran(calls, len, true).sent)
  {
    var sends: seq<Call> := seq(SIZES, i => Send([]));
    EmptyMessages(SIZES, len);
    var calls := sends + [Flush];
    assert calls[..SIZES] == sends;
    var sent := Ran(calls, len, true).sent;
    assert |sent| == 1 && |sent[0].messages| == SIZES;
    SaysSize(sent[0]);
    assert SaysNone(Ran(calls, len, true).sent);
  }

  /** One container of 65536 messages, with a size of 0 in its header. */
  predicate SaysNone(sent: seq<Packet>)
  {
    && |sent| == 1 && |sent[0].messages| == SIZES
    && |Wire(sent[0])| >= HEADER_SIZE && ReadHeader(Wire(sent[0])[..HEADER_SIZE]).size == 0
  }

  // ---------------------------------------------------------------- the interface

  class Sender {
    const length: nat
    const buffering: bool
    var active: Container
    var processed_messages: nat
    var wires: seq<seq<Byte>>   // what was sent
    ghost var output: Output

    ghost predicate Valid()
      reads this, active, active.buffer
    {
      && length >= HEADER_SIZE
      && active.Valid() && active.buffer.Length == length
      && output.open == active.messages && output.first == active.seq_num && output.processed == processed_messages
      && |wires| == |output.sent|
      && forall i :: 0 <= i < |wires| ==> wires[i] == Wire(output.sent[i])
    }

    constructor (length: nat, buffering: bool)
      requires length >= HEADER_SIZE
      ensures Valid() && fresh(active) && fresh(active.buffer) && output == Start()
      ensures this.length == length && this.buffering == buffering
    {
      this.length, this.buffering, processed_messages, wires, output := length, buffering, 0, [], Start();
      active := new Container(length);
    }

    /** `finish_container`, and an empty container in place of the one sent. */
    method FinishContainer()
      requires Valid()
      modifies this`active, this`wires, this`output, active.buffer
      ensures Valid() && output == Finished(old(output)) && fresh(active) && fresh(active.buffer)
    {
      active.WriteHeader();
      ghost var p := Packet(output.first, output.open);
      assert active.buffer[..active.used_bytes] == active.buffer[..HEADER_SIZE] + active.buffer[HEADER_SIZE..active.used_bytes];
      wires := wires + [active.buffer[..active.used_bytes]];
      assert wires[|wires| - 1] == Wire(p);
      active := new Container(length);
      active.seq_num := processed_messages;
      output := Finished(output);
    }

    /** The message goes to the open container, or to a new one when it has no space. */
    method Take(m: Message)
      requires Valid() && Fits(m, length)
      modifies this`active, this`wires, this`output, active, active.buffer
      ensures Valid() && (active == old(active) || (fresh(active) && fresh(active.buffer)))
      ensures output == var o := old(output);
                        if Used(o.open) + |m| + 2 <= length then o.(open := o.open + [m]) else Finished(o).(open := [m])
    {
      if active.HasSpace(|m| + 2) {
        active.Insert(m);
        output := output.(open := output.open + [m]);
      } else {
        FinishContainer();
        active.Insert(m);
        output := output.(open := [m]);
      }
    }

    /** Stores a message that fits, and sends its container when there is no buffering. */
    method Store(m: Message)
      requires Valid() && Fits(m, length)
      modifies this, active, active.buffer
      ensures Valid() && output == Sent(old(output), m, length, buffering)
      ensures active == old(active) || (fresh(active) && fresh(active.buffer))
    {
      Take(m);
      if !buffering {
        FinishContainer();
      }
      processed_messages := processed_messages + 1;
      output := output.(processed := output.processed + 1);
    }

    /** `tcpip_sender_send`: drops a message too large for any container, and keeps every other one behind all that was sent. */
    method Send(m: Message)
      requires Valid()
      modifies this, active, active.buffer
      ensures Valid() && output == Sent(old(output), m, length, buffering)
      ensures |m| + 16 > length ==> output == old(output)
      ensures |m| + 16 <= length ==>
                Unpacked(output.sent) + output.open == Unpacked(old(output.sent)) + old(output.open) + [m]
      ensures |m| + 16 <= length && buffering ==> Fills(old(output), m, length, output)
      ensures active == old(active) || (fresh(active) && fresh(active.buffer))
    {
      SentKeepsAll(output, m, length, buffering);
      if |m| + 2 <= length - HEADER_SIZE {
        Store(m);
      }
    }

    /** `tcpip_sender_flush`. */
    method Flush()
      requires Valid()
      modifies this`active, this`wires, this`output, active.buffer
      ensures Valid() && output == Flushed(old(output)) && output.open == []
      ensures Unpacked(output.sent) == Unpacked(old(output.sent)) + old(output.open)
      ensures active == old(active) || (fresh(active) && fresh(active.buffer))
    {
      FlushedKeepsAll(output);
      UsedBound(output.open);
      if active.used_bytes == HEADER_SIZE {
        assert Unpacked(output.sent) + [] == Unpacked(output.sent);
        return;
      }
      FinishContainer();
    }
  }
}
