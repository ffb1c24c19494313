/**
 * A container of the TRAP output interface: messages packed one after another behind a header, each preceded by its
 * size in two bytes, most significant first. Reading the packed bytes back gives the messages.
 */
module TrapContainer {
  import opened Bytes
  import opened Options

  /** A message; its size is an unsigned 16-bit number. */
  type Message = m: seq<Byte> | |m| < 0x1_0000

  const HEADER_SIZE: nat := 14

  /** The size field in front of a message, in network byte order. */
  function SizeField(n: nat): (b: seq<Byte>)
    requires n < 0x1_0000
    ensures |b| == 2
  {
    [n / 256, n % 256]
  }

  function Packed(m: Message): (b: seq<Byte>)
    ensures |b| == |m| + 2
  {
    SizeField(|m|) + m
  }

  /** The bytes of the messages in the order they were inserted. */
  function Payload(ms: seq<Message>): (b: seq<Byte>)
  {
    if ms == [] then [] else Payload(ms[..|ms| - 1]) + Packed(ms[|ms| - 1])
  }

  /** Bytes in use in a container with these messages, header included. */
  function Used(ms: seq<Message>): (n: nat)
    ensures n >= HEADER_SIZE
  {
    HEADER_SIZE + |Payload(ms)|
  }

  /** A message takes two bytes at least. */
  lemma {:induction false} UsedBound(ms: seq<Message>)
    ensures HEADER_SIZE + 2 * |ms| <= Used(ms)
  {
    if ms != [] {
      UsedBound(ms[..|ms| - 1]);
    }
  }

  lemma PayloadSnoc(ms: seq<Message>, m: Message)
    ensures Payload(ms + [m]) == Payload(ms) + Packed(m)
  {
    assert (ms + [m])[..|ms|] == ms;
  }

  lemma {:induction false} PayloadCons(m: Message, ms: seq<Message>)
    ensures Payload([m] + ms) == Packed(m) + Payload(ms)
  {
    if ms == [] {
      PayloadSnoc([], m);
      assert [m] + ms == [] + [m];
    } else {
      var n := |ms| - 1;
      PayloadCons(m, ms[..n]);
      LastApart(m, ms);
      PayloadSnoc([m] + ms[..n], ms[n]);
      Grouped(Packed(m), Payload(ms[..n]), Packed(ms[n]));
    }
  }

  lemma LastApart<T>(x: T, s: seq<T>)
    requires s != []
    ensures [x] + s == ([x] + s[..|s| - 1]) + [s[|s| - 1]]
  {
  }

  lemma Grouped<T>(a: seq<T>, b: seq<T>, c: seq<T>)
    ensures a + (b + c) == a + b + c
  {
  }

  /** What the input interface reads from a buffer: message after message, until fewer bytes are left than a message says. */
  function Read(b: seq<Byte>): (ms: Option<seq<Message>>)
    decreases |b|
  {
    if b == [] then Some([])
    else if |b| < 2 then None
    else
      var high: int, low: int := b[0], b[1];
      var size := 256 * high + low;
      if |b| < size + 2 then None
      else
        var rest := Read(b[size + 2..]);
        if rest.None? then None else Some([b[2..size + 2]] + rest.value)
  }

  /** Reading back undoes packing. */
  lemma {:induction false} ReadUndoesPayload(ms: seq<Message>)
    ensures Read(Payload(ms)) == Some(ms)
  {
    if ms != [] {
      var m, rest := ms[0], ms[1..];
      PayloadCons(m, rest);
      assert ms == [m] + rest;
      ReadUndoesPayload(rest);
      var b := Payload(ms);
      assert b == Packed(m) + Payload(rest);
      assert b[0] == |m| / 256 && b[1] == |m| % 256;
      assert b[2..|m| + 2] == m && b[|m| + 2..] == Payload(rest);
    }
  }

  /** The header in front of a sent container: the length of its payload, its number, and how many messages it has. */
  datatype Header = Header(length: nat, seqNum: nat, size: nat)

  /** The length goes in network byte order, number and size in the order of the machine, least significant byte first. */
  function HeaderBytes(h: Header): (b: seq<Byte>)
    ensures |b| == HEADER_SIZE
  {
    Big(h.length, 4) + Little(h.seqNum, 8) + Little(h.size, 2)
  }

  /** What a receiver makes of the header. */
  function ReadHeader(b: seq<Byte>): (h: Header)
    requires |b| == HEADER_SIZE
  {
    Header(FromBig(b[..4]), FromLittle(b[4..12]), FromLittle(b[12..]))
  }

  /** A header is read back, each field as far as its bytes can hold it. */
  lemma HeaderReadBack(h: Header)
    ensures ReadHeader(HeaderBytes(h)) == Header(h.length % Pow256(4), h.seqNum % Pow256(8), h.size % Pow256(2))
  {
    var b := HeaderBytes(h);
    assert b[..4] == Big(h.length, 4) && b[4..12] == Little(h.seqNum, 8) && b[12..] == Little(h.size, 2);
    BigBack(h.length, 4);
    LittleBack(h.seqNum, 8);
    LittleBack(h.size, 2);
  }

  lemma CutInTwo<T>(s: seq<T>, from: nat, at: nat, end: nat)
    requires from <= at <= end <= |s|
    ensures s[from..end] == s[from..at] + s[at..end]
  {
  }

  /** The header byte by byte: the length from its highest byte, the number and the size from their lowest. */
  lemma HeaderLayout(h: Header)
    ensures var b := HeaderBytes(h);
            && b[0] == h.length / 0x100_0000 % 256 && b[1] == h.length / 0x1_0000 % 256
            && b[2] == h.length / 0x100 % 256 && b[3] == h.length % 256
            && b[4] == h.seqNum % 256 && b[5] == h.seqNum / 0x100 % 256
            && b[6] == h.seqNum / 0x1_0000 % 256 && b[7] == h.seqNum / 0x100_0000 % 256
            && b[8] == h.seqNum / 0x1_0000_0000 % 256 && b[9] == h.seqNum / 0x100_0000_0000 % 256
            && b[10] == h.seqNum / 0x1_0000_0000_0000 % 256 && b[11] == h.seqNum / 0x100_0000_0000_0000 % 256
            && b[12] == h.size % 256 && b[13] == h.size / 0x100 % 256
  {
    SmallPowers();
    LengthBytes(h.length);
    NumberBytes(h.seqNum);
    LittleAt(h.size, 2, 0);
    LittleAt(h.size, 2, 1);
    ThreeParts(Big(h.length, 4), Little(h.seqNum, 8), Little(h.size, 2));
  }

  lemma LengthBytes(n: nat)
    ensures forall i :: 0 <= i < 4 ==> Big(n, 4)[3 - i] == n / Pow256(i) % 256
  {
    forall i | 0 <= i < 4
      ensures Big(n, 4)[3 - i] == n / Pow256(i) % 256
    {
      BigAt(n, 4, i);
    }
  }

  lemma NumberBytes(n: nat)
    ensures forall i :: 0 <= i < 8 ==> Little(n, 8)[i] == n / Pow256(i) % 256
  {
    forall i | 0 <= i < 8
      ensures Little(n, 8)[i] == n / Pow256(i) % 256
    {
      LittleAt(n, 8, i);
    }
  }

  lemma ThreeParts<T>(a: seq<T>, b: seq<T>, c: seq<T>)
    ensures forall i :: 0 <= i < |a| ==> (a + b + c)[i] == a[i]
    ensures forall i :: 0 <= i < |b| ==> (a + b + c)[|a| + i] == b[i]
    ensures forall i :: 0 <= i < |c| ==> (a + b + c)[|a| + |b| + i] == c[i]
  {
  }

  class Container {
    const buffer: array<Byte>
    var seq_num: nat
    var size: nat
    var used_bytes: nat
    ghost var messages: seq<Message>

    ghost predicate Valid()
      reads this, buffer
    {
      && size == |messages|
      && used_bytes == Used(messages) <= buffer.Length
      && buffer[HEADER_SIZE..used_bytes] == Payload(messages)
    }

    /** `t_cont_init`. */
    constructor (len: nat)
      requires len >= HEADER_SIZE
      ensures Valid() && fresh(buffer) && buffer.Length == len && messages == [] && seq_num == 0
    {
      buffer := new Byte[len](i => 0);
      seq_num, size, used_bytes, messages := 0, 0, HEADER_SIZE, [];
    }

    /** `t_cont_has_space`. */
    predicate HasSpace(n: nat)
      requires used_bytes <= buffer.Length
      reads this
    {
      buffer.Length - used_bytes >= n
    }

    /** `t_cont_insert`. */
    method Insert(m: Message)
      requires Valid() && HasSpace(|m| + 2)
      modifies this`size, this`used_bytes, this`messages, buffer
      ensures Valid() && messages == old(messages) + [m]
      ensures used_bytes == old(used_bytes) + 2 + |m|
      ensures buffer[old(used_bytes)] == |m| / 256 && buffer[old(used_bytes) + 1] == |m| % 256
      ensures buffer[old(used_bytes) + 2..used_bytes] == m
    {
      ghost var was := buffer[HEADER_SIZE..used_bytes];
      var at := used_bytes;
      buffer[at] := |m| / 256;
      buffer[at + 1] := |m| % 256;
      Copy(m, at + 2);
      used_bytes := used_bytes + |m| + 2;
      size := size + 1;
      PayloadSnoc(messages, m);
      messages := messages + [m];
      assert buffer[HEADER_SIZE..at] == was;
      assert buffer[at..used_bytes] == SizeField(|m|) + m;
      CutInTwo(buffer[..], HEADER_SIZE, at, used_bytes);
    }

    /** Copies bytes into the buffer. */
    method Copy(m: seq<Byte>, at: nat)
      requires at + |m| <= buffer.Length
      modifies buffer
      ensures buffer[at..at + |m|] == m
      ensures forall i :: 0 <= i < buffer.Length && !(at <= i < at + |m|) ==> buffer[i] == old(buffer[i])
    {
      var i := 0;
      while i < |m|
        invariant i <= |m|
        invariant forall k :: 0 <= k < i ==> buffer[at + k] == m[k]
        invariant forall k :: 0 <= k < buffer.Length && !(at <= k < at + i) ==> buffer[k] == old(buffer[k])
      {
        buffer[at + i] := m[i];
        i := i + 1;
      }
    }

    /** `t_cont_write_header`: the header goes in front of the messages. */
    method WriteHeader()
      requires Valid()
      modifies buffer
      ensures Valid()
      ensures buffer[..HEADER_SIZE] == HeaderBytes(Header(|Payload(messages)|, seq_num, |messages|))
    {
      ghost var was := buffer[HEADER_SIZE..used_bytes];
      Copy(HeaderBytes(Header(used_bytes - HEADER_SIZE, seq_num, size)), 0);
      assert buffer[HEADER_SIZE..used_bytes] == was;
    }
  }
}
