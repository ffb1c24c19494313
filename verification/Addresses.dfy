/**
 * IP addresses as the prefix search sees them: a string of 32 or 128 bits in network order,
 * compared and counted as the natural number it denotes.
 */
module Addresses {
  import opened Arithmetic
  import opened Bytes

  // ---------------------------------------------------------------- bit strings

  type Bits = seq<bool>

  /** The number an address denotes, most significant bit first. */
  function Value(b: Bits): (v: nat)
  {
    if b == [] then 0
    else 2 * Value(b[..|b| - 1]) + (if b[|b| - 1] then 1 else 0)
  }

  lemma Regroup(x: nat, p: nat, y: nat, digit: nat)
    ensures 2 * (x * p + y) + digit == x * (2 * p) + (2 * y + digit)
  {
    assert x * (2 * p) == 2 * (x * p);
  }

  lemma {:induction false} ValueConcat(a: Bits, b: Bits)
    ensures Value(a + b) == Value(a) * Pow2(|b|) + Value(b)
    decreases |b|
  {
    if b == [] {
      assert a + b == a;
    } else {
      var b' := b[..|b| - 1];
      assert (a + b)[..|a + b| - 1] == a + b';
      ValueConcat(a, b');
      Regroup(Value(a), Pow2(|b'|), Value(b'), if b[|b| - 1] then 1 else 0);
    }
  }

  lemma {:induction false} ValueBound(b: Bits)
    ensures Value(b) < Pow2(|b|)
    decreases |b|
  {
    if b != [] {
      ValueBound(b[..|b| - 1]);
    }
  }

  /** Row `mask` of the table of every possible network mask: `mask` ones, then zeros. */
  function NetMask(width: nat, mask: nat): (m: Bits)
    ensures |m| == width
  {
    seq(width, i => i < mask)
  }

  /** `addr & mask`, the low address of a network. */
  function And(addr: Bits, mask: Bits): (r: Bits)
    requires |addr| == |mask|
    ensures |r| == |addr|
  {
    seq(|addr|, i requires 0 <= i < |addr| => addr[i] && mask[i])
  }

  /** `addr | ~mask`, the broadcast address of a network. */
  function OrNot(addr: Bits, mask: Bits): (r: Bits)
    requires |addr| == |mask|
    ensures |r| == |addr|
  {
    seq(|addr|, i requires 0 <= i < |addr| => addr[i] || !mask[i])
  }

  lemma {:induction false} ValueZeros(n: nat)
    ensures Value(seq(n, _ => false)) == 0
  {
    if n > 0 {
      assert seq(n, _ => false)[..n - 1] == seq(n - 1, _ => false);
      ValueZeros(n - 1);
    }
  }

  lemma {:induction false} ValueOnes(n: nat)
    ensures Value(seq(n, _ => true)) == Pow2(n) - 1
  {
    if n > 0 {
      assert seq(n, _ => true)[..n - 1] == seq(n - 1, _ => true);
      ValueOnes(n - 1);
    }
  }

  /**
   * Masking turns an address into the ends of an aligned block of Pow2(host bits) addresses:
   * the low end has all host bits clear, the high end has them all set.
   */
  lemma MaskedBlock(addr: Bits, mask: nat)
    requires mask <= |addr|
    ensures var m := NetMask(|addr|, mask);
            var host := Pow2(|addr| - mask);
            && Value(And(addr, m)) == Value(addr[..mask]) * host
            && Value(OrNot(And(addr, m), m)) == Value(addr[..mask]) * host + host - 1
  {
    var n := |addr| - mask;
    var m := NetMask(|addr|, mask);
    assert And(addr, m) == addr[..mask] + seq(n, _ => false);
    assert OrNot(And(addr, m), m) == addr[..mask] + seq(n, _ => true);
    ValueConcat(addr[..mask], seq(n, _ => false));
    ValueConcat(addr[..mask], seq(n, _ => true));
    ValueZeros(n);
    ValueOnes(n);
  }

  lemma {:induction false} ValueInjective(a: Bits, b: Bits)
    requires |a| == |b| && Value(a) == Value(b)
    ensures a == b
    decreases |a|
  {
    if a != [] {
      ValueInjective(a[..|a| - 1], b[..|b| - 1]);
      assert a == a[..|a| - 1] + [a[|a| - 1]];
      assert b == b[..|b| - 1] + [b[|b| - 1]];
    }
  }

  /**
   * Longest-prefix semantics: an address lies between the two ends of a masked network exactly
   * when its first `mask` bits are those of the network.
   */
  lemma PrefixMatchIsInterval(addr: Bits, mask: nat, x: Bits)
    requires mask <= |addr| == |x|
    ensures var m := NetMask(|addr|, mask);
            x[..mask] == addr[..mask]
            <==> Value(And(addr, m)) <= Value(x) <= Value(OrNot(And(addr, m), m))
  {
    var host := Pow2(|addr| - mask);
    var p, q, t := Value(addr[..mask]), Value(x[..mask]), Value(x[mask..]);
    MaskedBlock(addr, mask);
    assert x == x[..mask] + x[mask..];
    ValueConcat(x[..mask], x[mask..]);
    ValueBound(x[mask..]);
    SameBlock(p, q, host, t);
    if p == q {
      ValueInjective(addr[..mask], x[..mask]);
    }
  }

  lemma {:induction false} MulStep(p: nat, q: nat, size: nat)
    requires p < q
    ensures p * size + size <= q * size
    decreases q
  {
    assert q * size == (q - 1) * size + size;
    if p < q - 1 {
      MulStep(p, q - 1, size);
    }
  }

  lemma SameBlock(p: nat, q: nat, size: nat, t: nat)
    requires t < size
    ensures p == q <==> p * size <= q * size + t <= p * size + size - 1
  {
    if p < q {
      MulStep(p, q, size);
    } else if q < p {
      MulStep(q, p, size);
    }
  }

  /** The comparison of two addresses in network order: the sign is decided by the first differing bit. */
  function Compare(a: Bits, b: Bits): (c: int)
    requires |a| == |b|
  {
    if a == [] then 0
    else if a[0] != b[0] then (if a[0] then 1 else -1)
    else Compare(a[1..], b[1..])
  }

  /** Comparing addresses in network order compares the numbers. */
  lemma {:induction false} CompareIsNumeric(a: Bits, b: Bits)
    requires |a| == |b|
    ensures Compare(a, b) < 0 <==> Value(a) < Value(b)
    ensures Compare(a, b) == 0 <==> Value(a) == Value(b)
    decreases |a|
  {
    if a != [] {
      LeadingBit(a);
      LeadingBit(b);
      CompareIsNumeric(a[1..], b[1..]);
    }
  }

  /** The bytes of an address in network order. */
  function BytesOf(a: Bits): (b: seq<Byte>)
    requires |a| % 8 == 0
    ensures |b| == |a| / 8
  {
    if a == [] then []
    else
      EightBits(a[|a| - 8..]);
      BytesOf(a[..|a| - 8]) + [Value(a[|a| - 8..])]
  }

  lemma EightBits(a: Bits)
    requires |a| == 8
    ensures Value(a) < 256 && Pow2(8) == 256
  {
    ValueBound(a);
    assert Pow2(8) == 2 * (2 * (2 * (2 * Pow2(4)))) && Pow2(4) == 2 * (2 * (2 * (2 * Pow2(0))));
  }

  lemma {:induction false} BytesValue(a: Bits)
    requires |a| % 8 == 0
    ensures FromBig(BytesOf(a)) == Value(a)
    decreases |a|
  {
    if a != [] {
      var front, last := a[..|a| - 8], a[|a| - 8..];
      BytesValue(front);
      EightBits(last);
      assert a == front + last;
      ValueConcat(front, last);
      assert BytesOf(a)[..|a| / 8 - 1] == BytesOf(front);
    }
  }

  /** `memcmp`: the sign of the first difference. */
  function MemCmp(a: seq<Byte>, b: seq<Byte>): (c: int)
    requires |a| == |b|
  {
    if a == [] then 0
    else
      var x: int, y: int := a[|a| - 1], b[|b| - 1];
      var c := MemCmp(a[..|a| - 1], b[..|b| - 1]);
      if c != 0 then c else x - y
  }

  lemma {:induction false} MemCmpIsNumeric(a: seq<Byte>, b: seq<Byte>)
    requires |a| == |b|
    ensures MemCmp(a, b) < 0 <==> FromBig(a) < FromBig(b)
    ensures MemCmp(a, b) == 0 <==> FromBig(a) == FromBig(b)
    decreases |a|
  {
    if a != [] {
      MemCmpIsNumeric(a[..|a| - 1], b[..|b| - 1]);
    }
  }

  /** Comparing two addresses byte by byte and bit by bit is the same, and compares them as numbers. */
  lemma MemCmpIsCompare(a: Bits, b: Bits)
    requires |a| == |b| && |a| % 8 == 0
    ensures MemCmp(BytesOf(a), BytesOf(b)) < 0 <==> Compare(a, b) < 0
    ensures MemCmp(BytesOf(a), BytesOf(b)) == 0 <==> Compare(a, b) == 0
    ensures MemCmp(BytesOf(a), BytesOf(b)) < 0 <==> Value(a) < Value(b)
  {
    MemCmpIsNumeric(BytesOf(a), BytesOf(b));
    BytesValue(a);
    BytesValue(b);
    CompareIsNumeric(a, b);
  }

  lemma UnitTimes(x: nat, p: nat)
    requires x <= 1
    ensures x * p == if x == 1 then p else 0
  {
  }

  lemma LeadingBit(a: Bits)
    requires a != []
    ensures Value(a) == (if a[0] then Pow2(|a| - 1) else 0) + Value(a[1..])
    ensures Value(a[1..]) < Pow2(|a| - 1)
  {
    var first := a[..1];
    assert a == first + a[1..];
    assert first[..|first| - 1] == [];
    ValueConcat(first, a[1..]);
    ValueBound(a[1..]);
    UnitTimes(Value(first), Pow2(|a| - 1));
  }

  // ---------------------------------------------------------------- stepping an address

  /** `ip_inc` and `ip_dec` on the number: one step up or down, wrapping at the ends of the space. */
  function Inc(width: nat, x: nat): (r: nat)
  {
    if x + 1 == Pow2(width) then 0 else x + 1
  }

  function Dec(width: nat, x: nat): (r: nat)
  {
    if x == 0 then Pow2(width) - 1 else x - 1
  }

  const WORD: nat := 0x1_0000_0000

  /** An address as its 32-bit words, most significant first. */
  ghost predicate IsWords(words: seq<nat>)
  {
    forall i :: 0 <= i < |words| ==> words[i] < WORD
  }

  function WordsValue(words: seq<nat>): (v: nat)
  {
    if words == [] then 0
    else WordsValue(words[..|words| - 1]) * WORD + words[|words| - 1]
  }

  function WordPow(n: nat): (p: nat)
    ensures p > 0
  {
    if n == 0 then 1 else WordPow(n - 1) * WORD
  }

  /** Adding one to a word string: full words roll over to zero and carry to the left. */
  function IncWords(words: seq<nat>): (r: seq<nat>)
    requires IsWords(words)
    ensures IsWords(r) && |r| == |words|
  {
    if words == [] then []
    else
      var n := |words| - 1;
      if words[n] < WORD - 1 then words[..n] + [words[n] + 1]
      else IncWords(words[..n]) + [0]
  }

  function DecWords(words: seq<nat>): (r: seq<nat>)
    requires IsWords(words)
    ensures IsWords(r) && |r| == |words|
  {
    if words == [] then []
    else
      var n := |words| - 1;
      if words[n] > 0 then words[..n] + [words[n] - 1]
      else DecWords(words[..n]) + [WORD - 1]
  }

  lemma {:induction false} WordsValueBound(words: seq<nat>)
    requires IsWords(words)
    ensures WordsValue(words) < WordPow(|words|)
    decreases |words|
  {
    if words != [] {
      WordsValueBound(words[..|words| - 1]);
    }
  }

  lemma WordsValueLast(front: seq<nat>, last: nat)
    ensures WordsValue(front + [last]) == WordsValue(front) * WORD + last
  {
    assert (front + [last])[..|front|] == front;
  }

  /** A step changes a word string like its front, once the last word rolls over. */
  lemma IncRollsOver(words: seq<nat>)
    requires IsWords(words) && words != []
    ensures var n := |words| - 1;
            IncWords(words)
            == if words[n] < WORD - 1 then words[..n] + [words[n] + 1] else IncWords(words[..n]) + [0]
  {
  }

  lemma DecRollsOver(words: seq<nat>)
    requires IsWords(words) && words != []
    ensures var n := |words| - 1;
            DecWords(words)
            == if words[n] > 0 then words[..n] + [words[n] - 1] else DecWords(words[..n]) + [WORD - 1]
  {
  }

  lemma {:induction false} IncScaled(words: seq<nat>)
    requires IsWords(words)
    ensures var v := WordsValue(words);
            WordsValue(IncWords(words)) == if v + 1 == WordPow(|words|) then 0 else v + 1
    decreases |words|
  {
    if words != [] {
      var n := |words| - 1;
      IncScaled(words[..n]);
      WordsValueBound(words[..n]);
      IncRollsOver(words);
      WordsValueLast(words[..n], words[n] + 1);
      WordsValueLast(IncWords(words[..n]), 0);
    }
  }

  lemma {:induction false} DecScaled(words: seq<nat>)
    requires IsWords(words)
    ensures var v := WordsValue(words);
            WordsValue(DecWords(words)) == if v == 0 then WordPow(|words|) - 1 else v - 1
    decreases |words|
  {
    if words != [] {
      var n := |words| - 1;
      DecScaled(words[..n]);
      DecRollsOver(words);
      if words[n] > 0 {
        WordsValueLast(words[..n], words[n] - 1);
      } else {
        WordsValueLast(DecWords(words[..n]), WORD - 1);
      }
    }
  }

  lemma Pow2OfWord()
    ensures Pow2(32) == WORD
  {
    assert Pow2(8) == 256;
    Pow2Add(8, 8);
    Pow2Add(16, 16);
  }

  lemma {:induction false} WordPowIsPow2(n: nat)
    ensures WordPow(n) == Pow2(32 * n)
  {
    if n > 0 {
      WordPowIsPow2(n - 1);
      Pow2OfWord();
      Pow2Add(32 * (n - 1), 32);
    }
  }

  /**
   * The carry of `ip_inc` and the borrow of `ip_dec` add and subtract one, and wrap only at the
   * ends of the address space.
   */
  lemma WordsStep(words: seq<nat>)
    requires IsWords(words)
    ensures WordsValue(IncWords(words)) == Inc(32 * |words|, WordsValue(words))
    ensures WordsValue(DecWords(words)) == Dec(32 * |words|, WordsValue(words))
  {
    IncScaled(words);
    DecScaled(words);
    WordPowIsPow2(|words|);
  }

  /** Writing the last word of the part not yet stepped moves the border by one. */
  lemma WriteWord(words: seq<nat>, i: nat, low: seq<nat>, word: nat)
    requires i < |words|
    ensures (words[..i + 1] + low)[i := word] == words[..i] + ([word] + low)
  {
  }

  lemma IncOneWord(words: seq<nat>, i: nat, low: seq<nat>)
    requires IsWords(words) && i < |words|
    ensures IncWords(words[..i + 1]) + low
            == if words[i] == WORD - 1 then IncWords(words[..i]) + ([0] + low)
               else words[..i] + ([words[i] + 1] + low)
  {
    IncRollsOver(words[..i + 1]);
    assert words[..i + 1][..i] == words[..i];
    assert IncWords(words[..i]) + [0] + low == IncWords(words[..i]) + ([0] + low);
    assert words[..i] + [words[i] + 1] + low == words[..i] + ([words[i] + 1] + low);
  }

  lemma DecOneWord(words: seq<nat>, i: nat, low: seq<nat>)
    requires IsWords(words) && i < |words|
    ensures DecWords(words[..i + 1]) + low
            == if words[i] == 0 then DecWords(words[..i]) + ([WORD - 1] + low)
               else words[..i] + ([words[i] - 1] + low)
  {
    DecRollsOver(words[..i + 1]);
    assert words[..i + 1][..i] == words[..i];
    assert DecWords(words[..i]) + [WORD - 1] + low == DecWords(words[..i]) + ([WORD - 1] + low);
  }

  /** `ip_inc`: copies the address and adds one, from the last word while the carry lasts. */
  method IpInc(ip: array<nat>, result: array<nat>)
    requires ip.Length == result.Length && ip != result && IsWords(ip[..])
    modifies result
    ensures result[..] == IncWords(ip[..])
  {
    forall i | 0 <= i < ip.Length {
      result[i] := ip[i];
    }
    ghost var words := ip[..];
    ghost var low: seq<nat> := [];
    var i := ip.Length - 1;
    assert words[..i + 1] == words;
    while i >= 0
      invariant -1 <= i < ip.Length && ip[..] == words
      invariant result[..] == words[..i + 1] + low
      invariant IncWords(words) == IncWords(words[..i + 1]) + low
    {
      ghost var done := result[..];
      result[i] := if ip[i] == WORD - 1 then 0 else ip[i] + 1;
      assert result[..] == done[i := result[i]];
      WriteWord(words, i, low, result[i]);
      IncOneWord(words, i, low);
      low := [result[i]] + low;
      if ip[i] < WORD - 1 {
        break;
      }
      i := i - 1;
    }
  }

  /** `ip_dec`: copies the address and takes one away, from the last word while the borrow lasts. */
  method IpDec(ip: array<nat>, result: array<nat>)
    requires ip.Length == result.Length && ip != result && IsWords(ip[..])
    modifies result
    ensures result[..] == DecWords(ip[..])
  {
    forall i | 0 <= i < ip.Length {
      result[i] := ip[i];
    }
    ghost var words := ip[..];
    ghost var low: seq<nat> := [];
    var i := ip.Length - 1;
    assert words[..i + 1] == words;
    while i >= 0
      invariant -1 <= i < ip.Length && ip[..] == words
      invariant result[..] == words[..i + 1] + low
      invariant DecWords(words) == DecWords(words[..i + 1]) + low
    {
      ghost var done := result[..];
      result[i] := if ip[i] == 0 then WORD - 1 else ip[i] - 1;
      assert result[..] == done[i := result[i]];
      WriteWord(words, i, low, result[i]);
      DecOneWord(words, i, low);
      low := [result[i]] + low;
      if result[i] != WORD - 1 {
        break;
      }
      i := i - 1;
    }
  }
}
