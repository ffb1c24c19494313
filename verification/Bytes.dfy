/** Bytes as numbers, and numbers as bytes in either order, shared by the modules that lay out messages and records. */
module Bytes {
  import opened Arithmetic

  type Byte = x: int | 0 <= x < 256

  /** The numbers of `k` bytes. */
  function Pow256(k: nat): (p: nat)
    ensures p > 0
  {
    if k == 0 then 1 else 256 * Pow256(k - 1)
  }

  /** The lowest `k` bytes of a number, least significant first. */
  function Little(n: nat, k: nat): (b: seq<Byte>)
    ensures |b| == k
  {
    if k == 0 then [] else [n % 256] + Little(n / 256, k - 1)
  }

  function FromLittle(b: seq<Byte>): (n: nat)
  {
    if b == [] then 0
    else
      var low: int := b[0];
      low + 256 * FromLittle(b[1..])
  }

  /** The lowest `k` bytes of a number, most significant first. */
  function Big(n: nat, k: nat): (b: seq<Byte>)
    ensures |b| == k
  {
    if k == 0 then [] else Big(n / 256, k - 1) + [n % 256]
  }

  function FromBig(b: seq<Byte>): (n: nat)
  {
    if b == [] then 0
    else
      var low: int := b[|b| - 1];
      low + 256 * FromBig(b[..|b| - 1])
  }

  lemma RemainderStep(n: nat, p: nat)
    requires p > 0
    ensures n % (256 * p) == n % 256 + 256 * (n / 256 % p)
  {
    var q := n / 256;
    var s, t := q / p, q % p;
    assert n == 256 * (p * s + t) + n % 256;
    assert 256 * (p * s + t) == (256 * p) * s + 256 * t;
    Remainder(n, 256 * p, s, 256 * t + n % 256);
  }

  /** Bytes read in the order they were written give the number, as far as they can hold it. */
  lemma {:induction false} LittleBack(n: nat, k: nat)
    ensures FromLittle(Little(n, k)) == n % Pow256(k)
  {
    if k > 0 {
      LittleBack(n / 256, k - 1);
      RemainderStep(n, Pow256(k - 1));
      assert Little(n, k)[1..] == Little(n / 256, k - 1);
    }
  }

  lemma {:induction false} BigBack(n: nat, k: nat)
    ensures FromBig(Big(n, k)) == n % Pow256(k)
  {
    if k > 0 {
      BigBack(n / 256, k - 1);
      RemainderStep(n, Pow256(k - 1));
      assert Big(n, k)[..k - 1] == Big(n / 256, k - 1);
    }
  }

  lemma DivideTwice(n: nat, p: nat)
    requires p > 0
    ensures n / 256 / p == n / (256 * p)
  {
    var q := n / 256;
    var s := q / p;
    assert n == 256 * (p * s + q % p) + n % 256;
    Quotient(n, 256 * p, s, 256 * (q % p) + n % 256);
  }

  /** Byte `i` from the least significant one. */
  lemma {:induction false} LittleAt(n: nat, k: nat, i: nat)
    requires i < k
    ensures Little(n, k)[i] == n / Pow256(i) % 256
  {
    if i > 0 {
      LittleAt(n / 256, k - 1, i - 1);
      DivideTwice(n, Pow256(i - 1));
    }
  }

  lemma {:induction false} BigAt(n: nat, k: nat, i: nat)
    requires i < k
    ensures Big(n, k)[k - 1 - i] == n / Pow256(i) % 256
  {
    if i > 0 {
      BigAt(n / 256, k - 1, i - 1);
      DivideTwice(n, Pow256(i - 1));
    }
  }

  lemma SmallPowers()
    ensures Pow256(0) == 1 && Pow256(1) == 0x100 && Pow256(2) == 0x1_0000 && Pow256(3) == 0x100_0000
    ensures Pow256(4) == 0x1_0000_0000 && Pow256(5) == 0x100_0000_0000
    ensures Pow256(6) == 0x1_0000_0000_0000 && Pow256(7) == 0x100_0000_0000_0000
  {
    assert Pow256(3) == 256 * (256 * (256 * Pow256(0)));
    assert Pow256(5) == 256 * (256 * Pow256(3));
    assert Pow256(7) == 256 * (256 * Pow256(5));
  }
}
