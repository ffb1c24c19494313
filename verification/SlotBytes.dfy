/** Byte strings of one size stored one after another, and reading them from any offset. */
module SlotBytes {
  import opened Bytes

  type Blob = seq<Byte>

  const WORD32: nat := 0x1_0000_0000

  predicate Sized(slots: seq<Blob>, size: nat)
  {
    forall p :: 0 <= p < |slots| ==> |slots[p]| == size
  }

  /** The `size` bytes from `offset` on. */
  function BytesFrom(slots: seq<Blob>, size: nat, offset: nat): (b: Blob)
    requires size > 0 && Sized(slots, size) && offset + size <= |slots| * size
    ensures |b| == size
  {
    seq(size, k requires 0 <= k < size =>
      InSlot(|slots|, size, offset + k);
      slots[(offset + k) / size][(offset + k) % size])
  }

  lemma InSlot(n: nat, size: nat, x: nat)
    requires size > 0 && x < n * size
    ensures x / size < n && x % size < size
  {
    if x / size >= n {
      ProductGrows(n, x / size, size);
    }
  }

  lemma ProductGrows(p: nat, q: nat, size: nat)
    requires p <= q
    ensures p * size <= q * size
  {
  }

  lemma Quotient(p: nat, size: nat, k: nat)
    requires k < size
    ensures (p * size + k) / size == p && (p * size + k) % size == k
  {
    var q := (p * size + k) / size;
    var r := (p * size + k) % size;
    if q < p {
      ProductGrows(q + 1, p, size);
    } else if q > p {
      ProductGrows(p + 1, q, size);
    }
  }

  /** Slot `p` ends within the slots. */
  lemma SlotWithin(n: nat, size: nat, p: nat)
    requires p < n
    ensures p * size + size <= n * size
  {
    ProductGrows(p + 1, n, size);
  }

  /** At its own offset a slot is read as it is. */
  lemma OwnBytes(slots: seq<Blob>, size: nat, p: nat)
    requires size > 0 && Sized(slots, size) && p < |slots|
    ensures p * size + size <= |slots| * size && BytesFrom(slots, size, p * size) == slots[p]
  {
    SlotWithin(|slots|, size, p);
    forall k | 0 <= k < size
      ensures BytesFrom(slots, size, p * size)[k] == slots[p][k]
    {
      Quotient(p, size, k);
    }
  }

  /** Slots that start at `o` and `o'` share no byte. */
  predicate Apart(o: nat, o': nat, size: nat)
  {
    o + size <= o' || o' + size <= o
  }

  /** Where 32 bits say that slot `p` is. */
  function Offset32(p: nat, size: nat): (o: nat)
    ensures o <= p * size && (o == p * size <==> p * size < 0x1_0000_0000)
  {
    p * size % WORD32
  }

  /** 32 bits can address the last of `n` slots. */
  predicate Within32(n: nat, size: nat)
  {
    n == 0 || (n - 1) * size < WORD32
  }

  /** The slots are apart where 32 bits say they are exactly when the last one can be addressed. */
  lemma SlotsApart(n: nat, size: nat)
    requires 0 < size < WORD32
    ensures (forall p: nat, q: nat :: p < q < n ==> Apart(Offset32(p, size), Offset32(q, size), size)) <==> Within32(n, size)
  {
    if Within32(n, size) {
      forall p: nat, q: nat | p < q < n
        ensures Apart(Offset32(p, size), Offset32(q, size), size)
      {
        ProductGrows(p + 1, q, size);
        ProductGrows(q, n - 1, size);
        assert p * size + size <= q * size < WORD32;
      }
    } else {
      var p := FirstBeyond(size);
      if n - 1 < p {
        ProductGrows(n - 1, p - 1, size);
      }
      assert !Apart(Offset32(0, size), Offset32(p, size), size);
    }
  }

  /** The first slot that 32 bits cannot address starts within the bytes of slot 0. */
  lemma FirstBeyond(size: nat) returns (p: nat)
    requires 0 < size < WORD32
    ensures p > 0 && (p - 1) * size < WORD32 <= p * size && Offset32(p, size) < size
  {
    p := (WORD32 - 1) / size + 1;
    assert (p - 1) * size <= WORD32 - 1 < (p - 1) * size + size == p * size;
  }
}
