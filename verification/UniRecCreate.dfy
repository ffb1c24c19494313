/**
 * How UniRec records come about: a new or a cleared record has an empty value in every field that varies, and a clone has
 * the values of its original.
 */
module UniRecCreate {
  import opened Arithmetic
  import opened Bytes
  import opened UniRecFields
  import opened UniRecRecord

  const MAX_SIZE: nat := 0xFFFF

  /** Values of length 0. */
  function NoValues(n: nat): (vals: seq<seq<Byte>>)
    ensures |vals| == n && forall j :: 0 <= j < n ==> vals[j] == []
  {
    seq(n, j => [])
  }

  lemma {:induction false} NoneJoined(n: nat)
    ensures Joined(NoValues(n)) == []
  {
    if n > 0 {
      assert NoValues(n)[..n - 1] == NoValues(n - 1);
      NoneJoined(n - 1);
    }
  }

  lemma {:induction false} NoneBefore(n: nat, j: nat)
    requires j <= n
    ensures Before(NoValues(n), j) == 0
  {
    if j > 0 {
      NoneBefore(n, j - 1);
    }
  }

  /** The slot of field `k` has offset 0 and length 0. */
  predicate Cleared(l: Layout, b: seq<Byte>, k: nat)
    requires LayoutOk(l) && k < |l.ids|
  {
    l.starts[k] + 4 <= |b| && Word(b, l.starts[k]) == 0 && Word(b, l.starts[k] + 2) == 0
  }

  /** With all slots cleared, any bytes are a record. */
  lemma ClearedRecord(l: Layout, b: seq<Byte>)
    requires LayoutOk(l) && l.size <= |b| && forall k :: l.fixed <= k < |l.ids| ==> Cleared(l, b, k)
    ensures RecordOk(l, b, NoValues(|l.ids| - l.fixed))
  {
    var n := |l.ids| - l.fixed;
    var vals, slots := NoValues(n), Slots(l);
    NoneJoined(n);
    forall j | 0 <= j < n
      ensures OffsetIs(b, slots, vals, j) && LengthIs(b, slots, vals, j)
    {
      NoneBefore(n, j);
      assert slots[j] == l.starts[l.fixed + j] && Cleared(l, b, l.fixed + j);
    }
  }

  /** `ur_create_record`: all bytes are 0, and every field that varies is empty. */
  method CreateRecord(l: Layout, maxVarSize: nat) returns (rec: array<Byte>)
    requires LayoutOk(l) && l.size <= MAX_SIZE
    ensures fresh(rec) && rec.Length == if l.size + maxVarSize > 0xFFFF then 0xFFFF else l.size + maxVarSize
    ensures RecordOk(l, rec[..], NoValues(|l.ids| - l.fixed)) && forall p :: 0 <= p < rec.Length ==> rec[p] == 0
  {
    var size := l.size + maxVarSize;
    if size > MAX_SIZE {
      size := MAX_SIZE;
    }
    rec := new Byte[size](p => 0);
    forall k | l.fixed <= k < |l.ids|
      ensures Cleared(l, rec[..], k)
    {
      assert l.starts[k] + l.widths[k] <= l.size;
    }
    ClearedRecord(l, rec[..]);
  }

  /** Sets offset and length of field `k` to 0. */
  method ClearSlot(l: Layout, rec: array<Byte>, k: nat)
    requires LayoutOk(l) && l.size <= rec.Length && l.fixed <= k < |l.ids|
    modifies rec
    ensures Cleared(l, rec[..], k)
    ensures forall p :: 0 <= p < rec.Length && !(l.starts[k] <= p < l.starts[k] + 4) ==> rec[p] == old(rec[p])
  {
    assert l.starts[k] + l.widths[k] <= l.size;
    WriteWord(rec, l.starts[k], 0);
    assert rec[..][l.starts[k]] == rec[l.starts[k]] && rec[..][l.starts[k] + 1] == rec[l.starts[k] + 1];
    WriteWord(rec, l.starts[k] + 2, 0);
  }

  lemma StaysCleared(l: Layout, b: seq<Byte>, b': seq<Byte>, i: nat, k: nat)
    requires LayoutOk(l) && l.fixed <= i < k < |l.ids| && |b'| == |b| && Cleared(l, b, i)
    requires forall p :: 0 <= p < |b| && !(l.starts[k] <= p < l.starts[k] + 4) ==> b'[p] == b[p]
    ensures Cleared(l, b', i)
  {
    assert l.starts[i] + l.widths[i] <= l.starts[k];
  }

  /** `ur_clear_varlen`: whatever the bytes were, they are a record with all fields that vary empty and the others as they were. */
  method ClearVarlen(l: Layout, rec: array<Byte>)
    requires LayoutOk(l) && l.size <= rec.Length
    modifies rec
    ensures RecordOk(l, rec[..], NoValues(|l.ids| - l.fixed))
    ensures forall p: nat :: p < rec.Length && !InSlot(Slots(l), p) ==> rec[p] == old(rec[p])
    ensures forall k :: 0 <= k < l.fixed ==>
              l.starts[k] + l.widths[k] <= l.size
              && rec[l.starts[k]..l.starts[k] + l.widths[k]] == old(rec[l.starts[k]..l.starts[k] + l.widths[k]])
  {
    ghost var was := rec[..];
    for i := l.fixed to |l.ids|
      invariant forall k :: l.fixed <= k < i ==> Cleared(l, rec[..], k)
      invariant forall p: nat :: p < rec.Length && !InSlot(Slots(l), p) ==> rec[p] == was[p]
    {
      ghost var b := rec[..];
      ClearSlot(l, rec, i);
      assert Slots(l)[i - l.fixed] == l.starts[i];
      forall k | l.fixed <= k < i
        ensures Cleared(l, rec[..], k)
      {
        StaysCleared(l, b, rec[..], k, i);
      }
    }
    ClearedRecord(l, rec[..]);
    forall k | 0 <= k < l.fixed
      ensures l.starts[k] + l.widths[k] <= l.size
      ensures rec[l.starts[k]..l.starts[k] + l.widths[k]] == was[l.starts[k]..l.starts[k] + l.widths[k]]
    {
      FixedKept(l, was, rec[..], k);
    }
  }

  /** Fields of a fixed size are outside the slots. */
  lemma FixedKept(l: Layout, b: seq<Byte>, b': seq<Byte>, k: nat)
    requires LayoutOk(l) && k < l.fixed && l.size <= |b| == |b'|
    requires forall p: nat :: p < |b| && !InSlot(Slots(l), p) ==> b'[p] == b[p]
    ensures l.starts[k] + l.widths[k] <= l.size
    ensures b'[l.starts[k]..l.starts[k] + l.widths[k]] == b[l.starts[k]..l.starts[k] + l.widths[k]]
  {
    assert l.starts[k] + l.widths[k] <= l.size;
    forall p: nat | l.starts[k] <= p < l.starts[k] + l.widths[k]
      ensures b'[p] == b[p]
    {
      forall j | 0 <= j < |Slots(l)|
        ensures p < Slots(l)[j]
      {
        assert Slots(l)[j] == l.starts[l.fixed + j];
        assert l.starts[k] + l.widths[k] <= l.starts[l.fixed + j];
      }
    }
  }

  /** `ur_rec_varlen_size`: the lengths of all values together, returned in 16 bits. */
  method VarlenSize(l: Layout, rec: array<Byte>, ghost vals: seq<seq<Byte>>) returns (n: nat)
    requires RecordOk(l, rec[..], vals)
    ensures n == |Joined(vals)| % 0x1_0000
  {
    var size := 0;
    for i := l.fixed to |l.ids|
      invariant i - l.fixed <= |vals| == |l.ids| - l.fixed && size == Before(vals, i - l.fixed)
    {
      assert LengthIs(rec[..], Slots(l), vals, i - l.fixed) && Slots(l)[i - l.fixed] == l.starts[i];
      var length := ReadWord(rec, l.starts[i] + 2);
      size := size + length;
    }
    BeforeIsLength(vals, |vals|);
    assert vals[..|vals|] == vals;
    n := size % 0x1_0000;
  }

  /** `ur_clone_record`: a new record with the bytes, and so the values, of the original. */
  method CloneRecord(l: Layout, src: array<Byte>, ghost vals: seq<seq<Byte>>) returns (copy: array<Byte>)
    requires RecordOk(l, src[..], vals) && l.size + |Joined(vals)| <= MAX_SIZE
    ensures fresh(copy) && copy.Length == l.size + |Joined(vals)| <= src.Length && copy[..] == src[..copy.Length]
    ensures RecordOk(l, copy[..], vals) && forall k :: 0 <= k < |l.ids| ==> Value(l, copy[..], vals, k) == Value(l, src[..], vals, k)
  {
    var size := VarlenSize(l, src, vals);
    Remainder(|Joined(vals)|, 0x1_0000, 0, |Joined(vals)|);
    copy := CreateRecord(l, size);
    CopyRecord(l, copy, src, vals, l.size + size);
    assert copy[..] == src[..copy.Length];
  }
}
