/**
 * The bytes of a UniRec record. In the fixed part every field that varies has a slot of four bytes, its offset and its
 * length; the values follow the fixed part one after another. Setting one of them moves the ones behind it in place.
 */
module UniRecRecord {
  import opened Bytes

  const WORD: nat := 0x1_0000

  /** An unsigned 16-bit number in the byte order of the machine, least significant byte first. */
  function Word(b: seq<Byte>, p: nat): (n: nat)
    requires p + 1 < |b|
    ensures n < WORD
  {
    var low: int, high: int := b[p], b[p + 1];
    low + 256 * high
  }

  /** The values one after another. */
  function Joined(vals: seq<seq<Byte>>): (b: seq<Byte>)
  {
    if vals == [] then [] else Joined(vals[..|vals| - 1]) + vals[|vals| - 1]
  }

  /** Bytes before value `j`. */
  function Before(vals: seq<seq<Byte>>, j: nat): (n: nat)
    requires j <= |vals|
  {
    if j == 0 then 0 else Before(vals, j - 1) + |vals[j - 1]|
  }

  /** The slots are apart from each other and within the fixed part, which ends at `fixed`. */
  predicate SlotsOk(slots: seq<nat>, fixed: nat)
  {
    && (forall i, j :: 0 <= i < j < |slots| ==> slots[i] + 4 <= slots[j])
    && (forall i :: 0 <= i < |slots| ==> slots[i] + 4 <= fixed)
  }

  /** Slot `j` holds the offset of value `j`. */
  predicate OffsetIs(b: seq<Byte>, slots: seq<nat>, vals: seq<seq<Byte>>, j: nat)
  {
    j < |slots| && j <= |vals| && slots[j] + 4 <= |b| && Word(b, slots[j]) == Before(vals, j)
  }

  /** Slot `j` holds the length of value `j`. */
  predicate LengthIs(b: seq<Byte>, slots: seq<nat>, vals: seq<seq<Byte>>, j: nat)
  {
    j < |slots| && j < |vals| && slots[j] + 4 <= |b| && Word(b, slots[j] + 2) == |vals[j]|
  }

  predicate Offsets(b: seq<Byte>, slots: seq<nat>, vals: seq<seq<Byte>>)
  {
    |slots| == |vals| && forall j :: 0 <= j < |slots| ==> OffsetIs(b, slots, vals, j)
  }

  predicate Lengths(b: seq<Byte>, slots: seq<nat>, vals: seq<seq<Byte>>)
  {
    |slots| == |vals| && forall j :: 0 <= j < |slots| ==> LengthIs(b, slots, vals, j)
  }

  /** The values follow the fixed part without a gap. */
  predicate Data(b: seq<Byte>, fixed: nat, vals: seq<seq<Byte>>)
  {
    fixed + |Joined(vals)| <= |b| && b[fixed..fixed + |Joined(vals)|] == Joined(vals)
  }

  /** A record with these values. */
  predicate Laid(b: seq<Byte>, slots: seq<nat>, fixed: nat, vals: seq<seq<Byte>>)
  {
    SlotsOk(slots, fixed) && Offsets(b, slots, vals) && Lengths(b, slots, vals) && Data(b, fixed, vals)
  }

  // ---------------------------------------------------------------- sums and slices

  lemma {:induction false} BeforeIsLength(vals: seq<seq<Byte>>, j: nat)
    requires j <= |vals|
    ensures |Joined(vals[..j])| == Before(vals, j)
  {
    if j > 0 {
      BeforeIsLength(vals, j - 1);
      assert vals[..j][..j - 1] == vals[..j - 1];
    }
  }

  lemma {:induction false} JoinedSplit(vals: seq<seq<Byte>>, i: nat)
    requires i < |vals|
    ensures Joined(vals) == Joined(vals[..i]) + vals[i] + Joined(vals[i + 1..])
  {
    var n := |vals| - 1;
    if i == n {
      assert vals[i + 1..] == [];
    } else {
      JoinedSplit(vals[..n], i);
      assert vals[..n][..i] == vals[..i];
      assert vals[i + 1..][..n - i - 1] == vals[..n][i + 1..];
      assert vals[i + 1..][n - i - 1] == vals[n];
    }
  }

  /** Offsets of the values behind a changed one move by the change of its length. */
  lemma {:induction false} BeforeChanged(vals: seq<seq<Byte>>, i: nat, v: seq<Byte>, j: nat)
    requires i < |vals| && j <= |vals|
    ensures Before(vals[i := v], j) == if j <= i then Before(vals, j) else Before(vals, j) - |vals[i]| + |v|
  {
    if j > 0 {
      BeforeChanged(vals, i, v, j - 1);
    }
  }

  lemma Middle(b: seq<Byte>, fixed: nat, front: seq<Byte>, v: seq<Byte>, back: seq<Byte>)
    requires fixed + |front| + |v| + |back| <= |b| && b[fixed..fixed + |front| + |v| + |back|] == front + v + back
    ensures b[fixed + |front|..fixed + |front| + |v|] == v
  {
    forall i | 0 <= i < |v|
      ensures b[fixed + |front| + i] == v[i]
    {
      assert b[fixed..fixed + |front| + |v| + |back|][|front| + i] == (front + v + back)[|front| + i];
    }
  }

  lemma DataInPlace(b: seq<Byte>, fixed: nat, vals: seq<seq<Byte>>, j: nat)
    requires Data(b, fixed, vals) && j < |vals|
    ensures var n := |Joined(vals[..j])|; fixed + n + |vals[j]| <= |b| && b[fixed + n..fixed + n + |vals[j]|] == vals[j]
  {
    JoinedSplit(vals, j);
    Middle(b, fixed, Joined(vals[..j]), vals[j], Joined(vals[j + 1..]));
  }

  /** The bytes at the offset and of the length of value `j` are that value. */
  lemma ValueInPlace(b: seq<Byte>, fixed: nat, vals: seq<seq<Byte>>, j: nat)
    requires Data(b, fixed, vals) && j < |vals|
    ensures fixed + Before(vals, j) + |vals[j]| <= |b|
    ensures b[fixed + Before(vals, j)..fixed + Before(vals, j) + |vals[j]|] == vals[j]
  {
    DataInPlace(b, fixed, vals, j);
    BeforeIsLength(vals, j);
  }

  /** A reader of field `j` takes the bytes at the offset and of the length that are in its slot, two bytes each: its value. */
  lemma ReadFromSlot(b: seq<Byte>, slots: seq<nat>, fixed: nat, vals: seq<seq<Byte>>, j: nat)
    requires Laid(b, slots, fixed, vals) && j < |vals|
    ensures |slots| == |vals| && slots[j] + 4 <= fixed <= |b|
    ensures var p := slots[j];
            var b0: int, b1: int, b2: int, b3: int := b[p], b[p + 1], b[p + 2], b[p + 3];
            var offset, length := b0 + 256 * b1, b2 + 256 * b3;
            && fixed + offset + length <= |b|
            && b[fixed + offset..fixed + offset + length] == vals[j]
  {
    assert OffsetIs(b, slots, vals, j) && LengthIs(b, slots, vals, j);
    ValueInPlace(b, fixed, vals, j);
  }

  // ---------------------------------------------------------------- writing

  method WriteWord(rec: array<Byte>, p: nat, n: nat)
    requires p + 1 < rec.Length && n < WORD
    modifies rec
    ensures Word(rec[..], p) == n
    ensures forall i :: 0 <= i < rec.Length && i != p && i != p + 1 ==> rec[i] == old(rec[i])
  {
    rec[p] := n % 256;
    rec[p + 1] := n / 256;
  }

  method ReadWord(rec: array<Byte>, p: nat) returns (n: nat)
    requires p + 1 < rec.Length
    ensures n == Word(rec[..], p)
  {
    var low: int, high: int := rec[p], rec[p + 1];
    n := low + 256 * high;
  }

  /** `memmove`: the ranges may overlap. */
  method MemMove(rec: array<Byte>, to: nat, from: nat, n: nat)
    requires to + n <= rec.Length && from + n <= rec.Length
    modifies rec
    ensures rec[to..to + n] == old(rec[from..from + n])
    ensures forall i :: 0 <= i < rec.Length && !(to <= i < to + n) ==> rec[i] == old(rec[i])
  {
    ghost var was := rec[..];
    if to <= from {
      var i := 0;
      while i < n
        invariant i <= n
        invariant forall p :: to <= p < to + i ==> rec[p] == was[p - to + from]
        invariant forall p :: 0 <= p < rec.Length && !(to <= p < to + i) ==> rec[p] == was[p]
      {
        rec[to + i] := rec[from + i];
        i := i + 1;
      }
    } else {
      var i: nat := n;
      while i > 0
        invariant i <= n
        invariant forall p :: to + i <= p < to + n ==> rec[p] == was[p - to + from]
        invariant forall p :: 0 <= p < rec.Length && !(to + i <= p < to + n) ==> rec[p] == was[p]
      {
        i := i - 1;
        rec[to + i] := rec[from + i];
      }
    }
  }

  /** `memcpy` of a value. */
  method MemCopy(rec: array<Byte>, to: nat, v: seq<Byte>)
    requires to + |v| <= rec.Length
    modifies rec
    ensures rec[to..to + |v|] == v
    ensures forall i :: 0 <= i < rec.Length && !(to <= i < to + |v|) ==> rec[i] == old(rec[i])
  {
    var i := 0;
    while i < |v|
      invariant i <= |v|
      invariant forall k :: 0 <= k < i ==> rec[to + k] == v[k]
      invariant forall k :: 0 <= k < rec.Length && !(to <= k < to + i) ==> rec[k] == old(rec[k])
    {
      rec[to + i] := v[i];
      i := i + 1;
    }
  }

  // ---------------------------------------------------------------- setting a value

  /** `p` is in a slot. */
  predicate InSlot(slots: seq<nat>, p: nat)
  {
    exists j :: 0 <= j < |slots| && slots[j] <= p < slots[j] + 4
  }

  /** Offsets as they will be, up to value `i`; the ones behind it are as they were. */
  predicate OffsetsTo(b: seq<Byte>, slots: seq<nat>, vals: seq<seq<Byte>>, vals': seq<seq<Byte>>, i: nat)
  {
    && |slots| == |vals| == |vals'|
    && (forall j :: 0 <= j < i && j < |slots| ==> OffsetIs(b, slots, vals', j))
    && (forall j :: i <= j < |slots| ==> OffsetIs(b, slots, vals, j))
  }

  /** New offsets for the values behind value `index`, which becomes `v`. */
  method MoveOffsets(rec: array<Byte>, slots: seq<nat>, fixed: nat, index: nat, ghost vals: seq<seq<Byte>>, v: seq<Byte>) returns (size: nat)
    requires SlotsOk(slots, fixed) && Offsets(rec[..], slots, vals) && Lengths(rec[..], slots, vals)
    requires index < |slots| && Before(vals[index := v], |vals|) < WORD
    modifies rec
    ensures Offsets(rec[..], slots, vals[index := v]) && Lengths(rec[..], slots, vals)
    ensures size == Before(vals, |vals|) - Before(vals, index) - |vals[index]| + |v|
    ensures forall p: nat :: p < rec.Length && !InSlot(slots, p) ==> rec[p] == old(rec[p])
  {
    ghost var vals' := vals[index := v];
    assert OffsetIs(rec[..], slots, vals, index);
    var start := ReadWord(rec, slots[index]);
    size := |v|;
    var i := index + 1;
    OffsetsStart(rec[..], slots, vals, index, v);
    while i < |slots|
      invariant index < i <= |slots|
      invariant OffsetsTo(rec[..], slots, vals, vals', i)
      invariant Lengths(rec[..], slots, vals)
      invariant size == Before(vals, i) - Before(vals, index) - |vals[index]| + |v|
      invariant forall p: nat :: p < rec.Length && !InSlot(slots, p) ==> rec[p] == old(rec[p])
    {
      BeforeChanged(vals, index, v, i);
      BeforeGrows(vals', i, |vals|);
      var length := SetOffset(rec, slots, fixed, vals, vals', i, start + size);
      size := size + length;
      i := i + 1;
    }
  }

  /** Writes the offset of value `i`, and reads its length. */
  method SetOffset(rec: array<Byte>, slots: seq<nat>, fixed: nat, ghost vals: seq<seq<Byte>>, ghost vals': seq<seq<Byte>>, i: nat, offset: nat)
      returns (length: nat)
    requires SlotsOk(slots, fixed) && OffsetsTo(rec[..], slots, vals, vals', i) && Lengths(rec[..], slots, vals)
    requires i < |slots| && offset == Before(vals', i) < WORD
    modifies rec
    ensures OffsetsTo(rec[..], slots, vals, vals', i + 1) && Lengths(rec[..], slots, vals) && length == |vals[i]|
    ensures forall p: nat :: p < rec.Length && !InSlot(slots, p) ==> rec[p] == old(rec[p])
  {
    ghost var b := rec[..];
    assert OffsetIs(b, slots, vals, i);
    WriteWord(rec, slots[i], offset);
    OffsetWritten(b, rec[..], slots, fixed, vals, vals', i);
    assert LengthIs(rec[..], slots, vals, i);
    length := ReadWord(rec, slots[i] + 2);
    assert InSlot(slots, slots[i]) && InSlot(slots, slots[i] + 1);
  }

  lemma OffsetsStart(b: seq<Byte>, slots: seq<nat>, vals: seq<seq<Byte>>, index: nat, v: seq<Byte>)
    requires Offsets(b, slots, vals) && index < |slots|
    ensures OffsetsTo(b, slots, vals, vals[index := v], index + 1)
  {
    var vals' := vals[index := v];
    forall j | 0 <= j <= index
      ensures OffsetIs(b, slots, vals', j)
    {
      BeforeChanged(vals, index, v, j);
      assert OffsetIs(b, slots, vals, j);
    }
  }

  lemma {:induction false} BeforeGrows(vals: seq<seq<Byte>>, i: nat, j: nat)
    requires i <= j <= |vals|
    ensures Before(vals, i) <= Before(vals, j)
    decreases j
  {
    if i < j {
      BeforeGrows(vals, i, j - 1);
    }
  }

  /** One offset written: the other slots are as they were. */
  lemma OffsetWritten(b: seq<Byte>, b': seq<Byte>, slots: seq<nat>, fixed: nat, vals: seq<seq<Byte>>, vals': seq<seq<Byte>>, i: nat)
    requires SlotsOk(slots, fixed) && OffsetsTo(b, slots, vals, vals', i) && Lengths(b, slots, vals) && i < |slots| && |b'| == |b|
    requires slots[i] + 4 <= |b| && Word(b', slots[i]) == Before(vals', i)
    requires forall p :: 0 <= p < |b| && p != slots[i] && p != slots[i] + 1 ==> b'[p] == b[p]
    ensures OffsetsTo(b', slots, vals, vals', i + 1) && Lengths(b', slots, vals)
  {
    forall j | 0 <= j < |slots|
      ensures LengthIs(b', slots, vals, j)
      ensures j <= i ==> OffsetIs(b', slots, vals', j)
      ensures j > i ==> OffsetIs(b', slots, vals, j)
    {
      assert LengthIs(b, slots, vals, j);
      assert j < i ==> slots[j] + 4 <= slots[i] && OffsetIs(b, slots, vals', j);
      assert j > i ==> slots[i] + 4 <= slots[j] && OffsetIs(b, slots, vals, j);
    }
  }

  /** Offsets and lengths are in the fixed part. */
  lemma FixedPartKept(b: seq<Byte>, b': seq<Byte>, slots: seq<nat>, fixed: nat, vals: seq<seq<Byte>>)
    requires SlotsOk(slots, fixed) && fixed <= |b| == |b'| && b'[..fixed] == b[..fixed]
    ensures Offsets(b, slots, vals) ==> Offsets(b', slots, vals)
    ensures Lengths(b, slots, vals) ==> Lengths(b', slots, vals)
  {
    forall j | 0 <= j < |slots|
      ensures OffsetIs(b, slots, vals, j) ==> OffsetIs(b', slots, vals, j)
      ensures LengthIs(b, slots, vals, j) ==> LengthIs(b', slots, vals, j)
    {
      assert slots[j] + 4 <= fixed;
      assert forall p :: 0 <= p < fixed ==> b'[..fixed][p] == b[..fixed][p];
    }
  }

  /** The length of value `index` written: the other slots, and the offset, are as they were. */
  lemma LengthWritten(b: seq<Byte>, b': seq<Byte>, slots: seq<nat>, fixed: nat, vals: seq<seq<Byte>>, index: nat, v: seq<Byte>)
    requires SlotsOk(slots, fixed) && fixed <= |b| == |b'| && index < |slots| == |vals|
    requires Offsets(b, slots, vals[index := v]) && Lengths(b, slots, vals)
    requires Word(b', slots[index] + 2) == |v|
    requires forall p :: 0 <= p < |b| && p != slots[index] + 2 && p != slots[index] + 3 ==> b'[p] == b[p]
    ensures Offsets(b', slots, vals[index := v]) && Lengths(b', slots, vals[index := v])
  {
    var vals' := vals[index := v];
    forall j | 0 <= j < |slots|
      ensures OffsetIs(b', slots, vals', j) && LengthIs(b', slots, vals', j)
    {
      assert OffsetIs(b, slots, vals', j) && LengthIs(b, slots, vals, j);
      assert j < index ==> slots[j] + 4 <= slots[index];
      assert j > index ==> slots[index] + 4 <= slots[j];
    }
  }

  /** `front` and `back` are the data before and behind `n` bytes. */
  predicate Parts(b: seq<Byte>, fixed: nat, front: seq<Byte>, n: nat, back: seq<Byte>)
  {
    && fixed + |front| + n + |back| <= |b|
    && b[fixed..fixed + |front|] == front
    && b[fixed + |front| + n..fixed + |front| + n + |back|] == back
  }

  /** Front, new value and back in place are the data of the changed values. */
  lemma DataChanged(b: seq<Byte>, fixed: nat, vals: seq<seq<Byte>>, index: nat, v: seq<Byte>)
    requires index < |vals|
    requires var front, back := Joined(vals[..index]), Joined(vals[index + 1..]);
             Parts(b, fixed, front, |v|, back) && b[fixed + |front|..fixed + |front| + |v|] == v
    ensures Data(b, fixed, vals[index := v])
  {
    var vals' := vals[index := v];
    var front, back := Joined(vals[..index]), Joined(vals[index + 1..]);
    JoinedSplit(vals', index);
    assert vals'[..index] == vals[..index] && vals'[index + 1..] == vals[index + 1..];
    assert b[fixed..fixed + |front| + |v| + |back|]
        == b[fixed..fixed + |front|] + b[fixed + |front|..fixed + |front| + |v|] + b[fixed + |front| + |v|..fixed + |front| + |v| + |back|];
  }

  /** `ur_var_change_size`: slots and data make room for the new value. */
  method ChangeSize(rec: array<Byte>, slots: seq<nat>, fixed: nat, index: nat, ghost vals: seq<seq<Byte>>, v: seq<Byte>)
    requires Laid(rec[..], slots, fixed, vals) && index < |slots|
    requires |Joined(vals[index := v])| < WORD && fixed + |Joined(vals[index := v])| <= rec.Length
    modifies rec
    ensures Offsets(rec[..], slots, vals[index := v]) && Lengths(rec[..], slots, vals[index := v])
    ensures Parts(rec[..], fixed, Joined(vals[..index]), |v|, Joined(vals[index + 1..]))
    ensures forall p: nat :: p < fixed && !InSlot(slots, p) ==> rec[p] == old(rec[p])
  {
    Sizes(rec[..], slots, fixed, index, vals, v);
    Resize(rec, slots, fixed, index, vals, v, Joined(vals[..index]), Joined(vals[index + 1..]));
  }

  /** Makes room for `v` between the data before and behind value `index`, unless the length stays. */
  method Resize(rec: array<Byte>, slots: seq<nat>, fixed: nat, index: nat, ghost vals: seq<seq<Byte>>, v: seq<Byte>,
                ghost front: seq<Byte>, ghost back: seq<Byte>)
    requires SlotsOk(slots, fixed) && fixed <= rec.Length && Offsets(rec[..], slots, vals) && Lengths(rec[..], slots, vals)
    requires index < |slots| && Before(vals[index := v], |vals|) < WORD && |v| < WORD
    requires Before(vals, |vals|) - Before(vals, index) - |vals[index]| == |back| && Before(vals, index) == |front|
    requires Parts(rec[..], fixed, front, |vals[index]|, back) && fixed + |front| + |v| + |back| <= rec.Length
    modifies rec
    ensures Offsets(rec[..], slots, vals[index := v]) && Lengths(rec[..], slots, vals[index := v])
    ensures Parts(rec[..], fixed, front, |v|, back)
    ensures forall p: nat :: p < fixed && !InSlot(slots, p) ==> rec[p] == old(rec[p])
  {
    assert OffsetIs(rec[..], slots, vals, index) && LengthIs(rec[..], slots, vals, index);
    var offset := ReadWord(rec, slots[index]);
    var length := ReadWord(rec, slots[index] + 2);
    if length != |v| {
      MakeRoom(rec, slots, fixed, index, vals, v, fixed + offset, length, front, back);
    } else {
      SameLength(rec[..], slots, vals, index, v);
    }
  }

  /** New offsets behind value `index`, its new length, and the values behind it moved. */
  method MakeRoom(rec: array<Byte>, slots: seq<nat>, fixed: nat, index: nat, ghost vals: seq<seq<Byte>>, v: seq<Byte>,
                  out: nat, length: nat, ghost front: seq<Byte>, ghost back: seq<Byte>)
    requires SlotsOk(slots, fixed) && fixed <= rec.Length && Offsets(rec[..], slots, vals) && Lengths(rec[..], slots, vals)
    requires index < |slots| && Before(vals[index := v], |vals|) < WORD && |v| < WORD
    requires Before(vals, |vals|) - Before(vals, index) - |vals[index]| == |back|
    requires out == fixed + |front| && out + length + |back| <= rec.Length && out + |v| + |back| <= rec.Length
    requires rec[fixed..out] == front && rec[out + length..out + length + |back|] == back
    modifies rec
    ensures Offsets(rec[..], slots, vals[index := v]) && Lengths(rec[..], slots, vals[index := v])
    ensures rec[fixed..out] == front && rec[out + |v|..out + |v| + |back|] == back
    ensures forall p: nat :: p < fixed && !InSlot(slots, p) ==> rec[p] == old(rec[p])
  {
    MoveBack(rec, slots, fixed, index, vals, v, out, length, front, back);
    ghost var b := rec[..];
    SetLength(rec, slots, fixed, index, vals, v);
    SlicesKept(b, rec[..], fixed, out, out + |v|, |back|);
  }

  /** New offsets behind value `index`, and the values behind it moved. */
  method MoveBack(rec: array<Byte>, slots: seq<nat>, fixed: nat, index: nat, ghost vals: seq<seq<Byte>>, v: seq<Byte>,
                  out: nat, length: nat, ghost front: seq<Byte>, ghost back: seq<Byte>)
    requires SlotsOk(slots, fixed) && fixed <= rec.Length && Offsets(rec[..], slots, vals) && Lengths(rec[..], slots, vals)
    requires index < |slots| && Before(vals[index := v], |vals|) < WORD
    requires Before(vals, |vals|) - Before(vals, index) - |vals[index]| == |back|
    requires out == fixed + |front| && out + length + |back| <= rec.Length && out + |v| + |back| <= rec.Length
    requires rec[fixed..out] == front && rec[out + length..out + length + |back|] == back
    modifies rec
    ensures Offsets(rec[..], slots, vals[index := v]) && Lengths(rec[..], slots, vals)
    ensures rec[fixed..out] == front && rec[out + |v|..out + |v| + |back|] == back
    ensures forall p: nat :: p < fixed && !InSlot(slots, p) ==> rec[p] == old(rec[p])
  {
    ghost var b0 := rec[..];
    var size := MoveOffsets(rec, slots, fixed, index, vals, v);
    ghost var b1 := rec[..];
    DataKept(b0, b1, slots, fixed);
    SlicesKept(b0, b1, fixed, out, out + length, |back|);
    MoveData(rec, fixed, out, out + length, out + |v|, size - |v|, front, back);
    FixedPartKept(b1, rec[..], slots, fixed, vals[index := v]);
    FixedPartKept(b1, rec[..], slots, fixed, vals);
  }

  /** The data behind a value moves from `from` to `to`. */
  method MoveData(rec: array<Byte>, fixed: nat, out: nat, from: nat, to: nat, n: nat, ghost front: seq<Byte>, ghost back: seq<Byte>)
    requires fixed <= out <= from && out <= to && from + n <= rec.Length && to + n <= rec.Length && n == |back|
    requires rec[fixed..out] == front && rec[from..from + n] == back
    modifies rec
    ensures rec[fixed..out] == front && rec[to..to + n] == back
    ensures forall p :: 0 <= p < out ==> rec[p] == old(rec[p])
  {
    MemMove(rec, to, from, n);
    assert rec[fixed..out] == old(rec[fixed..out]);
  }

  /** Writes the length of value `index`. */
  method SetLength(rec: array<Byte>, slots: seq<nat>, fixed: nat, index: nat, ghost vals: seq<seq<Byte>>, v: seq<Byte>)
    requires SlotsOk(slots, fixed) && fixed <= rec.Length && index < |slots| == |vals| && |v| < WORD
    requires Offsets(rec[..], slots, vals[index := v]) && Lengths(rec[..], slots, vals)
    modifies rec
    ensures Offsets(rec[..], slots, vals[index := v]) && Lengths(rec[..], slots, vals[index := v])
    ensures forall p: nat :: p < rec.Length && !InSlot(slots, p) ==> rec[p] == old(rec[p])
    ensures forall p :: fixed <= p < rec.Length ==> rec[p] == old(rec[p])
  {
    ghost var b := rec[..];
    WriteWord(rec, slots[index] + 2, |v|);
    LengthWritten(b, rec[..], slots, fixed, vals, index, v);
    assert InSlot(slots, slots[index] + 2) && InSlot(slots, slots[index] + 3);
  }

  /** Parts of the data stay when the data does. */
  lemma SlicesKept(b: seq<Byte>, b': seq<Byte>, fixed: nat, out: nat, from: nat, n: nat)
    requires |b| == |b'| && fixed <= out <= from && from + n <= |b|
    requires forall p :: fixed <= p < |b| ==> b'[p] == b[p]
    ensures b'[fixed..out] == b[fixed..out] && b'[from..from + n] == b[from..from + n]
  {
  }

  /** Sizes and places of the parts of the data around value `index`. */
  lemma Sizes(b: seq<Byte>, slots: seq<nat>, fixed: nat, index: nat, vals: seq<seq<Byte>>, v: seq<Byte>)
    requires Laid(b, slots, fixed, vals) && index < |slots|
    ensures var front, back := Joined(vals[..index]), Joined(vals[index + 1..]);
            && slots[index] + 4 <= fixed <= |b|
            && Word(b, slots[index]) == |front| == Before(vals, index) && Word(b, slots[index] + 2) == |vals[index]|
            && Before(vals, |vals|) == |front| + |vals[index]| + |back|
            && |Joined(vals[index := v])| == |front| + |v| + |back| == Before(vals[index := v], |vals|)
            && Parts(b, fixed, front, |vals[index]|, back)
  {
    var front, back, vals' := Joined(vals[..index]), Joined(vals[index + 1..]), vals[index := v];
    assert OffsetIs(b, slots, vals, index) && LengthIs(b, slots, vals, index);
    BeforeIsLength(vals, index);
    BeforeIsLength(vals, |vals|);
    BeforeIsLength(vals', |vals|);
    assert vals[..|vals|] == vals && vals'[..|vals|] == vals';
    JoinedSplit(vals, index);
    JoinedSplit(vals', index);
    assert vals'[..index] == vals[..index] && vals'[index + 1..] == vals[index + 1..];
    FrontAndBack(b, fixed, front, vals[index], back);
  }

  lemma FrontAndBack(b: seq<Byte>, fixed: nat, front: seq<Byte>, v: seq<Byte>, back: seq<Byte>)
    requires fixed + |front| + |v| + |back| <= |b| && b[fixed..fixed + |front| + |v| + |back|] == front + v + back
    ensures b[fixed..fixed + |front|] == front
    ensures b[fixed + |front| + |v|..fixed + |front| + |v| + |back|] == back
  {
    var data := b[fixed..fixed + |front| + |v| + |back|];
    assert data[..|front|] == front && data[|front| + |v|..] == back;
  }

  /** Writing slots leaves the data alone. */
  lemma DataKept(b: seq<Byte>, b': seq<Byte>, slots: seq<nat>, fixed: nat)
    requires SlotsOk(slots, fixed) && fixed <= |b| == |b'|
    requires forall p: nat :: p < |b| && !InSlot(slots, p) ==> b'[p] == b[p]
    ensures b'[fixed..] == b[fixed..]
  {
    forall p: nat | fixed <= p < |b|
      ensures b'[p] == b[p]
    {
      assert !InSlot(slots, p);
    }
  }

  lemma SameLength(b: seq<Byte>, slots: seq<nat>, vals: seq<seq<Byte>>, index: nat, v: seq<Byte>)
    requires Offsets(b, slots, vals) && Lengths(b, slots, vals) && index < |slots| && |v| == |vals[index]|
    ensures Offsets(b, slots, vals[index := v]) && Lengths(b, slots, vals[index := v])
  {
    var vals' := vals[index := v];
    forall j | 0 <= j < |slots|
      ensures OffsetIs(b, slots, vals', j) && LengthIs(b, slots, vals', j)
    {
      assert OffsetIs(b, slots, vals, j) && LengthIs(b, slots, vals, j);
      BeforeChanged(vals, index, v, j);
    }
  }

  /** Writes the value into the room made for it. */
  method PutValue(rec: array<Byte>, slots: seq<nat>, fixed: nat, ghost vals: seq<seq<Byte>>, out: nat, v: seq<Byte>,
                  ghost front: seq<Byte>, ghost back: seq<Byte>)
    requires SlotsOk(slots, fixed) && fixed <= rec.Length && Offsets(rec[..], slots, vals) && Lengths(rec[..], slots, vals)
    requires Parts(rec[..], fixed, front, |v|, back) && out == fixed + |front|
    modifies rec
    ensures Offsets(rec[..], slots, vals) && Lengths(rec[..], slots, vals)
    ensures Parts(rec[..], fixed, front, |v|, back) && rec[out..out + |v|] == v
    ensures forall p: nat :: p < fixed ==> rec[p] == old(rec[p])
  {
    ghost var b := rec[..];
    MemCopy(rec, out, v);
    FixedPartKept(b, rec[..], slots, fixed, vals);
    assert rec[fixed..out] == b[fixed..out];
    assert rec[out + |v|..out + |v| + |back|] == b[out + |v|..out + |v| + |back|];
  }

  /** The value is set, the others stay, and nothing else in the fixed part changes. */
  method SetValue(rec: array<Byte>, slots: seq<nat>, fixed: nat, index: nat, ghost vals: seq<seq<Byte>>, v: seq<Byte>)
    requires Laid(rec[..], slots, fixed, vals) && index < |slots|
    requires |Joined(vals[index := v])| < WORD && fixed + |Joined(vals[index := v])| <= rec.Length
    modifies rec
    ensures Laid(rec[..], slots, fixed, vals[index := v])
    ensures forall p: nat :: p < fixed && !InSlot(slots, p) ==> rec[p] == old(rec[p])
  {
    Sizes(rec[..], slots, fixed, index, vals, v);
    var offset := ReadWord(rec, slots[index]);
    assert offset == |Joined(vals[..index])| by {
      assert OffsetIs(rec[..], slots, vals, index);
      BeforeIsLength(vals, index);
    }
    ChangeSize(rec, slots, fixed, index, vals, v);
    PutValue(rec, slots, fixed, vals[index := v], fixed + offset, v, Joined(vals[..index]), Joined(vals[index + 1..]));
    DataChanged(rec[..], fixed, vals, index, v);
  }
}
