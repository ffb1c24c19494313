/**
 * Setting and copying the fields of a UniRec record through its template: the field named gets its value, and every
 * other field of the record keeps the one it has.
 */
module UniRecFields {
  import opened Bytes
  import opened UniRecRecord
  import opened UniRecTemplate

  /** What `ur_set_var` returns; `BehindTable` stands for a read behind the offset table, of which nothing can be said. */
  datatype Result = Ok | InvalidFieldId | BehindTable

  /**
   * What a record needs to know of its template: where each field starts and how wide it is in the fixed part, how many
   * fields have a fixed size (they come first), and the size of the fixed part.
   */
  datatype Layout = Layout(ids: seq<nat>, starts: seq<nat>, widths: seq<nat>, fixed: nat, size: nat)

  predicate LayoutOk(l: Layout)
  {
    && |l.ids| == |l.starts| == |l.widths| && l.fixed <= |l.ids|
    && (forall i, j :: 0 <= i < j < |l.ids| ==> l.ids[i] != l.ids[j])
    && (forall i, j :: 0 <= i < j < |l.ids| ==> l.starts[i] + l.widths[i] <= l.starts[j])
    && (forall i :: 0 <= i < |l.ids| ==> l.starts[i] + l.widths[i] <= l.size)
    && (forall i :: l.fixed <= i < |l.ids| ==> l.widths[i] == 4)
  }

  /** The layout that a template gives to its records; fields may have been defined since it was made. */
  ghost predicate IsLayout(l: Layout, t: Template, specs: seq<Spec>)
  {
    && (forall k :: 0 <= k < |t.ids| ==> t.ids[k] < t.offsetSize) && t.offsetSize <= |specs|
    && LayoutOk(l) && l.ids == t.ids && l.size == t.staticSize && Known(specs, t.ids)
    && (forall k :: 0 <= k < |t.ids| ==> t.ids[k] in t.offset && l.starts[k] == t.offset[t.ids[k]])
    && (forall k :: 0 <= k < |t.ids| ==> (specs[t.ids[k]].size < 0 <==> k >= l.fixed))
    && (forall k :: 0 <= k < l.fixed ==> l.widths[k] == specs[t.ids[k]].size)
    && (t.firstDynamic.None? ==> l.fixed == |t.ids|)
  }

  /** Fields in a row tile the fixed part. */
  lemma Tiles(specs: seq<Spec>, ids: seq<nat>, fixed: nat) returns (l: Layout)
    requires Known(specs, ids) && Distinct(ids) && fixed <= |ids|
    requires forall k :: fixed <= k < |ids| ==> specs[ids[k]].size < 0
    ensures LayoutOk(l) && l.ids == ids && l.fixed == fixed && l.size == Start(specs, ids, |ids|)
    ensures forall k :: 0 <= k < |ids| ==> l.starts[k] == Start(specs, ids, k) && l.widths[k] == Width(specs[ids[k]])
  {
    var n := |ids|;
    l := Layout(ids, seq<nat>(n, k requires 0 <= k < n => Start(specs, ids, k)),
                seq<nat>(n, k requires 0 <= k < n => Width(specs[ids[k]])), fixed, Start(specs, ids, n));
    forall i, j | 0 <= i < j < n
      ensures l.starts[i] + l.widths[i] <= l.starts[j]
    {
      FieldsTile(specs, ids, i, j);
    }
    forall i | 0 <= i < n
      ensures l.starts[i] + l.widths[i] <= l.size
    {
      FieldsTile(specs, ids, i, n);
    }
  }

  lemma SixteenBits(n: nat)
    requires n < OFFSETS
    ensures n % OFFSETS == n
  {
  }

  /** In a template whose fields fit 16 bits, offsets and size are where the fields start and end. */
  lemma ExactOffsets(t: Template, specs: seq<Spec>, fields: set<nat>)
    requires IsTemplate(t, specs, fields) && Start(specs, t.ids, |t.ids|) < OFFSETS
    ensures t.staticSize == Start(specs, t.ids, |t.ids|)
    ensures forall k :: 0 <= k < |t.ids| ==> t.ids[k] in t.offset && t.offset[t.ids[k]] == Start(specs, t.ids, k)
  {
    SixteenBits(Start(specs, t.ids, |t.ids|));
    forall k | 0 <= k < |t.ids|
      ensures t.ids[k] in t.offset && t.offset[t.ids[k]] == Start(specs, t.ids, k)
    {
      assert Entry(t.offset, specs, t.ids, k);
      FieldsTile(specs, t.ids, k, |t.ids|);
      SixteenBits(Start(specs, t.ids, k));
    }
  }

  lemma LayoutStays(l: Layout, t: Template, specs: seq<Spec>, later: seq<Spec>)
    requires IsLayout(l, t, specs) && specs <= later
    ensures IsLayout(l, t, later)
  {
    assert forall k :: 0 <= k < |t.ids| ==> later[t.ids[k]] == specs[t.ids[k]];
  }

  /**
   * A template whose fields fit 16 bits has a layout, then and after more fields were defined: its fields tile the fixed
   * part, and the ones that vary come last.
   */
  lemma TemplateHasLayout(t: Template, specs: seq<Spec>, later: seq<Spec>, fields: set<nat>) returns (l: Layout)
    requires Defined(specs) && IsTemplate(t, specs, fields) && specs <= later
    requires Start(specs, t.ids, |t.ids|) < OFFSETS
    ensures IsLayout(l, t, later)
  {
    DynamicLast(specs, t.ids, 0);
    OrderIsDistinct(specs, t.ids);
    ExactOffsets(t, specs, fields);
    l := Tiles(specs, t.ids, if t.firstDynamic.Some? then t.firstDynamic.value else |t.ids|);
    assert IsLayout(l, t, specs);
    LayoutStays(l, t, specs, later);
  }

  /** In a layout no field starts before the widths of the ones in front of it add up. */
  lemma {:induction false} StartsApart(l: Layout, t: Template, specs: seq<Spec>, k: nat)
    requires IsLayout(l, t, specs) && k <= |t.ids|
    ensures Start(specs, t.ids, k) <= if k < |t.ids| then l.starts[k] else l.size
  {
    if k > 0 {
      StartsApart(l, t, specs, k - 1);
      assert l.starts[k - 1] + l.widths[k - 1] <= if k < |t.ids| then l.starts[k] else l.size;
    }
  }

  /** A template has a layout exactly when the widths of its fields add up to less than 16 bits can count. */
  lemma LayoutIff(t: Template, specs: seq<Spec>, fields: set<nat>)
    requires Defined(specs) && IsTemplate(t, specs, fields)
    ensures (exists l :: IsLayout(l, t, specs)) <==> Start(specs, t.ids, |t.ids|) < 0x1_0000
  {
    if Start(specs, t.ids, |t.ids|) < OFFSETS {
      var l := TemplateHasLayout(t, specs, specs, fields);
    } else if exists l :: IsLayout(l, t, specs) {
      var l :| IsLayout(l, t, specs);
      StartsApart(l, t, specs, |t.ids|);
      assert false;
    }
  }

  // ---------------------------------------------------------------- records

  /** The slots of the fields that vary. */
  function Slots(l: Layout): (slots: seq<nat>)
    requires LayoutOk(l)
  {
    l.starts[l.fixed..]
  }

  /** A record of the layout with these values in the fields that vary. */
  ghost predicate RecordOk(l: Layout, b: seq<Byte>, vals: seq<seq<Byte>>)
  {
    LayoutOk(l) && l.size <= |b| && Laid(b, Slots(l), l.size, vals)
  }

  /** The value of field number `k` as a reader of the record finds it. */
  ghost function Value(l: Layout, b: seq<Byte>, vals: seq<seq<Byte>>, k: nat): (v: seq<Byte>)
    requires RecordOk(l, b, vals) && k < |l.ids|
  {
    var p := l.starts[k];
    if k < l.fixed then b[p..p + l.widths[k]]
    else
      ReadOk(l, b, vals, k);
      var start := l.size + Word(b, p);
      b[start..start + Word(b, p + 2)]
  }

  /** Reading a field that varies stays within the record, and finds the value laid there. */
  lemma ReadOk(l: Layout, b: seq<Byte>, vals: seq<seq<Byte>>, k: nat)
    requires RecordOk(l, b, vals) && l.fixed <= k < |l.ids|
    ensures l.starts[k] + 4 <= |b| && k - l.fixed < |vals|
    ensures var start := l.size + Word(b, l.starts[k]);
            var end := start + Word(b, l.starts[k] + 2);
            end <= |b| && b[start..end] == vals[k - l.fixed]
  {
    var j := k - l.fixed;
    assert Slots(l)[j] == l.starts[k];
    assert OffsetIs(b, Slots(l), vals, j) && LengthIs(b, Slots(l), vals, j);
    ValueInPlace(b, l.size, vals, j);
  }

  lemma ValueIs(l: Layout, b: seq<Byte>, vals: seq<seq<Byte>>, k: nat)
    requires RecordOk(l, b, vals) && k < |l.ids|
    ensures l.starts[k] + l.widths[k] <= |b|
    ensures k < l.fixed ==> Value(l, b, vals, k) == b[l.starts[k]..l.starts[k] + l.widths[k]]
    ensures k >= l.fixed ==> k - l.fixed < |vals| && Value(l, b, vals, k) == vals[k - l.fixed]
  {
    if k >= l.fixed {
      ReadOk(l, b, vals, k);
    }
  }

  /** Every field but number `at` has the value it had, and that one has `v`. */
  ghost predicate OnlySet(l: Layout, b: seq<Byte>, vals: seq<seq<Byte>>, b': seq<Byte>, vals': seq<seq<Byte>>, at: nat, v: seq<Byte>)
  {
    && RecordOk(l, b, vals) && RecordOk(l, b', vals')
    && forall k :: 0 <= k < |l.ids| ==> Value(l, b', vals', k) == if k == at then v else Value(l, b, vals, k)
  }

  // ---------------------------------------------------------------- setting

  /** The bytes of a field of fixed size are in no slot. */
  lemma NotInSlot(l: Layout, k: nat, p: nat)
    requires LayoutOk(l) && k < l.fixed && l.starts[k] <= p < l.starts[k] + l.widths[k]
    ensures p < l.size && !InSlot(Slots(l), p)
  {
    var slots := Slots(l);
    forall j | 0 <= j < |slots|
      ensures p < slots[j]
    {
      assert slots[j] == l.starts[l.fixed + j];
    }
  }

  lemma FixedKept(l: Layout, b: seq<Byte>, b': seq<Byte>, k: nat)
    requires LayoutOk(l) && k < l.fixed && l.size <= |b| == |b'|
    requires forall p: nat :: p < l.size && !InSlot(Slots(l), p) ==> b'[p] == b[p]
    ensures l.starts[k] + l.widths[k] <= |b|
    ensures b'[l.starts[k]..l.starts[k] + l.widths[k]] == b[l.starts[k]..l.starts[k] + l.widths[k]]
  {
    forall q | l.starts[k] <= q < l.starts[k] + l.widths[k]
      ensures b'[q] == b[q]
    {
      NotInSlot(l, k, q);
    }
  }

  lemma SetOne(l: Layout, b: seq<Byte>, vals: seq<seq<Byte>>, b': seq<Byte>, index: nat, v: seq<Byte>)
    requires RecordOk(l, b, vals) && index < |vals| && RecordOk(l, b', vals[index := v]) && |b| == |b'|
    requires forall p: nat :: p < l.size && !InSlot(Slots(l), p) ==> b'[p] == b[p]
    ensures OnlySet(l, b, vals, b', vals[index := v], l.fixed + index, v)
  {
    var vals' := vals[index := v];
    forall k | 0 <= k < |l.ids|
      ensures Value(l, b', vals', k) == if k == l.fixed + index then v else Value(l, b, vals, k)
    {
      ValueIs(l, b, vals, k);
      ValueIs(l, b', vals', k);
      if k < l.fixed {
        FixedKept(l, b, b', k);
      }
    }
  }

  /** The record has room for value `j` to become `v`. */
  predicate Room(vals: seq<seq<Byte>>, j: nat, v: seq<Byte>, fixed: nat, length: nat)
  {
    j < |vals| ==> |Joined(vals[j := v])| < WORD && fixed + |Joined(vals[j := v])| <= length
  }

  /** Sets field number `k`, which varies. */
  method SetField(l: Layout, rec: array<Byte>, ghost vals: seq<seq<Byte>>, k: nat, v: seq<Byte>)
    requires RecordOk(l, rec[..], vals) && l.fixed <= k < |l.ids| && Room(vals, k - l.fixed, v, l.size, rec.Length)
    modifies rec
    ensures k - l.fixed < |vals| && OnlySet(l, old(rec[..]), vals, rec[..], vals[k - l.fixed := v], k, v)
  {
    ghost var b := rec[..];
    SetValue(rec, Slots(l), l.size, k - l.fixed, vals, v);
    SetOne(l, b, vals, rec[..], k - l.fixed, v);
  }

  /** The number of a field in the template, as the loop over the ids finds it. */
  method IndexOf(ids: seq<nat>, id: nat) returns (k: nat)
    requires id in ids
    ensures k < |ids| && ids[k] == id
  {
    ghost var at :| 0 <= at < |ids| && ids[at] == id;
    k := 0;
    var i := 0;
    while i < |ids|
      invariant i <= |ids|
      invariant at < i ==> k < |ids| && ids[k] == id
    {
      if ids[i] == id {
        k := i;
      }
      i := i + 1;
    }
  }

  /**
   * `ur_set_var`: for an entry of the offset table it fails exactly on a field that is not in the record or does not vary.
   * The entry is read without a look at the size of the table.
   */
  method SetVar(t: Template, specs: seq<Spec>, l: Layout, rec: array<Byte>, ghost vals: seq<seq<Byte>>, id: nat, v: seq<Byte>)
      returns (r: Result, ghost k: nat)
    requires IsLayout(l, t, specs) && RecordOk(l, rec[..], vals)
    requires forall k :: l.fixed <= k < |l.ids| && l.ids[k] == id ==> Room(vals, k - l.fixed, v, l.size, rec.Length)
    modifies rec
    ensures r == BehindTable <==> id >= t.offsetSize
    ensures r == Ok <==> id in t.ids && id < |specs| && specs[id].size < 0
    ensures r == InvalidFieldId ==> rec[..] == old(rec[..])
    ensures r == Ok ==> && l.fixed <= k < |l.ids| && l.ids[k] == id && k - l.fixed < |vals|
                        && OnlySet(l, old(rec[..]), vals, rec[..], vals[k - l.fixed := v], k, v)
  {
    if id >= t.offsetSize {
      return BehindTable, 0;
    }
    if id !in t.ids {
      return InvalidFieldId, 0;
    }
    var index := IndexOf(t.ids, id);
    if t.firstDynamic.None? || specs[id].size >= 0 {
      return InvalidFieldId, 0;
    }
    SetField(l, rec, vals, index, v);
    return Ok, index;
  }

  /**
   * Behind the offset table of a template are exactly the fields defined after it was made. None of them is in the template,
   * and one of the same fields that is made now has them in its table, so the answer ought to be that the field is invalid.
   */
  lemma LaterFieldBehind(t: Template, specs: seq<Spec>, fields: set<nat>, later: seq<Spec>, id: nat)
    requires IsTemplate(t, specs, fields) && specs <= later && id < |later|
    ensures id >= t.offsetSize <==> !(later[..id + 1] <= specs)
    ensures id >= t.offsetSize ==> id !in t.ids
    ensures var now := t.(offsetSize := |later|); IsTemplate(now, later, fields) && id < now.offsetSize
  {
    LaterTemplate(t, specs, later, fields);
    assert id < |specs| ==> later[..id + 1] == specs[..id + 1];
  }

  // ---------------------------------------------------------------- copying

  /** Bytes outside the slots change: the slots and the data stay. */
  lemma SlotsKept(l: Layout, b: seq<Byte>, b': seq<Byte>, vals: seq<seq<Byte>>, k: nat)
    requires RecordOk(l, b, vals) && |b'| == |b| && k < l.fixed
    requires forall q :: 0 <= q < |b| && !(l.starts[k] <= q < l.starts[k] + l.widths[k]) ==> b'[q] == b[q]
    ensures RecordOk(l, b', vals)
  {
    var slots := Slots(l);
    forall j | 0 <= j < |slots|
      ensures OffsetIs(b', slots, vals, j) && LengthIs(b', slots, vals, j)
    {
      assert slots[j] == l.starts[l.fixed + j];
      assert OffsetIs(b, slots, vals, j) && LengthIs(b, slots, vals, j);
    }
    assert b'[l.size..l.size + |Joined(vals)|] == b[l.size..l.size + |Joined(vals)|];
  }

  /** A field of fixed size gets other bytes. */
  lemma FixedSet(l: Layout, b: seq<Byte>, b': seq<Byte>, vals: seq<seq<Byte>>, k: nat, v: seq<Byte>)
    requires RecordOk(l, b, vals) && |b'| == |b| && k < l.fixed && |v| == l.widths[k]
    requires b'[l.starts[k]..l.starts[k] + |v|] == v
    requires forall q :: 0 <= q < |b| && !(l.starts[k] <= q < l.starts[k] + |v|) ==> b'[q] == b[q]
    ensures OnlySet(l, b, vals, b', vals, k, v)
  {
    SlotsKept(l, b, b', vals, k);
    forall i | 0 <= i < |l.ids|
      ensures Value(l, b', vals, i) == if i == k then v else Value(l, b, vals, i)
    {
      ValueIs(l, b, vals, i);
      ValueIs(l, b', vals, i);
      if i < l.fixed && i != k {
        OtherFixed(l, b, b', i, k);
      }
    }
  }

  lemma OtherFixed(l: Layout, b: seq<Byte>, b': seq<Byte>, i: nat, k: nat)
    requires LayoutOk(l) && l.size <= |b| == |b'| && i < |l.ids| && k < |l.ids| && i != k
    requires forall q :: 0 <= q < |b| && !(l.starts[k] <= q < l.starts[k] + l.widths[k]) ==> b'[q] == b[q]
    ensures b'[l.starts[i]..l.starts[i] + l.widths[i]] == b[l.starts[i]..l.starts[i] + l.widths[i]]
  {
    assert i < k ==> l.starts[i] + l.widths[i] <= l.starts[k];
    assert k < i ==> l.starts[k] + l.widths[k] <= l.starts[i];
  }

  /** Copies the bytes of a field of fixed size. */
  method CopyFixed(l: Layout, rec: array<Byte>, ghost vals: seq<seq<Byte>>, k: nat, v: seq<Byte>)
    requires RecordOk(l, rec[..], vals) && k < l.fixed && |v| == l.widths[k]
    modifies rec
    ensures OnlySet(l, old(rec[..]), vals, rec[..], vals, k, v)
  {
    ghost var b := rec[..];
    MemCopy(rec, l.starts[k], v);
    FixedSet(l, b, rec[..], vals, k, v);
  }

  /** Number `at` of `src` is the field with the id of number `k` of `dst`. */
  predicate SameField(dst: Layout, src: Layout, k: nat, at: nat)
  {
    k < |dst.ids| && at < |src.ids| && dst.ids[k] == src.ids[at]
  }

  /** A field below `n` that is in the source as number `at` has the value it has there. */
  ghost predicate Copied(n: nat, l: Layout, b': seq<Byte>, vals': seq<seq<Byte>>, from: Layout, src: seq<Byte>, srcVals: seq<seq<Byte>>, k: nat, at: nat)
    requires RecordOk(l, b', vals') && RecordOk(from, src, srcVals)
  {
    SameField(l, from, k, at) && l.ids[k] < n ==> Value(l, b', vals', k) == Value(from, src, srcVals, at)
  }

  /** Fields below `n` that are in both records have the value of the source, the others the one they had. */
  ghost predicate CopiedTo(n: nat, l: Layout, b: seq<Byte>, vals: seq<seq<Byte>>, b': seq<Byte>, vals': seq<seq<Byte>>,
                           from: Layout, src: seq<Byte>, srcVals: seq<seq<Byte>>)
  {
    && RecordOk(l, b, vals) && RecordOk(l, b', vals') && RecordOk(from, src, srcVals)
    && (forall k: nat, at: nat :: Copied(n, l, b', vals', from, src, srcVals, k, at))
    && (forall k :: 0 <= k < |l.ids| && (l.ids[k] >= n || l.ids[k] !in from.ids) ==> Value(l, b', vals', k) == Value(l, b, vals, k))
  }

  /** Two templates over the same defined fields, and their layouts. */
  ghost predicate Layouts(specs: seq<Spec>, t: Template, l: Layout, t': Template, from: Layout)
  {
    Defined(specs) && IsLayout(l, t, specs) && IsLayout(from, t', specs)
  }

  /** Fields that are in both records have the value of the source, all others the one they had. */
  ghost predicate AllCopied(l: Layout, b: seq<Byte>, vals: seq<seq<Byte>>, b': seq<Byte>, vals': seq<seq<Byte>>,
                            from: Layout, src: seq<Byte>, srcVals: seq<seq<Byte>>)
  {
    && RecordOk(l, b, vals) && RecordOk(l, b', vals') && RecordOk(from, src, srcVals)
    && (forall k: nat, at: nat :: SameField(l, from, k, at) ==> Value(l, b', vals', k) == Value(from, src, srcVals, at))
    && (forall k :: 0 <= k < |l.ids| && l.ids[k] !in from.ids ==> Value(l, b', vals', k) == Value(l, b, vals, k))
  }

  /** Fields that are in both records are in both offset tables. */
  lemma CopiedAll(n: nat, specs: seq<Spec>, t: Template, l: Layout, b: seq<Byte>, vals: seq<seq<Byte>>, b': seq<Byte>, vals': seq<seq<Byte>>,
                  t': Template, from: Layout, src: seq<Byte>, srcVals: seq<seq<Byte>>)
    requires Layouts(specs, t, l, t', from) && CopiedTo(n, l, b, vals, b', vals', from, src, srcVals)
    requires n == if t'.offsetSize < t.offsetSize then t'.offsetSize else t.offsetSize
    ensures AllCopied(l, b, vals, b', vals', from, src, srcVals)
  {
    forall k: nat, at: nat | SameField(l, from, k, at)
      ensures Value(l, b', vals', k) == Value(from, src, srcVals, at)
    {
      assert t.ids[k] < t.offsetSize && t'.ids[at] < t'.offsetSize;
      assert Copied(n, l, b', vals', from, src, srcVals, k, at);
    }
  }

  /** One more field copied. */
  lemma CopiedOne(n: nat, l: Layout, b: seq<Byte>, vals: seq<seq<Byte>>, b1: seq<Byte>, vals1: seq<seq<Byte>>,
                  b2: seq<Byte>, vals2: seq<seq<Byte>>, from: Layout, src: seq<Byte>, srcVals: seq<seq<Byte>>, k: nat, at: nat)
    requires CopiedTo(n, l, b, vals, b1, vals1, from, src, srcVals) && SameField(l, from, k, at) && l.ids[k] == n
    requires OnlySet(l, b1, vals1, b2, vals2, k, Value(from, src, srcVals, at))
    ensures CopiedTo(n + 1, l, b, vals, b2, vals2, from, src, srcVals)
  {
    forall i: nat, j: nat | SameField(l, from, i, j) && l.ids[i] < n + 1
      ensures Value(l, b2, vals2, i) == Value(from, src, srcVals, j)
    {
      assert Copied(n, l, b1, vals1, from, src, srcVals, i, j);
      assert i == k ==> j == at;
    }
    assert from.ids[at] in from.ids;
  }

  lemma SkippedPair(n: nat, l: Layout, b1: seq<Byte>, vals1: seq<seq<Byte>>, from: Layout, src: seq<Byte>, srcVals: seq<seq<Byte>>, i: nat, j: nat)
    requires RecordOk(l, b1, vals1) && RecordOk(from, src, srcVals) && (n !in from.ids || n !in l.ids)
    requires Copied(n, l, b1, vals1, from, src, srcVals, i, j)
    ensures Copied(n + 1, l, b1, vals1, from, src, srcVals, i, j)
  {
    assert SameField(l, from, i, j) ==> l.ids[i] in l.ids && from.ids[j] in from.ids;
  }

  /** A field that is not in both records is skipped. */
  lemma SkippedOne(n: nat, l: Layout, b: seq<Byte>, vals: seq<seq<Byte>>, b1: seq<Byte>, vals1: seq<seq<Byte>>,
                   from: Layout, src: seq<Byte>, srcVals: seq<seq<Byte>>)
    requires CopiedTo(n, l, b, vals, b1, vals1, from, src, srcVals) && (n !in from.ids || n !in l.ids)
    ensures CopiedTo(n + 1, l, b, vals, b1, vals1, from, src, srcVals)
  {
    forall i: nat, j: nat | SameField(l, from, i, j)
      ensures Copied(n + 1, l, b1, vals1, from, src, srcVals, i, j)
    {
      SkippedPair(n, l, b1, vals1, from, src, srcVals, i, j);
    }
  }

  /** The values are no longer than these lengths. */
  predicate Within(vals: seq<seq<Byte>>, caps: seq<nat>)
  {
    |vals| == |caps| && forall j :: 0 <= j < |vals| ==> |vals[j]| <= caps[j]
  }

  function Total(caps: seq<nat>): (n: nat)
  {
    if caps == [] then 0 else Total(caps[..|caps| - 1]) + caps[|caps| - 1]
  }

  lemma {:induction false} WithinTotal(vals: seq<seq<Byte>>, caps: seq<nat>)
    requires Within(vals, caps)
    ensures |Joined(vals)| <= Total(caps)
  {
    if vals != [] {
      WithinTotal(vals[..|vals| - 1], caps[..|caps| - 1]);
    }
  }

  /** The values of the source fit the bounds of the destination. */
  ghost predicate Fits(l: Layout, from: Layout, src: seq<Byte>, srcVals: seq<seq<Byte>>, caps: seq<nat>, length: nat)
    requires RecordOk(from, src, srcVals)
  {
    && Total(caps) < WORD && l.size + Total(caps) <= length
    && forall k: nat, at: nat :: SameField(l, from, k, at) && l.fixed <= k && k - l.fixed < |caps| ==>
         |Value(from, src, srcVals, at)| <= caps[k - l.fixed]
  }

  /** The bytes of field number `k`, as the copy reads them. */
  method ReadField(l: Layout, rec: array<Byte>, ghost vals: seq<seq<Byte>>, k: nat) returns (v: seq<Byte>)
    requires RecordOk(l, rec[..], vals) && k < |l.ids|
    ensures v == Value(l, rec[..], vals, k)
  {
    var p := l.starts[k];
    if k < l.fixed {
      v := rec[p..p + l.widths[k]];
    } else {
      ReadOk(l, rec[..], vals, k);
      var offset := ReadWord(rec, p);
      var length := ReadWord(rec, p + 2);
      v := rec[l.size + offset..l.size + offset + length];
    }
  }

  lemma NoneCopied(l: Layout, b: seq<Byte>, vals: seq<seq<Byte>>, from: Layout, src: seq<Byte>, srcVals: seq<seq<Byte>>)
    requires RecordOk(l, b, vals) && RecordOk(from, src, srcVals)
    ensures CopiedTo(0, l, b, vals, b, vals, from, src, srcVals)
  {
  }

  /**
   * `ur_copy_fields` between different templates: field by field in the order of the ids. `caps` bounds the lengths of the
   * values in the destination before and after.
   */
  method CopyFields(specs: seq<Spec>, t: Template, l: Layout, dst: array<Byte>, ghost vals: seq<seq<Byte>>,
                    t': Template, from: Layout, src: array<Byte>, ghost srcVals: seq<seq<Byte>>, ghost caps: seq<nat>)
      returns (ghost vals': seq<seq<Byte>>)
    requires dst != src && Layouts(specs, t, l, t', from)
    requires RecordOk(l, dst[..], vals) && RecordOk(from, src[..], srcVals)
    requires Within(vals, caps) && Fits(l, from, src[..], srcVals, caps, dst.Length)
    modifies dst
    ensures AllCopied(l, old(dst[..]), vals, dst[..], vals', from, src[..], srcVals)
  {
    ghost var b, s := dst[..], src[..];
    vals' := vals;
    var size := if t'.offsetSize < t.offsetSize then t'.offsetSize else t.offsetSize;
    var i := 0;
    NoneCopied(l, b, vals, from, s, srcVals);
    while i < size
      invariant i <= size && src[..] == s && dst.Length == |b|
      invariant CopiedTo(i, l, b, vals, dst[..], vals', from, s, srcVals) && Within(vals', caps)
    {
      vals' := CopyField(specs, t, l, dst, vals', t', from, src, srcVals, i, caps, b, vals, s);
      i := i + 1;
    }
    CopiedAll(i, specs, t, l, b, vals, dst[..], vals', t', from, s, srcVals);
  }

  /** `ur_copy_fields` between records of one template: all the bytes of the source, so all of its values. */
  method CopyRecord(l: Layout, dst: array<Byte>, src: array<Byte>, ghost srcVals: seq<seq<Byte>>, size: nat)
    requires dst != src && RecordOk(l, src[..], srcVals) && size == l.size + |Joined(srcVals)| <= dst.Length
    modifies dst
    ensures RecordOk(l, dst[..], srcVals)
    ensures forall k :: 0 <= k < |l.ids| ==> Value(l, dst[..], srcVals, k) == Value(l, src[..], srcVals, k)
    ensures dst[..size] == src[..size] && forall p :: size <= p < dst.Length ==> dst[p] == old(dst[p])
  {
    MemCopy(dst, 0, src[..size]);
    assert dst[..size] == src[..size];
    SameBytes(l, src[..], dst[..], srcVals);
  }

  /** Equal bytes up to the end of the data are the same record. */
  lemma SameBytes(l: Layout, b: seq<Byte>, b': seq<Byte>, vals: seq<seq<Byte>>)
    requires RecordOk(l, b, vals) && l.size + |Joined(vals)| <= |b'| && b'[..l.size + |Joined(vals)|] == b[..l.size + |Joined(vals)|]
    ensures RecordOk(l, b', vals)
    ensures forall k :: 0 <= k < |l.ids| ==> Value(l, b', vals, k) == Value(l, b, vals, k)
  {
    var n, slots := l.size + |Joined(vals)|, Slots(l);
    forall p | 0 <= p < n
      ensures b'[p] == b[p]
    {
      assert b'[..n][p] == b[..n][p];
    }
    forall j | 0 <= j < |slots|
      ensures OffsetIs(b', slots, vals, j) && LengthIs(b', slots, vals, j)
    {
      assert OffsetIs(b, slots, vals, j) && LengthIs(b, slots, vals, j);
    }
    assert b'[l.size..n] == b[l.size..n];
    forall k | 0 <= k < |l.ids|
      ensures Value(l, b', vals, k) == Value(l, b, vals, k)
    {
      ValueIs(l, b, vals, k);
      ValueIs(l, b', vals, k);
      if k < l.fixed {
        assert b'[l.starts[k]..l.starts[k] + l.widths[k]] == b[l.starts[k]..l.starts[k] + l.widths[k]];
      }
    }
  }

  /** A value that stays within its bound fits into the record. */
  lemma RoomFor(l: Layout, b: seq<Byte>, vals: seq<seq<Byte>>, caps: seq<nat>, k: nat, v: seq<Byte>)
    requires RecordOk(l, b, vals) && Within(vals, caps) && l.fixed <= k < |l.ids|
    requires Total(caps) < WORD && l.size + Total(caps) <= |b|
    requires k - l.fixed < |caps| ==> |v| <= caps[k - l.fixed]
    ensures k - l.fixed < |vals| && Room(vals, k - l.fixed, v, l.size, |b|) && Within(vals[k - l.fixed := v], caps)
  {
    ValueIs(l, b, vals, k);
    WithinTotal(vals[k - l.fixed := v], caps);
  }

  /** Copies the field `id` if it is in both records. */
  method CopyField(specs: seq<Spec>, t: Template, l: Layout, dst: array<Byte>, ghost vals1: seq<seq<Byte>>,
                   t': Template, from: Layout, src: array<Byte>, ghost srcVals: seq<seq<Byte>>, id: nat, ghost caps: seq<nat>,
                   ghost b: seq<Byte>, ghost vals: seq<seq<Byte>>, ghost s: seq<Byte>)
      returns (ghost vals2: seq<seq<Byte>>)
    requires dst != src && Layouts(specs, t, l, t', from) && src[..] == s
    requires CopiedTo(id, l, b, vals, dst[..], vals1, from, s, srcVals)
    requires Within(vals1, caps) && Fits(l, from, s, srcVals, caps, dst.Length)
    modifies dst
    ensures CopiedTo(id + 1, l, b, vals, dst[..], vals2, from, s, srcVals) && Within(vals2, caps)
  {
    vals2 := vals1;
    if id !in l.ids || id !in from.ids {
      SkippedOne(id, l, b, vals, dst[..], vals1, from, s, srcVals);
      return;
    }
    var k := IndexOf(l.ids, id);
    var at := IndexOf(from.ids, id);
    assert SameField(l, from, k, at);
    ghost var b1 := dst[..];
    var v := ReadField(from, src, srcVals, at);
    assert |v| == |Value(from, s, srcVals, at)|;
    if specs[id].size > 0 {
      CopyFixed(l, dst, vals1, k, v);
    } else {
      vals2 := vals1[k - l.fixed := v];
      RoomFor(l, b1, vals1, caps, k, v);
      SetField(l, dst, vals1, k, v);
    }
    CopiedOne(id, l, b, vals, b1, vals1, dst[..], vals2, from, s, srcVals, k, at);
  }
}
