/**
 * UniRec templates: the fields of a record in their canonical order, and where each of them is. A template depends on
 * the set of its fields only, and its fields tile the fixed part of a record.
 */
module UniRecTemplate {
  import opened Options

  /** A defined field; the size is negative when it varies. The id of a field is its place among the defined ones. */
  datatype Spec = Spec(name: string, size: int)

  /**
   * `offset` holds the offsets of the fields present, the other entries below `offsetSize` are invalid; no first dynamic
   * field is `None`.
   */
  datatype Template = Template(ids: seq<nat>, offset: map<nat, nat>, offsetSize: nat, staticSize: nat, firstDynamic: Option<nat>)

  /** Offsets and the static size are counted in 16 bits. */
  const OFFSETS: nat := 0x1_0000

  /** Every field has a name of its own, and a size. */
  predicate Defined(specs: seq<Spec>)
  {
    && (forall i, j :: 0 <= i < j < |specs| ==> specs[i].name != specs[j].name)
    && (forall i :: 0 <= i < |specs| ==> specs[i].size != 0)
  }

  // ---------------------------------------------------------------- order

  /** The sign of `strcmp`. */
  function StrCmp(a: string, b: string): (c: int)
    ensures -1 <= c <= 1
  {
    if a == [] then if b == [] then 0 else -1
    else if b == [] then 1
    else if a[0] != b[0] then if a[0] < b[0] then -1 else 1
    else StrCmp(a[1..], b[1..])
  }

  lemma {:induction false} StrCmpOrders(a: string, b: string)
    ensures StrCmp(a, b) == -StrCmp(b, a)
    ensures StrCmp(a, b) == 0 <==> a == b
  {
    if a != [] && b != [] && a[0] == b[0] {
      StrCmpOrders(a[1..], b[1..]);
      assert a == [a[0]] + a[1..] && b == [b[0]] + b[1..];
    }
  }

  lemma {:induction false} StrCmpTransitive(a: string, b: string, c: string)
    requires StrCmp(a, b) < 0 && StrCmp(b, c) < 0
    ensures StrCmp(a, c) < 0
  {
    if a != [] && a[0] == b[0] == c[0] {
      StrCmpTransitive(a[1..], b[1..], c[1..]);
    }
  }

  /** The sign is that of the first letters that differ; of a string and a longer one that begins with it the string is less. */
  lemma {:induction false} StrCmpIs(a: string, b: string) returns (k: nat)
    requires StrCmp(a, b) < 0
    ensures k <= |a| && k < |b| && a[..k] == b[..k] && (k == |a| || a[k] < b[k])
  {
    if a == [] || a[0] != b[0] {
      k := 0;
    } else {
      var k' := StrCmpIs(a[1..], b[1..]);
      k := k' + 1;
      assert a[..k] == [a[0]] + a[1..][..k'] && b[..k] == [b[0]] + b[1..][..k'];
    }
  }

  /** `compare_fields`: larger fields first, by name among fields of one size. */
  function CompareFields(f1: Spec, f2: Spec): (c: int)
  {
    if f1.size > f2.size then -1 else if f1.size < f2.size then 1 else StrCmp(f1.name, f2.name)
  }

  predicate Known(specs: seq<Spec>, ids: seq<nat>)
  {
    forall i :: 0 <= i < |ids| ==> ids[i] < |specs|
  }

  predicate Goes(specs: seq<Spec>, a: nat, b: nat)
    requires a < |specs| && b < |specs|
  {
    CompareFields(specs[a], specs[b]) < 0
  }

  /** The comparison puts the defined fields in a strict order. */
  lemma GoesOrders(specs: seq<Spec>, a: nat, b: nat)
    requires Defined(specs) && a < |specs| && b < |specs|
    ensures a != b ==> (Goes(specs, a, b) <==> !Goes(specs, b, a))
    ensures !Goes(specs, a, a)
  {
    StrCmpOrders(specs[a].name, specs[b].name);
    StrCmpOrders(specs[a].name, specs[a].name);
  }

  lemma GoesTransitive(specs: seq<Spec>, a: nat, b: nat, c: nat)
    requires a < |specs| && b < |specs| && c < |specs| && Goes(specs, a, b) && Goes(specs, b, c)
    ensures Goes(specs, a, c)
  {
    if specs[a].size == specs[b].size == specs[c].size {
      StrCmpTransitive(specs[a].name, specs[b].name, specs[c].name);
    }
  }

  predicate InOrder(specs: seq<Spec>, ids: seq<nat>)
    requires Known(specs, ids)
  {
    forall i, j :: 0 <= i < j < |ids| ==> Goes(specs, ids[i], ids[j])
  }

  // ---------------------------------------------------------------- layout

  /** Bytes of a field in the fixed part: its value, or the offset and the length of a field that varies. */
  function Width(spec: Spec): (w: nat)
  {
    if spec.size < 0 then 4 else spec.size
  }

  /** Where field number `k` starts. */
  function Start(specs: seq<Spec>, ids: seq<nat>, k: nat): (p: nat)
    requires Known(specs, ids) && k <= |ids|
  {
    if k == 0 then 0 else Start(specs, ids, k - 1) + Width(specs[ids[k - 1]])
  }

  /** Where the first field that varies is in the order. */
  function FirstDynamic(specs: seq<Spec>, ids: seq<nat>, k: nat): (f: Option<nat>)
    requires Known(specs, ids) && k <= |ids|
    ensures f.Some? ==> k <= f.value < |ids|
    decreases |ids| - k
  {
    if k == |ids| then None else if specs[ids[k]].size < 0 then Some(k) else FirstDynamic(specs, ids, k + 1)
  }

  /** The first `n` fields as a set. */
  function Fields(ids: seq<nat>, n: nat): (fields: set<nat>)
    requires n <= |ids|
  {
    if n == 0 then {} else Fields(ids, n - 1) + {ids[n - 1]}
  }

  lemma {:induction false} FieldsAre(ids: seq<nat>, n: nat, id: nat)
    requires n <= |ids|
    ensures id in Fields(ids, n) <==> id in ids[..n]
  {
    if n > 0 {
      FieldsAre(ids, n - 1, id);
      assert ids[..n] == ids[..n - 1] + [ids[n - 1]];
    }
  }

  /** The offset of field number `k`. */
  predicate Entry(table: map<nat, nat>, specs: seq<Spec>, ids: seq<nat>, k: nat)
    requires Known(specs, ids) && k < |ids|
  {
    ids[k] in table && table[ids[k]] == Start(specs, ids, k) % 0x1_0000
  }

  /** The template of a set of fields, made when `specs` were the defined fields. */
  ghost predicate IsTemplate(t: Template, specs: seq<Spec>, fields: set<nat>)
  {
    && Known(specs, t.ids) && InOrder(specs, t.ids)
    && Fields(t.ids, |t.ids|) == fields
    && t.offset.Keys == fields && t.offsetSize == |specs|
    && (forall k :: 0 <= k < |t.ids| ==> Entry(t.offset, specs, t.ids, k))
    && t.staticSize == Start(specs, t.ids, |t.ids|) % 0x1_0000
    && t.firstDynamic == FirstDynamic(specs, t.ids, 0)
  }

  /** Fields can be put in order in one way only. */
  lemma {:induction false} OneOrder(specs: seq<Spec>, a: seq<nat>, b: seq<nat>)
    requires Defined(specs) && Known(specs, a) && Known(specs, b) && InOrder(specs, a) && InOrder(specs, b)
    requires forall id: nat :: id in a <==> id in b
    ensures a == b
  {
    if a == [] {
      if b != [] {
        NotEmpty(b, a);
      }
    } else {
      NotEmpty(a, b);
      SameFirst(specs, a, b);
      FirstOnce(specs, a);
      FirstOnce(specs, b);
      OneOrder(specs, a[1..], b[1..]);
      assert a == [a[0]] + a[1..] && b == [b[0]] + b[1..];
    }
  }

  lemma NotEmpty(a: seq<nat>, b: seq<nat>)
    requires a != [] && forall id: nat :: id in a ==> id in b
    ensures b != []
  {
    assert a[0] in b;
  }

  /** The first field does not come again. */
  lemma FirstOnce(specs: seq<Spec>, a: seq<nat>)
    requires Defined(specs) && Known(specs, a) && InOrder(specs, a) && a != []
    ensures forall id: nat :: id in a[1..] <==> id in a && id != a[0]
    ensures Known(specs, a[1..]) && InOrder(specs, a[1..])
  {
    forall i | 0 < i < |a|
      ensures a[i] != a[0]
    {
      GoesOrders(specs, a[0], a[0]);
    }
    assert a == [a[0]] + a[1..];
  }

  lemma SameFirst(specs: seq<Spec>, a: seq<nat>, b: seq<nat>)
    requires Defined(specs) && Known(specs, a) && Known(specs, b) && InOrder(specs, a) && InOrder(specs, b)
    requires forall id: nat :: id in a <==> id in b
    requires a != [] && b != []
    ensures a[0] == b[0]
  {
    assert a[0] in a && b[0] in b;
    var i :| 0 <= i < |a| && a[i] == b[0];
    var j :| 0 <= j < |b| && b[j] == a[0];
    GoesOrders(specs, a[0], b[0]);
  }

  /** A template is determined by the set of its fields. */
  lemma TemplateOfSet(s: Template, t: Template, specs: seq<Spec>, fields: set<nat>)
    requires Defined(specs) && IsTemplate(s, specs, fields) && IsTemplate(t, specs, fields)
    ensures s == t
  {
    forall id: nat | true
      ensures id in s.ids <==> id in t.ids
    {
      FieldsAre(s.ids, |s.ids|, id);
      FieldsAre(t.ids, |t.ids|, id);
      assert s.ids[..|s.ids|] == s.ids && t.ids[..|t.ids|] == t.ids;
    }
    OneOrder(specs, s.ids, t.ids);
    forall id | id in fields
      ensures s.offset[id] == t.offset[id]
    {
      FieldsAre(s.ids, |s.ids|, id);
      var k :| 0 <= k < |s.ids| && s.ids[k] == id;
      assert Entry(s.offset, specs, s.ids, k) && Entry(t.offset, specs, t.ids, k);
    }
  }

  lemma {:induction false} DefinedLater(specs: seq<Spec>, later: seq<Spec>, ids: seq<nat>, k: nat)
    requires specs <= later && Known(specs, ids) && k <= |ids|
    ensures Start(specs, ids, k) == Start(later, ids, k)
    ensures FirstDynamic(specs, ids, |ids| - k) == FirstDynamic(later, ids, |ids| - k)
  {
    if k > 0 {
      DefinedLater(specs, later, ids, k - 1);
    }
  }

  /** Fields defined after a template was made change nothing but the size of a table made now. */
  lemma LaterTemplate(t: Template, specs: seq<Spec>, later: seq<Spec>, fields: set<nat>)
    requires specs <= later && IsTemplate(t, specs, fields)
    ensures IsTemplate(t.(offsetSize := |later|), later, fields)
  {
    forall k | 0 <= k < |t.ids|
      ensures Entry(t.offset, later, t.ids, k)
    {
      assert Entry(t.offset, specs, t.ids, k);
      DefinedLater(specs, later, t.ids, k);
    }
    DefinedLater(specs, later, t.ids, |t.ids|);
    assert forall i, j :: 0 <= i < j < |t.ids| ==> Goes(specs, t.ids[i], t.ids[j]) && Goes(later, t.ids[i], t.ids[j]);
  }

  /**
   * The order of the fields in a template: larger ones first, and of two of one size the one whose name comes first in the
   * order of the letters.
   */
  lemma BySizeThenName(t: Template, specs: seq<Spec>, fields: set<nat>, i: nat, j: nat)
    requires IsTemplate(t, specs, fields) && i < j < |t.ids|
    ensures var a, b := specs[t.ids[i]], specs[t.ids[j]];
            || a.size > b.size
            || (a.size == b.size
                && exists k :: 0 <= k <= |a.name| && k < |b.name|
                     && a.name[..k] == b.name[..k] && (k == |a.name| || a.name[k] < b.name[k]))
  {
    var a, b := specs[t.ids[i]], specs[t.ids[j]];
    assert Goes(specs, t.ids[i], t.ids[j]);
    if a.size == b.size {
      var k := StrCmpIs(a.name, b.name);
      assert a.name[..k] == b.name[..k];
    }
  }

  /**
   * Where the fields are: the first at 0, and each behind the one before it, which takes its size, or 4 bytes where it varies.
   * All offsets are counted in 16 bits.
   */
  lemma OffsetsInARow(t: Template, specs: seq<Spec>, fields: set<nat>, k: nat)
    requires IsTemplate(t, specs, fields) && k < |t.ids|
    ensures forall i :: 0 <= i < |t.ids| ==> t.ids[i] in t.offset
    ensures k == 0 ==> t.offset[t.ids[k]] == 0
    ensures (if k + 1 < |t.ids| then t.offset[t.ids[k + 1]] else t.staticSize)
            == (t.offset[t.ids[k]] + if specs[t.ids[k]].size < 0 then 4 else specs[t.ids[k]].size) % 0x1_0000
  {
    forall i | 0 <= i < |t.ids|
      ensures t.ids[i] in t.offset
    {
      assert Entry(t.offset, specs, t.ids, i);
    }
    assert Entry(t.offset, specs, t.ids, k);
    assert k + 1 < |t.ids| ==> Entry(t.offset, specs, t.ids, k + 1);
    StartNext(specs, t.ids, k);
  }

  lemma StartNext(specs: seq<Spec>, ids: seq<nat>, k: nat)
    requires Known(specs, ids) && k < |ids|
    ensures k == 0 ==> Start(specs, ids, k) % OFFSETS == 0
    ensures Start(specs, ids, k + 1) % OFFSETS
            == (Start(specs, ids, k) % OFFSETS + if specs[ids[k]].size < 0 then 4 else specs[ids[k]].size) % 0x1_0000
  {
    WrappedSum(Start(specs, ids, k), Width(specs[ids[k]]));
  }

  lemma WrappedSum(a: nat, b: nat)
    ensures (a % OFFSETS + b) % OFFSETS == (a + b) % OFFSETS
  {
  }

  /** The fields tile the fixed part: each starts behind the one before it, and the last ends where the fixed part ends. */
  lemma {:induction false} FieldsTile(specs: seq<Spec>, ids: seq<nat>, k: nat, j: nat)
    requires Known(specs, ids) && k < j <= |ids|
    ensures Start(specs, ids, k) + Width(specs[ids[k]]) <= Start(specs, ids, j)
    ensures j == k + 1 ==> Start(specs, ids, k) + Width(specs[ids[k]]) == Start(specs, ids, j)
    decreases j
  {
    if k < j - 1 {
      FieldsTile(specs, ids, k, j - 1);
    }
  }

  /** The fields that vary come last. */
  lemma {:induction false} DynamicLast(specs: seq<Spec>, ids: seq<nat>, k: nat)
    requires Defined(specs) && Known(specs, ids) && InOrder(specs, ids) && k <= |ids|
    requires forall i :: 0 <= i < k ==> specs[ids[i]].size > 0
    ensures var f := FirstDynamic(specs, ids, k);
            forall i :: 0 <= i < |ids| ==> (specs[ids[i]].size < 0 <==> f.Some? && i >= f.value)
    decreases |ids| - k
  {
    if k < |ids| {
      if specs[ids[k]].size < 0 {
        assert forall i :: k < i < |ids| ==> Goes(specs, ids[k], ids[i]);
      } else {
        DynamicLast(specs, ids, k + 1);
      }
    }
  }

  // ---------------------------------------------------------------- creation

  /** `ur_get_id_by_name`. */
  method GetIdByName(specs: seq<Spec>, name: string) returns (id: Option<nat>)
    ensures id.Some? ==> id.value < |specs| && specs[id.value].name == name
    ensures id.None? ==> forall i :: 0 <= i < |specs| ==> specs[i].name != name
  {
    for i := 0 to |specs|
      invariant forall j :: 0 <= j < i ==> specs[j].name != name
    {
      if specs[i].name == name {
        return Some(i);
      }
    }
    return None;
  }

  /** The defined fields with one of the names. */
  predicate Named(specs: seq<Spec>, names: seq<string>, id: nat)
  {
    id < |specs| && specs[id].name in names
  }

  /** Stands for `qsort` with `compare_fields` on fields that are all different. */
  method SortFields(specs: seq<Spec>, fields: seq<nat>) returns (ids: seq<nat>)
    requires Defined(specs) && Known(specs, fields) && Distinct(fields)
    ensures Known(specs, ids) && InOrder(specs, ids) && forall id: nat :: id in ids <==> id in fields
  {
    ids := [];
    for i := 0 to |fields|
      invariant Known(specs, ids) && InOrder(specs, ids)
      invariant forall id: nat :: id in ids <==> id in fields[..i]
    {
      assert fields[i] !in fields[..i];
      ids := InsertField(specs, ids, fields[i]);
      assert fields[..i + 1] == fields[..i] + [fields[i]];
    }
    assert fields[..|fields|] == fields;
  }

  predicate Distinct(fields: seq<nat>)
  {
    forall i, j :: 0 <= i < j < |fields| ==> fields[i] != fields[j]
  }

  method InsertField(specs: seq<Spec>, ids: seq<nat>, id: nat) returns (r: seq<nat>)
    requires Defined(specs) && Known(specs, ids) && InOrder(specs, ids) && id < |specs| && id !in ids
    ensures Known(specs, r) && InOrder(specs, r) && forall x: nat :: x in r <==> x in ids || x == id
  {
    var k := 0;
    while k < |ids| && Goes(specs, ids[k], id)
      invariant k <= |ids| && forall i :: 0 <= i < k ==> Goes(specs, ids[i], id)
    {
      k := k + 1;
    }
    r := ids[..k] + [id] + ids[k..];
    InsertedInOrder(specs, ids, id, k, r);
    assert ids == ids[..k] + ids[k..];
  }

  lemma InsertedInOrder(specs: seq<Spec>, ids: seq<nat>, id: nat, k: nat, r: seq<nat>)
    requires Defined(specs) && Known(specs, ids) && InOrder(specs, ids) && id < |specs| && id !in ids
    requires k <= |ids| && r == ids[..k] + [id] + ids[k..]
    requires forall i :: 0 <= i < k ==> Goes(specs, ids[i], id)
    requires k < |ids| ==> !Goes(specs, ids[k], id)
    ensures Known(specs, r) && InOrder(specs, r)
  {
    forall i | k <= i < |ids|
      ensures Goes(specs, id, ids[i])
    {
      assert ids[k] in ids;
      GoesOrders(specs, ids[k], id);
      if k < i {
        GoesTransitive(specs, id, ids[k], ids[i]);
      }
    }
    forall i, j | 0 <= i < j < |r|
      ensures Goes(specs, r[i], r[j])
    {
      assert r[i] == if i < k then ids[i] else if i == k then id else ids[i - 1];
      assert r[j] == if j < k then ids[j] else if j == k then id else ids[j - 1];
    }
  }

  /** Looks the names up and leaves out repeated fields. */
  method Collect(specs: seq<Spec>, names: seq<string>) returns (r: Option<seq<nat>>)
    requires Defined(specs)
    ensures r.None? <==> exists i :: 0 <= i < |names| && Unknown(specs, names[i])
    ensures r.Some? ==> Known(specs, r.value) && Distinct(r.value) && forall id: nat :: id in r.value <==> Named(specs, names, id)
  {
    var fields: seq<nat> := [];
    for i := 0 to |names|
      invariant Known(specs, fields) && Distinct(fields)
      invariant forall id: nat :: id in fields <==> Named(specs, names[..i], id)
      invariant forall x :: 0 <= x < i ==> !Unknown(specs, names[x])
    {
      var id := GetIdByName(specs, names[i]);
      if id.None? {
        return None;
      }
      assert !Unknown(specs, specs[id.value].name);
      forall x: nat | true
        ensures Named(specs, names[..i + 1], x) <==> Named(specs, names[..i], x) || x == id.value
      {
        NamedSnoc(specs, names, i, id.value, x);
      }
      if id.value !in fields {
        fields := fields + [id.value];
      }
    }
    assert names[..|names|] == names;
    r := Some(fields);
  }

  predicate Unknown(specs: seq<Spec>, name: string)
  {
    forall id :: 0 <= id < |specs| ==> specs[id].name != name
  }

  lemma NamedSnoc(specs: seq<Spec>, names: seq<string>, i: nat, id: nat, x: nat)
    requires Defined(specs) && i < |names| && id < |specs| && specs[id].name == names[i]
    ensures Named(specs, names[..i + 1], x) <==> Named(specs, names[..i], x) || x == id
  {
    assert names[..i + 1] == names[..i] + [names[i]];
    if x < |specs| && x != id {
      assert specs[x].name != specs[id].name;
    }
  }

  /** `ur_create_template` from the names in a field string: fails exactly on an unknown name; repetition and order do not matter. */
  method Create(specs: seq<Spec>, names: seq<string>) returns (t: Option<Template>)
    requires Defined(specs)
    ensures t.None? <==> exists i :: 0 <= i < |names| && Unknown(specs, names[i])
    ensures t.Some? ==> IsTemplate(t.value, specs, set id: nat | id < |specs| && Named(specs, names, id))
  {
    var fields := Collect(specs, names);
    if fields.None? {
      return None;
    }
    var ids := SortFields(specs, fields.value);
    OrderIsDistinct(specs, ids);
    var filled := Fill(specs, ids);
    forall id: nat | true
      ensures id in Fields(ids, |ids|) <==> id < |specs| && Named(specs, names, id)
    {
      FieldsAre(ids, |ids|, id);
      assert ids[..|ids|] == ids;
    }
    t := Some(filled);
  }

  /** The offset table of the first `i` fields. */
  predicate Table(table: map<nat, nat>, specs: seq<Spec>, ids: seq<nat>, i: nat)
    requires Known(specs, ids) && i <= |ids|
  {
    && table.Keys == Fields(ids, i)
    && forall k :: 0 <= k < i ==> Entry(table, specs, ids, k)
  }

  lemma TableSnoc(table: map<nat, nat>, specs: seq<Spec>, ids: seq<nat>, i: nat)
    requires Known(specs, ids) && Distinct(ids) && i < |ids| && Table(table, specs, ids, i)
    ensures Table(table[ids[i] := Start(specs, ids, i) % OFFSETS], specs, ids, i + 1)
  {
    var table' := table[ids[i] := Start(specs, ids, i) % OFFSETS];
    forall k | 0 <= k < i + 1
      ensures Entry(table', specs, ids, k)
    {
      assert k < i ==> Entry(table, specs, ids, k) && ids[k] != ids[i];
    }
  }

  lemma OrderIsDistinct(specs: seq<Spec>, ids: seq<nat>)
    requires Defined(specs) && Known(specs, ids) && InOrder(specs, ids)
    ensures Distinct(ids)
  {
    forall i, j | 0 <= i < j < |ids|
      ensures ids[i] != ids[j]
    {
      assert Goes(specs, ids[i], ids[j]);
      GoesOrders(specs, ids[i], ids[i]);
    }
  }

  /** Fills the offset table, and finds the size of the fixed part and the first field that varies. */
  method Fill(specs: seq<Spec>, ids: seq<nat>) returns (t: Template)
    requires Known(specs, ids) && Distinct(ids)
    ensures t.ids == ids && Table(t.offset, specs, ids, |ids|) && t.offsetSize == |specs|
    ensures t.staticSize == Start(specs, ids, |ids|) % OFFSETS && t.firstDynamic == FirstDynamic(specs, ids, 0)
  {
    var table: map<nat, nat>, offset, first: Option<nat> := map[], 0, None;
    for i := 0 to |ids|
      invariant offset == Start(specs, ids, i) % OFFSETS
      invariant Table(table, specs, ids, i)
      invariant FirstDynamic(specs, ids, 0) == if first == None then FirstDynamic(specs, ids, i) else first
    {
      TableSnoc(table, specs, ids, i);
      ghost var rest := FirstDynamic(specs, ids, i + 1);
      assert FirstDynamic(specs, ids, i) == if specs[ids[i]].size < 0 then Some(i) else rest;
      StartNext(specs, ids, i);
      table := table[ids[i] := offset];
      if specs[ids[i]].size < 0 {
        offset := (offset + 4) % OFFSETS;
        if first == None {
          first := Some(i);
        }
      } else {
        offset := (offset + specs[ids[i]].size) % OFFSETS;
      }
    }
    t := Template(ids, table, |specs|, offset, first);
  }
}
