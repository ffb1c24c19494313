/**
 * Templates as text: the printed form "type name,type name", the reduction of it to names, and the reading of names. Reading
 * a printed template gives the template back.
 */
module UniRecText {
  import opened Options
  import opened UniRecTemplate

  /** `isspace` of the C locale. */
  predicate Space(c: char)
  {
    c in " \t\n\U{B}\U{C}\r"
  }

  predicate Kind(c: char)
  {
    c != ' '
  }

  predicate Letter(c: char)
  {
    c != ',' && !Space(c)
  }

  predicate Separator(c: char)
  {
    c == ',' || Space(c)
  }

  // ---------------------------------------------------------------- scanning

  predicate All(s: string, f: char -> bool)
  {
    forall i :: 0 <= i < |s| ==> f(s[i])
  }

  predicate Stops(s: string, f: char -> bool)
  {
    s == "" || !f(s[0])
  }

  /** The longest leading part of `s` that is all `f`. */
  function Take(s: string, f: char -> bool): (r: string)
    ensures |r| <= |s|
  {
    if Stops(s, f) then "" else [s[0]] + Take(s[1..], f)
  }

  /** What comes behind it. */
  function Skip(s: string, f: char -> bool): (r: string)
    ensures |r| <= |s| && Stops(r, f) && (Stops(s, f) || |r| < |s|)
  {
    if Stops(s, f) then s else Skip(s[1..], f)
  }

  lemma {:induction false} Scanned(a: string, b: string, f: char -> bool)
    requires All(a, f) && Stops(b, f)
    ensures Take(a + b, f) == a && Skip(a + b, f) == b
  {
    if a == "" {
      assert a + b == b;
    } else {
      assert (a + b)[1..] == a[1..] + b;
      Scanned(a[1..], b, f);
    }
  }

  /** The index of the first character from `p` on that is not `f`. */
  method Scan(s: string, p: nat, f: char -> bool) returns (q: nat)
    requires p <= |s|
    ensures p <= q <= |s| && s[p..q] == Take(s[p..], f) && s[q..] == Skip(s[p..], f)
  {
    q := p;
    while q < |s| && f(s[q])
      invariant p <= q <= |s| && forall i :: p <= i < q ==> f(s[i])
    {
      q := q + 1;
    }
    Scanned(s[p..q], s[q..], f);
    assert s[p..q] + s[q..] == s[p..];
  }

  // ---------------------------------------------------------------- printing

  /** Parts with a separator between them. */
  function Joined(parts: seq<string>, sep: char): (s: string)
  {
    if parts == [] then "" else if |parts| == 1 then parts[0] else parts[0] + [sep] + Joined(parts[1..], sep)
  }

  /** Parts, each with a delimiter behind it. */
  function Ended(parts: seq<string>, sep: char): (s: string)
  {
    if parts == [] then "" else Ended(parts[..|parts| - 1], sep) + parts[|parts| - 1] + [sep]
  }

  lemma {:induction false} EndedFront(parts: seq<string>, sep: char)
    requires parts != []
    ensures Ended(parts, sep) == parts[0] + [sep] + Ended(parts[1..], sep)
  {
    var n := |parts| - 1;
    if n > 0 {
      EndedFront(parts[..n], sep);
      assert parts[..n][1..] == parts[1..][..n - 1];
      assert parts[1..][n - 1] == parts[n];
    } else {
      assert parts[..0] == [] && parts[1..] == [];
    }
  }

  /** Ending the string at the last delimiter leaves the delimiters between the parts. */
  lemma {:induction false} EndedIsJoined(parts: seq<string>, sep: char)
    ensures Ended(parts, sep) == if parts == [] then "" else Joined(parts, sep) + [sep]
  {
    if parts != [] {
      EndedFront(parts, sep);
      EndedIsJoined(parts[1..], sep);
    }
  }

  /** The type and the name of field `id`. */
  function Printed(specs: seq<Spec>, kinds: seq<string>, id: nat): (s: string)
    requires id < |specs| == |kinds|
  {
    kinds[id] + " " + specs[id].name
  }

  function PrintedFields(specs: seq<Spec>, kinds: seq<string>, ids: seq<nat>): (parts: seq<string>)
    requires |specs| == |kinds| && Known(specs, ids)
  {
    seq(|ids|, i requires 0 <= i < |ids| => Printed(specs, kinds, ids[i]))
  }

  function FieldNames(specs: seq<Spec>, ids: seq<nat>): (names: seq<string>)
    requires Known(specs, ids)
  {
    seq(|ids|, i requires 0 <= i < |ids| => specs[ids[i]].name)
  }

  /** `ur_template_string_delimiter`. */
  method TemplateString(specs: seq<Spec>, kinds: seq<string>, ids: seq<nat>, delimiter: char) returns (s: string)
    requires |specs| == |kinds| && Known(specs, ids)
    ensures s == Joined(PrintedFields(specs, kinds, ids), delimiter)
  {
    s := "";
    ghost var parts := PrintedFields(specs, kinds, ids);
    for i := 0 to |ids|
      invariant s == Ended(parts[..i], delimiter)
    {
      s := s + kinds[ids[i]] + " " + specs[ids[i]].name + [delimiter];
      assert parts[..i + 1][..i] == parts[..i];
    }
    assert parts[..|ids|] == parts;
    EndedIsJoined(parts, delimiter);
    if |ids| != 0 {
      s := s[..|s| - 1];
    }
  }

  // ---------------------------------------------------------------- from a format to names

  /** From the name of the first entry on. */
  function NameOn(s: string): (r: string)
    ensures |r| < |s| || s == ""
  {
    Skip(Skip(Skip(s, Space), Kind), Space)
  }

  /** What comes behind the first entry. */
  function Behind(s: string): (r: string)
    ensures |r| <= |NameOn(s)|
  {
    Skip(Skip(NameOn(s), Letter), Space)
  }

  /** The names of a format, with commas; `None` when a name is followed by anything else. */
  function FormatNames(s: string): (r: Option<string>)
    decreases |s|
  {
    if s == "" then Some("")
    else
      var name, rest := Take(NameOn(s), Letter), Behind(s);
      if rest == "" then Some(name)
      else if rest[0] == ',' then Prepend(name + ",", FormatNames(rest[1..]))
      else None
  }

  function Prepend(a: string, r: Option<string>): (p: Option<string>)
  {
    if r.None? then None else Some(a + r.value)
  }

  lemma PrependTwice(a: string, b: string, r: Option<string>)
    ensures Prepend("", r) == r && Prepend(a, Prepend(b, r)) == Prepend(a + b, r)
  {
    assert r.Some? ==> "" + r.value == r.value && a + (b + r.value) == (a + b) + r.value;
  }

  /** Scans one entry of a format. */
  method ScanEntry(fmt: string, p: nat) returns (source: nat, end: nat, q: nat)
    requires p < |fmt|
    ensures p < source <= end <= q <= |fmt|
    ensures fmt[source..end] == Take(NameOn(fmt[p..]), Letter) && fmt[q..] == Behind(fmt[p..])
  {
    source := Scan(fmt, p, Space);
    source := Scan(fmt, source, Kind);
    source := Scan(fmt, source, Space);
    assert fmt[source..] == NameOn(fmt[p..]);
    end := Scan(fmt, source, Letter);
    q := Scan(fmt, end, Space);
  }

  /** What a scan with the names before `q` in hand gives. */
  function FormatFrom(names: string, fmt: string, q: nat): (r: Option<string>)
    requires q <= |fmt|
  {
    Prepend(names, FormatNames(fmt[q..]))
  }

  lemma FormatEnds(names: string, fmt: string)
    ensures FormatFrom("", fmt, 0) == FormatNames(fmt)
    ensures FormatFrom(names, fmt, |fmt|) == Some(names)
  {
    PrependTwice("", "", FormatNames(fmt));
    assert fmt[0..] == fmt && names + "" == names;
  }

  /** One entry, after the names before it. */
  lemma FormatStep(names: string, name: string, fmt: string, p: nat, q: nat)
    requires p < |fmt| && q <= |fmt| && name == Take(NameOn(fmt[p..]), Letter) && fmt[q..] == Behind(fmt[p..])
    ensures FormatFrom(names, fmt, p) ==
            if q == |fmt| then Some(names + name)
            else if fmt[q] == ',' then FormatFrom(names + (name + ","), fmt, q + 1)
            else None
  {
    if q < |fmt| {
      assert fmt[q..][1..] == fmt[q + 1..];
      PrependTwice(names, name + ",", FormatNames(fmt[q + 1..]));
    }
  }

  /** Reads one entry, after the names before it: what the format gives, or where to go on. */
  method ReadEntry(fmt: string, p: nat, names: string) returns (done: bool, r: Option<string>, next: nat, more: string)
    requires p < |fmt| && |names| <= p
    ensures done ==> r == FormatFrom(names, fmt, p)
    ensures !done ==> p < next <= |fmt| && |more| <= next && FormatFrom(more, fmt, next) == FormatFrom(names, fmt, p)
  {
    var source, end, q := ScanEntry(fmt, p);
    assert end - source + |names| + 1 <= |fmt|;
    var name := fmt[source..end];
    FormatStep(names, name, fmt, p, q);
    next, more := q, names + name;
    if q == |fmt| {
      return true, Some(more), next, more;
    } else if fmt[q] != ',' {
      return true, None, next, more;
    }
    return false, None, q + 1, names + (name + ",");
  }

  /** `ur_ifc_data_fmt_to_field_names`; the names always fit the buffer, which is as large as the format. */
  method FormatToFieldNames(fmt: string) returns (r: Option<string>)
    ensures r == FormatNames(fmt)
  {
    var p: nat, names := 0, "";
    FormatEnds(names, fmt);
    while p < |fmt|
      invariant p <= |fmt| && |names| <= p && FormatFrom(names, fmt, p) == FormatFrom("", fmt, 0)
      decreases |fmt| - p
    {
      var done;
      done, r, p, names := ReadEntry(fmt, p, names);
      if done {
        return;
      }
    }
    FormatEnds(names, fmt);
    r := Some(names);
  }

  /** An entry of a format with white space around. */
  datatype Field = Field(before: string, kind: string, between: string, name: string, after: string)

  predicate FieldOk(f: Field)
  {
    && All(f.before, Space) && All(f.between, Space) && All(f.after, Space)
    && f.kind != "" && !Space(f.kind[0]) && All(f.kind, Kind)
    && f.between != "" && f.between[0] == ' '
    && f.name != "" && All(f.name, Letter)
  }

  function Line(f: Field): (s: string)
  {
    f.before + (f.kind + (f.between + (f.name + f.after)))
  }

  /** What the scans of an entry find in front of the end or a comma. */
  lemma OneField(f: Field, rest: string)
    requires FieldOk(f) && (rest == "" || rest[0] == ',')
    ensures Take(NameOn(Line(f) + rest), Letter) == f.name && Behind(Line(f) + rest) == rest
  {
    var e := f.after + rest;
    var d := f.name + e;
    var c := f.between + d;
    var b := f.kind + c;
    assert Line(f) + rest == f.before + b;
    Scanned(f.before, b, Space);
    Scanned(f.kind, c, Kind);
    Scanned(f.between, d, Space);
    Scanned(f.name, e, Letter);
    Scanned(f.after, rest, Space);
  }

  function Lines(fields: seq<Field>): (lines: seq<string>)
  {
    seq(|fields|, i requires 0 <= i < |fields| => Line(fields[i]))
  }

  function Names(fields: seq<Field>): (names: seq<string>)
  {
    seq(|fields|, i requires 0 <= i < |fields| => fields[i].name)
  }

  /** A format of types and names, with any white space around them, is reduced to the names. */
  lemma {:induction false} FormatNamesOf(fields: seq<Field>)
    requires forall i :: 0 <= i < |fields| ==> FieldOk(fields[i])
    ensures FormatNames(Joined(Lines(fields), ',')) == Some(Joined(Names(fields), ','))
  {
    if fields != [] {
      var more := fields[1..];
      assert Lines(fields)[1..] == Lines(more) && Names(fields)[1..] == Names(more);
      var rest := if more == [] then "" else "," + Joined(Lines(more), ',');
      assert Joined(Lines(fields), ',') == Line(fields[0]) + rest;
      OneField(fields[0], rest);
      assert Line(fields[0]) != "";
      if more != [] {
        assert rest[1..] == Joined(Lines(more), ',');
        FormatNamesOf(more);
        assert fields[0].name + "," + Joined(Names(more), ',') == fields[0].name + [','] + Joined(Names(more), ',');
      }
    }
  }

  // ---------------------------------------------------------------- from text to names

  function Commas(s: string): (n: nat)
  {
    if s == "" then 0 else (if s[0] == ',' then 1 else 0) + Commas(s[1..])
  }

  lemma {:induction false} CommasAdd(a: string, b: string)
    ensures Commas(a + b) == Commas(a) + Commas(b)
  {
    if a == [] {
      assert a + b == b;
    } else {
      CommasAdd(a[1..], b);
      assert (a + b)[1..] == a[1..] + b;
    }
  }

  lemma {:induction false} NoCommas(a: string)
    requires All(a, Letter)
    ensures Commas(a) == 0
  {
    if a != "" {
      NoCommas(a[1..]);
    }
  }

  /** `n` names, one after the other; there may be none left. */
  function Read(s: string, n: nat): (names: seq<string>)
    decreases n
  {
    if n == 0 then [] else [Take(s, Letter)] + Read(Skip(Skip(s, Letter), Separator), n - 1)
  }

  /** As many names as there are commas, and one. */
  function NamesIn(text: string): (names: seq<string>)
  {
    var s := Skip(text, Space);
    if s == "" then [] else Read(s, Commas(s) + 1)
  }

  /** Counts the commas from `start` on, and one. */
  method CountFields(text: string, start: nat) returns (n: nat)
    requires start < |text|
    ensures n == Commas(text[start..]) + 1
  {
    n := 1;
    var tmp := start;
    while tmp < |text|
      invariant start <= tmp <= |text| && n + Commas(text[tmp..]) == 1 + Commas(text[start..])
    {
      if text[tmp] == ',' {
        n := n + 1;
      }
      assert text[tmp..][1..] == text[tmp + 1..];
      tmp := tmp + 1;
    }
  }

  /** Cuts `n` names out, from `from` on. */
  method CutNames(text: string, from: nat, n: nat) returns (names: seq<string>)
    requires from <= |text|
    ensures names == Read(text[from..], n)
  {
    names := [];
    var start: nat := from;
    for i := 0 to n
      invariant start <= |text| && names + Read(text[start..], n - i) == Read(text[from..], n)
    {
      var end := Scan(text, start, Letter);
      var name := text[start..end];
      start := Scan(text, end, Separator);
      ghost var rest := Read(text[start..], n - i - 1);
      assert names + ([name] + rest) == names + [name] + rest;
      names := names + [name];
    }
  }

  /** The part of `ur_create_template` that counts the fields and cuts their names out. */
  method ParseNames(text: string) returns (names: seq<string>)
    ensures names == NamesIn(text)
  {
    assert text[0..] == text;
    var start := Scan(text, 0, Space);
    if start == |text| {
      return [];
    }
    var n := CountFields(text, start);
    names := CutNames(text, start, n);
  }

  /** The words of a text: what is between spaces and commas. */
  function Words(s: string): (words: seq<string>)
    decreases |s|
  {
    if s == "" then [] else if !Letter(s[0]) then Words(s[1..]) else [Take(s, Letter)] + Words(Skip(s, Letter))
  }

  lemma {:induction false} WordsSkip(s: string)
    ensures Words(Skip(s, Separator)) == Words(s)
  {
    if s != "" && Separator(s[0]) {
      WordsSkip(s[1..]);
      assert Skip(s, Separator) == Skip(s[1..], Separator);
    }
  }

  /** What is read are the words in order; where there are no more words, empty names. */
  lemma {:induction false} ReadIsWords(s: string, n: nat)
    requires Stops(s, Separator)
    ensures |Read(s, n)| == n
    ensures forall i :: 0 <= i < n ==> Read(s, n)[i] == if i < |Words(s)| then Words(s)[i] else ""
    decreases n
  {
    if n > 0 {
      var rest := Skip(Skip(s, Letter), Separator);
      ReadIsWords(rest, n - 1);
      WordsSkip(Skip(s, Letter));
      if s != "" {
        assert Words(s) == [Take(s, Letter)] + Words(rest);
      } else {
        assert rest == "" && Words(rest) == [];
      }
    }
  }

  /** Exactly the words of a text are read if and only if there is one comma less than words. */
  lemma NamesAreWords(text: string)
    ensures Stops(Skip(text, Space), Separator) ==>
      (NamesIn(text) == Words(text) <==> Words(text) == [] || |Words(text)| == Commas(text) + 1)
    ensures !Stops(Skip(text, Space), Separator) ==> NamesIn(text) != [] && NamesIn(text)[0] == ""
  {
    SpacesSkip(text);
    var s := Skip(text, Space);
    if s == "" || Separator(s[0]) {
    } else {
      ReadIsWords(s, Commas(s) + 1);
    }
  }

  lemma {:induction false} SpacesSkip(s: string)
    ensures Words(Skip(s, Space)) == Words(s) && Commas(Skip(s, Space)) == Commas(s)
  {
    if s != "" && Space(s[0]) {
      SpacesSkip(s[1..]);
      assert Skip(s, Space) == Skip(s[1..], Space);
    }
  }

  predicate NamesOk(names: seq<string>)
  {
    forall i :: 0 <= i < |names| ==> names[i] != "" && All(names[i], Letter)
  }

  /** Reading a name and a comma leaves the rest. */
  lemma ReadOne(name: string, rest: string, n: nat)
    requires All(name, Letter) && Stops(rest, Separator)
    ensures Commas(name + ("," + rest)) == 1 + Commas(rest)
    ensures Read(name + ("," + rest), n + 1) == [name] + Read(rest, n)
  {
    NoCommas(name);
    CommasAdd(name, "," + rest);
    CommasAdd(",", rest);
    Scanned(name, "," + rest, Letter);
    Scanned(",", rest, Separator);
  }

  /** Names with commas between them are read back. */
  lemma {:induction false} ReadJoined(names: seq<string>)
    requires NamesOk(names) && names != []
    ensures Commas(Joined(names, ',')) + 1 == |names|
    ensures Read(Joined(names, ','), |names|) == names
    ensures Joined(names, ',') != "" && Letter(Joined(names, ',')[0])
  {
    var name, more := names[0], names[1..];
    if more == [] {
      NoCommas(name);
      assert name + "" == name;
      Scanned(name, "", Letter);
    } else {
      ReadJoined(more);
      ReadOne(name, Joined(more, ','), |more|);
      assert Joined(names, ',') == name + ("," + Joined(more, ','));
      assert names == [name] + more;
    }
  }

  lemma NamesInJoined(names: seq<string>)
    requires NamesOk(names)
    ensures NamesIn(Joined(names, ',')) == names
  {
    if names != [] {
      ReadJoined(names);
      Scanned("", Joined(names, ','), Space);
      assert "" + Joined(names, ',') == Joined(names, ',');
    }
  }

  // ---------------------------------------------------------------- templates

  /** Names are not empty and have letters only, as `ur_define_field` demands; types are words. */
  predicate Printable(specs: seq<Spec>, kinds: seq<string>)
  {
    && |specs| == |kinds| && Defined(specs)
    && forall i :: 0 <= i < |specs| ==>
         && specs[i].name != "" && All(specs[i].name, Letter)
         && kinds[i] != "" && !Space(kinds[i][0]) && All(kinds[i], Kind)
  }

  /** What a template made of a list of names is. */
  ghost predicate Makes(specs: seq<Spec>, names: seq<string>, t: Option<Template>)
  {
    && (t.None? <==> exists i :: 0 <= i < |names| && Unknown(specs, names[i]))
    && (t.Some? ==> IsTemplate(t.value, specs, set id: nat | id < |specs| && Named(specs, names, id)))
  }

  /** `ur_create_template`. */
  method CreateTemplate(specs: seq<Spec>, fields: string) returns (t: Option<Template>)
    requires Defined(specs)
    ensures Makes(specs, NamesIn(fields), t)
  {
    var names := ParseNames(fields);
    t := Create(specs, names);
  }

  /** `ur_create_template_from_ifc_spec`. */
  method CreateTemplateFromIfcSpec(specs: seq<Spec>, fmt: string) returns (t: Option<Template>)
    requires Defined(specs)
    ensures FormatNames(fmt).None? ==> t.None?
    ensures FormatNames(fmt).Some? ==> Makes(specs, NamesIn(FormatNames(fmt).value), t)
  {
    var names := FormatToFieldNames(fmt);
    if names.None? {
      return None;
    }
    t := CreateTemplate(specs, names.value);
  }

  /** A printed template is reduced to the names of its fields, and these are read back. */
  lemma PrintedNames(specs: seq<Spec>, kinds: seq<string>, ids: seq<nat>)
    requires Printable(specs, kinds) && Known(specs, ids)
    ensures var fmt := Joined(PrintedFields(specs, kinds, ids), ',');
            FormatNames(fmt).Some? && NamesIn(FormatNames(fmt).value) == FieldNames(specs, ids)
  {
    var fields := seq(|ids|, i requires 0 <= i < |ids| => Field("", kinds[ids[i]], " ", specs[ids[i]].name, ""));
    forall i | 0 <= i < |ids|
      ensures Line(fields[i]) == Printed(specs, kinds, ids[i]) && FieldOk(fields[i])
    {
      assert specs[ids[i]].name + "" == specs[ids[i]].name;
    }
    assert Lines(fields) == PrintedFields(specs, kinds, ids);
    assert Names(fields) == FieldNames(specs, ids);
    FormatNamesOf(fields);
    NamesInJoined(Names(fields));
  }

  /** Reading a printed template makes the template that was printed. */
  lemma PrintedTemplate(specs: seq<Spec>, kinds: seq<string>, t: Template, fields: set<nat>, r: Option<Template>)
    requires Printable(specs, kinds) && IsTemplate(t, specs, fields)
    requires var names := FormatNames(Joined(PrintedFields(specs, kinds, t.ids), ','));
             names.Some? ==> Makes(specs, NamesIn(names.value), r)
    ensures r == Some(t)
  {
    PrintedNames(specs, kinds, t.ids);
    var names := FieldNames(specs, t.ids);
    forall i | 0 <= i < |names|
      ensures !Unknown(specs, names[i])
    {
      assert specs[t.ids[i]].name == names[i];
    }
    var named := set id: nat | id < |specs| && Named(specs, names, id);
    forall id: nat | true
      ensures id in named <==> id in fields
    {
      NamedIsThere(specs, t.ids, id);
      FieldsAre(t.ids, |t.ids|, id);
      assert t.ids[..|t.ids|] == t.ids;
    }
    assert named == fields;
    TemplateOfSet(r.value, t, specs, fields);
  }

  lemma NamedIsThere(specs: seq<Spec>, ids: seq<nat>, id: nat)
    requires Defined(specs) && Known(specs, ids)
    ensures Named(specs, FieldNames(specs, ids), id) <==> id in ids
  {
    var names := FieldNames(specs, ids);
    if id in ids {
      var k :| 0 <= k < |ids| && ids[k] == id;
      assert names[k] == specs[id].name;
    }
    if Named(specs, names, id) {
      var k :| 0 <= k < |names| && names[k] == specs[id].name;
      assert specs[ids[k]].name == specs[id].name;
    }
  }
}
