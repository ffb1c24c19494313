/**
 * Formats with their types: what a receiver reads from a format that a sender printed, pair by pair, and the formats that
 * cannot be reduced to names.
 */
module UniRecFormat {
  import opened Options
  import opened UniRecTemplate
  import opened UniRecText

  predicate Solid(c: char)
  {
    !Space(c)
  }

  /** From the name of the first pair on: a type reaches up to any white space. */
  function NameOf(s: string): (r: string)
    ensures s != "" ==> |r| < |s|
    ensures |r| <= |s|
  {
    Skip(Skip(Skip(s, Space), Solid), Space)
  }

  /** What comes behind the first pair; one comma is skipped, and none need be there. */
  function Next(s: string): (r: string)
    ensures |r| <= |NameOf(s)|
  {
    var rest := Skip(Skip(NameOf(s), Letter), Space);
    if rest != "" && rest[0] == ',' then rest[1..] else rest
  }

  /** The types and names that `ur_define_set_of_fields` reads, in order. */
  function PairsIn(s: string): (pairs: seq<(string, string)>)
    decreases |s|
  {
    if s == "" then [] else [(Take(Skip(s, Space), Solid), Take(NameOf(s), Letter))] + PairsIn(Next(s))
  }

  /** Cuts the type out of the pair at `p`. */
  method GetType(source: string, p: nat) returns (kind: string, q: nat)
    requires p < |source|
    ensures p < q <= |source| && kind == Take(Skip(source[p..], Space), Solid) && source[q..] == NameOf(source[p..])
  {
    var start := Scan(source, p, Space);
    var end := Scan(source, start, Solid);
    kind := source[start..end];
    q := Scan(source, end, Space);
  }

  /** `ur_get_type_and_name_from_string`, from `p` on. */
  method GetTypeAndName(source: string, p: nat) returns (kind: string, name: string, q: nat)
    requires p < |source|
    ensures p < q <= |source| && [(kind, name)] + PairsIn(source[q..]) == PairsIn(source[p..])
  {
    var start;
    kind, start := GetType(source, p);
    var end := Scan(source, start, Letter);
    name := source[start..end];
    q := Scan(source, end, Space);
    if q < |source| && source[q] == ',' {
      assert source[q..][1..] == source[q + 1..];
      q := q + 1;
    }
    assert source[q..] == Next(source[p..]);
  }

  /** The loop of `ur_define_set_of_fields`, up to the definition of the fields. */
  method TypesAndNames(fmt: string) returns (pairs: seq<(string, string)>)
    ensures pairs == PairsIn(fmt)
  {
    pairs := [];
    var p: nat := 0;
    assert fmt[0..] == fmt;
    while p < |fmt|
      invariant p <= |fmt| && pairs + PairsIn(fmt[p..]) == PairsIn(fmt)
      decreases |fmt| - p
    {
      var kind, name, q := GetTypeAndName(fmt, p);
      assert pairs + ([(kind, name)] + PairsIn(fmt[q..])) == pairs + [(kind, name)] + PairsIn(fmt[q..]);
      p, pairs := q, pairs + [(kind, name)];
    }
    assert fmt[p..] == "" && PairsIn(fmt[p..]) == [];
  }

  /** What is behind the white space in front of a line. */
  function Inner(f: Field, rest: string): (s: string)
  {
    f.kind + (f.between + (f.name + (f.after + rest)))
  }

  lemma LineInner(f: Field, rest: string)
    requires FieldOk(f)
    ensures Skip(Line(f) + rest, Space) == Inner(f, rest)
  {
    assert Line(f) + rest == f.before + Inner(f, rest);
    Scanned(f.before, Inner(f, rest), Space);
  }

  lemma NameInner(f: Field, rest: string)
    requires FieldOk(f) && All(f.kind, Solid)
    ensures NameOf(Line(f) + rest) == f.name + (f.after + rest) && Take(Skip(Line(f) + rest, Space), Solid) == f.kind
  {
    LineInner(f, rest);
    Scanned(f.kind, f.between + (f.name + (f.after + rest)), Solid);
    Scanned(f.between, f.name + (f.after + rest), Space);
  }

  lemma BehindName(s: string, f: Field, rest: string)
    requires FieldOk(f) && NameOf(s) == f.name + (f.after + rest) && (rest == "" || rest[0] == ',')
    ensures Take(NameOf(s), Letter) == f.name && Next(s) == if rest == "" then "" else rest[1..]
  {
    Scanned(f.name, f.after + rest, Letter);
    Scanned(f.after, rest, Space);
  }

  /** What the scans find in a line in front of the end or a comma. */
  lemma OnePair(f: Field, rest: string)
    requires FieldOk(f) && All(f.kind, Solid) && (rest == "" || rest[0] == ',')
    ensures Take(Skip(Line(f) + rest, Space), Solid) == f.kind && Take(NameOf(Line(f) + rest), Letter) == f.name
    ensures Next(Line(f) + rest) == if rest == "" then "" else rest[1..]
  {
    NameInner(f, rest);
    BehindName(Line(f) + rest, f, rest);
  }

  function Pairs(fields: seq<Field>): (pairs: seq<(string, string)>)
  {
    seq(|fields|, i requires 0 <= i < |fields| => (fields[i].kind, fields[i].name))
  }

  /** A format of types and names, with any white space around them, is read as these types and names. */
  lemma {:induction false} PairsOf(fields: seq<Field>)
    requires forall i :: 0 <= i < |fields| ==> FieldOk(fields[i]) && All(fields[i].kind, Solid)
    ensures PairsIn(Joined(Lines(fields), ',')) == Pairs(fields)
  {
    if fields != [] {
      var more := fields[1..];
      assert Lines(fields)[1..] == Lines(more) && Pairs(fields) == [(fields[0].kind, fields[0].name)] + Pairs(more);
      var rest := if more == [] then "" else "," + Joined(Lines(more), ',');
      assert Joined(Lines(fields), ',') == Line(fields[0]) + rest;
      OnePair(fields[0], rest);
      assert Line(fields[0]) != "";
      PairsOf(more);
      assert more != [] ==> rest[1..] == Joined(Lines(more), ',');
    }
  }

  /** A printed template is read back with its types and names. */
  lemma PrintedPairs(specs: seq<Spec>, kinds: seq<string>, ids: seq<nat>)
    requires Printable(specs, kinds) && Known(specs, ids) && forall i :: 0 <= i < |kinds| ==> All(kinds[i], Solid)
    ensures var pairs := PairsIn(Joined(PrintedFields(specs, kinds, ids), ','));
            |pairs| == |ids| && forall i :: 0 <= i < |ids| ==> pairs[i] == (kinds[ids[i]], specs[ids[i]].name)
  {
    var fields := seq(|ids|, i requires 0 <= i < |ids| => Field("", kinds[ids[i]], " ", specs[ids[i]].name, ""));
    forall i | 0 <= i < |ids|
      ensures Line(fields[i]) == Printed(specs, kinds, ids[i]) && FieldOk(fields[i])
    {
      assert specs[ids[i]].name + "" == specs[ids[i]].name;
    }
    assert Lines(fields) == PrintedFields(specs, kinds, ids);
    PairsOf(fields);
  }

  // ---------------------------------------------------------------- formats that are turned down

  /** A name that ends in white space and is followed by neither a comma nor the end. */
  predicate Stray(f: Field, rest: string)
  {
    FieldOk(f) && f.after != "" && rest != "" && Letter(rest[0])
  }

  lemma StrayEntry(f: Field, rest: string)
    requires Stray(f, rest)
    ensures FormatNames(Line(f) + rest) == None
  {
    LineInner(f, rest);
    Scanned(f.kind, f.between + (f.name + (f.after + rest)), Kind);
    Scanned(f.between, f.name + (f.after + rest), Space);
    Scanned(f.name, f.after + rest, Letter);
    Scanned(f.after, rest, Space);
  }

  lemma FirstLine(fields: seq<Field>, rest: string)
    requires fields != []
    ensures Ended(Lines(fields), ',') + rest == Line(fields[0]) + ("," + (Ended(Lines(fields[1..]), ',') + rest))
  {
    assert Lines(fields)[1..] == Lines(fields[1..]) && Lines(fields)[0] == Line(fields[0]);
    EndedFront(Lines(fields), ',');
  }

  /** After an entry and a comma the names go on. */
  lemma EntryThenComma(f: Field, tail: string)
    requires FieldOk(f)
    ensures FormatNames(Line(f) + ("," + tail)) == Prepend(f.name + ",", FormatNames(tail))
  {
    OneField(f, "," + tail);
    assert ("," + tail)[1..] == tail && Line(f) != "";
  }

  /** A format is turned down as soon as the name of an entry is followed by another word instead of a comma. */
  lemma {:induction false} StrayWord(fields: seq<Field>, f: Field, rest: string)
    requires (forall i :: 0 <= i < |fields| ==> FieldOk(fields[i])) && Stray(f, rest)
    ensures FormatNames(Ended(Lines(fields), ',') + (Line(f) + rest)) == None
  {
    if fields == [] {
      assert Ended(Lines(fields), ',') + (Line(f) + rest) == Line(f) + rest;
      StrayEntry(f, rest);
    } else {
      StrayWord(fields[1..], f, rest);
      FirstLine(fields, Line(f) + rest);
      EntryThenComma(fields[0], Ended(Lines(fields[1..]), ',') + (Line(f) + rest));
    }
  }
}
