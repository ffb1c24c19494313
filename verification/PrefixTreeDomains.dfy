/**
 * Every string has a domain of its own: after any run of insertions no two strings are found at one domain. That makes a
 * domain stand for the string it is found at.
 */
module PrefixTreeDomains {
  import opened Options
  import opened PrefixTree
  import opened PrefixTreeInsert
  import opened PrefixTreeRuns

  /** Of two domains made by one insertion, the one of the shorter word was made first. */
  predicate MadeInOrder(before: Option<nat>, after: Option<nat>, u: Word, before': Option<nat>, after': Option<nat>, v: Word)
  {
    before.None? && after.Some? && before'.None? && after'.Some? && |u| < |v| ==> after.value < after'.value
  }

  lemma NewItemOrder(w: Word, sep: int, next: nat, u: Word, v: Word)
    requires Labelled(w, sep)
    ensures var t := NewItem(w, sep, next).tree; MadeInOrder(None, Find(t, u, sep), u, None, Find(t, v, sep), v)
    decreases |w|, 0
  {
    var n := LabelLength(w, sep);
    if n < |w| {
      TailLabelled(w, n, sep);
      FindFresh(u[if n < |u| then n + 1 else 0..], sep);
      FindFresh(v[if n < |v| then n + 1 else 0..], sep);
      if w[..n] <= v && n < |v| && v[n] == sep {
        assert v[n..][1..] == v[n + 1..];
        AddFinds(Fresh(), w[n + 1..], sep, next + 1, v[n + 1..]);
        if w[..n] <= u && n < |u| && u[n] == sep {
          assert u[n..][1..] == u[n + 1..];
          AddOrder(Fresh(), w[n + 1..], sep, next + 1, u[n + 1..], v[n + 1..]);
        }
      }
    } else {
      NewItemFinds(w, sep, next, u);
      NewItemFinds(w, sep, next, v);
      assert w[..n] == w;
    }
  }

  lemma AddKidOrder(t: Tree, w: Word, sep: int, next: nat, u: Word, v: Word)
    requires t.Node? && Ok(t, sep) && Labelled(w, sep)
    ensures var t' := AddKid(t, w, sep, next).tree;
            MadeInOrder(FindRest(t, u, sep), FindRest(t', u, sep), u, FindRest(t, v, sep), FindRest(t', v, sep), v)
    decreases |w|, 1, t, 0
  {
    var kids := if t.kids == [] then NoKids() else t.kids;
    if kids[w[0]].Nil? {
      NewItemOrder(w, sep, next, u, v);
    } else {
      AddOrder(t.kids[w[0]], w, sep, next, u, v);
    }
  }

  lemma AfterOrder(t: Tree, rest: Word, sep: int, next: nat, u: Word, v: Word)
    requires t.Node? && Ok(t, sep)
    requires rest == [] || (rest[0] == sep && Labelled(rest[1..], sep)) || Labelled(rest, sep)
    ensures var t' := After(t, rest, sep, next).tree;
            MadeInOrder(FindRest(t, u, sep), FindRest(t', u, sep), u, FindRest(t, v, sep), FindRest(t', v, sep), v)
    decreases |rest|, 1, t, 1
  {
    if rest == [] {
      AfterFinds(t, rest, sep, next, v);
    } else if rest[0] == sep {
      var made := if t.domain.None? then 1 else 0;
      var child := if t.domain.None? || t.domain.value.child.Nil? then Fresh() else t.domain.value.child;
      if v != [] && v[0] == sep {
        FindFresh(v[1..], sep);
        AddFinds(child, rest[1..], sep, next + made, v[1..]);
        if u != [] && u[0] == sep {
          FindFresh(u[1..], sep);
          AddOrder(child, rest[1..], sep, next + made, u[1..], v[1..]);
        }
      }
    } else {
      AddKidOrder(t, rest, sep, next, u, v);
    }
  }

  lemma AddOrder(t: Tree, w: Word, sep: int, next: nat, u: Word, v: Word)
    requires t.Node? && Ok(t, sep) && Labelled(w, sep) && (t.text == [] || t.text[0] == w[0])
    ensures var t' := Add(t, w, sep, next).tree;
            MadeInOrder(Find(t, u, sep), Find(t', u, sep), u, Find(t, v, sep), Find(t', v, sep), v)
    decreases |w|, 1, t, 2
  {
    var i := Common(t.text, w);
    if i == 0 {
      AddKidOrder(t, w, sep, next, u, v);
    } else {
      RestLabelled(w, i, sep);
      var at := if i < |t.text| then Split(t, i) else t;
      if i < |t.text| {
        SplitOk(t, i, sep);
        SplitFinds(t, i, sep, u);
        SplitFinds(t, i, sep, v);
      }
      if w[..i] <= u && w[..i] <= v {
        AfterOrder(at, w[i..], sep, next, u[i..], v[i..]);
      }
    }
  }

  // ---------------------------------------------------------------- runs

  /** What a search finds after an insertion was found before, or is a new domain of a part of the inserted string. */
  lemma FoundOrMade(t: DomainTree, s: Word, u: Word)
    requires TreeOk(t) && Labelled(Reading(s, t.suffix), t.sep)
    ensures var t' := Insert(t, s).0;
            Search(t', u).Some? ==>
              || Search(t', u) == Search(t, u)
              || (Search(t, u).None? && t.next <= Search(t', u).value < t'.next && Reading(u, t.suffix) <= Reading(s, t.suffix))
  {
    var w, v := Reading(s, t.suffix), Reading(u, t.suffix);
    var t' := Insert(t, s).0;
    InsertFinds(t, s, u);
    RootAdds(t, w);
    AddFinds(Bare(t.root), w, t.sep, t.next, v);
    if v == [] {
      EmptyFinds(t.root, v, t.sep);
    } else {
      RootFinds(t.root, v, t.sep);
      InsertKeeps(t, s);
      RootFinds(t'.root, v, t.sep);
    }
  }

  /** Two strings that an insertion makes domains for have different ones. */
  lemma MadeApart(t: DomainTree, s: Word, u: Word, v: Word)
    requires TreeOk(t) && Labelled(Reading(s, t.suffix), t.sep)
    requires Search(t, u).None? && Search(t, v).None? && |u| < |v|
    requires var t' := Insert(t, s).0; Search(t', u).Some? && Search(t', v).Some?
    ensures Search(Insert(t, s).0, u) != Search(Insert(t, s).0, v)
  {
    var w, x, y := Reading(s, t.suffix), Reading(u, t.suffix), Reading(v, t.suffix);
    var t' := Insert(t, s).0;
    RootAdds(t, w);
    InsertKeeps(t, s);
    if x == [] {
      EmptyFinds(t.root, x, t.sep);
    } else {
      AddOrder(Bare(t.root), w, t.sep, t.next, x, y);
      RootFinds(t.root, x, t.sep);
      RootFinds(t.root, y, t.sep);
      RootFinds(t'.root, x, t.sep);
      RootFinds(t'.root, y, t.sep);
    }
  }

  lemma ReadingIsOne(u: Word, v: Word, suffix: bool)
    requires Reading(u, suffix) == Reading(v, suffix)
    ensures u == v
  {
    if suffix {
      assert |u| == |Reading(u, suffix)| == |v|;
      forall i | 0 <= i < |u|
        ensures u[i] == v[i]
      {
        assert Reversed(u)[|u| - 1 - i] == Reversed(v)[|u| - 1 - i];
      }
    }
  }

  /** Every domain was made by the insertions so far. */
  lemma {:induction false} RunMade(ss: seq<Word>, sep: int, suffix: bool, u: Word)
    requires AllLabelled(ss, sep, suffix)
    ensures var t := Run(ss, sep, suffix); Search(t, u).Some? ==> Search(t, u).value < t.next
    decreases |ss|
  {
    if ss == [] {
      if u != [] {
        NothingFound(sep, suffix, Reading(u, suffix));
      }
    } else {
      var n := |ss| - 1;
      RunMade(ss[..n], sep, suffix, u);
      FoundOrMade(Run(ss[..n], sep, suffix), ss[n], u);
    }
  }

  /** An insertion keeps strings at different domains. */
  lemma StaysApart(t: DomainTree, s: Word, u: Word, v: Word)
    requires TreeOk(t) && Labelled(Reading(s, t.suffix), t.sep)
    requires Search(t, u).Some? ==> Search(t, u).value < t.next
    requires Search(t, v).Some? ==> Search(t, v).value < t.next
    requires Search(t, u).Some? && Search(t, u) == Search(t, v) ==> u == v
    requires var t' := Insert(t, s).0; Search(t', u).Some? && Search(t', u) == Search(t', v)
    ensures u == v
  {
    FoundOrMade(t, s, u);
    FoundOrMade(t, s, v);
    if Search(t, u).None? && Search(t, v).None? {
      if |u| < |v| {
        MadeApart(t, s, u, v);
      } else if |v| < |u| {
        MadeApart(t, s, v, u);
      } else {
        ReadingIsOne(u, v, t.suffix);
      }
    }
  }

  /** After any run of insertions, strings found at one domain are one string. */
  lemma {:induction false} OneStringPerDomain(ss: seq<Word>, sep: int, suffix: bool, u: Word, v: Word)
    requires AllLabelled(ss, sep, suffix)
    requires var t := Run(ss, sep, suffix); Search(t, u).Some? && Search(t, u) == Search(t, v)
    ensures u == v
    decreases |ss|
  {
    if ss == [] {
      if Reading(u, suffix) != [] {
        NothingFound(sep, suffix, Reading(u, suffix));
      }
      if Reading(v, suffix) != [] {
        NothingFound(sep, suffix, Reading(v, suffix));
      }
    } else {
      var n := |ss| - 1;
      var t := Run(ss[..n], sep, suffix);
      RunMade(ss[..n], sep, suffix, u);
      RunMade(ss[..n], sep, suffix, v);
      if Search(t, u).Some? && Search(t, u) == Search(t, v) {
        OneStringPerDomain(ss[..n], sep, suffix, u, v);
      }
      StaysApart(t, ss[n], u, v);
    }
  }
}
