/**
 * Whole runs of insertions into a domain tree: which strings a search finds, and what the counters count. A suffix tree
 * is a prefix tree of the strings read backwards.
 */
module PrefixTreeRuns {
  import opened Options
  import opened PrefixTree
  import opened PrefixTreeInsert

  /** `suffix` is the direction of the tree; `next` is the name for the next domain made. */
  datatype DomainTree = DomainTree(root: Tree, sep: int, suffix: bool, next: nat)

  function Reversed(w: Word): (r: Word)
    ensures |r| == |w| && forall i :: 0 <= i < |w| ==> r[i] == w[|w| - 1 - i]
  {
    seq(|w|, i requires 0 <= i < |w| => w[|w| - 1 - i])
  }

  /** A string in the order its letters are compared. */
  function Reading(s: Word, suffix: bool): (w: Word)
    ensures |w| == |s|
  {
    if suffix then Reversed(s) else s
  }

  /** `prefix_tree_initialize`: the root has a domain of its own, which stands for the empty string. */
  function Initialize(sep: int, suffix: bool): (t: DomainTree)
  {
    DomainTree(Node([], [], Some(Domain(0, 0, Nil)), 0), sep, suffix, 1)
  }

  /** The root without its domain, which is the only one that was not inserted. */
  function Bare(root: Tree): (t: Tree)
    requires root.Node?
  {
    root.(domain := None)
  }

  predicate TreeOk(t: DomainTree)
  {
    && t.root.Node? && t.root.text == [] && t.root.domain.Some? && t.root.domain.value.id == 0 && t.root.domain.value.child == Nil
    && t.next > 0
    && Ok(t.root, t.sep)
    && Counted(Bare(t.root))
    && t.root.domain.value.subdomains == t.root.strings
  }

  /** `prefix_tree_insert`: the tree afterwards, and the domain of the string. */
  function Insert(t: DomainTree, s: Word): (r: (DomainTree, nat))
    requires TreeOk(t) && Labelled(Reading(s, t.suffix), t.sep)
  {
    var a := Add(t.root, Reading(s, t.suffix), t.sep, t.next);
    var d := t.root.domain.value;
    (t.(root := a.tree.(domain := Some(d.(subdomains := d.subdomains + a.made))), next := t.next + a.made), a.id)
  }

  /** `prefix_tree_search`. */
  function Search(t: DomainTree, s: Word): (id: Option<nat>)
  {
    Find(t.root, Reading(s, t.suffix), t.sep)
  }

  /** `u` is a leading part of `s` in a prefix tree, a trailing part in a suffix tree: whole labels from that end. */
  predicate PartOf(u: Word, s: Word, sep: int, suffix: bool)
  {
    |u| <= |s| && var n := |s| - |u|;
      if suffix then s[n..] == u && (n == 0 || s[n - 1] == sep)
      else s[..|u|] == u && (n == 0 || s[|u|] == sep)
  }

  lemma PartIsLeading(u: Word, s: Word, sep: int, suffix: bool)
    ensures PartOf(u, s, sep, suffix) <==> Leading(Reading(u, suffix), Reading(s, suffix), sep)
  {
    var u', s' := Reading(u, suffix), Reading(s, suffix);
    if suffix && |u| <= |s| {
      var n := |s| - |u|;
      if u' <= s' {
        forall i | 0 <= i < |u|
          ensures s[n..][i] == u[i]
        {
          assert u'[|u| - 1 - i] == s'[|u| - 1 - i];
        }
        assert s[n..] == u;
      }
      if s[n..] == u {
        forall i | 0 <= i < |u|
          ensures s'[i] == u'[i]
        {
          assert s[n..][|u| - 1 - i] == u[|u| - 1 - i];
        }
        assert u' == s'[..|u|];
      }
    } else if |u| <= |s| {
      assert u' <= s' <==> s[..|u|] == u;
    }
  }

  /** The root's own domain does not matter to an insertion. */
  lemma RootAdds(t: DomainTree, w: Word)
    requires TreeOk(t) && Labelled(w, t.sep)
    ensures var a := Add(t.root, w, t.sep, t.next);
            var b := Add(Bare(t.root), w, t.sep, t.next);
            Ok(Bare(t.root), t.sep) && a.tree.Node? && a.tree.domain == t.root.domain && b == a.(tree := Bare(a.tree))
  {
    assert Common(t.root.text, w) == 0;
  }

  /** An insertion keeps the tree well shaped and counted. */
  lemma InsertKeeps(t: DomainTree, s: Word)
    requires TreeOk(t) && Labelled(Reading(s, t.suffix), t.sep)
    ensures TreeOk(Insert(t, s).0)
  {
    RootAdds(t, Reading(s, t.suffix));
    AddGrows(Bare(t.root), Reading(s, t.suffix), t.sep, t.next);
    var a := Add(t.root, Reading(s, t.suffix), t.sep, t.next);
    assert Ok(Bare(a.tree), t.sep);
    assert a.tree.strings == Count(Bare(t.root)) + a.made;
  }

  /**
   * An insertion and a search: the inserted string is found at the domain returned, every string found before is found
   * at the same domain, and besides only parts of the inserted string are found.
   */
  lemma InsertThenSearch(t: DomainTree, s: Word, u: Word)
    requires TreeOk(t) && Labelled(Reading(s, t.suffix), t.sep)
    ensures var (t', id) := Insert(t, s);
            && Search(t', s) == Some(id)
            && (Search(t, u).Some? ==> Search(t', u) == Search(t, u))
            && (Search(t', u).Some? <==> Search(t, u).Some? || PartOf(u, s, t.sep, t.suffix))
  {
    InsertFinds(t, s, s);
    InsertFinds(t, s, u);
    PartIsLeading(u, s, t.sep, t.suffix);
  }

  lemma InsertFinds(t: DomainTree, s: Word, u: Word)
    requires TreeOk(t) && Labelled(Reading(s, t.suffix), t.sep)
    ensures var (t', id) := Insert(t, s);
            && (u == s ==> Search(t', u) == Some(id))
            && (Search(t, u).Some? ==> Search(t', u) == Search(t, u))
            && (Search(t', u).Some? <==> Search(t, u).Some? || Leading(Reading(u, t.suffix), Reading(s, t.suffix), t.sep))
  {
    var w, v := Reading(s, t.suffix), Reading(u, t.suffix);
    var t', b := Insert(t, s).0, Add(Bare(t.root), Reading(s, t.suffix), t.sep, t.next);
    RootAdds(t, w);
    AddFinds(Bare(t.root), w, t.sep, t.next, v);
    AddGrows(Bare(t.root), w, t.sep, t.next);
    if v != [] {
      RootFinds(t.root, v, t.sep);
      RootFinds(t'.root, v, t.sep);
    } else {
      EmptyFinds(t.root, v, t.sep);
      EmptyFinds(t'.root, v, t.sep);
    }
  }

  lemma EmptyFinds(root: Tree, v: Word, sep: int)
    requires root.Node? && root.text == [] && root.domain.Some? && v == []
    ensures Find(root, v, sep) == Some(root.domain.value.id)
  {
    assert v[|root.text|..] == [];
  }

  lemma RootFinds(root: Tree, v: Word, sep: int)
    requires root.Node? && root.text == [] && root.domain.Some? && root.domain.value.child == Nil && v != []
    ensures Find(root, v, sep) == Find(Bare(root), v, sep)
  {
    assert v[0..] == v;
    assert Find(root, v, sep) == FindRest(root, v, sep);
    if v[0] == sep {
      assert Find(Nil, v[1..], sep) == None;
    }
  }

  // ---------------------------------------------------------------- runs

  predicate AllLabelled(ss: seq<Word>, sep: int, suffix: bool)
  {
    forall i :: 0 <= i < |ss| ==> Labelled(Reading(ss[i], suffix), sep)
  }

  /** The tree after inserting the strings in turn. */
  function Run(ss: seq<Word>, sep: int, suffix: bool): (t: DomainTree)
    requires AllLabelled(ss, sep, suffix)
    ensures TreeOk(t) && t.sep == sep && t.suffix == suffix
    decreases |ss|
  {
    if ss == [] then
      InitializeOk(sep, suffix);
      Initialize(sep, suffix)
    else
      var t := Run(ss[..|ss| - 1], sep, suffix);
      InsertKeeps(t, ss[|ss| - 1]);
      Insert(t, ss[|ss| - 1]).0
  }

  lemma InitializeOk(sep: int, suffix: bool)
    ensures TreeOk(Initialize(sep, suffix))
  {
    assert KidsCount(Initialize(sep, suffix).root.kids) == 0;
  }

  /** After any run of insertions a search succeeds exactly on the empty string and the parts of inserted strings. */
  lemma {:induction false} RunFinds(ss: seq<Word>, sep: int, suffix: bool, u: Word)
    requires AllLabelled(ss, sep, suffix)
    ensures var t := Run(ss, sep, suffix);
            Search(t, u).Some? <==> u == [] || exists i :: 0 <= i < |ss| && PartOf(u, ss[i], sep, suffix)
    decreases |ss|
  {
    if ss == [] {
      if u != [] {
        NothingFound(sep, suffix, Reading(u, suffix));
      }
    } else {
      var n := |ss| - 1;
      var t := Run(ss[..n], sep, suffix);
      RunFinds(ss[..n], sep, suffix, u);
      InsertThenSearch(t, ss[n], u);
      assert Search(Run(ss, sep, suffix), u) == Search(Insert(t, ss[n]).0, u);
    }
  }

  lemma NothingFound(sep: int, suffix: bool, v: Word)
    requires v != []
    ensures Find(Initialize(sep, suffix).root, v, sep) == None
  {
    RootFinds(Initialize(sep, suffix).root, v, sep);
  }

  // ---------------------------------------------------------------- labels

  /** The labels between the separators. */
  function Labels(w: Word, sep: int): (ls: seq<Word>)
    ensures ls != []
  {
    var n := LabelLength(w, sep);
    if n < |w| then [w[..n]] + Labels(w[n + 1..], sep) else [w]
  }

  /** Leading parts are the leading runs of labels. */
  lemma {:induction false} LeadingIsLabels(u: Word, w: Word, sep: int)
    ensures LabelsLead(u, w, sep)
    decreases |u|
  {
    var m, n := LabelLength(u, sep), LabelLength(w, sep);
    if m == |u| {
      OneLabel(u, w, sep);
    } else if n < |w| && u[..m] == w[..n] {
      assert m == |u[..m]| == |w[..n]| == n;
      LeadingIsLabels(u[m + 1..], w[m + 1..], sep);
      SameLabel(u, w, m, sep);
    } else {
      OtherLabel(u, w, m, sep);
    }
  }

  /** Of two words the one is a leading part of the other exactly when its labels are the first of the other. */
  predicate LabelsLead(u: Word, w: Word, sep: int)
  {
    Leading(u, w, sep) <==> Labels(u, sep) <= Labels(w, sep)
  }

  lemma OneLabel(u: Word, w: Word, sep: int)
    requires LabelLength(u, sep) == |u|
    ensures LabelsLead(u, w, sep)
  {
    var ls := Labels(w, sep);
    LastLabel(u, w, LabelLength(w, sep), sep);
    FirstLabel(w, sep);
    assert Labels(u, sep) == [u];
    assert [u] <= ls <==> u == ls[0];
  }

  lemma LabelsCons(w: Word, m: nat, sep: int)
    requires m == LabelLength(w, sep) < |w|
    ensures Labels(w, sep) == [w[..m]] + Labels(w[m + 1..], sep)
  {
  }

  lemma SameLabels(u: Word, w: Word, m: nat, sep: int)
    requires m == LabelLength(u, sep) == LabelLength(w, sep) && m < |u| && m < |w| && u[..m] == w[..m]
    ensures Labels(u, sep) <= Labels(w, sep) <==> Labels(u[m + 1..], sep) <= Labels(w[m + 1..], sep)
  {
    LabelsCons(u, m, sep);
    LabelsCons(w, m, sep);
    ConsPrefix(u[..m], Labels(u[m + 1..], sep), w[..m], Labels(w[m + 1..], sep));
  }

  lemma SameLeading(u: Word, w: Word, m: nat, sep: int)
    requires m < |u| && m < |w| && u[m] == w[m] && u[..m] == w[..m]
    ensures Leading(u, w, sep) <==> Leading(u[m + 1..], w[m + 1..], sep)
  {
    assert u[..m + 1] == u[..m] + [u[m]] && w[..m + 1] == w[..m] + [w[m]];
    LeadingTail(u, w, m + 1, sep);
  }

  lemma SameLabel(u: Word, w: Word, m: nat, sep: int)
    requires m == LabelLength(u, sep) == LabelLength(w, sep) && m < |u| && m < |w| && u[..m] == w[..m]
    requires LabelsLead(u[m + 1..], w[m + 1..], sep)
    ensures LabelsLead(u, w, sep)
  {
    SameLeading(u, w, m, sep);
    SameLabels(u, w, m, sep);
  }

  lemma OtherLabel(u: Word, w: Word, m: nat, sep: int)
    requires m == LabelLength(u, sep) < |u|
    requires LabelLength(w, sep) == |w| || w[..LabelLength(w, sep)] != u[..m]
    ensures LabelsLead(u, w, sep)
  {
    LeadingHasLabel(u, w, m, sep);
    FirstLabel(u, sep);
    FirstLabel(w, sep);
  }

  lemma FirstLabel(w: Word, sep: int)
    ensures Labels(w, sep)[0] == w[..LabelLength(w, sep)]
  {
    assert LabelLength(w, sep) == |w| ==> w[..|w|] == w;
  }

  lemma ConsPrefix<T>(a: T, s: seq<T>, b: T, t: seq<T>)
    ensures [a] + s <= [b] + t <==> a == b && s <= t
  {
    var x, y := [a] + s, [b] + t;
    assert x[0] == a && y[0] == b && x[1..] == s && y[1..] == t;
    assert x <= y ==> x[1..] <= y[1..];
    if a == b && s <= t {
      assert y == x + t[|s|..];
    }
  }

  /** A leading part that has a separator agrees with the first label. */
  lemma LeadingHasLabel(u: Word, w: Word, m: nat, sep: int)
    requires m == LabelLength(u, sep) < |u|
    ensures Leading(u, w, sep) ==> LabelLength(w, sep) == m < |w| && w[..m] == u[..m]
  {
    if u <= w {
      assert forall i :: 0 <= i <= m ==> w[i] == u[i];
    }
  }

  /** A single label is leading exactly when it is the first one. */
  lemma LastLabel(u: Word, w: Word, n: nat, sep: int)
    requires LabelLength(u, sep) == |u| && n == LabelLength(w, sep)
    ensures Leading(u, w, sep) <==> u == w[..n]
  {
    if u <= w {
      assert forall i :: 0 <= i < |u| ==> w[i] == u[i];
    }
  }
}
