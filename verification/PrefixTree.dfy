/**
 * The domain tree: a radix tree for each label, and under each domain another one for the labels that follow it.
 * Words are read in the direction of the tree: from the first letter in a prefix tree, from the last in a suffix tree.
 */
module PrefixTree {
  import opened Options

  /** An unsigned char. */
  type Letter = x: int | 0 <= x < 256
  type Word = seq<Letter>

  /** A letter where the source compares it: as a char, which is signed on the usual targets. */
  function AsChar(x: Letter): (c: int)
  {
    if x < 128 then x else x - 256
  }

  /** The letter that is equal to `domain_separator`; -1, which is no letter, where none is. */
  function SeparatorLetter(domainSeparator: int): (sep: int)
    ensures forall x: Letter :: AsChar(x) == domainSeparator <==> x == sep
  {
    if 0 <= domainSeparator < 128 then domainSeparator
    else if -128 <= domainSeparator < 0 then domainSeparator + 256
    else -1
  }

  const LETTERS: nat := 256
  const MAX_LENGTH: nat := 255   // of the text of a node, whose length is an unsigned char

  /**
   * An inner node. `kids` is the array of child pointers, indexed by the first letter of the child, or empty when it has
   * not been allocated; `strings` is `count_of_string`. `Nil` is the null pointer.
   */
  datatype Tree = Nil | Node(text: Word, kids: seq<Tree>, domain: Option<Domain>, strings: nat)

  /** A domain; `id` stands for its address, `subdomains` is `count_of_different_subdomains`. */
  datatype Domain = Domain(id: nat, subdomains: nat, child: Tree)

  /**
   * The shape of a tree: a child hangs at the index of its first letter, separators are in no text, the length of a text
   * fits its field, and the node below a domain has no text and no domain of its own.
   */
  predicate Ok(t: Tree, sep: int)
    decreases t
  {
    t.Node? ==>
      && (t.kids == [] || |t.kids| == LETTERS)
      && |t.text| <= MAX_LENGTH
      && (forall i :: 0 <= i < |t.text| ==> t.text[i] != sep)
      && (forall c :: 0 <= c < |t.kids| ==> Ok(t.kids[c], sep) && (t.kids[c].Node? ==> StartsWith(t.kids[c].text, c)))
      && (t.domain.Some? ==> Ok(t.domain.value.child, sep) && BelowDomain(t.domain.value.child)
                                               && (t.domain.value.child.Node? ==> 0 <= sep < LETTERS))
  }

  predicate StartsWith(text: Word, c: int)
  {
    text != [] && text[0] == c
  }

  predicate BelowDomain(t: Tree)
  {
    t.Node? ==> t.text == [] && t.domain.None?
  }

  // ---------------------------------------------------------------- search

  /** The domain that a search for `w` from node `t` ends at. */
  function Find(t: Tree, w: Word, sep: int): (id: Option<nat>)
    decreases t, 1
  {
    if t.Nil? || !(t.text <= w) then None else FindRest(t, w[|t.text|..], sep)
  }

  /** The search behind the whole text of node `t`. */
  function FindRest(t: Tree, rest: Word, sep: int): (id: Option<nat>)
    requires t.Node?
    decreases t, 0
  {
    if rest == [] then if t.domain.Some? then Some(t.domain.value.id) else None
    else if rest[0] == sep then if t.domain.Some? then Find(t.domain.value.child, rest[1..], sep) else None
    else if rest[0] < |t.kids| then Find(t.kids[rest[0]], rest, sep)
    else None
  }

  // ---------------------------------------------------------------- insertion

  /** Letters before the first separator. */
  function LabelLength(w: Word, sep: int): (n: nat)
    ensures n <= |w|
    ensures n < |w| ==> w[n] == sep
    ensures forall i :: 0 <= i < n ==> w[i] != sep
  {
    if w == [] || w[0] == sep then 0 else 1 + LabelLength(w[1..], sep)
  }

  /** A separator comes within the letters that a label can have from `i` on. */
  predicate Separated(w: Word, i: nat, sep: int)
  {
    exists j :: i <= j <= i + MAX_LENGTH && j < |w| && w[j] == sep
  }

  /** No label is longer than the text of a node can be. */
  predicate ShortLabels(w: Word, sep: int)
  {
    forall i: nat :: i + MAX_LENGTH < |w| ==> Separated(w, i, sep)
  }

  lemma ShortTail(w: Word, n: nat, sep: int)
    requires ShortLabels(w, sep) && n <= |w|
    ensures ShortLabels(w[n..], sep)
  {
    forall i: nat | i + MAX_LENGTH < |w[n..]|
      ensures Separated(w[n..], i, sep)
    {
      assert Separated(w, n + i, sep);
      var j :| n + i <= j <= n + i + MAX_LENGTH && j < |w| && w[j] == sep;
      assert w[n..][j - n] == sep;
    }
  }

  /** The first label fits the text of a node. */
  lemma LabelFits(w: Word, sep: int)
    requires ShortLabels(w, sep)
    ensures LabelLength(w, sep) <= MAX_LENGTH
  {
    if LabelLength(w, sep) > MAX_LENGTH {
      assert Separated(w, 0, sep);
    }
  }

  /** No label of the word is empty or too long. */
  predicate Labelled(w: Word, sep: int)
  {
    && w != [] && w[0] != sep && w[|w| - 1] != sep
    && (forall i :: 0 < i < |w| && w[i] == sep ==> w[i - 1] != sep)
    && ShortLabels(w, sep)
  }

  /** Length of the common part. */
  function Common(a: Word, b: Word): (n: nat)
    ensures n <= |a| && n <= |b| && a[..n] == b[..n]
    ensures n < |a| && n < |b| ==> a[n] != b[n]
  {
    if a == [] || b == [] || a[0] != b[0] then 0
    else
      var n := 1 + Common(a[1..], b[1..]);
      assert a[..n] == [a[0]] + a[1..][..n - 1] && b[..n] == [b[0]] + b[1..][..n - 1];
      n
  }

  function NoKids(): (kids: seq<Tree>)
    ensures |kids| == LETTERS && forall c :: 0 <= c < LETTERS ==> kids[c] == Nil
  {
    seq(LETTERS, c => Nil)
  }

  /** The node made for the labels below a domain: no letters, an array of children. */
  function Fresh(): (t: Tree)
  {
    Node([], NoKids(), None, 0)
  }

  /** A node after an insertion below it: `made` domains were created, `id` is the domain of the whole word. */
  datatype Added = Added(tree: Tree, made: nat, id: nat)

  /** The node split at letter `i` of its text: a new node keeps the front, the old one follows it with the rest. */
  function Split(t: Tree, i: nat): (first: Tree)
    requires t.Node? && i < |t.text|
  {
    Node(t.text[..i], NoKids()[t.text[i] := t.(text := t.text[i..])], None, t.strings)
  }

  /** A new node for the label in front of `w`, with its domain, and everything below that. */
  function NewItem(w: Word, sep: int, next: nat): (r: Added)
    requires Labelled(w, sep)
    decreases |w|, 0
  {
    var n := LabelLength(w, sep);
    if n < |w| then
      TailLabelled(w, n, sep);
      var sub := Add(Fresh(), w[n + 1..], sep, next + 1);
      Added(Node(w[..n], [], Some(Domain(next, sub.made, sub.tree)), 1 + sub.made), 1 + sub.made, sub.id)
    else Added(Node(w, [], Some(Domain(next, 0, Nil)), 1), 1, next)
  }

  /** Continues an insertion in the child for the next letter. */
  function AddKid(t: Tree, w: Word, sep: int, next: nat): (r: Added)
    requires t.Node? && Ok(t, sep) && Labelled(w, sep)
    ensures r.tree.Node? && r.tree.text == t.text
    decreases |w|, 1, t, 0
  {
    var kids := if t.kids == [] then NoKids() else t.kids;
    var sub := if kids[w[0]].Nil? then NewItem(w, sep, next) else Add(t.kids[w[0]], w, sep, next);
    Added(t.(kids := kids[w[0] := sub.tree], strings := t.strings + sub.made), sub.made, sub.id)
  }

  /** Continues an insertion behind the whole text of node `t`. */
  function After(t: Tree, rest: Word, sep: int, next: nat): (r: Added)
    requires t.Node? && Ok(t, sep)
    requires rest == [] || (rest[0] == sep && Labelled(rest[1..], sep)) || Labelled(rest, sep)
    ensures r.tree.Node? && r.tree.text == t.text
    decreases |rest|, 1, t, 1
  {
    if rest == [] || rest[0] == sep then
      var made := if t.domain.None? then 1 else 0;
      var d := if t.domain.None? then Domain(next, 0, Nil) else t.domain.value;
      if rest == [] then Added(t.(domain := Some(d), strings := t.strings + made), made, d.id)
      else
        var sub := Add(if d.child.Nil? then Fresh() else d.child, rest[1..], sep, next + made);
        Added(t.(domain := Some(d.(subdomains := d.subdomains + sub.made, child := sub.tree)), strings := t.strings + made + sub.made),
              made + sub.made, sub.id)
    else AddKid(t, rest, sep, next)
  }

  /** `prefix_tree_add_domain_recursive_prefix`, and the suffix one on the word read backwards. */
  function Add(t: Tree, w: Word, sep: int, next: nat): (r: Added)
    requires t.Node? && Ok(t, sep) && Labelled(w, sep)
    decreases |w|, 1, t, 2
  {
    var i := Common(t.text, w);
    if i == 0 then AddKid(t, w, sep, next)
    else
      RestLabelled(w, i, sep);
      if i < |t.text| then
        SplitOk(t, i, sep);
        After(Split(t, i), w[i..], sep, next)
      else After(t, w[i..], sep, next)
  }

  lemma TailLabelled(w: Word, n: nat, sep: int)
    requires Labelled(w, sep) && n < |w| && w[n] == sep
    ensures Labelled(w[n + 1..], sep)
  {
    assert n + 1 < |w|;
    ShortTail(w, n + 1, sep);
  }

  /** What is left of a word behind `i` of its letters is nothing, further labels, or letters of the same label. */
  lemma RestLabelled(w: Word, i: nat, sep: int)
    requires Labelled(w, sep) && 0 < i <= |w|
    ensures var rest := w[i..]; rest == [] || (rest[0] == sep && Labelled(rest[1..], sep)) || Labelled(rest, sep)
  {
    if i < |w| {
      ShortTail(w, i, sep);
      if w[i] == sep {
        TailLabelled(w, i, sep);
        assert w[i..][1..] == w[i + 1..];
      }
    }
  }

  lemma SplitOk(t: Tree, i: nat, sep: int)
    requires t.Node? && Ok(t, sep) && 0 < i < |t.text|
    ensures Ok(Split(t, i), sep)
  {
    var second := t.(text := t.text[i..]);
    assert Ok(second, sep);
    var kids := NoKids()[t.text[i] := second];
    forall c | 0 <= c < |kids|
      ensures Ok(kids[c], sep) && (kids[c].Node? ==> StartsWith(kids[c].text, c))
    {
    }
  }
}
