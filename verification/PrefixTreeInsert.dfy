/**
 * What an insertion into the domain tree does to every search: whatever was found is still found, at the same domain,
 * and besides that exactly the word and its leading runs of labels are found.
 */
module PrefixTreeInsert {
  import opened Options
  import opened PrefixTree

  /** `u` is `w` or a leading run of its labels. */
  predicate Leading(u: Word, w: Word, sep: int)
  {
    u <= w && (|u| == |w| || w[|u|] == sep)
  }

  /** What a search found before and after an insertion that made domains `next` to `next + made - 1`. */
  predicate FoundAs(before: Option<nat>, after: Option<nat>, u: Word, w: Word, sep: int, next: nat, r: Added)
  {
    && (before.Some? ==> after == before)
    && (before.None? ==> (after.Some? <==> Leading(u, w, sep)))
    && (before.None? && after.Some? ==> next <= after.value < next + r.made)
    && (u == w ==> after == Some(r.id))
  }

  lemma LeadingTail(u: Word, w: Word, n: nat, sep: int)
    requires n <= |u| && n <= |w| && u[..n] == w[..n]
    ensures Leading(u, w, sep) <==> Leading(u[n..], w[n..], sep)
    ensures u == w <==> u[n..] == w[n..]
  {
    assert u == u[..n] + u[n..] && w == w[..n] + w[n..];
  }

  /** A word of which `w` is no leading part at length `n`, where the label has not ended. */
  lemma NotLeading(u: Word, w: Word, n: nat, sep: int)
    requires n <= |w| && !(w[..n] <= u)
    requires forall i :: 0 <= i < n ==> w[i] != sep
    ensures !Leading(u, w, sep) && u != w
  {
    if u <= w && n <= |u| {
      FrontOfFront(u, w, n);
    }
  }

  lemma FrontOfFront(u: Word, w: Word, n: nat)
    requires u <= w && n <= |u|
    ensures w[..n] <= u
  {
    assert w[..n] == u[..n];
  }

  lemma PrefixInTwo(a: Word, i: nat, u: Word)
    requires i <= |a|
    ensures a <= u <==> a[..i] <= u && a[i..] <= u[i..]
    ensures a <= u ==> a[..i] <= u
    ensures a <= u ==> u[i..][|a| - i..] == u[|a|..]
  {
    assert a == a[..i] + a[i..];
    if a[..i] <= u {
      assert u == a[..i] + u[i..];
    }
  }

  lemma FindFresh(u: Word, sep: int)
    ensures Find(Fresh(), u, sep) == None
  {
  }

  lemma NewItemFinds(w: Word, sep: int, next: nat, u: Word)
    requires Labelled(w, sep)
    ensures FoundAs(None, Find(NewItem(w, sep, next).tree, u, sep), u, w, sep, next, NewItem(w, sep, next))
    decreases |w|, 0
  {
    var n := LabelLength(w, sep);
    if n < |w| {
      TailLabelled(w, n, sep);
      if w[..n] <= u {
        LeadingTail(u, w, n, sep);
        if n < |u| && u[n] == sep {
          AddFinds(Fresh(), w[n + 1..], sep, next + 1, u[n + 1..]);
          FindFresh(u[n + 1..], sep);
          LeadingTail(u, w, n + 1, sep);
          assert u[n..][1..] == u[n + 1..];
        }
      } else {
        NotLeading(u, w, n, sep);
      }
    } else {
      assert w[..n] == w;
      if w <= u {
        assert u == w + u[n..];
        var tail := u[n..];
        if tail != [] && tail[0] == sep {
          assert Find(Nil, tail[1..], sep) == None;
        }
      } else {
        NotLeading(u, w, n, sep);
      }
    }
  }

  lemma AddKidFinds(t: Tree, w: Word, sep: int, next: nat, u: Word)
    requires t.Node? && Ok(t, sep) && Labelled(w, sep)
    ensures FoundAs(FindRest(t, u, sep), FindRest(AddKid(t, w, sep, next).tree, u, sep), u, w, sep, next, AddKid(t, w, sep, next))
    decreases |w|, 1, t, 0
  {
    var kids := if t.kids == [] then NoKids() else t.kids;
    if kids[w[0]].Nil? {
      NewItemFinds(w, sep, next, u);
    } else {
      AddFinds(t.kids[w[0]], w, sep, next, u);
    }
  }

  lemma AfterFinds(t: Tree, rest: Word, sep: int, next: nat, u: Word)
    requires t.Node? && Ok(t, sep)
    requires rest == [] || (rest[0] == sep && Labelled(rest[1..], sep)) || Labelled(rest, sep)
    ensures FoundAs(FindRest(t, u, sep), FindRest(After(t, rest, sep, next).tree, u, sep), u, rest, sep, next, After(t, rest, sep, next))
    decreases |rest|, 1, t, 1
  {
    if rest == [] {
    } else if rest[0] == sep {
      var made := if t.domain.None? then 1 else 0;
      var child := if t.domain.None? then Nil else t.domain.value.child;
      if u != [] && u[0] == sep {
        AddFinds(if child.Nil? then Fresh() else child, rest[1..], sep, next + made, u[1..]);
        FindFresh(u[1..], sep);
        LeadingTail(u, rest, 1, sep);
      }
    } else {
      AddKidFinds(t, rest, sep, next, u);
    }
  }

  lemma SplitFindsRest(t: Tree, i: nat, sep: int, rest: Word)
    requires t.Node? && Ok(t, sep) && 0 < i < |t.text|
    ensures FindRest(Split(t, i), rest, sep) == if t.text[i..] <= rest then FindRest(t, rest[|t.text| - i..], sep) else None
  {
    var second := t.(text := t.text[i..]);
    assert t.text[i..] <= rest ==> rest != [] && rest[0] == t.text[i];
    if rest != [] && rest[0] == t.text[i] {
      assert FindRest(Split(t, i), rest, sep) == Find(second, rest, sep);
      assert forall v :: FindRest(second, v, sep) == FindRest(t, v, sep);
    } else if rest != [] && rest[0] != sep {
      assert Split(t, i).kids[rest[0]] == Nil;
    }
  }

  /** A split changes no search. */
  lemma SplitFinds(t: Tree, i: nat, sep: int, u: Word)
    requires t.Node? && Ok(t, sep) && 0 < i < |t.text|
    ensures Find(Split(t, i), u, sep) == Find(t, u, sep)
  {
    PrefixInTwo(t.text, i, u);
    if t.text[..i] <= u {
      SplitFindsRest(t, i, sep, u[i..]);
    }
  }

  /** Searches from `t`, after inserting `w` there: see `FoundAs`. */
  lemma AddFinds(t: Tree, w: Word, sep: int, next: nat, u: Word)
    requires t.Node? && Ok(t, sep) && Labelled(w, sep) && (t.text == [] || t.text[0] == w[0])
    ensures FoundAs(Find(t, u, sep), Find(Add(t, w, sep, next).tree, u, sep), u, w, sep, next, Add(t, w, sep, next))
    decreases |w|, 1, t, 2
  {
    var i := Common(t.text, w);
    if i == 0 {
      AddKidFinds(t, w, sep, next, u);
    } else {
      RestLabelled(w, i, sep);
      var at := if i < |t.text| then Split(t, i) else t;
      if i < |t.text| {
        SplitOk(t, i, sep);
        SplitFinds(t, i, sep, u);
      }
      if w[..i] <= u {
        AfterFinds(at, w[i..], sep, next, u[i..]);
        LeadingTail(u, w, i, sep);
      } else {
        assert forall k :: 0 <= k < i ==> w[k] == w[..i][k] == t.text[k];
        NotLeading(u, w, i, sep);
      }
    }
  }

  // ---------------------------------------------------------------- shape and counters

  /** Domains in a subtree. */
  function Count(t: Tree): (n: nat)
    decreases t
  {
    if t.Nil? then 0
    else (if t.domain.Some? then 1 + Count(t.domain.value.child) else 0) + KidsCount(t.kids)
  }

  function KidsCount(kids: seq<Tree>): (n: nat)
    decreases kids
  {
    if kids == [] then 0 else Count(kids[0]) + KidsCount(kids[1..])
  }

  /** Every node counts the domains of its subtree, and every domain the domains below it. */
  predicate Counted(t: Tree)
    decreases t
  {
    t.Node? ==>
      && t.strings == Count(t)
      && (forall c :: 0 <= c < |t.kids| ==> Counted(t.kids[c]))
      && (t.domain.Some? ==> t.domain.value.subdomains == Count(t.domain.value.child) && Counted(t.domain.value.child))
  }

  lemma {:induction false} KidsCountPut(kids: seq<Tree>, i: nat, t: Tree)
    requires i < |kids|
    ensures KidsCount(kids[i := t]) == KidsCount(kids) - Count(kids[i]) + Count(t)
    ensures KidsCount(kids) >= Count(kids[i])
  {
    if i == 0 {
      assert kids[i := t][1..] == kids[1..];
    } else {
      KidsCountPut(kids[1..], i - 1, t);
      assert kids[i := t][1..] == kids[1..][i - 1 := t];
    }
  }

  lemma {:induction false} NoKidsCount(kids: seq<Tree>)
    requires forall c :: 0 <= c < |kids| ==> kids[c] == Nil
    ensures KidsCount(kids) == 0
  {
    if kids != [] {
      NoKidsCount(kids[1..]);
    }
  }

  /** The node is well shaped and counted, and has `made` domains more than before. */
  predicate Grown(before: nat, r: Added, sep: int)
  {
    r.tree.Node? && Ok(r.tree, sep) && Counted(r.tree) && Count(r.tree) == before + r.made
  }

  lemma FreshOk(sep: int)
    ensures Ok(Fresh(), sep) && Counted(Fresh()) && Count(Fresh()) == 0 && BelowDomain(Fresh())
  {
    NoKidsCount(NoKids());
  }

  /** A new node with a domain over `sub`. */
  lemma NewNodeGrows(text: Word, sub: Tree, made: nat, sep: int, next: nat)
    requires text != [] && |text| <= MAX_LENGTH && forall i :: 0 <= i < |text| ==> text[i] != sep
    requires Ok(sub, sep) && Counted(sub) && Count(sub) == made && BelowDomain(sub) && (sub.Node? ==> 0 <= sep < LETTERS)
    ensures var t := Node(text, [], Some(Domain(next, made, sub)), 1 + made);
            Ok(t, sep) && Counted(t) && Count(t) == 1 + made && StartsWith(t.text, text[0])
  {
  }

  lemma NewItemGrows(w: Word, sep: int, next: nat)
    requires Labelled(w, sep)
    ensures Grown(0, NewItem(w, sep, next), sep) && StartsWith(NewItem(w, sep, next).tree.text, w[0])
    decreases |w|, 0
  {
    var n := LabelLength(w, sep);
    if n < |w| {
      TailLabelled(w, n, sep);
      FreshOk(sep);
      AddGrows(Fresh(), w[n + 1..], sep, next + 1);
      MoreLabelsGrow(w, sep, next, Add(Fresh(), w[n + 1..], sep, next + 1));
    } else {
      LabelFits(w, sep);
      NewNodeGrows(w, Nil, 0, sep, next);
    }
  }

  lemma MoreLabelsGrow(w: Word, sep: int, next: nat, sub: Added)
    requires Labelled(w, sep) && LabelLength(w, sep) < |w|
    requires Labelled(w[LabelLength(w, sep) + 1..], sep) && sub == Add(Fresh(), w[LabelLength(w, sep) + 1..], sep, next + 1)
    requires Grown(0, sub, sep) && BelowDomain(sub.tree)
    ensures Grown(0, NewItem(w, sep, next), sep) && StartsWith(NewItem(w, sep, next).tree.text, w[0])
  {
    LabelFits(w, sep);
    NewNodeGrows(w[..LabelLength(w, sep)], sub.tree, sub.made, sep, next);
  }

  /** A node whose child array has been allocated. */
  function WithKids(t: Tree): (t': Tree)
    requires t.Node?
  {
    if t.kids == [] then t.(kids := NoKids()) else t
  }

  lemma WithKidsOk(t: Tree, sep: int)
    requires t.Node? && Ok(t, sep) && Counted(t)
    ensures Ok(WithKids(t), sep) && Counted(WithKids(t)) && Count(WithKids(t)) == Count(t) && |WithKids(t).kids| == LETTERS
  {
    if t.kids == [] {
      EmptyKids();
      WithKidsShaped(t, sep);
      WithKidsCounted(t);
    }
  }

  lemma EmptyKids()
    ensures KidsCount(NoKids()) == 0 && forall c :: 0 <= c < LETTERS ==> Counted(NoKids()[c])
  {
    NoKidsCount(NoKids());
  }

  lemma WithKidsShaped(t: Tree, sep: int)
    requires t.Node? && Ok(t, sep) && t.kids == []
    ensures Ok(WithKids(t), sep) && |WithKids(t).kids| == LETTERS
  {
  }

  lemma WithKidsCounted(t: Tree)
    requires t.Node? && Counted(t) && t.kids == []
    ensures Counted(WithKids(t)) && Count(WithKids(t)) == Count(t)
  {
    EmptyKids();
    assert KidsCount(t.kids) == 0;
  }

  /** The node with `sub` as its child at `c`. */
  function WithKid(t: Tree, c: nat, sub: Added): (r: Added)
    requires t.Node? && c < |t.kids|
  {
    Added(t.(kids := t.kids[c := sub.tree], strings := t.strings + sub.made), sub.made, sub.id)
  }

  /** A child replaced by one with `sub.made` more domains. */
  lemma PutKid(t: Tree, c: nat, sub: Added, sep: int)
    requires t.Node? && |t.kids| == LETTERS && c < LETTERS && Ok(t, sep) && Counted(t)
    requires Grown(Count(t.kids[c]), sub, sep) && StartsWith(sub.tree.text, c)
    ensures Grown(Count(t), WithKid(t, c, sub), sep)
  {
    KidsCountPut(t.kids, c, sub.tree);
  }

  lemma AddKidIs(t: Tree, w: Word, sep: int, next: nat)
    requires t.Node? && Ok(t, sep) && Labelled(w, sep)
    ensures var t' := WithKids(t);
            && |t'.kids| == LETTERS && (t.kids == [] ==> t'.kids[w[0]].Nil?)
            && AddKid(t, w, sep, next) == WithKid(t', w[0], if t'.kids[w[0]].Nil? then NewItem(w, sep, next) else Add(t.kids[w[0]], w, sep, next))
  {
  }

  lemma AddKidGrows(t: Tree, w: Word, sep: int, next: nat)
    requires t.Node? && Ok(t, sep) && Counted(t) && Labelled(w, sep)
    ensures Grown(Count(t), AddKid(t, w, sep, next), sep) && AddKid(t, w, sep, next).tree.domain == t.domain
    decreases |w|, 1, t, 0
  {
    var t' := WithKids(t);
    WithKidsOk(t, sep);
    AddKidIs(t, w, sep, next);
    if t'.kids[w[0]].Nil? {
      NewItemGrows(w, sep, next);
      PutKid(t', w[0], NewItem(w, sep, next), sep);
    } else {
      AddGrows(t.kids[w[0]], w, sep, next);
      PutKid(t', w[0], Add(t.kids[w[0]], w, sep, next), sep);
    }
  }

  /** The tree below a domain replaced by one with `sub.made` more domains; the domain may be new. */
  lemma PutChild(t: Tree, d: Domain, sub: Added, sep: int)
    requires t.Node? && Ok(t, sep) && Counted(t)
    requires if t.domain.Some? then d == t.domain.value else d.subdomains == 0 && d.child == Nil
    requires Grown(Count(d.child), sub, sep) && BelowDomain(sub.tree) && 0 <= sep < LETTERS
    ensures var made := (if t.domain.None? then 1 else 0) + sub.made;
            Grown(Count(t),
                  Added(t.(domain := Some(d.(subdomains := d.subdomains + sub.made, child := sub.tree)), strings := t.strings + made), made, sub.id),
                  sep)
  {
  }

  /** An insertion below a domain. */
  lemma AddBelow(child: Tree, w: Word, sep: int, next: nat)
    requires Ok(child, sep) && Counted(child) && BelowDomain(child) && Labelled(w, sep)
    ensures var r := Add(if child.Nil? then Fresh() else child, w, sep, next); Grown(Count(child), r, sep) && BelowDomain(r.tree)
    decreases |w|, 2
  {
    FreshOk(sep);
    AddGrows(if child.Nil? then Fresh() else child, w, sep, next);
  }

  lemma AfterSepGrows(t: Tree, rest: Word, sep: int, next: nat)
    requires t.Node? && Ok(t, sep) && Counted(t)
    requires rest != [] && rest[0] == sep && Labelled(rest[1..], sep)
    ensures Grown(Count(t), After(t, rest, sep, next), sep)
    decreases |rest|, 1, t, 0
  {
    var made := if t.domain.None? then 1 else 0;
    var d := if t.domain.None? then Domain(next, 0, Nil) else t.domain.value;
    var below := if d.child.Nil? then Fresh() else d.child;
    var sub := Add(below, rest[1..], sep, next + made);
    assert After(t, rest, sep, next)
        == Added(t.(domain := Some(d.(subdomains := d.subdomains + sub.made, child := sub.tree)), strings := t.strings + (made + sub.made)),
                 made + sub.made, sub.id);
    AddBelow(d.child, rest[1..], sep, next + made);
    PutChild(t, d, sub, sep);
  }

  lemma AfterGrows(t: Tree, rest: Word, sep: int, next: nat)
    requires t.Node? && Ok(t, sep) && Counted(t)
    requires rest == [] || (rest[0] == sep && Labelled(rest[1..], sep)) || Labelled(rest, sep)
    ensures Grown(Count(t), After(t, rest, sep, next), sep)
    decreases |rest|, 1, t, 1
  {
    if rest == [] {
    } else if rest[0] == sep {
      AfterSepGrows(t, rest, sep, next);
    } else {
      AddKidGrows(t, rest, sep, next);
    }
  }

  lemma SplitCounted(t: Tree, i: nat)
    requires t.Node? && Counted(t) && 0 < i < |t.text|
    ensures Counted(Split(t, i)) && Count(Split(t, i)) == Count(t)
  {
    var second := t.(text := t.text[i..]);
    assert Counted(second) && Count(second) == Count(t);
    OnlyKid(t.text[i], second);
  }

  lemma OnlyKid(c: nat, t: Tree)
    requires c < LETTERS && Counted(t)
    ensures var kids := NoKids()[c := t]; KidsCount(kids) == Count(t) && forall d :: 0 <= d < |kids| ==> Counted(kids[d])
  {
    EmptyKids();
    KidsCountPut(NoKids(), c, t);
  }

  /** An insertion keeps the shape and the counters, and counts the domains it made. */
  lemma AddGrows(t: Tree, w: Word, sep: int, next: nat)
    requires t.Node? && Ok(t, sep) && Counted(t) && Labelled(w, sep) && (t.text == [] || t.text[0] == w[0])
    ensures var r := Add(t, w, sep, next);
            && Grown(Count(t), r, sep)
            && (t.text == [] ==> r.tree.text == [] && r.tree.domain == t.domain)
            && (t.text != [] ==> StartsWith(r.tree.text, w[0]))
    decreases |w|, 1, t, 2
  {
    var i := Common(t.text, w);
    if i == 0 {
      AddKidGrows(t, w, sep, next);
    } else {
      RestLabelled(w, i, sep);
      var at := if i < |t.text| then Split(t, i) else t;
      if i < |t.text| {
        SplitOk(t, i, sep);
        SplitCounted(t, i);
      }
      AfterGrows(at, w[i..], sep, next);
    }
  }
}
