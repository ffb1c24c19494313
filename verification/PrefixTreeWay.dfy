/**
 * The way from a domain up to the root. A domain knows only where it hangs; the texts above it are the ones a search for
 * its string passes, so a domain reads back as the string that was inserted, whatever was inserted since.
 */
module PrefixTreeWay {
  import opened Options
  import opened PrefixTree
  import opened PrefixTreeDomains
  import opened PrefixTreeRead
  import opened PrefixTreeRuns

  /**
   * The texts of the nodes above domain `id`, one list for each label: what the links `parent` and `parent_is_domain` lead
   * along, from the root down.
   */
  function WayTo(t: Tree, id: nat): (levels: Option<seq<seq<Word>>>)
    ensures levels.Some? ==> levels.value != []
    decreases t, 1, 0
  {
    if t.Nil? then None
    else if t.domain.Some? && t.domain.value.id == id then Some([[t.text]])
    else
      var below := if t.domain.Some? then WayTo(t.domain.value.child, id) else None;
      if below.Some? then Some([[t.text]] + below.value) else WayThroughKids(t, id, 0)
  }

  /** The way through a child from number `c` on. */
  function WayThroughKids(t: Tree, id: nat, c: nat): (levels: Option<seq<seq<Word>>>)
    requires t.Node? && c <= |t.kids|
    ensures levels.Some? ==> levels.value != []
    decreases t, 0, |t.kids| - c
  {
    if c == |t.kids| then None
    else
      var below := WayTo(t.kids[c], id);
      if below.Some? then Some([[t.text] + below.value[0]] + below.value[1..]) else WayThroughKids(t, id, c + 1)
  }

  /** `levels` are passed by a search for `w`, which ends at `id`. */
  predicate Passed(t: Tree, w: Word, id: nat, levels: seq<seq<Word>>, sep: int)
  {
    Find(t, w, sep) == Some(id) && Trail(t, w, sep) == levels
  }

  /** Some search passes the way to a domain. */
  lemma {:induction false} WayIsPassed(t: Tree, id: nat, sep: int) returns (w: Word)
    requires Ok(t, sep) && WayTo(t, id).Some?
    ensures Passed(t, w, id, WayTo(t, id).value, sep)
    decreases t, 1, 0
  {
    if t.domain.Some? && t.domain.value.id == id {
      w := t.text;
      assert w[|t.text|..] == [];
    } else if t.domain.Some? && WayTo(t.domain.value.child, id).Some? {
      var below := WayIsPassed(t.domain.value.child, id, sep);
      w := t.text + ([sep] + below);
      assert w[|t.text|..] == [sep] + below && ([sep] + below)[1..] == below;
    } else {
      w := KidsWayIsPassed(t, id, 0, sep);
    }
  }

  lemma {:induction false} KidsWayIsPassed(t: Tree, id: nat, c: nat, sep: int) returns (w: Word)
    requires t.Node? && Ok(t, sep) && c <= |t.kids| && WayThroughKids(t, id, c).Some?
    ensures Passed(t, w, id, WayThroughKids(t, id, c).value, sep)
    decreases t, 0, |t.kids| - c
  {
    if WayTo(t.kids[c], id).Some? {
      var below := WayIsPassed(t.kids[c], id, sep);
      assert t.kids[c].text <= below && below[0] == t.kids[c].text[0] == c;
      w := t.text + below;
      assert w[|t.text|..] == below;
      TrailAlong(t, w, sep);
    } else {
      w := KidsWayIsPassed(t, id, c + 1, sep);
    }
  }

  lemma {:induction false} KidHasWay(t: Tree, id: nat, c: nat, k: nat)
    requires t.Node? && c <= k < |t.kids| && WayTo(t.kids[k], id).Some?
    ensures WayThroughKids(t, id, c).Some?
    decreases k - c
  {
    if c < k && WayTo(t.kids[c], id).None? {
      KidHasWay(t, id, c + 1, k);
    }
  }

  /** There is a way to every domain that a search ends at. */
  lemma {:induction false} FoundHasWay(t: Tree, w: Word, id: nat, sep: int)
    requires Find(t, w, sep) == Some(id)
    ensures WayTo(t, id).Some?
    decreases t
  {
    var rest := w[|t.text|..];
    assert FindRest(t, rest, sep) == Some(id);
    if rest != [] {
      if rest[0] == sep {
        FoundHasWay(t.domain.value.child, rest[1..], id, sep);
      } else {
        FoundHasWay(t.kids[rest[0]], rest, id, sep);
        KidHasWay(t, id, 0, rest[0]);
      }
    }
  }

  lemma ReadingTwice(w: Word, suffix: bool)
    ensures Reading(Reading(w, suffix), suffix) == w
  {
  }

  /** After any run of insertions the way to the domain of a string is the one that a search for the string takes. */
  lemma WayIsTrail(ss: seq<Word>, sep: int, suffix: bool, s: Word)
    requires AllLabelled(ss, sep, suffix)
    requires Search(Run(ss, sep, suffix), s).Some?
    ensures var t := Run(ss, sep, suffix);
            WayTo(t.root, Search(t, s).value) == Some(Trail(t.root, Reading(s, suffix), sep))
  {
    var t := Run(ss, sep, suffix);
    var id := Search(t, s).value;
    FoundHasWay(t.root, Reading(s, suffix), id, sep);
    var w := WayIsPassed(t.root, id, sep);
    ReadingTwice(w, suffix);
    OneStringPerDomain(ss, sep, suffix, s, Reading(w, suffix));
  }

  /** The way to the domain of a string spells the string as the tree reads it. */
  lemma WaySpells(ss: seq<Word>, sep: int, suffix: bool, s: Word, id: nat)
    requires AllLabelled(ss, sep, suffix) && s != [] && Search(Run(ss, sep, suffix), s) == Some(id)
    ensures var way := WayTo(Run(ss, sep, suffix).root, id);
            way.Some? && LevelText(way.value[0]) != [] && Joined(way.value, sep) == Reading(s, suffix)
  {
    WayIsTrail(ss, sep, suffix, s);
    TrailStarts(Run(ss, sep, suffix), Reading(s, suffix));
    TrailSpells(Run(ss, sep, suffix).root, Reading(s, suffix), sep);
  }

  /**
   * `prefix_tree_read_string`: after any run of insertions, a domain reads back as the one string `s` that is found there,
   * in both directions.
   */
  method ReadString(t: DomainTree, id: nat, buffer: array<int>, ghost ss: seq<Word>, ghost s: Word)
    requires AllLabelled(ss, t.sep, t.suffix) && t == Run(ss, t.sep, t.suffix)
    requires s != [] && Search(t, s) == Some(id) && |s| < buffer.Length
    modifies buffer
    ensures buffer[..|s|] == s && buffer[|s|] == 0
  {
    WaySpells(ss, t.sep, t.suffix, s, id);
    var levels := WayTo(t.root, id).value;
    if t.suffix {
      ReadSuffix(levels, t.sep, buffer);
    } else {
      ReadPrefix(levels, t.sep, buffer);
    }
  }
}
