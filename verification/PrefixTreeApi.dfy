/** `prefix_tree_t` and its public functions. */
module PrefixTreeApi {
  import opened Options
  import opened PrefixTree
  import opened PrefixTreeDomains
  import opened PrefixTreeRead
  import opened PrefixTreeRuns
  import PrefixTreeWay

  /** Inserting a string finds it, and leaves all that was found where it was. */
  lemma FoundStay(t: DomainTree, s: Word)
    requires TreeOk(t) && Labelled(Reading(s, t.suffix), t.sep)
    ensures var (t', id) := PrefixTreeRuns.Insert(t, s);
            Search(t', s) == Some(id) && forall u :: Search(t, u).Some? ==> Search(t', u) == Search(t, u)
  {
    forall u | true
      ensures Search(t, u).Some? ==> Search(PrefixTreeRuns.Insert(t, s).0, u) == Search(t, u)
    {
      InsertThenSearch(t, s, u);
    }
    InsertThenSearch(t, s, s);
  }

  class DomainStore {
    var tree: DomainTree
    ghost var inserted: seq<Word>
    ghost var domains: seq<nat>   // what the insertions gave back

    ghost predicate Valid()
      reads this
    {
      && AllLabelled(inserted, tree.sep, tree.suffix) && tree == Run(inserted, tree.sep, tree.suffix)
      && |domains| == |inserted| && forall i :: 0 <= i < |inserted| ==> Search(tree, inserted[i]) == Some(domains[i])
    }

    /** The string is the empty one, or a part of an inserted one. */
    ghost predicate Holds(s: Word)
      reads this
    {
      s == [] || exists i :: 0 <= i < |inserted| && PartOf(s, inserted[i], tree.sep, tree.suffix)
    }

    /** `prefix_tree_initialize`. */
    constructor (domainSeparator: int, suffix: bool)
      ensures Valid() && inserted == [] && domains == []
      ensures tree.sep == SeparatorLetter(domainSeparator) && tree.suffix == suffix
    {
      tree, inserted, domains := Initialize(SeparatorLetter(domainSeparator), suffix), [], [];
    }

    /** `prefix_tree_insert`: strings keep their domains, and the one returned is that of the new string. */
    method Insert(s: Word) returns (id: nat)
      requires Valid() && Labelled(Reading(s, tree.suffix), tree.sep)
      modifies this
      ensures Valid() && inserted == old(inserted) + [s] && domains == old(domains) + [id]
      ensures tree.sep == old(tree.sep) && tree.suffix == old(tree.suffix)
      ensures Search(tree, s) == Some(id)
      ensures forall u :: Search(old(tree), u).Some? ==> Search(tree, u) == Search(old(tree), u)
    {
      FoundStay(tree, s);
      var r := PrefixTreeRuns.Insert(tree, s);
      tree, inserted, domains, id := r.0, inserted + [s], domains + [r.1], r.1;
      assert inserted[..|inserted| - 1] == old(inserted);
    }

    /** `prefix_tree_search`: finds exactly the parts of inserted strings, each at a domain of its own. */
    method Lookup(s: Word) returns (id: Option<nat>)
      requires Valid()
      ensures id.Some? <==> Holds(s)
      ensures id.Some? ==> forall u :: Search(tree, u) == id ==> u == s
    {
      id := SearchLoop(tree, s);
      RunFinds(inserted, tree.sep, tree.suffix, s);
      forall u | id.Some? && Search(tree, u) == id
        ensures u == s
      {
        OneStringPerDomain(inserted, tree.sep, tree.suffix, u, s);
      }
    }

    /**
     * `prefix_tree_read_string` for a domain that an insertion gave back: the string inserted then, however many were
     * inserted since.
     */
    method ReadString(id: nat, buffer: array<int>)
      requires Valid() && id in domains
      requires forall i :: 0 <= i < |domains| && domains[i] == id ==> |inserted[i]| < buffer.Length
      modifies buffer
      ensures forall i :: 0 <= i < |domains| && domains[i] == id ==>
                buffer[..|inserted[i]|] == inserted[i] && buffer[|inserted[i]|] == 0
    {
      ghost var k :| 0 <= k < |domains| && domains[k] == id;
      forall i | 0 <= i < |domains| && domains[i] == id
        ensures inserted[i] == inserted[k]
      {
        OneStringPerDomain(inserted, tree.sep, tree.suffix, inserted[i], inserted[k]);
      }
      assert Labelled(Reading(inserted[k], tree.suffix), tree.sep);
      PrefixTreeWay.ReadString(tree, id, buffer, inserted, inserted[k]);
    }
  }
}
