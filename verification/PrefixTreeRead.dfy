/**
 * The loops over a domain tree: the search, which walks down by index into the string, and the read-back, which writes the
 * texts on the way from a domain to the root into a buffer.
 */
module PrefixTreeRead {
  import opened Options
  import opened PrefixTree
  import opened PrefixTreeRuns

  // ---------------------------------------------------------------- search

  lemma NotAFront(a: Word, b: Word, i: nat)
    requires i < |a| && (i >= |b| || a[i] != b[i])
    ensures !(a <= b)
  {
  }

  /** `prefix_tree_search`; `index` runs up the string in a prefix tree and down in a suffix tree. */
  method SearchLoop(t: DomainTree, s: Word) returns (id: Option<nat>)
    requires TreeOk(t)
    ensures id == Search(t, s)
  {
    ghost var w := Reading(s, t.suffix);
    var node := t.root;
    var read := 0;
    assert w[0..] == w;
    while node.Node?
      invariant read <= |s| && Ok(node, t.sep)
      invariant Search(t, s) == Find(node, w[read..], t.sep)
      decreases node
    {
      var i := 0;
      ghost var first := read;
      while i < |node.text|
        invariant i <= |node.text| && read == first + i && read <= |s|
        invariant forall k :: 0 <= k < i ==> node.text[k] == w[first + k]
      {
        var index := if t.suffix then |s| - 1 - read else read;
        if read < |s| && node.text[i] == s[index] {
          read := read + 1;
        } else {
          NotAFront(node.text, w[first..], i);
          return None;
        }
        i := i + 1;
      }
      assert node.text <= w[first..] && w[first..][|node.text|..] == w[read..];
      var index := if t.suffix then |s| - 1 - read else read;
      if read >= |s| || s[index] == t.sep {
        if node.domain.None? {
          return None;
        } else if read >= |s| {
          return Some(node.domain.value.id);
        }
        assert w[read..][1..] == w[read + 1..];
        read := read + 1;
        node := node.domain.value.child;
      } else {
        if node.kids == [] {
          return None;
        }
        node := node.kids[s[index]];
      }
    }
    return None;
  }

  // ---------------------------------------------------------------- the way up

  /** The texts of the nodes between the root and the domain that `w` is found at, one list for each label. */
  function Trail(t: Tree, w: Word, sep: int): (levels: seq<seq<Word>>)
    requires Find(t, w, sep).Some?
    ensures levels != []
    decreases t
  {
    var rest := w[|t.text|..];
    assert FindRest(t, rest, sep).Some?;
    if rest == [] then [[t.text]]
    else if rest[0] == sep then [[t.text]] + Trail(t.domain.value.child, rest[1..], sep)
    else
      var below := Trail(t.kids[rest[0]], rest, sep);
      [[t.text] + below[0]] + below[1..]
  }

  /** The letters of one label. */
  function LevelText(level: seq<Word>): (w: Word)
  {
    if level == [] then [] else LevelText(level[..|level| - 1]) + level[|level| - 1]
  }

  /** The letters on the way to a domain, with a separator between labels. */
  function Joined(levels: seq<seq<Word>>, sep: int): (w: seq<int>)
  {
    if levels == [] then []
    else if |levels| == 1 then LevelText(levels[0])
    else Joined(levels[..|levels| - 1], sep) + [sep] + LevelText(levels[|levels| - 1])
  }

  lemma {:induction false} LevelTextCons(text: Word, level: seq<Word>)
    ensures LevelText([text] + level) == text + LevelText(level)
  {
    if level == [] {
      assert LevelText([text]) == LevelText([]) + text;
      assert [text] + level == [text];
    } else {
      var n := |level| - 1;
      LevelTextCons(text, level[..n]);
      assert ([text] + level)[..n + 1] == [text] + level[..n];
    }
  }

  lemma {:induction false} JoinedCons(level: seq<Word>, levels: seq<seq<Word>>, sep: int)
    requires levels != []
    ensures Joined([level] + levels, sep) == LevelText(level) + [sep] + Joined(levels, sep)
  {
    var n := |levels| - 1;
    var all := [level] + levels;
    assert all[..n + 1] == [level] + levels[..n];
    JoinedLast(all, sep);
    if n == 0 {
      assert all[..1] == [level];
      assert Joined(levels, sep) == LevelText(levels[0]);
    } else {
      JoinedCons(level, levels[..n], sep);
      JoinedLast(levels, sep);
      Grouped(LevelText(level) + [sep], Joined(levels[..n], sep), [sep], LevelText(levels[n]));
    }
  }

  lemma JoinedLast(levels: seq<seq<Word>>, sep: int)
    requires |levels| > 1
    ensures var n := |levels| - 1; Joined(levels, sep) == Joined(levels[..n], sep) + [sep] + LevelText(levels[n])
  {
  }

  lemma Grouped<T>(a: seq<T>, b: seq<T>, c: seq<T>, d: seq<T>)
    ensures a + b + c + d == a + (b + c + d)
  {
  }

  /** A longer first level. */
  lemma {:induction false} JoinedFront(text: Word, levels: seq<seq<Word>>, sep: int)
    requires levels != []
    ensures Joined([[text] + levels[0]] + levels[1..], sep) == text + Joined(levels, sep)
  {
    LevelTextCons(text, levels[0]);
    if |levels| == 1 {
      assert [[text] + levels[0]] + levels[1..] == [[text] + levels[0]];
    } else {
      JoinedCons([text] + levels[0], levels[1..], sep);
      JoinedCons(levels[0], levels[1..], sep);
      assert [levels[0]] + levels[1..] == levels;
    }
  }

  lemma OneText(text: Word)
    ensures LevelText([text]) == text
  {
    assert [text][..0] == [];
  }

  /** The first step of a trail whose word goes on in the next label. */
  lemma TrailDown(t: Tree, w: Word, sep: int)
    requires Find(t, w, sep).Some? && |t.text| < |w| && w[|t.text|] == sep
    ensures t.domain.Some? && Find(t.domain.value.child, w[|t.text| + 1..], sep).Some?
    ensures Trail(t, w, sep) == [[t.text]] + Trail(t.domain.value.child, w[|t.text| + 1..], sep)
  {
    var rest := w[|t.text|..];
    assert FindRest(t, rest, sep).Some?;
    assert rest[1..] == w[|t.text| + 1..];
  }

  /** The first step of a trail whose word goes on in the same label. */
  lemma TrailAlong(t: Tree, w: Word, sep: int)
    requires Find(t, w, sep).Some? && |t.text| < |w| && w[|t.text|] != sep
    ensures var c, rest := w[|t.text|], w[|t.text|..];
            && c < |t.kids| && Find(t.kids[c], rest, sep).Some?
            && Trail(t, w, sep) == [[t.text] + Trail(t.kids[c], rest, sep)[0]] + Trail(t.kids[c], rest, sep)[1..]
  {
    assert FindRest(t, w[|t.text|..], sep).Some?;
  }

  lemma SpellDown(text: Word, below: seq<seq<Word>>, w: Word, sep: int)
    requires below != [] && |text| < |w| && w[..|text|] == text && w[|text|] == sep && Joined(below, sep) == w[|text| + 1..]
    ensures Joined([[text]] + below, sep) == w
  {
    OneText(text);
    JoinedCons([text], below, sep);
    assert w == w[..|text|] + [w[|text|]] + w[|text| + 1..];
  }

  lemma SpellAlong(text: Word, below: seq<seq<Word>>, w: Word, sep: int)
    requires below != [] && |text| <= |w| && w[..|text|] == text && Joined(below, sep) == w[|text|..]
    ensures Joined([[text] + below[0]] + below[1..], sep) == w
  {
    JoinedFront(text, below, sep);
    assert w == w[..|text|] + w[|text|..];
  }

  /** The letters on the way to a domain spell the word it is found at. */
  lemma {:induction false} TrailSpells(t: Tree, w: Word, sep: int)
    requires Find(t, w, sep).Some?
    ensures Joined(Trail(t, w, sep), sep) == w
    decreases t
  {
    var n := |t.text|;
    assert w[..n] == t.text;
    if n == |w| {
      OneText(t.text);
      assert w == t.text && Trail(t, w, sep) == [[t.text]];
    } else if w[n] == sep {
      TrailDown(t, w, sep);
      TrailSpells(t.domain.value.child, w[n + 1..], sep);
      SpellDown(t.text, Trail(t.domain.value.child, w[n + 1..], sep), w, sep);
    } else {
      TrailAlong(t, w, sep);
      TrailSpells(t.kids[w[n]], w[n..], sep);
      SpellAlong(t.text, Trail(t.kids[w[n]], w[n..], sep), w, sep);
    }
  }

  // ---------------------------------------------------------------- read-back

  lemma {:induction false} JoinedStart(levels: seq<seq<Word>>, k: nat, sep: int)
    requires 0 < k <= |levels|
    ensures Joined(levels[..k], sep) <= Joined(levels, sep)
    ensures k < |levels| ==> Joined(levels[..k], sep) + [sep] <= Joined(levels, sep)
  {
    var n := |levels| - 1;
    if k <= n {
      assert levels[..n][..k] == levels[..k];
      JoinedStart(levels[..n], k, sep);
      if k == n {
        assert Joined(levels, sep) == (Joined(levels[..k], sep) + [sep]) + LevelText(levels[n]);
      }
    } else {
      assert levels[..k] == levels;
    }
  }

  lemma {:induction false} LevelStart(level: seq<Word>, j: nat)
    requires j <= |level|
    ensures LevelText(level[..j]) <= LevelText(level)
  {
    if j < |level| {
      var n := |level| - 1;
      assert level[..n][..j] == level[..j];
      LevelStart(level[..n], j);
    } else {
      assert level[..j] == level;
    }
  }

  /** The part of the buffer from `from` to the end of the word holds the letters of `w`. */
  predicate Holds(buffer: array<int>, from: nat, w: seq<int>)
    reads buffer
  {
    && |w| < buffer.Length
    && forall i :: from <= i < |w| ==> buffer[i] == w[i]
  }

  /** Writes a text backwards, ending just before `end`. */
  method WriteText(text: Word, buffer: array<int>, end: nat, ghost w: seq<int>) returns (start: nat)
    requires |text| <= end <= |w| && w[end - |text|..end] == text
    requires Holds(buffer, end, w)
    modifies buffer
    ensures start == end - |text| && Holds(buffer, start, w)
    ensures forall x :: |w| <= x < buffer.Length ==> buffer[x] == old(buffer[x])
  {
    start := end;
    var i := |text|;
    while i > 0
      invariant 0 <= i <= |text| && start == end - |text| + i
      invariant Holds(buffer, start, w)
      invariant forall x :: |w| <= x < buffer.Length ==> buffer[x] == old(buffer[x])
    {
      i := i - 1;
      start := start - 1;
      assert text[i] == w[end - |text|..end][i] == w[start];
      buffer[start] := text[i];
    }
  }

  lemma LevelInWord(level: seq<Word>, j: nat, end: nat, w: seq<int>)
    requires j < |level| && |LevelText(level)| <= end <= |w| && w[end - |LevelText(level)|..end] == LevelText(level)
    ensures var first := end - |LevelText(level)|;
            var n := |LevelText(level[..j])|;
            && LevelText(level[..j + 1]) == LevelText(level[..j]) + level[j]
            && first + n + |level[j]| <= end
            && w[first + n..first + n + |level[j]|] == level[j]
  {
    var first := end - |LevelText(level)|;
    var n := |LevelText(level[..j])|;
    LevelStart(level, j + 1);
    assert level[..j + 1][..j] == level[..j];
    MiddleOf(w, first, end, LevelText(level[..j]), level[j]);
  }

  /** Two pieces that start a slice of a word: where the second one is in the word. */
  lemma MiddleOf(w: seq<int>, first: nat, end: nat, front: seq<int>, piece: seq<int>)
    requires first <= end <= |w| && front + piece <= w[first..end]
    ensures first + |front| + |piece| <= end && w[first + |front|..first + |front| + |piece|] == piece
  {
    var slice := w[first..end];
    forall i | 0 <= i < |piece|
      ensures w[first + |front| + i] == piece[i]
    {
      assert slice[|front| + i] == (front + piece)[|front| + i];
    }
  }

  /** Writes one label backwards, ending just before `end`. */
  method WriteLevel(level: seq<Word>, buffer: array<int>, end: nat, ghost w: seq<int>) returns (start: nat)
    requires |LevelText(level)| <= end <= |w| && w[end - |LevelText(level)|..end] == LevelText(level)
    requires Holds(buffer, end, w)
    modifies buffer
    ensures start == end - |LevelText(level)| && Holds(buffer, start, w)
    ensures forall x :: |w| <= x < buffer.Length ==> buffer[x] == old(buffer[x])
  {
    start := end;
    var j := |level|;
    assert level[..j] == level;
    while j > 0
      invariant j <= |level| && start == end - |LevelText(level)| + |LevelText(level[..j])| && start <= end
      invariant Holds(buffer, start, w)
      invariant forall x :: |w| <= x < buffer.Length ==> buffer[x] == old(buffer[x])
    {
      j := j - 1;
      LevelInWord(level, j, end, w);
      start := WriteText(level[j], buffer, start, w);
    }
  }

  /** `prefix_tree_length_of_string`. */
  method Length(levels: seq<seq<Word>>, ghost sep: int) returns (length: nat)
    requires levels != []
    ensures length == |Joined(levels, sep)|
  {
    var sum := 0;
    var k := |levels|;
    assert levels[..k] == levels;
    while k > 0
      invariant k <= |levels|
      invariant k == 0 ==> sum == |Joined(levels, sep)| + 1
      invariant k > 0 ==> sum + |Joined(levels[..k], sep)| == |Joined(levels, sep)|
    {
      k := k - 1;
      assert levels[..k + 1][..k] == levels[..k];
      var j := |levels[k]|;
      ghost var before := sum;
      assert levels[k][..j] == levels[k];
      while j > 0
        invariant j <= |levels[k]| && sum + |LevelText(levels[k][..j])| == before + |LevelText(levels[k])|
      {
        j := j - 1;
        assert levels[k][..j + 1][..j] == levels[k][..j];
        sum := sum + |levels[k][j]|;
      }
      sum := sum + 1;
    }
    length := sum - 1;
  }

  lemma NotEmpty(levels: seq<seq<Word>>, k: nat, sep: int)
    requires 0 < k <= |levels| && LevelText(levels[0]) != []
    ensures Joined(levels[..k], sep) != []
  {
    JoinedStart(levels[..k], 1, sep);
    assert levels[..k][..1] == [levels[0]];
    assert Joined([levels[0]], sep) == LevelText(levels[0]);
  }

  /** What the first `k` levels spell. */
  function Before(levels: seq<seq<Word>>, k: nat, sep: int): (w: seq<int>)
    requires k <= |levels|
  {
    Joined(levels[..k], sep)
  }

  /** Where level `k` is in the word: behind the levels before it and a separator. */
  lemma LevelsInWord(levels: seq<seq<Word>>, k: nat, sep: int)
    requires k < |levels| && LevelText(levels[0]) != []
    ensures var w := Joined(levels, sep);
            var n := |Before(levels, k, sep)| + if k > 0 then 1 else 0;
            && |Before(levels, k + 1, sep)| == n + |LevelText(levels[k])| <= |w|
            && w[n..n + |LevelText(levels[k])|] == LevelText(levels[k])
            && (k > 0 ==> n > 1 && w[n - 1] == sep)
  {
    JoinedStart(levels, k + 1, sep);
    assert levels[..k + 1][..k] == levels[..k];
    if k > 0 {
      NotEmpty(levels, k, sep);
      JoinedStart(levels, k, sep);
    } else {
      assert levels[..1] == [levels[0]];
    }
    var n := |Before(levels, k, sep)| + if k > 0 then 1 else 0;
    assert Before(levels, k + 1, sep)[n..] == LevelText(levels[k]);
  }

  /** `prefix_tree_read_string` in a prefix tree: filled from its end, the buffer spells the word. */
  method ReadPrefix(levels: seq<seq<Word>>, sep: int, buffer: array<int>)
    requires levels != [] && |Joined(levels, sep)| < buffer.Length
    requires LevelText(levels[0]) != []
    modifies buffer
    ensures var w := Joined(levels, sep); buffer[..|w|] == w && buffer[|w|] == 0
  {
    ghost var w := Joined(levels, sep);
    var k := |levels|;
    var p := Length(levels, sep);
    buffer[p] := 0;
    assert levels[..k] == levels;
    while k > 0
      invariant k <= |levels| && p == |Before(levels, k, sep)|
      invariant Holds(buffer, p, w) && buffer[|w|] == 0
    {
      k := k - 1;
      LevelsInWord(levels, k, sep);
      p := WriteLevel(levels[k], buffer, p, w);
      if p > 1 {
        p := p - 1;
        buffer[p] := sep;
      }
    }
  }

  /** The first `upto` places of the buffer hold the letters of `w` from its end. */
  predicate HoldsBack(buffer: array<int>, upto: nat, w: seq<int>)
    reads buffer
  {
    && |w| < buffer.Length
    && forall i :: 0 <= i < upto && i < |w| ==> buffer[i] == w[|w| - 1 - i]
  }

  /** Writes a text from its last letter on; `left` letters of `w` are still to be written. */
  method AppendText(text: Word, buffer: array<int>, from: nat, ghost left: nat, ghost w: seq<int>) returns (p: nat)
    requires |text| <= left <= |w| && from == |w| - left && w[left - |text|..left] == text
    requires HoldsBack(buffer, from, w)
    modifies buffer
    ensures p == from + |text| && HoldsBack(buffer, p, w)
  {
    p := from;
    var i := |text|;
    while i > 0
      invariant 0 <= i <= |text| && p == from + |text| - i
      invariant HoldsBack(buffer, p, w)
    {
      i := i - 1;
      assert text[i] == w[left - |text|..left][i] == w[|w| - 1 - p];
      buffer[p] := text[i];
      p := p + 1;
    }
  }

  /** Writes one label from its last letter on. */
  method AppendLevel(level: seq<Word>, buffer: array<int>, from: nat, ghost left: nat, ghost w: seq<int>) returns (p: nat)
    requires |LevelText(level)| <= left <= |w| && from == |w| - left && w[left - |LevelText(level)|..left] == LevelText(level)
    requires HoldsBack(buffer, from, w)
    modifies buffer
    ensures p == from + |LevelText(level)| && HoldsBack(buffer, p, w)
  {
    p := from;
    var j := |level|;
    assert level[..j] == level;
    while j > 0
      invariant j <= |level| && p == from + |LevelText(level)| - |LevelText(level[..j])| && from <= p
      invariant HoldsBack(buffer, p, w)
    {
      j := j - 1;
      LevelInWord(level, j, left, w);
      p := AppendText(level[j], buffer, p, |w| - p, w);
    }
  }

  /** `prefix_tree_read_string` in a suffix tree: filled from its start, the buffer spells the word from its end. */
  method ReadSuffix(levels: seq<seq<Word>>, sep: int, buffer: array<int>)
    requires levels != [] && |Joined(levels, sep)| < buffer.Length
    requires LevelText(levels[0]) != []
    modifies buffer
    ensures var w := Joined(levels, sep); HoldsBack(buffer, |w|, w) && buffer[|w|] == 0
  {
    ghost var w := Joined(levels, sep);
    var p := 0;
    var k := |levels|;
    ghost var rest := |w|;
    assert levels[..k] == levels;
    while k > 0
      invariant k <= |levels| && rest == |Before(levels, k, sep)| <= |w|
      invariant p == |w| - rest + (if k == 0 then 1 else 0)
      invariant HoldsBack(buffer, |w| - rest, w)
    {
      k := k - 1;
      LevelsInWord(levels, k, sep);
      p := AppendLevel(levels[k], buffer, p, rest, w);
      rest := rest - |LevelText(levels[k])|;
      buffer[p] := sep;
      p := p + 1;
      if k > 0 {
        rest := rest - 1;
      }
    }
    p := p - 1;
    buffer[p] := 0;
  }

  /** The first label of a word that is found is not empty. */
  lemma TrailStarts(t: DomainTree, w: Word)
    requires TreeOk(t) && w != [] && Find(t.root, w, t.sep).Some?
    ensures LevelText(Trail(t.root, w, t.sep)[0]) != []
  {
    if w[0] == t.sep {
      TrailDown(t.root, w, t.sep);
      assert false;
    } else {
      TrailAlong(t.root, w, t.sep);
      var kid := t.root.kids[w[0]];
      var below := Trail(kid, w, t.sep);
      assert w[0..] == w;
      LevelTextCons([], below[0]);
      FirstText(kid, w, t.sep);
      LevelStart(below[0], 1);
      assert below[0][..1] == [kid.text];
      OneText(kid.text);
    }
  }

  lemma FirstText(t: Tree, w: Word, sep: int)
    requires Find(t, w, sep).Some?
    ensures Trail(t, w, sep)[0] != [] && Trail(t, w, sep)[0][0] == t.text
  {
    if |t.text| < |w| {
      if w[|t.text|] == sep {
        TrailDown(t, w, sep);
      } else {
        TrailAlong(t, w, sep);
      }
    }
  }
}
