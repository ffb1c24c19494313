/** Inserting into and cutting sequences, mostly stated index by index. */
module Sequences {

  /** `r` is `s` with `x` put in at position `p`. */
  ghost predicate Put<T>(s: seq<T>, p: nat, x: T, r: seq<T>)
  {
    && p <= |s| && |r| == |s| + 1
    && (forall i :: 0 <= i < p ==> r[i] == s[i])
    && r[p] == x
    && (forall i :: p < i < |r| ==> r[i] == s[i - 1])
  }

  lemma PutSome<T>(s: seq<T>, p: nat, x: T) returns (r: seq<T>)
    requires p <= |s|
    ensures Put(s, p, x, r)
  {
    r := s[..p] + [x] + s[p..];
  }

  lemma PutConcat<T>(s: seq<T>, p: nat, x: T)
    requires p <= |s|
    ensures Put(s, p, x, s[..p] + [x] + s[p..])
  {
  }

  /** `r` is `s` with the element at position `p` replaced by `x` and `y`. */
  ghost predicate PutPair<T>(s: seq<T>, p: nat, x: T, y: T, r: seq<T>)
  {
    && p < |s| && |r| == |s| + 1
    && (forall i :: 0 <= i < p ==> r[i] == s[i])
    && r[p] == x && r[p + 1] == y
    && (forall i :: p + 1 < i < |r| ==> r[i] == s[i - 1])
  }

  lemma PutPairConcat<T>(s: seq<T>, p: nat, x: T, y: T)
    requires p < |s|
    ensures PutPair(s, p, x, y, s[..p] + [x, y] + s[p + 1..])
  {
  }

  /** `r` is `s` without the element at position `p`. */
  ghost predicate Dropped<T>(s: seq<T>, p: nat, r: seq<T>)
  {
    && p < |s| && |r| == |s| - 1
    && (forall i :: 0 <= i < p ==> r[i] == s[i])
    && (forall i :: p <= i < |r| ==> r[i] == s[i + 1])
  }

  lemma DroppedConcat<T>(s: seq<T>, p: nat)
    requires p < |s|
    ensures Dropped(s, p, s[..p] + s[p + 1..])
  {
  }

  /** `r` is `s` with the elements at positions `p` and `p + 1` replaced by `x`. */
  ghost predicate Joined<T>(s: seq<T>, p: nat, x: T, r: seq<T>)
  {
    && p + 1 < |s| && |r| == |s| - 1
    && (forall i :: 0 <= i < p ==> r[i] == s[i])
    && r[p] == x
    && (forall i :: p < i < |r| ==> r[i] == s[i + 1])
  }

  lemma JoinedConcat<T>(s: seq<T>, p: nat, x: T)
    requires p + 1 < |s|
    ensures Joined(s, p, x, s[..p] + [x] + s[p + 2..])
  {
  }

  /** `s` without the element at position `i`. */
  function Without<T>(s: seq<T>, i: nat): (r: seq<T>)
    requires i < |s|
  {
    s[..i] + s[i + 1..]
  }
}
