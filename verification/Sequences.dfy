/** What the modules share: optional values, and the sequences of addresses that linked lists follow. */
module Sequences {
  datatype Option<+T> = None | Some(value: T)

  function GetOr<T>(o: Option<T>, default: T): T {
    if o.Some? then o.value else default
  }

  /** The null pointer. */
  const NULL: nat := 0

  ghost predicate Distinct<T>(s: seq<T>) {
    forall i, j :: 0 <= i < j < |s| ==> s[i] != s[j]
  }

  /** The address at a position, or null outside the sequence. */
  function At(s: seq<nat>, i: int): nat {
    if 0 <= i < |s| then s[i] else NULL
  }

  /** The sequence without position k. */
  function Cut<T>(s: seq<T>, k: nat): (t: seq<T>)
    requires k < |s|
    ensures |t| == |s| - 1
  {
    s[..k] + s[k + 1..]
  }

  /** The neighbours of an address in the sequence without position k. */
  lemma CutParts(s: seq<nat>, k: nat, i: nat)
    requires Distinct(s) && NULL !in s && k < |s| && i < |s| - 1
    ensures var t, j := Cut(s, k), if i < k then i else i + 1;
      && t[i] == s[j] && s[j] != s[k]
      && At(t, i + 1) == (if j == k - 1 then At(s, k + 1) else At(s, j + 1))
      && At(t, i - 1) == (if j == k + 1 then At(s, k - 1) else At(s, j - 1))
      && (j == k - 1 <==> s[j] == At(s, k - 1)) && (j == k + 1 <==> s[j] == At(s, k + 1))
  {
  }

  lemma CutShape(s: seq<nat>, k: nat)
    requires Distinct(s) && NULL !in s && k < |s|
    ensures Distinct(Cut(s, k)) && NULL !in Cut(s, k)
    ensures At(Cut(s, k), 0) == if k > 0 then At(s, 0) else At(s, 1)
    ensures forall a :: a in Cut(s, k) <==> a in s && a != s[k]
  {
  }

  /** The neighbours of an address in the sequence with another one in front. */
  lemma PushParts(s: seq<nat>, a: nat, i: nat)
    requires Distinct(s) && NULL !in s && 0 < i <= |s|
    ensures var t := [a] + s;
      && t[i] == s[i - 1] && At(t, i + 1) == At(s, i) && At(t, i - 1) == (if i == 1 then a else At(s, i - 2))
      && (s[i - 1] == At(s, 0) <==> i == 1)
  {
  }

  lemma AtEnds(s: seq<nat>)
    ensures At(s, -1) == NULL && At(s, |s|) == NULL && At(s, 0) == if s == [] then NULL else s[0]
  {
  }

  lemma PushShape(s: seq<nat>, a: nat)
    requires Distinct(s) && NULL !in s && a !in s && a != NULL
    ensures Distinct([a] + s) && NULL !in [a] + s && At([a] + s, 0) == a && At([a] + s, 1) == At(s, 0)
    ensures forall i :: 0 <= i < |s| ==> s[i] != a
  {
  }
}
