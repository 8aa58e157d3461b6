/**
 * The three Python string operations the core is built from, on strings as
 * sequences of characters: `str.find` (used by the other two), `str.split`
 * with an explicit separator and `str.partition`.
 */
module Strings {
  import opened Wrappers

  /** `sep` occurs in `s` starting at position `i`. */
  predicate OccursAt(s: string, sep: string, i: nat)
  {
    i + |sep| <= |s| && s[i..i + |sep|] == sep
  }

  /** `sep` occurs somewhere in `s`. */
  predicate Contains(s: string, sep: string)
  {
    exists i: nat :: i <= |s| && OccursAt(s, sep, i)
  }

  /** The first position, not before `from`, at which `sep` occurs in `s`. */
  function FindFrom(s: string, sep: string, from: nat): (r: Option<nat>)
    requires from <= |s|
    decreases |s| - from
    ensures r.Some? ==> from <= r.value && OccursAt(s, sep, r.value)
    ensures r.Some? ==> forall j: nat :: from <= j < r.value ==> !OccursAt(s, sep, j)
    ensures r.None? ==> forall j: nat :: from <= j ==> !OccursAt(s, sep, j)
  {
    if OccursAt(s, sep, from) then Some(from)
    else if from == |s| then None
    else FindFrom(s, sep, from + 1)
  }

  /** Python's `s.find(sep)`: the first occurrence of `sep`, if any. */
  function Find(s: string, sep: string): (r: Option<nat>)
    ensures r.Some? <==> Contains(s, sep)
    ensures r.Some? ==> OccursAt(s, sep, r.value)
    ensures r.Some? ==> forall j: nat :: j < r.value ==> !OccursAt(s, sep, j)
  {
    FindFrom(s, sep, 0)
  }

  /** A string in which `[c]` does not occur has no character `c`. */
  lemma NotContainsChar(s: string, c: char)
    requires !Contains(s, [c])
    ensures c !in s
  {
    forall j | 0 <= j < |s| ensures s[j] != c {
      assert !OccursAt(s, [c], j);
      assert s[j..j + 1] == [s[j]];
    }
  }

  /** `sep.join(pieces)`. */
  function Join(pieces: seq<string>, sep: string): string
  {
    if |pieces| == 0 then ""
    else if |pieces| == 1 then pieces[0]
    else pieces[0] + sep + Join(pieces[1..], sep)
  }

  /**
   * Python's `s.split(sep)` for a non-empty separator: the pieces between
   * the occurrences of `sep`, found left to right; there is always at least
   * one.
   */
  function Split(s: string, sep: string): (r: seq<string>)
    requires |sep| > 0
    decreases |s|
    ensures |r| >= 1
  {
    match Find(s, sep)
    case None => [s]
    case Some(i) => [s[..i]] + Split(s[i + |sep|..], sep)
  }

  /** Joining the pieces of `s.split(sep)` with the separator gives back `s`. */
  lemma {:induction false} SplitJoin(s: string, sep: string)
    requires |sep| > 0
    decreases |s|
    ensures Join(Split(s, sep), sep) == s
  {
    match Find(s, sep)
    case None =>
    case Some(i) =>
      var rest := s[i + |sep|..];
      SplitCut(s, sep, i);
      SplitJoin(rest, sep);
      JoinCons(s[..i], Split(rest, sep), sep);
  }

  /** Where `sep` first occurs, `s` is cut into the text before it and the rest. */
  lemma SplitCut(s: string, sep: string, i: nat)
    requires |sep| > 0
    requires Find(s, sep) == Some(i)
    ensures Split(s, sep) == [s[..i]] + Split(s[i + |sep|..], sep)
    ensures s == s[..i] + sep + s[i + |sep|..]
  {
    assert s[i..i + |sep|] == sep;
    Rejoin(s, i, i + |sep|);
  }

  /** A string is the concatenation of its three slices at `i` and `j`. */
  lemma Rejoin(s: string, i: nat, j: nat)
    requires i <= j <= |s|
    ensures s == s[..i] + s[i..j] + s[j..]
  {
  }

  /**
   * Splitting at an occurrence of `sep` that no earlier character could
   * start: the text before it, then the pieces of the rest.
   */
  lemma SplitAt(s: string, sep: string, i: nat)
    requires |sep| > 0
    requires OccursAt(s, sep, i) && sep[0] !in s[..i]
    ensures Split(s, sep) == [s[..i]] + Split(s[i + |sep|..], sep)
  {
    assert Contains(s, sep);
    var v := Find(s, sep).value;
    assert s[v..v + |sep|][0] == s[v];
    SplitCut(s, sep, v);
  }

  /** A string without the first character of `sep` is a single piece. */
  lemma SplitWhole(s: string, sep: string)
    requires |sep| > 0 && sep[0] !in s
    ensures Split(s, sep) == [s]
  {
    if Contains(s, sep) {
      var j: nat :| j <= |s| && OccursAt(s, sep, j);
    }
  }

  /** A text that cannot start `sep`, then `sep`: split there, and the rest is split on. */
  lemma SplitConcat(a: string, sep: string, b: string)
    requires |sep| > 0 && sep[0] !in a
    ensures Split(a + sep + b, sep) == [a] + Split(b, sep)
  {
    var s := a + sep + b;
    assert s[..|a|] == a;
    assert s[|a|..|a| + |sep|] == sep;
    assert s[|a| + |sep|..] == b;
    SplitAt(s, sep, |a|);
  }

  /** A text that cannot start `sep`, then `sep`: the partition is cut there. */
  lemma PartitionConcat(a: string, sep: string, b: string)
    requires |sep| > 0 && sep[0] !in a
    ensures Partition(a + sep + b, sep) == (a, sep, b)
  {
    var s := a + sep + b;
    assert s[..|a|] == a;
    assert s[|a|..|a| + |sep|] == sep;
    assert s[|a| + |sep|..] == b;
    assert OccursAt(s, sep, |a|);
    var r := Partition(s, sep);
    assert s[|r.0|..|r.0| + |sep|][0] == s[|r.0|];
    assert r.0 == s[..|r.0|];
    assert r.2 == s[|r.0| + |sep|..];
  }

  /** Joining a piece in front of at least one more adds the piece and a separator. */
  lemma JoinCons(head: string, tail: seq<string>, sep: string)
    requires |tail| >= 1
    ensures Join([head] + tail, sep) == head + sep + Join(tail, sep)
  {
    assert ([head] + tail)[1..] == tail;
  }

  /**
   * No piece of `s.split(sep)` contains the separator, and `s` is cut at
   * all exactly when it contains the separator.
   */
  lemma {:induction false} SplitPiecesFree(s: string, sep: string)
    requires |sep| > 0
    decreases |s|
    ensures forall k :: 0 <= k < |Split(s, sep)| ==> !Contains(Split(s, sep)[k], sep)
    ensures !Contains(s, sep) <==> Split(s, sep) == [s]
  {
    match Find(s, sep)
    case None =>
    case Some(i) =>
      var rest := s[i + |sep|..];
      HeadIsFree(s, sep, i);
      SplitPiecesFree(rest, sep);
      var r := Split(s, sep);
      assert r == [s[..i]] + Split(rest, sep);
      assert forall k :: 1 <= k < |r| ==> r[k] == Split(rest, sep)[k - 1];
      assert |r[0]| == i < |s|;
  }

  /** The text before the first occurrence of `sep` contains no `sep`. */
  lemma HeadIsFree(s: string, sep: string, i: nat)
    requires |sep| > 0
    requires OccursAt(s, sep, i)
    requires forall j: nat :: j < i ==> !OccursAt(s, sep, j)
    ensures !Contains(s[..i], sep)
  {
    if Contains(s[..i], sep) {
      var j: nat :| j <= i && OccursAt(s[..i], sep, j);
      assert j + |sep| <= i;
      assert s[..i][j..j + |sep|] == s[j..j + |sep|];
      assert OccursAt(s, sep, j);
      assert false;
    }
  }

  /** The first piece of `s.split(sep)` is `s` up to the first `sep`, or all of `s`. */
  lemma SplitHead(s: string, sep: string)
    requires |sep| > 0
    ensures var h := Split(s, sep)[0];
      && h <= s
      && !Contains(h, sep)
      && (|h| < |s| ==> OccursAt(s, sep, |h|))
  {
    match Find(s, sep)
    case None =>
    case Some(i) =>
      HeadIsFree(s, sep, i);
      assert Split(s, sep)[0] == s[..i];
  }

  /**
   * Python's `s.partition(sep)`: the text before the first `sep`, the
   * separator itself and the text after it; when `sep` does not occur, the
   * whole of `s` and two empty strings.
   */
  function Partition(s: string, sep: string): (r: (string, string, string))
    ensures !Contains(s, sep) ==> r == (s, "", "")
    ensures Contains(s, sep) ==> r.1 == sep && r.0 + sep + r.2 == s
    ensures Contains(s, sep) ==>
      OccursAt(s, sep, |r.0|) && forall j: nat :: j < |r.0| ==> !OccursAt(s, sep, j)
  {
    match Find(s, sep)
    case None => (s, "", "")
    case Some(i) =>
      assert s == s[..i] + s[i..i + |sep|] + s[i + |sep|..];
      (s[..i], sep, s[i + |sep|..])
  }
}
