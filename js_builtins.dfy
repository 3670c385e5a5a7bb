/**
 * The JavaScript string and array built-ins the soft-redirect module relies on,
 * over `seq<char>` (`string`) and `seq`.
 */
module JsBuiltins {

  predicate IsPrefix(p: string, s: string) {
    |p| <= |s| && s[..|p|] == p
  }

  predicate IsSuffix(p: string, s: string) {
    |p| <= |s| && s[|s| - |p|..] == p
  }

  /** `s.indexOf(c)`, except that "not found" is `|s|` rather than -1. */
  function IndexOf(s: string, c: char): (i: nat)
    ensures i <= |s|
    ensures i < |s| ==> s[i] == c
    ensures forall j :: 0 <= j < i ==> s[j] != c
  {
    if s == [] then 0
    else if s[0] == c then 0
    else 1 + IndexOf(s[1..], c)
  }

  /** The contract of `IndexOf` determines it. */
  lemma IndexOfIs(s: string, c: char, i: nat)
    requires i <= |s| && (i < |s| ==> s[i] == c)
    requires forall j :: 0 <= j < i ==> s[j] != c
    ensures IndexOf(s, c) == i
  {
  }

  /** `s.lastIndexOf(c)`: -1 when `c` does not occur. */
  function LastIndexOf(s: string, c: char): (k: int)
    ensures -1 <= k < |s|
    ensures 0 <= k ==> s[k] == c
    ensures forall j :: k < j < |s| ==> s[j] != c
  {
    if s == [] then -1
    else if s[|s| - 1] == c then |s| - 1
    else LastIndexOf(s[..|s| - 1], c)
  }

  /** Number of occurrences of `c` in `s`. */
  function Count(s: string, c: char): (n: nat)
    ensures n <= |s|
    ensures n == 0 <==> c !in s
  {
    if s == [] then 0
    else Count(s[1..], c) + (if s[0] == c then 1 else 0)
  }

  lemma {:induction false} CountAppend(a: string, b: string, c: char)
    ensures Count(a + b, c) == Count(a, c) + Count(b, c)
  {
    if a == [] {
      assert a + b == b;
    } else {
      assert (a + b)[1..] == a[1..] + b;
      CountAppend(a[1..], b, c);
    }
  }

  /** `s.split(c)` for a one-character separator (every occurrence splits). */
  function Split(s: string, c: char): (parts: seq<string>)
    ensures |parts| >= 1
    ensures forall k :: 0 <= k < |parts| ==> c !in parts[k]
    decreases |s|
  {
    var i := IndexOf(s, c);
    if i == |s| then [s] else [s[..i]] + Split(s[i + 1..], c)
  }

  /** The parts of `s.split(c)` are exactly one more than the separators. */
  lemma {:induction false} SplitLength(s: string, c: char)
    ensures |Split(s, c)| == Count(s, c) + 1
    decreases |s|
  {
    var i := IndexOf(s, c);
    if i < |s| {
      assert s == s[..i] + ([s[i]] + s[i + 1..]);
      CountAppend(s[..i], [s[i]] + s[i + 1..], c);
      CountAppend([s[i]], s[i + 1..], c);
      SplitLength(s[i + 1..], c);
    }
  }

  /** Joining the parts of `s.split(c)` with `c` gives `s` back. */
  function Join(parts: seq<string>, c: char): (s: string)
    requires |parts| >= 1
  {
    if |parts| == 1 then parts[0] else Join(parts[..|parts| - 1], c) + [c] + parts[|parts| - 1]
  }

  /** Gluing a character onto the front of the first part glues it onto the front of the join. */
  lemma JoinFront(x: char, parts: seq<string>, c: char)
    requires |parts| >= 1
    ensures Join([[x] + parts[0]] + parts[1..], c) == [x] + Join(parts, c)
  {
    if |parts| > 1 {
      JoinCons([x] + parts[0], parts[1..], c);
      JoinCons(parts[0], parts[1..], c);
      assert parts == [parts[0]] + parts[1..];
    }
  }

  lemma {:induction false} JoinCons(head: string, tail: seq<string>, c: char)
    requires |tail| >= 1
    ensures Join([head] + tail, c) == head + [c] + Join(tail, c)
    decreases |tail|
  {
    if |tail| > 1 {
      assert ([head] + tail)[..|tail|] == [head] + tail[..|tail| - 1];
      JoinCons(head, tail[..|tail| - 1], c);
    }
  }

  lemma {:induction false} SplitJoin(s: string, c: char)
    ensures Join(Split(s, c), c) == s
    decreases |s|
  {
    var i := IndexOf(s, c);
    if i < |s| {
      var rest := Split(s[i + 1..], c);
      assert Split(s, c) == [s[..i]] + rest;
      SplitJoin(s[i + 1..], c);
      JoinCons(s[..i], rest, c);
      JoinAt(s, i);
    }
  }

  lemma JoinAt(s: string, i: nat)
    requires i < |s|
    ensures s[..i] + [s[i]] + s[i + 1..] == s
  {
  }

  /** A string without the separator is its own single part. */
  lemma SplitNone(s: string, c: char)
    requires c !in s
    ensures Split(s, c) == [s]
  {
  }

  /** Cutting `s` before position `m` does not move a first occurrence that lies before `m`. */
  lemma IndexOfBefore(s: string, c: char, m: nat)
    requires m <= |s| && IndexOf(s, c) <= m
    ensures IndexOf(s[..m], c) == IndexOf(s, c)
  {
    var i := IndexOf(s, c);
    var t := s[..m];
    forall j | 0 <= j < i ensures t[j] != c {
      assert t[j] == s[j];
    }
    if i < m {
      assert t[i] == s[i];
    }
    IndexOfIs(t, c, i);
  }

  /** Splitting at the first separator. */
  lemma SplitAtFirst(s: string, c: char, m: nat)
    requires m < |s| && IndexOf(s, c) == m
    ensures Split(s, c) == Split(s[..m], c) + Split(s[m + 1..], c)
  {
    IndexOfBefore(s, c, m);
    assert Split(s[..m], c) == [s[..m]];
  }

  /** The first part of a split runs up to the first separator. */
  lemma SplitUnfold(s: string, c: char, i: nat)
    requires i == IndexOf(s, c) && i < |s|
    ensures Split(s, c) == [s[..i]] + Split(s[i + 1..], c)
  {
  }

  /** Splitting at a later separator, given the split of what follows the first one. */
  lemma SplitAtLater(s: string, c: char, m: nat, i: nat)
    requires m < |s| && i == IndexOf(s, c) && i < m
    requires Split(s[i + 1..], c) == Split(s[i + 1..][..m - i - 1], c) + Split(s[i + 1..][m - i..], c)
    ensures Split(s, c) == Split(s[..m], c) + Split(s[m + 1..], c)
  {
    IndexOfBefore(s, c, m);
    var t := s[..m];
    assert s[i + 1..][..m - i - 1] == t[i + 1..];
    assert s[i + 1..][m - i..] == s[m + 1..];
    assert t[..i] == s[..i];
    SplitUnfold(s, c, i);
    SplitUnfold(t, c, i);
    AppendAssoc([s[..i]], Split(t[i + 1..], c), Split(s[m + 1..], c));
  }

  lemma AppendAssoc<T>(a: seq<T>, b: seq<T>, c: seq<T>)
    ensures a + (b + c) == a + b + c
  {
  }

  /** Splitting at any separator: the parts before it, then the parts after it. */
  lemma {:induction false} SplitAt(s: string, c: char, m: nat)
    requires m < |s| && s[m] == c
    ensures Split(s, c) == Split(s[..m], c) + Split(s[m + 1..], c)
    decreases |s|
  {
    var i := IndexOf(s, c);
    if i == m {
      SplitAtFirst(s, c, m);
    } else {
      SplitAt(s[i + 1..], c, m - i - 1);
      SplitAtLater(s, c, m, i);
    }
  }

  /** Splitting at the last separator: `s.split(c)` is the split of what precedes it, plus what follows it. */
  lemma SplitSnoc(s: string, c: char, m: nat)
    requires m < |s| && s[m] == c && c !in s[m + 1..]
    ensures Split(s, c) == Split(s[..m], c) + [s[m + 1..]]
  {
    SplitAt(s, c, m);
    SplitNone(s[m + 1..], c);
  }

  /** Position of the first occurrence of `p` in `s`, as `s.indexOf(p)` (-1 when absent). */
  predicate OccursAt(s: string, p: string, j: int) {
    0 <= j && j + |p| <= |s| && s[j..j + |p|] == p
  }

  function IndexOfString(s: string, p: string): (i: int)
    ensures -1 <= i
    ensures 0 <= i ==> OccursAt(s, p, i)
    ensures forall j :: 0 <= j && (i < 0 || j < i) ==> !OccursAt(s, p, j)
    decreases |s|
  {
    if IsPrefix(p, s) then 0
    else if s == [] then -1
    else
      var k := IndexOfString(s[1..], p);
      assert forall j :: 1 <= j && OccursAt(s, p, j) ==> OccursAt(s[1..], p, j - 1) by {
        forall j | 1 <= j && OccursAt(s, p, j) ensures OccursAt(s[1..], p, j - 1) {
          assert s[1..][j - 1..j - 1 + |p|] == s[j..j + |p|];
        }
      }
      if k < 0 then -1 else k + 1
  }

  /** `s.replace(p, r)` for a string pattern: only the first occurrence is replaced. */
  function ReplaceFirst(s: string, p: string, r: string): (t: string)
    ensures (forall j :: 0 <= j <= |s| ==> !OccursAt(s, p, j)) ==> t == s
    ensures forall j :: 0 <= j <= |s| && OccursAt(s, p, j) ==> |t| == |s| - |p| + |r|
    ensures forall j :: 0 <= j <= |s| && OccursAt(s, p, j) ==> IsPrefix(s[..IndexOfString(s, p)] + r, t)
    ensures 0 <= IndexOfString(s, p) ==> IsSuffix(s[IndexOfString(s, p) + |p|..], t)
  {
    var i := IndexOfString(s, p);
    if i < 0 then s else s[..i] + r + s[i + |p|..]
  }

  /** When the pattern is a prefix of `s`, its first occurrence is at 0 and the replacement swaps that prefix. */
  lemma ReplacePrefix(s: string, p: string, r: string)
    requires IsPrefix(p, s)
    ensures ReplaceFirst(s, p, r) == r + s[|p|..]
  {
  }

  /** `a.reverse()`. */
  function Reverse<T>(a: seq<T>): (r: seq<T>)
    ensures |r| == |a|
    ensures forall i :: 0 <= i < |a| ==> r[i] == a[|a| - 1 - i]
  {
    if a == [] then [] else [a[|a| - 1]] + Reverse(a[..|a| - 1])
  }
}
