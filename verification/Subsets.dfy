/** Index subsets in lexicographic order (`subsets`, packages/cas/src/factor.ts). */
module Subsets {

  /** A subset of {0, …, n−1}, as an increasing list of indices. */
  ghost predicate IndexSubset(s: seq<int>, n: int) {
    && (forall i :: 0 <= i < |s| ==> 0 <= s[i] < n)
    && (forall i, j :: 0 <= i < j < |s| ==> s[i] < s[j])
  }

  /** a precedes b at their first difference. */
  ghost predicate LexLess(a: seq<int>, b: seq<int>) {
    |a| == |b| && exists j :: FirstDifference(a, b, j)
  }

  ghost predicate FirstDifference(a: seq<int>, b: seq<int>, j: int)
    requires |a| == |b|
  {
    0 <= j < |a| && a[..j] == b[..j] && a[j] < b[j]
  }

  lemma IncreasingGap(s: seq<int>, n: int, i: int, j: int)
    requires IndexSubset(s, n) && 0 <= i <= j < |s|
    ensures s[j] >= s[i] + (j - i)
    decreases j - i
  {
    if i < j {
      IncreasingGap(s, n, i, j - 1);
    }
  }

  /** Two different lists of one length are ordered. */
  lemma LexTotal(a: seq<int>, b: seq<int>)
    requires |a| == |b|
    ensures a == b || LexLess(a, b) || LexLess(b, a)
  {
    var j := 0;
    while j < |a| && a[j] == b[j]
      invariant 0 <= j <= |a| && a[..j] == b[..j]
    {
      assert a[..j + 1] == a[..j] + [a[j]] && b[..j + 1] == b[..j] + [b[j]];
      j := j + 1;
    }
    if j == |a| {
      assert a == a[..j] && b == b[..j];
    } else if a[j] < b[j] {
      assert FirstDifference(a, b, j);
    } else {
      assert FirstDifference(b, a, j);
    }
  }

  lemma LexIrreflexive(a: seq<int>)
    ensures !LexLess(a, a)
  {}

  lemma LexTrans(a: seq<int>, b: seq<int>, c: seq<int>)
    requires LexLess(a, b) && LexLess(b, c)
    ensures LexLess(a, c)
  {
    var i :| FirstDifference(a, b, i);
    var j :| FirstDifference(b, c, j);
    var k := if i < j then i else j;
    assert a[..k] == a[..i][..k] && b[..k] == b[..i][..k] && b[..k] == b[..j][..k] && c[..k] == c[..j][..k];
    if i < j { assert c[i] == c[..j][i] == b[..j][i]; }
    if j < i { assert a[j] == a[..i][j] == b[..i][j]; }
    assert FirstDifference(a, c, k);
  }

  /** The list a with position i raised by one and the rest filled consecutively. */
  ghost function Successor(a: seq<int>, i: int): seq<int>
    requires 0 <= i < |a|
  {
    a[..i] + seq(|a| - i, k => a[i] + 1 + k)
  }

  lemma SuccessorValid(a: seq<int>, n: int, i: int)
    requires IndexSubset(a, n) && 0 <= i < |a| && a[i] < n - |a| + i
    ensures IndexSubset(Successor(a, i), n) && LexLess(a, Successor(a, i))
  {
    var s := Successor(a, i);
    forall k | 0 <= k < i ensures s[k] == a[k] {}
    assert s[..i] == a[..i];
    assert FirstDifference(a, s, i);
  }

  /** Nothing lies strictly between a list and its successor. */
  lemma SuccessorNext(a: seq<int>, n: int, i: int, s: seq<int>)
    requires IndexSubset(a, n) && IndexSubset(s, n) && |s| == |a| && 0 <= i < |a|
    requires a[i] < n - |a| + i && forall k :: i < k < |a| ==> a[k] == n - |a| + k
    requires LexLess(a, s)
    ensures s == Successor(a, i) || LexLess(Successor(a, i), s)
  {
    var next := Successor(a, i);
    var j :| FirstDifference(a, s, j);
    IncreasingGap(s, n, j, |s| - 1);
    if j < i {
      assert next[..j] == a[..i][..j] == a[..j];
      assert FirstDifference(next, s, j);
    } else {
      LexTotal(next, s);
      forall k: int ensures !FirstDifference(s, next, k) {
        SuccessorMinimal(a, n, i, s, j, k);
      }
    }
  }

  lemma SuccessorMinimal(a: seq<int>, n: int, i: int, s: seq<int>, j: int, k: int)
    requires IndexSubset(s, n) && |s| == |a| && 0 <= i <= j < |a|
    requires j > i ==> a[j] == n - |a| + j
    requires FirstDifference(a, s, j)
    ensures !FirstDifference(s, Successor(a, i), k)
  {
    IncreasingGap(s, n, j, |s| - 1);
    assert forall x :: 0 <= x < j ==> s[x] == s[..j][x] == a[..j][x] == a[x];
    if i <= k < |s| {
      IncreasingGap(s, n, i, k);
    }
  }

  /** The last subset has no successor. */
  lemma LastSubset(a: seq<int>, n: int, s: seq<int>)
    requires IndexSubset(a, n) && IndexSubset(s, n) && |s| == |a|
    requires forall k :: 0 <= k < |a| ==> a[k] == n - |a| + k
    ensures !LexLess(a, s)
  {
    if LexLess(a, s) {
      var j :| FirstDifference(a, s, j);
      IncreasingGap(s, n, j, |s| - 1);
    }
  }

  /** Nothing precedes the first subset. */
  lemma FirstSubset(a: seq<int>, n: int, s: seq<int>)
    requires IndexSubset(s, n) && |s| == |a| && forall k :: 0 <= k < |a| ==> a[k] == k
    ensures !LexLess(s, a)
  {
    if LexLess(s, a) {
      var j :| FirstDifference(s, a, j);
      IncreasingGap(s, n, 0, j);
    }
  }

  /** One step of the generator, in place: the next subset in lexicographic order, or false after the last. */
  method Advance(index: array<int>, n: int) returns (more: bool)
    requires IndexSubset(index[..], n)
    modifies index
    ensures !more ==> index[..] == old(index[..]) && forall s :: IndexSubset(s, n) && |s| == index.Length ==> !LexLess(index[..], s)
    ensures more ==> IndexSubset(index[..], n) && LexLess(old(index[..]), index[..])
    ensures more ==> forall s :: IndexSubset(s, n) && |s| == index.Length && LexLess(old(index[..]), s)
                                 ==> s == index[..] || LexLess(index[..], s)
  {
    ghost var a := index[..];
    var size := index.Length;
    var i := size - 1;
    while i >= 0 && index[i] == n - size + i
      invariant -1 <= i < size && index[..] == a
      invariant forall k :: i < k < size ==> a[k] == n - size + k
    {
      i := i - 1;
    }
    if i < 0 {
      forall s | IndexSubset(s, n) && |s| == size ensures !LexLess(a, s) { LastSubset(a, n, s); }
      return false;
    }
    IncreasingGap(a, n, i, size - 1);
    index[i] := index[i] + 1;
    for j := i + 1 to size
      invariant forall k :: 0 <= k < i ==> index[k] == a[k]
      invariant forall k :: i <= k < j ==> index[k] == a[i] + 1 + (k - i)
    {
      index[j] := index[j - 1] + 1;
    }
    assert index[..] == Successor(a, i);
    SuccessorValid(a, n, i);
    forall s | IndexSubset(s, n) && |s| == size && LexLess(a, s)
      ensures s == index[..] || LexLess(index[..], s)
    {
      SuccessorNext(a, n, i, s);
    }
    return true;
  }

  // ---- the positions outside a subset ----

  /** The positions below n that are not in s, in increasing order. */
  function Left(n: nat, s: seq<int>): seq<int> {
    if n == 0 then [] else Left(n - 1, s) + (if n - 1 in s then [] else [n - 1])
  }

  lemma {:induction false} LeftExactly(n: nat, s: seq<int>)
    ensures IndexSubset(Left(n, s), n)
    ensures forall i: int :: i in Left(n, s) <==> 0 <= i < n && i !in s
  {
    if n > 0 { LeftExactly(n - 1, s); }
  }

  lemma {:induction false} LeftSame(n: nat, s: seq<int>, t: seq<int>)
    requires forall i :: 0 <= i < n ==> (i in s <==> i in t)
    ensures Left(n, s) == Left(n, t)
  {
    if n > 0 { LeftSame(n - 1, s, t); }
  }

  lemma TopIsLast(s: seq<int>, n: nat)
    requires n > 0 && IndexSubset(s, n) && n - 1 in s
    ensures s != [] && s[|s| - 1] == n - 1
  {
    var k :| 0 <= k < |s| && s[k] == n - 1;
    assert s[k] <= s[|s| - 1];
  }

  /** Dropping the last position of a subset that has it. */
  lemma WithoutTop(s: seq<int>, n: nat)
    requires n > 0 && IndexSubset(s, n)
    ensures n - 1 !in s ==> IndexSubset(s, n - 1)
    ensures n - 1 in s ==> s != [] && s == s[..|s| - 1] + [n - 1] && IndexSubset(s[..|s| - 1], n - 1)
                           && Left(n - 1, s) == Left(n - 1, s[..|s| - 1])
  {
    if n - 1 in s {
      TopIsLast(s, n);
      var t := s[..|s| - 1];
      assert s == t + [n - 1];
      forall i | 0 <= i < n - 1 ensures i in s <==> i in t {}
      hide IndexSubset;
      LeftSame(n - 1, s, t);
    }
  }

  lemma AtMostAll(s: seq<int>, n: nat)
    requires IndexSubset(s, n)
    ensures |s| <= n
  {
    if |s| > 0 { IncreasingGap(s, n, 0, |s| - 1); }
  }

  lemma {:induction false} LeftCount(n: nat, s: seq<int>)
    requires IndexSubset(s, n)
    ensures |Left(n, s)| + |s| == n
  {
    if n == 0 {
      AtMostAll(s, n);
    } else {
      WithoutTop(s, n);
      LeftCount(n - 1, if n - 1 in s then s[..|s| - 1] else s);
    }
  }
}
