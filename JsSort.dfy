/** `Array.prototype.sort()` with no comparator, on arrays of strings: the
    elements end up in ascending order of their character codes. */
module JsSort {

  /** `a <= b` as JavaScript compares strings: character by character, and a
      proper prefix comes first. */
  predicate LexLe(a: string, b: string) {
    a == [] || (b != [] && (a[0] < b[0] || (a[0] == b[0] && LexLe(a[1..], b[1..]))))
  }

  lemma {:induction false} LexLeReflexive(a: string)
    ensures LexLe(a, a)
  {
    if a != [] {
      LexLeReflexive(a[1..]);
    }
  }

  lemma {:induction false} LexLeTotal(a: string, b: string)
    ensures LexLe(a, b) || LexLe(b, a)
  {
    if a != [] && b != [] && a[0] == b[0] {
      LexLeTotal(a[1..], b[1..]);
    }
  }

  lemma {:induction false} LexLeAntisymmetric(a: string, b: string)
    requires LexLe(a, b) && LexLe(b, a)
    ensures a == b
  {
    if a != [] && b != [] {
      LexLeAntisymmetric(a[1..], b[1..]);
      assert a == [a[0]] + a[1..] && b == [b[0]] + b[1..];
    }
  }

  lemma {:induction false} LexLeTransitive(a: string, b: string, c: string)
    requires LexLe(a, b) && LexLe(b, c)
    ensures LexLe(a, c)
  {
    if a != [] && a[0] == b[0] && b[0] == c[0] {
      LexLeTransitive(a[1..], b[1..], c[1..]);
    }
  }

  /** Neighbours are in order. */
  predicate Sorted(s: seq<string>) {
    forall k :: 0 < k < |s| ==> LexLe(s[k - 1], s[k])
  }

  /** Every pair is in order. */
  ghost predicate SortedPairwise(s: seq<string>) {
    forall i, j :: 0 <= i < j < |s| ==> LexLe(s[i], s[j])
  }

  lemma {:induction false} SortedIsPairwise(s: seq<string>)
    requires Sorted(s)
    ensures SortedPairwise(s)
  {
    if |s| > 1 {
      SortedIsPairwise(s[1..]);
      forall j | 1 <= j < |s| ensures LexLe(s[0], s[j]) {
        if j > 1 {
          assert LexLe(s[1..][0], s[1..][j - 1]);
          LexLeTransitive(s[0], s[1], s[j]);
        }
      }
      forall i, j | 0 <= i < j < |s| ensures LexLe(s[i], s[j]) {
        if i > 0 {
          assert LexLe(s[1..][i - 1], s[1..][j - 1]);
        }
      }
    }
  }

  /** The first element of a sorted sequence is its least. */
  lemma SortedHeadIsLeast(s: seq<string>, x: string)
    requires Sorted(s) && x in multiset(s)
    ensures LexLe(s[0], x)
  {
    SortedIsPairwise(s);
    var i :| 0 <= i < |s| && s[i] == x;
    if i == 0 { LexLeReflexive(x); }
  }

  /** Two sorted arrangements of the same multiset start alike. */
  lemma SameLeast(a: seq<string>, b: seq<string>)
    requires Sorted(a) && Sorted(b)
    requires multiset(a) == multiset(b)
    requires a != []
    ensures b != [] && a[0] == b[0]
  {
    assert a[0] in multiset(a);
    assert b[0] in multiset(b);
    SortedHeadIsLeast(a, b[0]);
    SortedHeadIsLeast(b, a[0]);
    LexLeAntisymmetric(a[0], b[0]);
  }

  /** There is only one sorted arrangement of a multiset of strings, so the
      result of sorting does not depend on the order of the input. */
  lemma {:induction false} SortedUnique(a: seq<string>, b: seq<string>)
    requires Sorted(a) && Sorted(b)
    requires multiset(a) == multiset(b)
    ensures a == b
  {
    if a != [] {
      SameLeast(a, b);
      TailMultiset(a);
      TailMultiset(b);
      SortedTail(a);
      SortedTail(b);
      SortedUnique(a[1..], b[1..]);
      assert a == [a[0]] + a[1..] && b == [b[0]] + b[1..];
    }
  }

  /** Dropping the head removes one copy of it. */
  lemma TailMultiset(s: seq<string>)
    requires s != []
    ensures multiset(s[1..]) == multiset(s) - multiset{s[0]}
  {
    assert s == [s[0]] + s[1..];
  }

  lemma SortedTail(s: seq<string>)
    requires Sorted(s) && s != []
    ensures Sorted(s[1..])
  {
    forall k | 0 < k < |s| - 1
      ensures LexLe(s[1..][k - 1], s[1..][k])
    {
      assert s[1..][k - 1] == s[k] && s[1..][k] == s[k + 1];
    }
  }

  /** Insert `x` into the sorted `s`. */
  function Insert(x: string, s: seq<string>): (r: seq<string>)
    requires Sorted(s)
    ensures Sorted(r)
    ensures multiset(r) == multiset(s) + multiset{x}
    ensures r[0] == x || (s != [] && r[0] == s[0])
  {
    if s == [] then [x]
    else if LexLe(x, s[0]) then [x] + s
    else
      LexLeTotal(x, s[0]);
      var t := Insert(x, s[1..]);
      assert s == [s[0]] + s[1..];
      [s[0]] + t
  }

  /** The sorted arrangement of `s`: the value `s.sort()` leaves behind. */
  function Sort(s: seq<string>): (r: seq<string>)
    ensures Sorted(r)
    ensures multiset(r) == multiset(s)
  {
    if s == [] then []
    else
      assert s == [s[0]] + s[1..];
      Insert(s[0], Sort(s[1..]))
  }

  /** Sorting is determined by the multiset of its input. */
  lemma SortDependsOnlyOnContents(a: seq<string>, b: seq<string>)
    requires multiset(a) == multiset(b)
    ensures Sort(a) == Sort(b)
  {
    SortedUnique(Sort(a), Sort(b));
  }

  /** Two strings sort to the smaller one followed by the larger one. */
  lemma SortPair(a: string, b: string)
    ensures Sort([a, b]) == if LexLe(a, b) then [a, b] else [b, a]
  {
    var ordered := if LexLe(a, b) then [a, b] else [b, a];
    OrderedPair(a, b);
    SortedUnique(Sort([a, b]), ordered);
  }

  /** The two strings, smaller first, are a sorted arrangement of them. */
  lemma OrderedPair(a: string, b: string)
    ensures var p := if LexLe(a, b) then [a, b] else [b, a];
      Sorted(p) && multiset(p) == multiset([a, b])
  {
    LexLeTotal(a, b);
  }

  /** Exchange two neighbouring elements. */
  method SwapDown(a: array<string>, j: int)
    requires 0 < j < a.Length
    modifies a
    ensures a[..] == old(a[..])[j - 1 := old(a[j])][j := old(a[j - 1])]
    ensures multiset(a[..]) == multiset(old(a[..]))
  {
    a[j - 1], a[j] := a[j], a[j - 1];
  }

  /** The step of insertion: swapping an out-of-order neighbour down keeps
      the two sorted runs on either side of the moving element. */
  lemma SwapStep(before: seq<string>, after: seq<string>, i: int, j: int)
    requires 0 < j <= i < |before|
    requires after == before[j - 1 := before[j]][j := before[j - 1]]
    requires Sorted(before[..j]) && Sorted(before[j..i + 1])
    requires 0 < j < i ==> LexLe(before[j - 1], before[j + 1])
    requires LexLe(before[j], before[j - 1])
    ensures Sorted(after[..j - 1]) && Sorted(after[j - 1..i + 1])
    ensures 0 < j - 1 < i ==> LexLe(after[j - 2], after[j])
  {
    assert after[..j - 1] == before[..j][..j - 1];
    forall m | j <= m <= i
      ensures LexLe(after[m - 1], after[m])
    {
      if m >= j + 2 {
        assert LexLe(before[j..i + 1][m - j - 1], before[j..i + 1][m - j]);
      }
    }
    var run := after[j - 1..i + 1];
    forall k | 0 < k < |run|
      ensures LexLe(run[k - 1], run[k])
    {
      assert run[k] == after[j - 1 + k];
    }
    if 0 < j - 1 {
      assert LexLe(before[..j][j - 2], before[..j][j - 1]);
    }
  }

  /** One pass of insertion: move `a[i]` down into the sorted `a[..i]`. */
  method InsertDown(a: array<string>, i: int)
    requires 0 <= i < a.Length
    requires Sorted(a[..i])
    modifies a
    ensures Sorted(a[..i + 1])
    ensures multiset(a[..]) == multiset(old(a[..]))
  {
    var j := i;
    while j > 0 && !LexLe(a[j - 1], a[j])
      invariant 0 <= j <= i
      invariant Sorted(a[..j]) && Sorted(a[j..i + 1])
      invariant 0 < j < i ==> LexLe(a[j - 1], a[j + 1])
      invariant multiset(a[..]) == multiset(old(a[..]))
    {
      LexLeTotal(a[j - 1], a[j]);
      ghost var before := a[..];
      SwapDown(a, j);
      SwapStep(before, a[..], i, j);
      j := j - 1;
    }
    ghost var s := a[..i + 1];
    assert s[..j] == a[..j] && s[j..] == a[j..i + 1];
    SortedJoin(s, j);
  }

  /** Two sorted runs that meet in order make one sorted run. */
  lemma SortedJoin(s: seq<string>, j: int)
    requires 0 <= j <= |s|
    requires Sorted(s[..j]) && Sorted(s[j..])
    requires 0 < j < |s| ==> LexLe(s[j - 1], s[j])
    ensures Sorted(s)
  {
    forall k | 0 < k < |s|
      ensures LexLe(s[k - 1], s[k])
    {
      if k < j {
        assert s[..j][k - 1] == s[k - 1] && s[..j][k] == s[k];
      } else if k > j {
        assert s[j..][k - 1 - j] == s[k - 1] && s[j..][k - j] == s[k];
      }
    }
  }

  /** `a.sort()` on an array: sorts it in place. */
  method SortArray(a: array<string>)
    modifies a
    ensures a[..] == Sort(old(a[..]))
  {
    var i := 0;
    while i < a.Length
      invariant 0 <= i <= a.Length
      invariant Sorted(a[..i])
      invariant multiset(a[..]) == multiset(old(a[..]))
    {
      InsertDown(a, i);
      i := i + 1;
    }
    assert a[..] == a[..a.Length];
    SortedUnique(a[..], Sort(old(a[..])));
  }
}
