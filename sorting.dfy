/**
 * Python's `sorted(lines, reverse=True)` on strings: the permutation of the
 * input in which no element is smaller than one after it. The model sorts by
 * insertion; `SortedPermutationUnique` shows that every correct sort gives the
 * same list, so the algorithm Python uses makes no difference.
 */
module Sorting {
  import opened PyStrings

  /** No element is smaller than an element after it. */
  ghost predicate NonIncreasing(s: seq<string>)
  {
    forall i, j :: 0 <= i < j < |s| ==> !Less(s[i], s[j])
  }

  /** The first element of a non-increasing list is at least every element. */
  lemma HeadIsGreatest(s: seq<string>, y: string)
    requires NonIncreasing(s) && y in s
    ensures !Less(s[0], y)
  {
    var k :| 0 <= k < |s| && s[k] == y;
    if k == 0 {
      LessIrreflexive(y);
    }
  }

  /** A list whose first element is at least all the others stays sorted when the rest does. */
  lemma ConsNonIncreasing(x: string, s: seq<string>)
    requires NonIncreasing(s)
    requires forall y :: y in multiset(s) ==> !Less(x, y)
    ensures NonIncreasing([x] + s)
  {
    var r := [x] + s;
    forall i, j | 0 <= i < j < |r| ensures !Less(r[i], r[j]) {
      if i == 0 {
        assert r[j] == s[j - 1] && r[j] in multiset(s);
      } else {
        assert r[i] == s[i - 1] && r[j] == s[j - 1];
      }
    }
  }

  /** Inserting `x` in front keeps the order when `x` is above the first element. */
  lemma InsertInFront(x: string, s: seq<string>)
    requires NonIncreasing(s) && s != [] && Less(s[0], x)
    ensures NonIncreasing([x] + s)
  {
    forall y | y in multiset(s) ensures !Less(x, y) {
      HeadIsGreatest(s, y);
      LessTotal(s[0], y);
      if s[0] != y {
        LessTransitive(y, s[0], x);
      }
      LessAsymmetric(y, x);
    }
    ConsNonIncreasing(x, s);
  }

  /** Keeping the first element in front keeps the order when it is not below `x`. */
  lemma KeepInFront(x: string, s: seq<string>, rest: seq<string>)
    requires NonIncreasing(s) && s != [] && !Less(s[0], x)
    requires NonIncreasing(rest) && multiset(rest) == multiset(s[1..]) + multiset{x}
    ensures NonIncreasing([s[0]] + rest)
  {
    assert s == [s[0]] + s[1..];
    forall y | y in multiset(rest) ensures !Less(s[0], y) {
      if y != x {
        assert y in multiset(s[1..]);
        HeadIsGreatest(s, y);
      }
    }
    ConsNonIncreasing(s[0], rest);
  }

  /** Insert `x` before the first element smaller than it. */
  function InsertDescending(x: string, s: seq<string>): (r: seq<string>)
    requires NonIncreasing(s)
    ensures multiset(r) == multiset(s) + multiset{x}
    ensures NonIncreasing(r)
    decreases |s|
  {
    if s == [] then [x]
    else if Less(s[0], x) then
      InsertInFront(x, s);
      [x] + s
    else
      var rest := InsertDescending(x, s[1..]);
      KeepInFront(x, s, rest);
      assert s == [s[0]] + s[1..];
      [s[0]] + rest
  }

  /** `sorted(s, reverse=True)`. */
  function SortDescending(s: seq<string>): (r: seq<string>)
    ensures multiset(r) == multiset(s)
    ensures NonIncreasing(r)
    decreases |s|
  {
    if s == [] then []
    else
      assert s == [s[0]] + s[1..];
      InsertDescending(s[0], SortDescending(s[1..]))
  }

  /** Two sorted permutations of the same strings are the same list. */
  lemma {:induction false} SortedPermutationUnique(a: seq<string>, b: seq<string>)
    requires NonIncreasing(a) && NonIncreasing(b)
    requires multiset(a) == multiset(b)
    ensures a == b
  {
    if |a| > 0 {
      SameHead(a, b);
      TailMultiset(a);
      TailMultiset(b);
      SortedPermutationUnique(a[1..], b[1..]);
      assert a == [a[0]] + a[1..] && b == [b[0]] + b[1..];
    } else {
      assert multiset(b) == multiset{};
    }
  }

  /** Two non-increasing orderings of the same elements start with the same one. */
  lemma SameHead(a: seq<string>, b: seq<string>)
    requires NonIncreasing(a) && NonIncreasing(b)
    requires multiset(a) == multiset(b) && |a| > 0
    ensures |b| > 0 && a[0] == b[0]
  {
    assert a[0] in multiset(b);
    assert b[0] in multiset(a);
    HeadIsGreatest(a, b[0]);
    HeadIsGreatest(b, a[0]);
    LessTotal(a[0], b[0]);
  }

  /** Dropping the head removes one copy of it. */
  lemma TailMultiset(a: seq<string>)
    requires |a| > 0
    ensures multiset(a[1..]) == multiset(a) - multiset{a[0]}
  {
    assert a == [a[0]] + a[1..];
  }
}
