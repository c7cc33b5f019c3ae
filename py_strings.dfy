/**
 * The parts of Python's `str` and `pathlib` that the query tool relies on:
 * string ordering, `split` (with its inverse `join`), prefix slicing,
 * `replace` with an empty replacement, and the final component of a path.
 * Strings are sequences of Unicode scalar values; Python's `str` can also
 * hold lone surrogates, which the model does not represent.
 */
module PyStrings {

  function Min(a: int, b: int): int { if a <= b then a else b }
  function Max(a: int, b: int): int { if a <= b then b else a }

  // ---------------------------------------------------------------------------
  // Ordering: Python's `a < b` on `str`
  // ---------------------------------------------------------------------------

  /** Lexicographic comparison of code points; a proper prefix sorts first. */
  predicate Less(a: string, b: string)
    decreases |a|
  {
    if |a| == 0 then |b| > 0
    else if |b| == 0 then false
    else if a[0] != b[0] then a[0] < b[0]
    else Less(a[1..], b[1..])
  }

  lemma {:induction false} LessIrreflexive(a: string)
    ensures !Less(a, a)
  {
    if |a| > 0 {
      LessIrreflexive(a[1..]);
    }
  }

  lemma {:induction false} LessAsymmetric(a: string, b: string)
    requires Less(a, b)
    ensures !Less(b, a)
  {
    if |a| > 0 && |b| > 0 && a[0] == b[0] {
      LessAsymmetric(a[1..], b[1..]);
    }
  }

  lemma {:induction false} LessTransitive(a: string, b: string, c: string)
    requires Less(a, b) && Less(b, c)
    ensures Less(a, c)
  {
    if |a| > 0 && a[0] == b[0] && b[0] == c[0] {
      LessTransitive(a[1..], b[1..], c[1..]);
    }
  }

  /** Any two strings are equal or ordered one way round. */
  lemma {:induction false} LessTotal(a: string, b: string)
    ensures a == b || Less(a, b) || Less(b, a)
  {
    if |a| > 0 && |b| > 0 && a[0] == b[0] {
      LessTotal(a[1..], b[1..]);
      if a[1..] == b[1..] {
        assert a == [a[0]] + a[1..] && b == [b[0]] + b[1..];
      }
    }
  }

  /**
   * Strings that are ordered on their first `w` characters are ordered the
   * same way: the comparison is decided inside that prefix.
   */
  lemma {:induction false} LessOnPrefix(a: string, b: string, w: nat)
    requires w <= |a| && w <= |b|
    requires Less(a[..w], b[..w])
    ensures Less(a, b)
  {
    assert w > 0;
    if a[0] == b[0] {
      assert a[..w][1..] == a[1..][..w - 1];
      assert b[..w][1..] == b[1..][..w - 1];
      LessOnPrefix(a[1..], b[1..], w - 1);
    }
  }

  // ---------------------------------------------------------------------------
  // `s.split(sep)` and `sep.join(parts)` for a one-character separator
  // ---------------------------------------------------------------------------

  /** Python's `s.split(sep)`: always at least one part. */
  function Split(s: string, sep: char): (parts: seq<string>)
    ensures |parts| >= 1
    decreases |s|
  {
    if |s| == 0 then [""]
    else
      var rest := Split(s[1..], sep);
      if s[0] == sep then [""] + rest
      else [[s[0]] + rest[0]] + rest[1..]
  }

  /** No part of a split holds the separator. */
  lemma {:induction false} SplitPartsFree(s: string, sep: char)
    ensures forall k :: 0 <= k < |Split(s, sep)| ==> sep !in Split(s, sep)[k]
    decreases |s|
  {
    if |s| > 0 {
      SplitPartsFree(s[1..], sep);
      var rest := Split(s[1..], sep);
      if s[0] != sep {
        assert sep !in [s[0]] + rest[0];
        forall k | 1 <= k < |Split(s, sep)| ensures sep !in Split(s, sep)[k] {
          assert Split(s, sep)[k] == rest[k];
        }
      }
    }
  }

  /** Python's `sep.join(parts)`. */
  function Join(parts: seq<string>, sep: char): string
    decreases |parts|
  {
    if |parts| == 0 then ""
    else if |parts| == 1 then parts[0]
    else parts[0] + [sep] + Join(parts[1..], sep)
  }

  /** Joining the parts of a split gives back the string. */
  lemma {:induction false} JoinSplit(s: string, sep: char)
    ensures Join(Split(s, sep), sep) == s
  {
    if |s| > 0 {
      var rest := Split(s[1..], sep);
      JoinSplit(s[1..], sep);
      if s[0] == sep {
        assert Split(s, sep) == [""] + rest;
        assert ([""] + rest)[1..] == rest;
        assert s == [sep] + s[1..];
      } else if |rest| == 1 {
        assert s == [s[0]] + s[1..];
      } else {
        var parts := Split(s, sep);
        assert parts[1..] == rest[1..];
        assert Join(rest, sep) == rest[0] + [sep] + Join(rest[1..], sep);
        assert s == [s[0]] + s[1..];
      }
    }
  }

  /** A string without the separator splits into itself alone. */
  lemma {:induction false} SplitWithoutSeparator(s: string, sep: char)
    requires sep !in s
    ensures Split(s, sep) == [s]
  {
    if |s| > 0 {
      assert sep !in s[1..] by {
        forall k | 0 <= k < |s[1..]| ensures s[1..][k] != sep { assert s[1..][k] == s[k + 1]; }
      }
      SplitWithoutSeparator(s[1..], sep);
      assert s == [s[0]] + s[1..];
    }
  }

  /** Splitting a string that starts with the separator: one step of `Split`. */
  lemma SplitConsSeparator(t: string, sep: char)
    ensures Split([sep] + t, sep) == [""] + Split(t, sep)
  {
    assert ([sep] + t)[1..] == t;
  }

  /** Splitting a string that starts with another character: one step of `Split`. */
  lemma SplitConsOther(c: char, t: string, sep: char)
    requires c != sep
    ensures Split([c] + t, sep) == [[c] + Split(t, sep)[0]] + Split(t, sep)[1..]
  {
    assert ([c] + t)[1..] == t;
  }

  /** Putting a part in front commutes with appending more parts. */
  lemma PrependAppend(x: string, left: seq<string>, right: seq<string>)
    ensures [x] + (left + right) == ([x] + left) + right
  {
  }

  /** Gluing `c` onto the first part commutes with appending more parts. */
  lemma GlueFirstAppend(c: char, left: seq<string>, right: seq<string>)
    requires |left| >= 1
    ensures [[c] + (left + right)[0]] + (left + right)[1..] == ([[c] + left[0]] + left[1..]) + right
  {
    assert (left + right)[0] == left[0];
    assert (left + right)[1..] == left[1..] + right;
  }

  /** One step of `SplitAround`, putting the separator in front of the left side. */
  lemma SplitAroundStepSeparator(t: string, u: string, b: string, sep: char)
    requires Split(u, sep) == Split(t, sep) + Split(b, sep)
    ensures Split([sep] + u, sep) == Split([sep] + t, sep) + Split(b, sep)
  {
    SplitConsSeparator(t, sep);
    SplitConsSeparator(u, sep);
    PrependAppend("", Split(t, sep), Split(b, sep));
  }

  /** One step of `SplitAround`, putting another character in front of the left side. */
  lemma SplitAroundStepOther(c: char, t: string, u: string, b: string, sep: char)
    requires c != sep
    requires Split(u, sep) == Split(t, sep) + Split(b, sep)
    ensures Split([c] + u, sep) == Split([c] + t, sep) + Split(b, sep)
  {
    SplitConsOther(c, t, sep);
    SplitConsOther(c, u, sep);
    GlueFirstAppend(c, Split(t, sep), Split(b, sep));
  }

  /** Splitting around one separator splits each side independently. */
  lemma {:induction false} SplitAround(a: string, b: string, sep: char)
    ensures Split(a + [sep] + b, sep) == Split(a, sep) + Split(b, sep)
  {
    if |a| == 0 {
      assert a + [sep] + b == [sep] + b;
      SplitConsSeparator(b, sep);
    } else {
      var t := a[1..];
      SplitAround(t, b, sep);
      if a[0] == sep {
        SplitAroundStepSeparator(t, t + [sep] + b, b, sep);
      } else {
        SplitAroundStepOther(a[0], t, t + [sep] + b, b, sep);
      }
      SplitOffHead(a, b, sep);
    }
  }

  /** `a + [sep] + b` with a non-empty `a` is its head followed by the rest. */
  lemma SplitOffHead(a: string, b: string, sep: char)
    requires |a| > 0
    ensures a == [a[0]] + a[1..]
    ensures a + [sep] + b == [a[0]] + (a[1..] + [sep] + b)
  {
    assert a == [a[0]] + a[1..];
  }

  /** Splitting a join of separator-free parts gives back the parts. */
  lemma {:induction false} SplitJoin(parts: seq<string>, sep: char)
    requires |parts| >= 1
    requires forall k :: 0 <= k < |parts| ==> sep !in parts[k]
    ensures Split(Join(parts, sep), sep) == parts
  {
    SplitWithoutSeparator(parts[0], sep);
    if |parts| > 1 {
      SplitJoin(parts[1..], sep);
      SplitAround(parts[0], Join(parts[1..], sep), sep);
      assert parts == [parts[0]] + parts[1..];
    }
  }

  // ---------------------------------------------------------------------------
  // `pathlib.PurePosixPath(path).name`
  // ---------------------------------------------------------------------------

  /** pathlib drops empty components (repeated or trailing slashes) and ".". */
  predicate IsPathName(part: string)
  {
    part != "" && part != "."
  }

  /** The components pathlib keeps, in order. */
  function PathNames(parts: seq<string>): (names: seq<string>)
    ensures forall k :: 0 <= k < |names| ==> IsPathName(names[k])
    decreases |parts|
  {
    if |parts| == 0 then []
    else
      var last := parts[|parts| - 1];
      var front := PathNames(parts[..|parts| - 1]);
      if IsPathName(last) then front + [last] else front
  }

  /** pathlib keeps no component exactly when every part is empty or ".". */
  lemma {:induction false} PathNamesEmpty(parts: seq<string>)
    ensures PathNames(parts) == [] <==> forall k :: 0 <= k < |parts| ==> !IsPathName(parts[k])
    decreases |parts|
  {
    if |parts| > 0 {
      var front := parts[..|parts| - 1];
      PathNamesEmpty(front);
      assert forall k :: 0 <= k < |front| ==> front[k] == parts[k];
    }
  }

  /** The last component pathlib keeps is a part after which every part is empty or ".". */
  lemma {:induction false} PathNamesLast(parts: seq<string>) returns (k: nat)
    requires PathNames(parts) != []
    ensures k < |parts| && parts[k] == PathNames(parts)[|PathNames(parts)| - 1]
    ensures forall m :: k < m < |parts| ==> !IsPathName(parts[m])
    decreases |parts|
  {
    var front := parts[..|parts| - 1];
    var last := parts[|parts| - 1];
    if IsPathName(last) {
      k := |parts| - 1;
    } else {
      assert PathNames(parts) == PathNames(front);
      k := PathNamesLast(front);
      assert parts[k] == front[k];
      forall m | k < m < |parts| ensures !IsPathName(parts[m]) {
        if m < |front| {
          assert parts[m] == front[m];
        }
      }
    }
  }

  /** The last component pathlib keeps is one of the parts. */
  lemma LastKeptIsPart(parts: seq<string>)
    requires PathNames(parts) != []
    ensures PathNames(parts)[|PathNames(parts)| - 1] in parts
  {
    var k := PathNamesLast(parts);
  }

  /** The last component pathlib keeps, or "" when it keeps none. */
  function LastName(parts: seq<string>): (name: string)
    ensures name == "" || (IsPathName(name) && name in parts)
  {
    var names := PathNames(parts);
    if |names| == 0 then ""
    else
      LastKeptIsPart(parts);
      names[|names| - 1]
  }

  /**
   * No component is kept exactly when every part is empty or "."; otherwise
   * the last one kept is a part after which every part is empty or ".".
   */
  lemma LastNameIsLastKept(parts: seq<string>)
    ensures LastName(parts) == "" ==> forall k :: 0 <= k < |parts| ==> !IsPathName(parts[k])
    ensures (forall k :: 0 <= k < |parts| ==> !IsPathName(parts[k])) ==> LastName(parts) == ""
    ensures LastName(parts) != "" ==>
      exists k :: 0 <= k < |parts| && parts[k] == LastName(parts) &&
        forall m :: k < m < |parts| ==> !IsPathName(parts[m])
  {
    PathNamesEmpty(parts);
    var names := PathNames(parts);
    if names != [] {
      var k := PathNamesLast(parts);
      assert LastName(parts) == names[|names| - 1] == parts[k];
      assert IsPathName(parts[k]);
    }
  }

  /** Python's `Path(path).name`. */
  function BaseName(path: string): (name: string)
    ensures name == "" || (IsPathName(name) && name in Split(path, '/'))
  {
    LastName(Split(path, '/'))
  }

  /**
   * `Path(path).name` is "" exactly when every `/`-part is empty or ".",
   * and otherwise a part after which every part is empty or ".".
   */
  lemma BaseNameIsLastName(path: string)
    ensures BaseName(path) == "" ==>
      forall k :: 0 <= k < |Split(path, '/')| ==> !IsPathName(Split(path, '/')[k])
    ensures (forall k :: 0 <= k < |Split(path, '/')| ==> !IsPathName(Split(path, '/')[k])) ==>
      BaseName(path) == ""
    ensures BaseName(path) != "" ==>
      exists k :: 0 <= k < |Split(path, '/')| && Split(path, '/')[k] == BaseName(path) &&
        forall m :: k < m < |Split(path, '/')| ==> !IsPathName(Split(path, '/')[m])
  {
    LastNameIsLastKept(Split(path, '/'));
  }

  /** The name of `dir/name` is `name` when `name` is a genuine component. */
  lemma BaseNameOfChild(dir: string, name: string)
    requires '/' !in name && IsPathName(name)
    ensures BaseName(dir + "/" + name) == name
  {
    SplitAround(dir, name, '/');
    SplitWithoutSeparator(name, '/');
    var parts := Split(dir + "/" + name, '/');
    assert parts == Split(dir, '/') + [name];
    assert parts[..|parts| - 1] == Split(dir, '/');
  }

  // ---------------------------------------------------------------------------
  // `s.replace(pat, "")`
  // ---------------------------------------------------------------------------

  /** `pat` occurs in `s` starting at index `i`. */
  predicate OccursAt(s: string, pat: string, i: nat)
    requires i <= |s|
  {
    pat <= s[i..]
  }

  /** `pat` occurs nowhere in `s`. */
  ghost predicate Free(s: string, pat: string)
  {
    forall i :: 0 <= i <= |s| ==> !OccursAt(s, pat, i)
  }

  /**
   * Python's `s.replace(pat, "")`: occurrences are found left to right
   * without overlap and removed; the text that results is not rescanned.
   */
  function RemoveAll(s: string, pat: string): (r: string)
    requires |pat| > 0
    ensures |r| <= |s|
    decreases |s|
  {
    if |s| == 0 then ""
    else if pat <= s then RemoveAll(s[|pat|..], pat)
    else [s[0]] + RemoveAll(s[1..], pat)
  }

  /** A string free of `pat` stays free of it once its first character is dropped. */
  lemma FreeTail(s: string, pat: string)
    requires |s| > 0 && Free(s, pat)
    ensures Free(s[1..], pat)
  {
    forall i | 0 <= i <= |s[1..]| ensures !OccursAt(s[1..], pat, i) {
      assert s[1..][i..] == s[i + 1..];
      assert !OccursAt(s, pat, i + 1);
    }
  }

  /** Removing a pattern that does not occur changes nothing. */
  lemma {:induction false} RemoveAllFree(s: string, pat: string)
    requires |pat| > 0 && Free(s, pat)
    ensures RemoveAll(s, pat) == s
  {
    if |s| > 0 {
      assert !OccursAt(s, pat, 0);
      FreeTail(s, pat);
      RemoveAllFree(s[1..], pat);
      assert s == [s[0]] + s[1..];
    }
  }

  /**
   * No ".tgz" starts at the front of `a + ".tgz" + b` when `a` is non-empty and
   * holds no ".tgz": ".tgz" cannot overlap itself.
   */
  lemma NoTgzInFront(a: string, b: string)
    requires |a| > 0 && Free(a, ".tgz")
    ensures !(".tgz" <= a + ".tgz" + b)
  {
    var pat := ".tgz";
    var s := a + pat + b;
    if |a| >= 4 {
      assert !OccursAt(a, pat, 0);
      assert s[..4] == a[..4];
    } else {
      assert s[|a|] == '.';
      assert pat[|a|] != '.';
    }
  }

  /**
   * `replace(".tgz", "")` removes the first ".tgz" and goes on after it:
   * the text before it is kept, the rest is treated the same way, so every
   * occurrence is removed from left to right.
   */
  lemma {:induction false} RemoveTgzFirst(a: string, b: string)
    requires Free(a, ".tgz")
    ensures RemoveAll(a + ".tgz" + b, ".tgz") == a + RemoveAll(b, ".tgz")
    decreases |a|
  {
    var pat := ".tgz";
    var s := a + pat + b;
    if |a| == 0 {
      assert s[|pat|..] == b;
    } else {
      NoTgzInFront(a, b);
      FreeTail(a, pat);
      assert s[1..] == a[1..] + pat + b;
      RemoveTgzFirst(a[1..], b);
      assert a == [a[0]] + a[1..];
    }
  }

  /** Removing ".tgz" from `stem + ".tgz"` gives back `stem` when the stem holds no ".tgz" of its own. */
  lemma RemoveTgzSuffix(stem: string)
    requires Free(stem, ".tgz")
    ensures RemoveAll(stem + ".tgz", ".tgz") == stem
  {
    RemoveTgzFirst(stem, "");
    assert stem + ".tgz" + "" == stem + ".tgz";
  }

  /** Both occurrences go: "x.tgz.tgz" becomes "x". */
  lemma RemoveTgzTwice()
    ensures RemoveAll("x" + ".tgz" + ".tgz", ".tgz") == "x"
  {
    assert Free("x", ".tgz") && Free("", ".tgz");
    RemoveTgzFirst("x", ".tgz");
    RemoveTgzSuffix("");
  }

  // ---------------------------------------------------------------------------
  // Slicing: Python's `s[:n]`
  // ---------------------------------------------------------------------------

  /** How many elements `[:n]` keeps of `len`: `n` at most, counted from the end when negative. */
  function SliceLength(len: nat, n: int): nat
  {
    if n >= 0 then Min(n, len) else Max(0, len + n)
  }

  /** Python's `s[:n]`: a prefix, with a negative `n` counting from the end. */
  function SliceTo<T>(s: seq<T>, n: int): (r: seq<T>)
    ensures r <= s
    ensures |r| == SliceLength(|s|, n)
    ensures n >= 0 ==> |r| <= n
  {
    if n >= 0 then s[..Min(n, |s|)] else s[..Max(0, |s| + n)]
  }
}
