/**
  Python's `str.split(sep)` with a non-empty separator and `sep.join(parts)`,
  on strings as sequences of characters.
*/
module Strings {
  import opened Wrappers

  /** `sep` occurs in `s` starting at index `i`. */
  predicate OccursAt(s: string, sep: string, i: nat)
  {
    i + |sep| <= |s| && s[i..i + |sep|] == sep
  }

  /** Python's `sep in s`. */
  ghost predicate Contains(s: string, sep: string)
  {
    exists i: nat :: OccursAt(s, sep, i)
  }

  /** `u` is a suffix of `t` (Python's `t.endswith(u)`). */
  predicate IsSuffix(u: string, t: string)
  {
    |u| <= |t| && t[|t| - |u|..] == u
  }

  /** No proper prefix of `sep` is also a suffix of it, so two occurrences never overlap. */
  predicate Borderless(sep: string)
  {
    forall k :: 0 < k < |sep| ==> sep[..k] != sep[|sep| - k..]
  }

  /** `sep` occurs twice in `s` without the two occurrences overlapping. */
  ghost predicate OccursTwice(s: string, sep: string)
  {
    exists i: nat, j: nat :: i + |sep| <= j && OccursAt(s, sep, i) && OccursAt(s, sep, j)
  }

  function Last<T>(s: seq<T>): T
    requires |s| > 0
  {
    s[|s| - 1]
  }

  /** Python's `s.find(sep, start)`: the leftmost occurrence at or after `start`. */
  function IndexOf(s: string, sep: string, start: nat): (r: Option<nat>)
    ensures r.Some? ==> start <= r.value && OccursAt(s, sep, r.value)
    ensures r.Some? ==> forall j: nat :: start <= j < r.value ==> !OccursAt(s, sep, j)
    ensures r.None? ==> forall j: nat :: start <= j ==> !OccursAt(s, sep, j)
    decreases |s| - start
  {
    if start + |sep| > |s| then None
    else if s[start..start + |sep|] == sep then Some(start)
    else IndexOf(s, sep, start + 1)
  }

  /** Python's `s.split(sep)`: cut at the leftmost occurrence, then split the rest. */
  function Split(s: string, sep: string): (parts: seq<string>)
    requires |sep| > 0
    ensures |parts| >= 1
    decreases |s|
  {
    match IndexOf(s, sep, 0)
    case None => [s]
    case Some(i) => [s[..i]] + Split(s[i + |sep|..], sep)
  }

  /** Python's `sep.join(parts)`. */
  function Join(parts: seq<string>, sep: string): string
  {
    if |parts| == 0 then ""
    else if |parts| == 1 then parts[0]
    else parts[0] + sep + Join(parts[1..], sep)
  }

  /** Joining back what was split gives the original string. */
  lemma {:induction false} JoinSplit(s: string, sep: string)
    requires |sep| > 0
    ensures Join(Split(s, sep), sep) == s
    decreases |s|
  {
    var r := IndexOf(s, sep, 0);
    if r.Some? {
      var i := r.value;
      var rest := s[i + |sep|..];
      var tail := Split(rest, sep);
      JoinSplit(rest, sep);
      var parts := Split(s, sep);
      assert parts == [s[..i]] + tail;
      assert parts[0] == s[..i] && parts[1..] == tail;
      assert Join(parts, sep) == s[..i] + sep + rest;
      assert s == s[..i] + s[i..i + |sep|] + rest;
    }
  }

  /** Occurrences in a suffix `s[d..]` are occurrences in `s`, shifted by `d`. */
  lemma ShiftOccurs(s: string, sep: string, d: nat)
    requires d <= |s|
    ensures forall k: nat :: OccursAt(s[d..], sep, k) <==> OccursAt(s, sep, d + k)
  {
    forall k: nat ensures OccursAt(s[d..], sep, k) <==> OccursAt(s, sep, d + k) {
      if k + |sep| <= |s| - d {
        assert s[d..][k..k + |sep|] == s[d + k..d + k + |sep|];
      }
    }
  }

  /** `IndexOf` finds the leftmost occurrence. */
  lemma FirstOccurrence(s: string, sep: string, m: nat)
    requires OccursAt(s, sep, m)
    requires forall j: nat :: j < m ==> !OccursAt(s, sep, j)
    ensures IndexOf(s, sep, 0) == Some(m)
  {
  }

  /** Occurrences in a prefix `s[..n]` are the occurrences in `s` that end by `n`. */
  lemma PrefixOccurs(s: string, sep: string, n: nat)
    requires n <= |s|
    ensures forall k: nat :: OccursAt(s[..n], sep, k) <==> k + |sep| <= n && OccursAt(s, sep, k)
  {
    forall k: nat ensures OccursAt(s[..n], sep, k) <==> k + |sep| <= n && OccursAt(s, sep, k) {
      if k + |sep| <= n {
        assert s[..n][k..k + |sep|] == s[k..k + |sep|];
      }
    }
  }

  /** A suffix of a string free of `sep` is free of `sep`. */
  lemma SuffixAvoids(u: string, t: string, sep: string)
    requires IsSuffix(u, t) && !Contains(t, sep)
    ensures !Contains(u, sep)
  {
    ShiftOccurs(t, sep, |t| - |u|);
    forall k: nat ensures !OccursAt(u, sep, k) {
      assert !OccursAt(t, sep, |t| - |u| + k);
    }
  }

  /** A string without the separator's first character does not contain the separator. */
  lemma AvoidsFirstChar(s: string, sep: string)
    requires |sep| > 0 && forall k :: 0 <= k < |s| ==> s[k] != sep[0]
    ensures !Contains(s, sep)
  {
    forall i: nat ensures !OccursAt(s, sep, i) {
      if i + |sep| <= |s| {
        assert s[i..i + |sep|][0] == s[i];
      }
    }
  }

  /**
    A string `a` without the separator's first character, then the separator, then a
    string `c` free of the separator, splits into exactly `a` and `c`.
  */
  lemma SplitOnce(a: string, c: string, sep: string)
    requires |sep| > 0 && forall k :: 0 <= k < |a| ==> a[k] != sep[0]
    requires !Contains(c, sep)
    ensures Split(a + sep + c, sep) == [a, c]
  {
    var s := a + sep + c;
    assert s[|a|..|a| + |sep|] == sep;
    forall j: nat | j < |a| ensures !OccursAt(s, sep, j) {
      if j + |sep| <= |s| {
        assert s[j..j + |sep|][0] == a[j];
      }
    }
    FirstOccurrence(s, sep, |a|);
    SplitCut(s, sep, |a|);
    assert s[..|a|] == a && s[|a| + |sep|..] == c;
    SplitSingleIff(c, sep);
  }

  /** No part produced by `Split` contains the separator. */
  lemma {:induction false} SplitPartsAvoidSep(s: string, sep: string)
    requires |sep| > 0
    ensures forall p :: p in Split(s, sep) ==> !Contains(p, sep)
    decreases |s|
  {
    match IndexOf(s, sep, 0)
    case None =>
    case Some(i) =>
      var rest := s[i + |sep|..];
      SplitPartsAvoidSep(rest, sep);
      PrefixOccurs(s, sep, i);
      assert !Contains(s[..i], sep);
  }

  /** Splitting yields one part exactly when the separator does not occur. */
  lemma SplitSingleIff(s: string, sep: string)
    requires |sep| > 0
    ensures |Split(s, sep)| == 1 <==> !Contains(s, sep)
    ensures !Contains(s, sep) ==> Split(s, sep) == [s]
  {
    match IndexOf(s, sep, 0)
    case None =>
    case Some(i) =>
      assert OccursAt(s, sep, i);
  }

  /** Splitting yields three parts or more exactly when the separator occurs twice without overlap. */
  lemma SplitThreeIff(s: string, sep: string)
    requires |sep| > 0
    ensures |Split(s, sep)| >= 3 <==> OccursTwice(s, sep)
  {
    var r := IndexOf(s, sep, 0);
    if r.None? {
      assert !OccursTwice(s, sep);
    } else {
      var i0 := r.value;
      var rest := s[i0 + |sep|..];
      assert Split(s, sep) == [s[..i0]] + Split(rest, sep) by {
        SplitCut(s, sep, i0);
      }
      SplitSingleIff(rest, sep);
      assert Contains(rest, sep) <==> OccursTwice(s, sep) by {
        SecondOccurrence(s, sep, i0);
      }
    }
  }

  /** After the first occurrence, the rest holds the separator exactly when the whole holds it twice. */
  lemma SecondOccurrence(s: string, sep: string, i0: nat)
    requires |sep| > 0 && IndexOf(s, sep, 0) == Some(i0)
    ensures Contains(s[i0 + |sep|..], sep) <==> OccursTwice(s, sep)
  {
    var rest := s[i0 + |sep|..];
    assert Contains(rest, sep) ==> OccursTwice(s, sep) by {
      if Contains(rest, sep) {
        var k: nat :| OccursAt(rest, sep, k);
        ShiftOccurs(s, sep, i0 + |sep|);
        assert OccursAt(s, sep, i0 + |sep| + k);
      }
    }
    assert OccursTwice(s, sep) ==> Contains(rest, sep) by {
      if OccursTwice(s, sep) {
        var i: nat, j: nat :| i + |sep| <= j && OccursAt(s, sep, i) && OccursAt(s, sep, j);
        assert i0 <= i;
        ShiftOccurs(s, sep, i0 + |sep|);
        assert OccursAt(rest, sep, j - (i0 + |sep|));
      }
    }
  }

  /** `Join` of a non-empty list ends with its last part. */
  lemma {:induction false} JoinEndsWithLast(parts: seq<string>, sep: string)
    requires |parts| > 0
    ensures IsSuffix(Last(parts), Join(parts, sep))
    decreases |parts|
  {
    if |parts| > 1 {
      JoinEndsWithLast(parts[1..], sep);
      assert Last(parts[1..]) == Last(parts);
    }
  }

  /** Appending one more part adds the separator and that part at the end. */
  lemma {:induction false} JoinSnoc(parts: seq<string>, p: string, sep: string)
    requires |parts| > 0
    ensures Join(parts + [p], sep) == Join(parts, sep) + sep + p
    decreases |parts|
  {
    if |parts| > 1 {
      assert (parts + [p])[1..] == parts[1..] + [p];
      JoinSnoc(parts[1..], p, sep);
    } else {
      assert (parts + [p])[1..] == [p];
    }
  }

  /** With a borderless separator, no occurrence in `a + sep + b` starts inside `a` and ends inside the explicit `sep`. */
  lemma NoStraddle(a: string, b: string, sep: string)
    requires |sep| > 0 && Borderless(sep)
    ensures forall j: nat :: j < |a| < j + |sep| ==> !OccursAt(a + sep + b, sep, j)
  {
    var s := a + sep + b;
    assert s[|a|..|a| + |sep|] == sep;
    forall j: nat | j < |a| < j + |sep|
      ensures !OccursAt(s, sep, j)
    {
      var m := j + |sep| - |a|;
      if j + |sep| <= |s| {
        assert s[j..j + |sep|][|sep| - m..] == s[|a|..j + |sep|];
        assert s[|a|..|a| + |sep|][..m] == s[|a|..j + |sep|];
        assert sep[..m] != sep[|sep| - m..];
      }
    }
  }

  /** The leftmost occurrence in `a + sep + b` (borderless `sep`) is the leftmost one of `a`, or else the explicit one. */
  lemma IndexAround(a: string, b: string, sep: string)
    requires |sep| > 0 && Borderless(sep)
    ensures IndexOf(a + sep + b, sep, 0) == match IndexOf(a, sep, 0) case None => Some(|a|) case Some(i) => Some(i)
  {
    var s := a + sep + b;
    assert s[|a|..|a| + |sep|] == sep;
    assert s[..|a|] == a;
    PrefixOccurs(s, sep, |a|);
    NoStraddle(a, b, sep);
    match IndexOf(a, sep, 0)
    case None =>
      forall j: nat | j < |a| ensures !OccursAt(s, sep, j) {
        if j + |sep| <= |a| {
          assert !OccursAt(a, sep, j);
        }
      }
      FirstOccurrence(s, sep, |a|);
    case Some(i) =>
      assert OccursAt(s, sep, i);
      FirstOccurrence(s, sep, i);
  }

  /** One unfolding of `Split` at a known leftmost occurrence `i`. */
  lemma {:induction false} SplitCut(s: string, sep: string, i: nat)
    requires |sep| > 0 && IndexOf(s, sep, 0) == Some(i)
    ensures Split(s, sep) == [s[..i]] + Split(s[i + |sep|..], sep)
  {
    var rest := s[i + |sep|..];
    var head := s[..i];
    assert |rest| < |s|;
    assert Split(s, sep) == [head] + Split(rest, sep);
  }

  /** `Split` on `a + sep + b` when `a` has no occurrence: the explicit separator is the first cut. */
  lemma SplitAroundFirst(a: string, b: string, sep: string)
    requires |sep| > 0 && Borderless(sep) && IndexOf(a, sep, 0).None?
    ensures Split(a + sep + b, sep) == [a] + Split(b, sep)
  {
    IndexAround(a, b, sep);
    var s := a + sep + b;
    SplitCut(s, sep, |a|);
    assert s[|a| + |sep|..] == b;
    assert s[..|a|] == a;
  }

  /** `Split` on `a + sep + b` when `a` has its leftmost occurrence at `i`: the cut is inside `a`. */
  lemma SplitAroundInside(a: string, b: string, sep: string, i: nat)
    requires |sep| > 0 && Borderless(sep) && IndexOf(a, sep, 0) == Some(i)
    ensures Split(a + sep + b, sep) == [a[..i]] + Split(a[i + |sep|..] + sep + b, sep)
  {
    IndexAround(a, b, sep);
    var s := a + sep + b;
    SplitCut(s, sep, i);
    assert s[i + |sep|..] == a[i + |sep|..] + sep + b;
    assert s[..i] == a[..i];
  }

  /** With three parts or more, the join is the first part, the joined middle parts and the last part. */
  lemma JoinOuter(parts: seq<string>, sep: string)
    requires |parts| >= 3
    ensures Join(parts, sep) == parts[0] + sep + Join(parts[1..|parts| - 1], sep) + sep + Last(parts)
  {
    var mid := parts[1..|parts| - 1];
    assert parts[1..] == mid + [Last(parts)];
    JoinSnoc(mid, Last(parts), sep);
  }

  /**
    With a borderless separator, an explicit separator between `a` and `b` splits
    exactly there: no occurrence can straddle either of its ends.
  */
  lemma {:induction false} SplitAround(a: string, b: string, sep: string)
    requires |sep| > 0 && Borderless(sep)
    ensures Split(a + sep + b, sep) == Split(a, sep) + Split(b, sep)
    decreases |a|
  {
    var r := IndexOf(a, sep, 0);
    if r.None? {
      SplitAroundFirst(a, b, sep);
    } else {
      var i := r.value;
      var rest := a[i + |sep|..];
      var pa, pr, pb := [a[..i]], Split(rest, sep), Split(b, sep);
      assert |rest| < |a| && rest + sep + b == a[i + |sep|..] + sep + b;
      assert Split(a + sep + b, sep) == pa + Split(rest + sep + b, sep) by {
        SplitAroundInside(a, b, sep, i);
      }
      assert Split(rest + sep + b, sep) == pr + pb by {
        SplitAround(rest, b, sep);
      }
      assert Split(a, sep) == pa + pr by {
        SplitCut(a, sep, i);
      }
      ConcatAssoc(pa, pr, pb);
    }
  }

  lemma ConcatAssoc<T>(x: seq<T>, y: seq<T>, z: seq<T>)
    ensures x + (y + z) == (x + y) + z
  {
  }

  /** The other round trip: parts without the (borderless) separator are split back apart. */
  lemma {:induction false} SplitJoin(parts: seq<string>, sep: string)
    requires |sep| > 0 && Borderless(sep) && |parts| > 0
    requires forall k :: 0 <= k < |parts| ==> !Contains(parts[k], sep)
    ensures Split(Join(parts, sep), sep) == parts
    decreases |parts|
  {
    SplitSingleIff(parts[0], sep);
    if |parts| > 1 {
      var rest := parts[1..];
      SplitJoin(rest, sep);
      SplitAround(parts[0], Join(rest, sep), sep);
      assert parts == [parts[0]] + rest;
    }
  }
}
