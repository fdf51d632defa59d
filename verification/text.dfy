/** String primitives the Python handlers rely on: the `in` substring test
    and `str.split(sep)` with a non-empty separator. */
module Text {

  /** `s` begins with `p` (Python `s.startswith(p)`). */
  predicate StartsWith(s: string, p: string) {
    |p| <= |s| && s[..|p|] == p
  }

  /** Python `p in s` for strings: `p` occurs somewhere in `s`. */
  predicate Contains(s: string, p: string) {
    exists i :: 0 <= i <= |s| && StartsWith(s[i..], p)
  }

  /** A one-character substring test is plain membership. */
  lemma ContainsSingle(s: string, c: char)
    ensures Contains(s, [c]) <==> c in s
  {
    if c in s {
      var i :| 0 <= i < |s| && s[i] == c;
      assert StartsWith(s[i..], [c]);
    }
    forall i | 0 <= i <= |s| && StartsWith(s[i..], [c])
      ensures c in s
    {
      assert s[i] == c;
    }
  }

  /** A prefix of `y` that begins with `p` makes `y` begin with `p`. */
  lemma StartsWithExtend(x: string, y: string, p: string)
    requires x <= y
    ensures StartsWith(x, p) ==> StartsWith(y, p)
  {
    if |p| <= |x| {
      assert y[..|p|] == x[..|p|];
    }
  }

  /** Removing a trailing part cannot create an occurrence. */
  lemma NotContainsPrefix(s: string, a: string, p: string)
    requires a <= s
    requires !Contains(s, p)
    ensures !Contains(a, p)
  {
    forall i | 0 <= i <= |a|
      ensures !StartsWith(a[i..], p)
    {
      assert a[i..] <= s[i..];
      StartsWithExtend(a[i..], s[i..], p);
    }
  }

  /** Prepending one character creates an occurrence only at the front. */
  lemma NotContainsCons(x: char, t: string, p: string)
    requires !Contains(t, p)
    requires !StartsWith([x] + t, p)
    ensures !Contains([x] + t, p)
  {
    forall i | 1 <= i <= |[x] + t|
      ensures !StartsWith(([x] + t)[i..], p)
    {
      assert ([x] + t)[i..] == t[i - 1..];
      assert !StartsWith(t[i - 1..], p);
    }
  }

  /** Python `s.split(sep)` for a non-empty `sep`: occurrences are found left
      to right without overlapping, and an occurrence at the very start or end
      yields an empty part. */
  function Split(s: string, sep: string): (parts: seq<string>)
    requires sep != []
    ensures |parts| >= 1
    decreases |s|
  {
    if |s| < |sep| then [s]
    else if s[..|sep|] == sep then [[]] + Split(s[|sep|..], sep)
    else
      var rest := Split(s[1..], sep);
      [[s[0]] + rest[0]] + rest[1..]
  }

  /** No part holds the separator. */
  lemma {:induction false} SplitPartsClean(s: string, sep: string)
    requires sep != []
    ensures forall i :: 0 <= i < |Split(s, sep)| ==> !Contains(Split(s, sep)[i], sep)
    decreases |s|
  {
    var parts := Split(s, sep);
    if |s| < |sep| {
      assert forall i :: 0 <= i <= |s| ==> !StartsWith(s[i..], sep);
    } else if s[..|sep|] == sep {
      SplitPartsClean(s[|sep|..], sep);
      assert forall i :: 0 <= i <= 0 ==> !StartsWith(""[i..], sep);
      assert forall i :: 1 <= i < |parts| ==> parts[i] == Split(s[|sep|..], sep)[i - 1];
    } else {
      SplitPartsClean(s[1..], sep);
      SplitFirst(s[1..], sep);
      var rest := Split(s[1..], sep);
      var head := [s[0]] + rest[0];
      assert head <= s;
      StartsWithExtend(head, s, sep);
      NotContainsCons(s[0], rest[0], sep);
      assert forall i :: 1 <= i < |parts| ==> parts[i] == rest[i];
    }
  }

  /** Inverse of `Split`: Python `sep.join(parts)`. */
  function Join(parts: seq<string>, sep: string): string
    requires |parts| >= 1
    decreases |parts|
  {
    if |parts| == 1 then parts[0] else parts[0] + sep + Join(parts[1..], sep)
  }

  /** Splitting loses nothing: joining the parts back gives the input. */
  lemma {:induction false} SplitJoin(s: string, sep: string)
    requires sep != []
    ensures Join(Split(s, sep), sep) == s
    decreases |s|
  {
    if |s| < |sep| {
    } else if s[..|sep|] == sep {
      SplitJoin(s[|sep|..], sep);
      SplitAtSeparator(s, sep);
      JoinAfterLeadingSeparator(s, sep, Split(s, sep), Split(s[|sep|..], sep));
    } else {
      SplitJoin(s[1..], sep);
      SplitAtOther(s, sep);
      JoinAfterLeadingChar(s, sep, Split(s, sep), Split(s[1..], sep));
    }
  }

  lemma JoinAfterLeadingSeparator(s: string, sep: string, parts: seq<string>, rest: seq<string>)
    requires |s| >= |sep| && s[..|sep|] == sep
    requires |rest| >= 1 && parts == [[]] + rest && Join(rest, sep) == s[|sep|..]
    ensures Join(parts, sep) == s
  {
    assert parts[1..] == rest;
    assert s == sep + s[|sep|..];
  }

  lemma JoinAfterLeadingChar(s: string, sep: string, parts: seq<string>, rest: seq<string>)
    requires |s| >= 1
    requires |rest| >= 1 && parts == [[s[0]] + rest[0]] + rest[1..] && Join(rest, sep) == s[1..]
    ensures Join(parts, sep) == s
  {
    assert s == [s[0]] + s[1..];
    if |rest| > 1 {
      assert parts[1..] == rest[1..];
      assert [s[0]] + rest[0] + sep + Join(rest[1..], sep)
          == [s[0]] + (rest[0] + sep + Join(rest[1..], sep));
    }
  }

  /** A string with no occurrence of the separator splits into itself alone. */
  lemma {:induction false} SplitWithoutSeparator(s: string, sep: string)
    requires sep != []
    requires !Contains(s, sep)
    ensures Split(s, sep) == [s]
    decreases |s|
  {
    if |s| < |sep| {
    } else {
      assert StartsWith(s[0..], sep) ==> Contains(s, sep);
      assert s[0..] == s;
      NotContainsSuffix(s, 1, sep);
      SplitWithoutSeparator(s[1..], sep);
      assert !StartsWith(s, sep);
      assert s == [s[0]] + s[1..];
    }
  }

  /** Dropping a leading part cannot create an occurrence. */
  lemma NotContainsSuffix(s: string, k: nat, p: string)
    requires k <= |s|
    requires !Contains(s, p)
    ensures !Contains(s[k..], p)
  {
    forall i | 0 <= i <= |s[k..]|
      ensures !StartsWith(s[k..][i..], p)
    {
      assert s[k..][i..] == s[k + i..];
      assert !StartsWith(s[k + i..], p);
    }
  }
  /** Python `parts[-1]`. */
  function Last<T>(parts: seq<T>): T
    requires |parts| >= 1
  {
    parts[|parts| - 1]
  }

  /** The first part is the text before the first separator: it is a prefix of
      the input, no separator starts inside it, and either it is the whole
      input or a separator follows it. */
  lemma SplitFirst(s: string, sep: string)
    requires sep != []
    ensures var parts := Split(s, sep);
      && parts[0] <= s
      && (forall i :: 0 <= i < |parts[0]| ==> !StartsWith(s[i..], sep))
      && (|parts| == 1 ==> parts[0] == s)
      && (|parts| > 1 ==> StartsWith(s[|parts[0]|..], sep))
  {
    FirstPartBounded(s, sep);
    FirstPartHasNoSeparator(s, sep);
  }

  /** The first part is a prefix, followed by a separator unless it is the
      whole input. */
  lemma {:induction false} FirstPartBounded(s: string, sep: string)
    requires sep != []
    ensures var parts := Split(s, sep);
      && parts[0] <= s
      && (|parts| == 1 ==> parts[0] == s)
      && (|parts| > 1 ==> StartsWith(s[|parts[0]|..], sep))
    decreases |s|
  {
    if |s| < |sep| {
    } else if s[..|sep|] == sep {
    } else {
      FirstPartBounded(s[1..], sep);
      var rest := Split(s[1..], sep);
      assert s == [s[0]] + s[1..];
      assert s[1..][|rest[0]|..] == s[1 + |rest[0]|..];
    }
  }

  /** No separator starts inside the first part, so it ends at the first
      occurrence even for a separator that overlaps itself. */
  lemma {:induction false} FirstPartHasNoSeparator(s: string, sep: string)
    requires sep != []
    ensures |Split(s, sep)[0]| <= |s|
    ensures forall i :: 0 <= i < |Split(s, sep)[0]| ==> !StartsWith(s[i..], sep)
    decreases |s|
  {
    FirstPartBounded(s, sep);
    if |s| >= |sep| && s[..|sep|] != sep {
      SplitAtOther(s, sep);
      FirstPartHasNoSeparator(s[1..], sep);
      var rest := Split(s[1..], sep);
      assert |Split(s, sep)[0]| == 1 + |rest[0]|;
      forall i | 0 <= i < 1 + |rest[0]|
        ensures !StartsWith(s[i..], sep)
      {
        if i == 0 {
          assert s[0..] == s;
        } else {
          assert s[i..] == s[1..][i - 1..];
        }
      }
    }
  }

  /** `s` ends with `p` (Python `s.endswith(p)`). */
  predicate EndsWith(s: string, p: string) {
    |p| <= |s| && s[|s| - |p|..] == p
  }

  /** What `SplitLast` promises about `s`. */
  predicate LastPartAfterSeparator(s: string, sep: string)
    requires sep != []
  {
    var last := Last(Split(s, sep));
    && EndsWith(s, last)
    && (|Split(s, sep)| == 1 ==> last == s)
    && (|Split(s, sep)| > 1 ==> EndsWith(s[..|s| - |last|], sep))
  }

  /** The last part is the text after the last separator: it is a suffix of
      the input, and either it is the whole input or a separator precedes it. */
  lemma SplitLast(s: string, sep: string)
    requires sep != []
    ensures LastPartAfterSeparator(s, sep)
  {
    var parts := Split(s, sep);
    var last := Last(parts);
    SplitJoin(s, sep);
    if |parts| > 1 {
      var init := Join(parts[..|parts| - 1], sep);
      JoinLast(parts, sep);
      assert s == init + sep + last;
      assert s[|s| - |last|..] == last;
      assert s[..|s| - |last|] == init + sep;
      assert (init + sep)[|init + sep| - |sep|..] == sep;
    }
  }

  /** The last part of a join comes after the last separator. */
  lemma {:induction false} JoinLast(parts: seq<string>, sep: string)
    requires |parts| > 1
    ensures Join(parts, sep) == Join(parts[..|parts| - 1], sep) + sep + Last(parts)
    decreases |parts|
  {
    var n := |parts|;
    if n > 2 {
      JoinLast(parts[1..], sep);
      assert parts[1..][..n - 2] == parts[..n - 1][1..];
      assert Last(parts[1..]) == Last(parts);
      var mid := Join(parts[1..][..n - 2], sep);
      assert parts[0] + sep + (mid + sep + Last(parts)) == (parts[0] + sep + mid) + sep + Last(parts);
    }
  }

  /** One step of `Split` when the text starts with the separator. */
  lemma SplitAtSeparator(s: string, sep: string)
    requires sep != [] && |s| >= |sep| && s[..|sep|] == sep
    ensures Split(s, sep) == [[]] + Split(s[|sep|..], sep)
  {
  }

  /** One step of `Split` when the text does not start with the separator. */
  lemma SplitAtOther(s: string, sep: string)
    requires sep != [] && |s| >= |sep| && s[..|sep|] != sep
    ensures var rest := Split(s[1..], sep);
      Split(s, sep) == [[s[0]] + rest[0]] + rest[1..]
  {
  }
}
