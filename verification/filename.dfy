/** `sanitize_filename` of the backend: a regular-expression substitution that
    deletes every backslash, slash, asterisk, question mark, colon, double
    quote, less-than, greater-than and vertical bar, and keeps the rest in
    order. */
module Filename {

  /** The nine characters the class matches. */
  const Forbidden: set<char> := {'\\', '/', '*', '?', ':', '"', '<', '>', '|'}

  function Sanitize(name: string): (r: string)
    ensures |r| <= |name|
    ensures forall i :: 0 <= i < |r| ==> r[i] !in Forbidden
    decreases |name|
  {
    if name == [] then []
    else (if name[0] in Forbidden then [] else [name[0]]) + Sanitize(name[1..])
  }

  /** Every allowed character survives as often as it occurs, and none of the
      nine does. */
  lemma {:induction false} SanitizeCounts(name: string)
    ensures forall c :: multiset(Sanitize(name))[c] == if c in Forbidden then 0 else multiset(name)[c]
    decreases |name|
  {
    if name != [] {
      SanitizeCounts(name[1..]);
      assert name == [name[0]] + name[1..];
    }
  }

  /** Sanitising a single character keeps it exactly when it is allowed. */
  lemma SanitizeChar(c: char)
    ensures Sanitize([c]) == if c in Forbidden then [] else [c]
  {
    assert [c][1..] == [];
  }

  /** Sanitising distributes over concatenation, so together with
      `SanitizeChar` it keeps every allowed character in its original order. */
  lemma {:induction false} SanitizeAppend(a: string, b: string)
    ensures Sanitize(a + b) == Sanitize(a) + Sanitize(b)
    decreases |a|
  {
    if a == [] {
      assert a + b == b;
    } else {
      assert (a + b)[0] == a[0];
      assert (a + b)[1..] == a[1..] + b;
      SanitizeAppend(a[1..], b);
    }
  }

  /** A name is left unchanged exactly when it holds none of the nine
      characters. */
  lemma {:induction false} SanitizeFixedPoint(name: string)
    ensures Sanitize(name) == name <==> forall i :: 0 <= i < |name| ==> name[i] !in Forbidden
    decreases |name|
  {
    if name != [] {
      SanitizeFixedPoint(name[1..]);
      if name[0] in Forbidden {
        assert |Sanitize(name)| < |name|;
      }
      assert forall i :: 1 <= i < |name| ==> name[i] == name[1..][i - 1];
    }
  }

  /** Sanitising twice is the same as sanitising once. */
  lemma SanitizeIdempotent(name: string)
    ensures Sanitize(Sanitize(name)) == Sanitize(name)
  {
    SanitizeFixedPoint(Sanitize(name));
  }
}
