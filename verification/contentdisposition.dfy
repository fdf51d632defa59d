/** The frontend's `extractFilenameFromCD`: reads the download file name out of
    a `Content-Disposition` header by trying three regular expressions in
    turn, then `+`-to-space replacement and `decodeURIComponent`, falling back
    to the raw captured text when decoding throws. */
module ContentDisposition {
  import opened Wrappers
  import opened Text
  import opened Percent

  /** One of the regular expressions: a literal prefix, then a greedy
      non-empty capture of characters outside `stops`, then, for the quoted
      form only, a closing character. */
  datatype Pattern = Pattern(prefix: string, stops: set<char>, closer: Option<char>)

  /** `/filename\*\=UTF-8''([^;\n]+)/`, the extended form of section 3.2 of
      RFC 5987. */
  const ExtValue: Pattern := Pattern("filename*=UTF-8''", {';', '\n'}, None)

  /** `/filename="([^"]+)"/`. */
  const Quoted: Pattern := Pattern("filename=\"", {'"'}, Some('"'))

  /** `/filename=([^;\n]+)/`. */
  const Bare: Pattern := Pattern("filename=", {';', '\n'}, None)

  /** End of the longest run from `k` that avoids `stops`. */
  function RunEnd(h: string, k: nat, stops: set<char>): (e: nat)
    requires k <= |h|
    ensures k <= e <= |h|
    ensures forall i :: k <= i < e ==> h[i] !in stops
    ensures e == |h| || h[e] in stops
    decreases |h| - k
  {
    if k == |h| || h[k] in stops then k else RunEnd(h, k + 1, stops)
  }

  /** `v` is what the pattern captures when it matches at `j`: the prefix
      starts at `j`, and `v` is the non-empty run after it that avoids
      `stops` and cannot be extended, followed by the closing character when
      the pattern has one. */
  predicate IsCapture(h: string, p: Pattern, j: nat, v: string)
    requires j <= |h|
  {
    var k := j + |p.prefix|;
    && StartsWith(h[j..], p.prefix)
    && v != []
    && k + |v| <= |h|
    && h[k..k + |v|] == v
    && (forall c :: c in v ==> c !in p.stops)
    && (p.closer.None? ==> k + |v| == |h| || h[k + |v|] in p.stops)
    && (p.closer.Some? ==> k + |v| < |h| && h[k + |v|] == p.closer.value)
  }

  /** The capture when the pattern matches starting exactly at `j`. Because
      the run stops at the closing character, backtracking to a shorter run
      can never help, so the greedy run decides the match. */
  function MatchAt(h: string, p: Pattern, j: nat): (r: Option<string>)
    requires j <= |h|
    requires p.closer.Some? ==> p.closer.value in p.stops
    ensures r.Some? ==> IsCapture(h, p, j, r.value)
    ensures forall v :: IsCapture(h, p, j, v) ==> r == Some(v)
  {
    if !StartsWith(h[j..], p.prefix) then None
    else
      var k := j + |p.prefix|;
      var e := RunEnd(h, k, p.stops);
      if e == k then None
      else if p.closer.Some? && (e == |h| || h[e] != p.closer.value) then None
      else Some(h[k..e])
  }

  /** `header.match(re)` with the search starting at `j`: the leftmost
      position where the pattern matches. */
  function Search(h: string, p: Pattern, j: nat): (r: Option<nat>)
    requires j <= |h|
    requires p.closer.Some? ==> p.closer.value in p.stops
    ensures r.Some? ==> j <= r.value <= |h| && MatchAt(h, p, r.value).Some?
    ensures r.Some? ==> forall i :: j <= i < r.value ==> MatchAt(h, p, i).None?
    ensures r.None? ==> forall i :: j <= i <= |h| ==> MatchAt(h, p, i).None?
    decreases |h| - j
  {
    if MatchAt(h, p, j).Some? then Some(j)
    else if j == |h| then None
    else Search(h, p, j + 1)
  }

  /** The text the pattern captures in `h`, if it matches anywhere. */
  function Capture(h: string, p: Pattern): Option<string>
    requires p.closer.Some? ==> p.closer.value in p.stops
  {
    var i :- Search(h, p, 0);
    MatchAt(h, p, i)
  }

  /** `m[1].replace(/\+/g, " ")`. */
  function PlusToSpace(s: string): (r: string)
    ensures |r| == |s|
    ensures forall i :: 0 <= i < |s| ==> r[i] == if s[i] == '+' then ' ' else s[i]
    decreases |s|
  {
    if s == [] then [] else [if s[0] == '+' then ' ' else s[0]] + PlusToSpace(s[1..])
  }

  /** `try { return decodeURIComponent(...) } catch { return m[1] }`. */
  function DecodeOrRaw(v: string): string {
    match PercentDecode(PlusToSpace(v))
    case Some(d) => d
    case None => v
  }

  /** `extractFilenameFromCD(header)`; `None` is JavaScript `null`, both as
      argument and as result. */
  function ExtractFilename(header: Option<string>): Option<string> {
    if header.None? || header.value == [] then None
    else
      var h := header.value;
      match Capture(h, ExtValue)
      case Some(v) => Some(DecodeOrRaw(v))
      case None =>
        match Capture(h, Quoted)
        case Some(v) => Some(DecodeOrRaw(v))
        case None =>
          match Capture(h, Bare)
          case Some(v) => Some(DecodeOrRaw(v))
          case None => None
  }
  /** The three forms in the order they are tried. */
  const Tiers: seq<Pattern> := [ExtValue, Quoted, Bare]

  /** The pattern matches somewhere in `h`. */
  ghost predicate MatchesAnywhere(h: string, p: Pattern) {
    exists i, v :: 0 <= i <= |h| && IsCapture(h, p, i, v)
  }

  lemma TiersWellFormed()
    ensures forall t :: 0 <= t < |Tiers| ==> (Tiers[t].closer.Some? ==> Tiers[t].closer.value in Tiers[t].stops)
  {
  }

  /** `Capture` finds the capture at the leftmost matching position, and
      nothing when no position matches. */
  lemma CaptureLeftmost(h: string, p: Pattern)
    requires p.closer.Some? ==> p.closer.value in p.stops
    ensures Capture(h, p).None? <==> !MatchesAnywhere(h, p)
    ensures forall i, v ::
      (0 <= i <= |h| && IsCapture(h, p, i, v) && forall i' :: 0 <= i' < i ==> MatchAt(h, p, i').None?)
      ==> Capture(h, p) == Some(v)
  {
    if MatchesAnywhere(h, p) {
      var i, v :| 0 <= i <= |h| && IsCapture(h, p, i, v);
      assert MatchAt(h, p, i).Some?;
    }
    forall i, v | 0 <= i <= |h| && IsCapture(h, p, i, v) && (forall i' :: 0 <= i' < i ==> MatchAt(h, p, i').None?)
      ensures Capture(h, p) == Some(v)
    {
      assert MatchAt(h, p, i) == Some(v);
      var r := Search(h, p, 0);
      assert r.Some?;
      assert r.value == i;
    }
  }

  lemma NoCaptureNoMatch(h: string, p: Pattern, j: nat)
    requires j <= |h| && (p.closer.Some? ==> p.closer.value in p.stops)
    requires forall w :: !IsCapture(h, p, j, w)
    ensures MatchAt(h, p, j).None?
  {
  }

  /** The result comes from the first form, in the order tried, that matches
      anywhere in the header, at the leftmost position where it matches. */
  lemma ExtractFromFirstMatchingTier(h: string, t: nat, i: nat, v: string)
    requires h != [] && t < |Tiers| && i <= |h|
    requires IsCapture(h, Tiers[t], i, v)
    requires forall i', w :: 0 <= i' < i ==> !IsCapture(h, Tiers[t], i', w)
    requires forall t' :: 0 <= t' < t ==> !MatchesAnywhere(h, Tiers[t'])
    ensures ExtractFilename(Some(h)) == Some(DecodeOrRaw(v))
  {
    TiersWellFormed();
    forall i' | 0 <= i' < i
      ensures MatchAt(h, Tiers[t], i').None?
    {
      NoCaptureNoMatch(h, Tiers[t], i');
    }
    var p := Tiers[t];
    CaptureLeftmost(h, p);
    assert Capture(h, p) == Some(v);
    if t == 0 {
      assert p == ExtValue;
    } else {
      assert !MatchesAnywhere(h, Tiers[0]);
      CaptureLeftmost(h, ExtValue);
      if t == 1 {
        assert p == Quoted;
      } else {
        assert !MatchesAnywhere(h, Tiers[1]);
        CaptureLeftmost(h, Quoted);
        assert p == Bare;
      }
    }
  }

  /** `null` comes back exactly for a missing or empty header and for a header
      none of the three forms matches. */
  lemma ExtractNull(header: Option<string>)
    ensures ExtractFilename(header).None? <==>
      header.None? || header.value == [] ||
      forall t :: 0 <= t < |Tiers| ==> !MatchesAnywhere(header.value, Tiers[t])
  {
    if header.Some? {
      CaptureLeftmost(header.value, ExtValue);
      CaptureLeftmost(header.value, Quoted);
      CaptureLeftmost(header.value, Bare);
      assert Tiers[0] == ExtValue && Tiers[1] == Quoted && Tiers[2] == Bare;
    }
  }

  /** Text without `%` always decodes, to itself. */
  lemma {:induction false} DecodeWithoutPercent(t: string)
    requires '%' !in t
    ensures PercentDecode(t) == Some(t)
    decreases |t|
  {
    if t != [] {
      DecodeWithoutPercent(t[1..]);
      assert t == [t[0]] + t[1..];
    }
  }

  /** A decoded escape sequence ends with a hex digit. */
  lemma EscapeEndsWithHexDigit(t: string)
    requires DecodeEscape(t).Some?
    ensures HexValue(t[DecodeEscape(t).value.1 - 1]).Some?
  {
    var b0 := EscapedByte(t, 0);
    if b0.value >= 0x80 {
      assert ContinuationByte(t, 3).Some?;
      if b0.value >= 0xE0 {
        assert ContinuationByte(t, 6).Some?;
        if b0.value >= 0xF0 {
          assert ContinuationByte(t, 9).Some?;
        }
      }
    }
  }

  /** Text ending in a lone `%` cannot be decoded: `decodeURIComponent`
      throws. */
  lemma {:induction false} TrailingPercentFails(t: string)
    requires t != [] && t[|t| - 1] == '%'
    ensures PercentDecode(t).None?
    decreases |t|
  {
    if t[0] != '%' {
      assert t[1..][|t[1..]| - 1] == '%';
      TrailingPercentFails(t[1..]);
    } else {
      var e := DecodeEscape(t);
      if e.Some? {
        EscapeEndsWithHexDigit(t);
        assert e.value.1 < |t|;
        var rest := t[e.value.1..];
        assert rest[|rest| - 1] == '%';
        TrailingPercentFails(rest);
      }
    }
  }

  /** A capture ending in a lone `%` still ends in `%` after `+` becomes a
      space, so decoding throws and the raw capture is returned unchanged,
      `+` signs included. */
  lemma TrailingPercentRaw(v: string)
    requires v != [] && v[|v| - 1] == '%'
    ensures DecodeOrRaw(v) == v
  {
    var t := PlusToSpace(v);
    assert t[|t| - 1] == '%';
    TrailingPercentFails(t);
  }
}
