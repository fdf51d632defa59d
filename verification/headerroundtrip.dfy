/** The file name survives the trip through the `Content-Disposition` header:
    what the backend writes with `quote`, the frontend's
    `extractFilenameFromCD` reads back unchanged. */
module HeaderRoundTrip {
  import opened Wrappers
  import opened Text
  import opened Percent
  import opened ContentDisposition
  import opened Piped
  import opened Download

  /** `quote` never produces `;`, a line feed or `+`, so the extended-form
      capture runs to the end of the header and `+`-to-space replacement
      leaves it alone. */
  lemma QuotedHasNoStops(name: string)
    ensures forall c :: c in Quote(name) ==> c !in ExtValue.stops && c != '+'
  {
    QuoteAlphabet(name);
    var q := Quote(name);
    forall c | c in q
      ensures c !in ExtValue.stops && c != '+'
    {
      var i :| 0 <= i < |q| && q[i] == c;
      assert Unescaped(q[i]) || q[i] == '%';
    }
  }

  /** Replacing `+` by a space changes nothing in text without `+`. */
  lemma PlusToSpaceWithoutPlus(s: string)
    requires '+' !in s
    ensures PlusToSpace(s) == s
  {
    assert forall i :: 0 <= i < |s| ==> PlusToSpace(s)[i] == s[i];
  }

  /** In the header value, the extended form starts right after
      `attachment; ` and nowhere before. */
  lemma ExtValueAfterAttachment(q: string)
    requires q != [] && forall c :: c in q ==> c !in ExtValue.stops
    ensures IsCapture(DispositionPrefix + q, ExtValue, 12, q)
    ensures forall i, w :: 0 <= i < 12 ==> !IsCapture(DispositionPrefix + q, ExtValue, i, w)
  {
    var h := DispositionPrefix + q;
    assert h[12..] == ExtValue.prefix + q;
    assert h[29..29 + |q|] == q;
    assert h[..12] == DispositionPrefix[..12];
    forall i, w | 0 <= i < 12
      ensures !IsCapture(h, ExtValue, i, w)
    {
      NoFilenameBefore12(h, i);
    }
  }

  /** None of the first twelve characters, `attachment; `, is an `f`, so the
      extended form cannot start there. */
  lemma NoFilenameBefore12(h: string, i: nat)
    requires 12 <= |h| && h[..12] == DispositionPrefix[..12] && i < 12
    ensures !StartsWith(h[i..], ExtValue.prefix)
  {
    assert h[i] == h[..12][i] == DispositionPrefix[i];
    assert h[i..][0] == h[i];
  }

  /** Any non-empty name put into the header by the backend is read back by
      the frontend exactly. */
  lemma {:induction false} DispositionRoundTrip(name: string)
    requires name != []
    ensures ExtractFilename(Some(DispositionValue(name))) == Some(name)
  {
    var q := Quote(name);
    QuoteAlphabet(name);
    QuotedHasNoStops(name);
    ExtValueAfterAttachment(q);
    assert Tiers[0] == ExtValue;
    ExtractFromFirstMatchingTier(DispositionPrefix + q, 0, 12, q);
    PlusToSpaceWithoutPlus(q);
    DecodeQuote(name);
  }

  /** The name the frontend's extractor reads back from a successful
      download's header is exactly the sanitised file name the backend
      chose. */
  lemma ServedNameReadBack(data: Payload, formatId: string, tmpDir: string, transfer: Transfer)
    requires ServePayload(data, formatId, tmpDir, transfer).Success?
    ensures var served := ServePayload(data, formatId, tmpDir, transfer).value;
      ExtractFilename(Some(served.contentDisposition)) == Some(served.fileName)
  {
    var served := ServePayload(data, formatId, tmpDir, transfer).value;
    FileNameKeepsExt(data.title.value, FileExt(FindStream(data, formatId).value));
    assert |served.fileName| >= 4;
    DispositionRoundTrip(served.fileName);
  }
}
