/** How the two handlers relate: every format id the listing offers can be
    downloaded, but the extension the download uses does not always agree with
    the one the listing showed. */
module Consistency {
  import opened Wrappers
  import opened Text
  import opened Decimal
  import opened Piped
  import opened Formats
  import opened Download

  /** Every stream of the payload, video first, in the order both handlers
      scan them. */
  function AllStreams(data: Payload): seq<Stream> {
    data.videoStreams + data.audioStreams
  }

  /** No two streams share an itag. */
  predicate DistinctItags(data: Payload) {
    forall i, j :: 0 <= i < j < |AllStreams(data)| ==> AllStreams(data)[i].itag != AllStreams(data)[j].itag
  }

  /** The `k`-th listed entry was built from the `k`-th stream of the scan
      order, so its id is that stream's itag. */
  lemma ListedIdIsItag(data: Payload, k: nat)
    requires GetFormats(data).Success? && k < |GetFormats(data).value.formats|
    ensures k < |AllStreams(data)|
    ensures GetFormats(data).value.formats[k].id == AllStreams(data)[k].itag
  {
    var v := data.videoStreams;
    var fs := GetFormats(data).value.formats;
    if k < |v| {
      assert fs[k] == VideoEntry(v[k]);
      assert AllStreams(data)[k] == v[k];
    } else {
      assert fs[|v| + (k - |v|)] == AudioEntry(data.audioStreams[k - |v|]);
      assert AllStreams(data)[k] == data.audioStreams[k - |v|];
    }
  }

  /** Any id the listing offers re-resolves on download against the same
      payload: the lookup finds a stream with exactly that itag (the first
      one, should several share it), and the download then succeeds exactly
      when its one byte copy, from that stream's URL into the file named
      after the title, succeeds. */
  lemma ListedFormatDownloads(data: Payload, formatIndex: nat, tmpDir: string, transfer: Transfer)
    requires GetFormats(data).Success?
    requires formatIndex < |GetFormats(data).value.formats|
    ensures var id := GetFormats(data).value.formats[formatIndex].id;
      var found := FindStream(data, IntToDecimal(id));
      && found.Some?
      && found.value.itag == id
      && data.title.Some?
      && (ServePayload(data, IntToDecimal(id), tmpDir, transfer).Success? <==>
            transfer(found.value.url, JoinPath(tmpDir, FileName(data.title.value, FileExt(found.value)))).Pass?)
  {
    var id := GetFormats(data).value.formats[formatIndex].id;
    ListedIdIsItag(data, formatIndex);
    var all := AllStreams(data);
    var r := FirstMatch(all, IntToDecimal(id));
    assert IntToDecimal(all[formatIndex].itag) == IntToDecimal(id);
    assert r.Some?;
    IntToDecimalInjective(all[r.value].itag, id);
  }

  /** With distinct itags the download serves the very stream the entry was
      listed for. Its extension then agrees with the listed one only in these
      cases: a video entry agrees exactly when its MIME type mentions `video`
      (otherwise it is listed `webm` but saved as `mp3`); an audio entry
      agrees exactly when its MIME type mentions `audio/mp3` and not `video`
      (an `audio/mp4` or `audio/webm` stream is listed `m4a` but saved as
      `mp3` and served as `audio/mpeg`). */
  lemma ListedExtVersusDownloadExt(data: Payload, k: nat)
    requires GetFormats(data).Success? && k < |GetFormats(data).value.formats|
    requires DistinctItags(data)
    ensures var e := GetFormats(data).value.formats[k];
      var s := AllStreams(data)[k];
      && FindStream(data, IntToDecimal(e.id)) == Some(s)
      && (k < |data.videoStreams| ==> (FileExt(s) == e.ext <==> Contains(s.mimeType, "video")))
      && (k >= |data.videoStreams| ==>
            (FileExt(s) == e.ext <==> Contains(s.mimeType, "audio/mp3") && !Contains(s.mimeType, "video")))
  {
    var e := GetFormats(data).value.formats[k];
    var all := AllStreams(data);
    ListedIdIsItag(data, k);
    var r := FirstMatch(all, IntToDecimal(e.id));
    assert IntToDecimal(all[k].itag) == IntToDecimal(e.id);
    assert r.Some?;
    IntToDecimalInjective(all[r.value].itag, e.id);
    assert r.value == k;
  }

  /** A payload titled `song` whose one stream is an `audio/mp4` audio
      stream with itag 140. */
  predicate SongPayload(data: Payload) {
    && data.title == Some("song")
    && data.videoStreams == []
    && |data.audioStreams| == 1
    && data.audioStreams[0].itag == 140
    && data.audioStreams[0].mimeType == "audio/mp4"
  }

  /** A concrete instance of the disagreement, first half: such a payload is
      listed as a single `m4a` entry with id 140. */
  lemma SongListing(data: Payload)
    requires SongPayload(data)
    ensures GetFormats(data).Success?
    ensures var fs := GetFormats(data).value.formats;
      |fs| == 1 && fs[0].id == 140 && fs[0].ext == "m4a" && fs[0].resolution == "Audio"
  {
    Mp4Mime();
  }

  /** Second half: downloading format `140` from the same payload, with the
      byte copy into `song.mp3` succeeding, saves `song.mp3` served as
      `audio/mpeg`. */
  lemma AudioMp4ListedM4aServedMp3(data: Payload, tmpDir: string, transfer: Transfer)
    requires SongPayload(data)
    requires transfer(data.audioStreams[0].url, JoinPath(tmpDir, "song.mp3")) == Pass
    ensures var served := ServePayload(data, "140", tmpDir, transfer);
      && served.Success?
      && served.value.fileName == "song.mp3"
      && served.value.mediaType == "audio/mpeg"
  {
    var s := data.audioStreams[0];
    assert FindStream(data, "140") == Some(s) by {
      Itag140();
      assert data.videoStreams + data.audioStreams == [s];
      FirstMatchAt([s], "140", 0);
    }
    assert FileExt(s) == "mp3" by {
      Mp4Mime();
    }
    FileNameKeepsExt("song", "mp3");
    SongIsClean();
    assert FileName("song", FileExt(s)) == "song.mp3";
    assert transfer(s.url, JoinPath(tmpDir, FileName("song", FileExt(s)))) == Pass;
  }

  lemma SongIsClean()
    ensures Filename.Sanitize("song") == "song"
  {
    Filename.SanitizeFixedPoint("song");
  }

  /** `audio/mp4` mentions neither `audio/mp3` nor `video`. */
  lemma Mp4Mime()
    ensures !Contains("audio/mp4", "audio/mp3") && !Contains("audio/mp4", "video")
  {
    var m := "audio/mp4";
    assert m[8] != '3';
    forall i | 0 <= i <= |m|
      ensures !StartsWith(m[i..], "video")
    {
      if i < |m| {
        assert m[i..][0] == m[i];
      }
    }
  }

  lemma Itag140()
    ensures IntToDecimal(140) == "140"
  {
    assert NatToDecimal(1) == "1";
    assert NatToDecimal(14) == "14";
  }
}
