/** The `/download` handler: re-fetch the Piped payload, find the stream whose
    itag matches the requested format id, copy its bytes into a file in a
    fresh temporary directory, and answer with that file, its media type and
    a `Content-Disposition` header. */
module Download {
  import opened Wrappers
  import opened Text
  import opened Decimal
  import opened Filename
  import opened Percent
  import opened Piped

  /** The message raised when no stream matches. */
  const FormatNotFound: string := "Format not found"

  /** `str(KeyError("title"))`, raised when a stream matches but the payload
      has no title. */
  const MissingTitle: string := "'title'"

  /** The fixed start of the header value: the `ext-value` form of section 3.2
      of RFC 5987 with charset UTF-8 and no language, used as in section 4.1 of
      RFC 6266. */
  const DispositionPrefix: string := "attachment; filename*=UTF-8''"

  /** Position of the first stream whose `str(itag)` equals `formatId`. */
  function FirstMatch(ss: seq<Stream>, formatId: string): (r: Option<nat>)
    ensures r.Some? ==> r.value < |ss| && IntToDecimal(ss[r.value].itag) == formatId
    ensures r.Some? ==> forall j :: 0 <= j < r.value ==> IntToDecimal(ss[j].itag) != formatId
    ensures r.None? ==> forall j :: 0 <= j < |ss| ==> IntToDecimal(ss[j].itag) != formatId
  {
    var p := (s: Stream) => IntToDecimal(s.itag) == formatId;
    FirstWhereIsLeftmost(ss, p, 0);
    FirstWhere(ss, p, 0)
  }

  /** The loop of the lookup from position `i` on: the first position whose
      element satisfies `p`. */
  function FirstWhere<T>(xs: seq<T>, p: T -> bool, i: nat): (r: Option<nat>)
    requires i <= |xs|
    ensures r.Some? ==> i <= r.value < |xs|
    decreases |xs| - i
  {
    if i == |xs| then None
    else if p(xs[i]) then Some(i)
    else FirstWhere(xs, p, i + 1)
  }

  /** The loop stops at the first position from `i` on that satisfies `p`,
      and finds nothing only when no position from `i` on does. */
  lemma {:induction false} FirstWhereIsLeftmost<T>(xs: seq<T>, p: T -> bool, i: nat)
    requires i <= |xs|
    ensures var r := FirstWhere(xs, p, i);
      && (r.Some? ==> p(xs[r.value]))
      && (r.Some? ==> forall j :: i <= j < r.value ==> !p(xs[j]))
      && (r.None? ==> forall j :: i <= j < |xs| ==> !p(xs[j]))
    decreases |xs| - i
  {
    if i < |xs| && !p(xs[i]) {
      FirstWhereIsLeftmost(xs, p, i + 1);
    }
  }

  /** The scan over `videoStreams + audioStreams` that stops at the first
      match. */
  function FindStream(data: Payload, formatId: string): Option<Stream> {
    var all := data.videoStreams + data.audioStreams;
    var k :- FirstMatch(all, formatId);
    Some(all[k])
  }

  /** `"mp4"` when the MIME type mentions `video`, otherwise `"mp3"`. */
  function FileExt(s: Stream): string {
    if Contains(s.mimeType, "video") then "mp4" else "mp3"
  }

  function MediaType(ext: string): string {
    if ext == "mp4" then "video/mp4" else "audio/mpeg"
  }

  /** `sanitize_filename(f"{title}.{ext}")`. */
  function FileName(title: string, ext: string): string {
    Sanitize(title + "." + ext)
  }

  /** The `Content-Disposition` value sent with the file. */
  function DispositionValue(fileName: string): string {
    DispositionPrefix + Quote(fileName)
  }

  /** `os.path.join(dir, name)` on POSIX. */
  function JoinPath(dir: string, name: string): string {
    if StartsWith(name, "/") then name
    else if dir == [] || EndsWith(dir, "/") then dir + name
    else dir + "/" + name
  }

  /** What the handler returns on success: the `FileResponse` arguments. */
  datatype Served = Served(filePath: string, fileName: string, mediaType: string, contentDisposition: string)

  /** What becomes of the temporary directory once the handler returns. */
  datatype TempDir = Removed | RemovalScheduled | LeftBehind

  datatype DownloadOutcome = DownloadOutcome(response: Result<Served, HttpError>, tempDir: TempDir)

  /** The byte copy from the stream URL into the file path: `Pass`, or the
      message of what it raised. */
  type Transfer = (string, string) -> Outcome<string>

  /** The body of the handler's `try`: the response, or the message of the
      first exception raised. */
  function Serve(url: string, formatId: string, tmpDir: string, fetch: Fetch, transfer: Transfer): Result<Served, string> {
    var data :- fetch(StreamsUrl(url));
    ServePayload(data, formatId, tmpDir, transfer)
  }

  /** The rest of the `try` once the payload has been fetched. */
  function ServePayload(data: Payload, formatId: string, tmpDir: string, transfer: Transfer): Result<Served, string> {
    match FindStream(data, formatId)
    case None => Failure(FormatNotFound)
    case Some(stream) =>
      match data.title
      case None => Failure(MissingTitle)
      case Some(title) =>
        var ext := FileExt(stream);
        var name := FileName(title, ext);
        var path := JoinPath(tmpDir, name);
        match transfer(stream.url, path)
        case Fail(message) => Failure(message)
        case Pass => Success(Served(path, name, MediaType(ext), DispositionValue(name)))
  }

  /** `GET /download?url=...&format_id=...` in the temporary directory
      `tmpDir` that `mkdtemp` created. Every failure is status 500 and removes
      the directory at once; a success leaves removal to the background task,
      which is only registered when `backgroundTasks` is present. */
  function HandleDownload(url: string, formatId: string, tmpDir: string, fetch: Fetch, transfer: Transfer,
                          backgroundTasks: bool): (o: DownloadOutcome)
    ensures o.response.Failure? ==> o.response.error.status == 500 && o.tempDir == Removed
    ensures o.response.Success? ==> o.tempDir == if backgroundTasks then RemovalScheduled else LeftBehind
    ensures o.response.Failure? <==> Serve(url, formatId, tmpDir, fetch, transfer).Failure?
    ensures o.response.Failure? ==> o.response.error.detail == Serve(url, formatId, tmpDir, fetch, transfer).error
    ensures o.response.Success? ==> o.response.value == Serve(url, formatId, tmpDir, fetch, transfer).value
  {
    match Serve(url, formatId, tmpDir, fetch, transfer)
    case Failure(message) => DownloadOutcome(Failure(HttpError(500, message)), Removed)
    case Success(served) => DownloadOutcome(Success(served), if backgroundTasks then RemovalScheduled else LeftBehind)
  }

  /** Video streams win: when some video stream matches, the first matching
      video stream is served, whatever the audio streams hold. Audio streams
      are reached only when no video stream matches, and then the first
      matching audio stream is served. */
  lemma VideoStreamsFirst(data: Payload, formatId: string)
    ensures forall i ::
      (&& 0 <= i < |data.videoStreams| && IntToDecimal(data.videoStreams[i].itag) == formatId
       && (forall i' :: 0 <= i' < i ==> IntToDecimal(data.videoStreams[i'].itag) != formatId))
      ==> FindStream(data, formatId) == Some(data.videoStreams[i])
    ensures forall j ::
      (&& 0 <= j < |data.audioStreams| && IntToDecimal(data.audioStreams[j].itag) == formatId
       && (forall i :: 0 <= i < |data.videoStreams| ==> IntToDecimal(data.videoStreams[i].itag) != formatId)
       && (forall j' :: 0 <= j' < j ==> IntToDecimal(data.audioStreams[j'].itag) != formatId))
      ==> FindStream(data, formatId) == Some(data.audioStreams[j])
    ensures FindStream(data, formatId).None? <==>
      forall s :: s in data.videoStreams + data.audioStreams ==> IntToDecimal(s.itag) != formatId
  {
    forall i | 0 <= i < |data.videoStreams| && IntToDecimal(data.videoStreams[i].itag) == formatId &&
      (forall i' :: 0 <= i' < i ==> IntToDecimal(data.videoStreams[i'].itag) != formatId)
      ensures FindStream(data, formatId) == Some(data.videoStreams[i])
    {
      FirstVideoMatch(data, formatId, i);
    }
    forall j | 0 <= j < |data.audioStreams| && IntToDecimal(data.audioStreams[j].itag) == formatId &&
      (forall i :: 0 <= i < |data.videoStreams| ==> IntToDecimal(data.videoStreams[i].itag) != formatId) &&
      (forall j' :: 0 <= j' < j ==> IntToDecimal(data.audioStreams[j'].itag) != formatId)
      ensures FindStream(data, formatId) == Some(data.audioStreams[j])
    {
      FirstAudioMatch(data, formatId, j);
    }
    var all := data.videoStreams + data.audioStreams;
    if FirstMatch(all, formatId).Some? {
      assert all[FirstMatch(all, formatId).value] in all;
    }
  }

  /** A match with no match before it is the one `FirstMatch` finds. */
  lemma FirstMatchAt(ss: seq<Stream>, formatId: string, k: nat)
    requires k < |ss| && IntToDecimal(ss[k].itag) == formatId
    requires forall j :: 0 <= j < k ==> IntToDecimal(ss[j].itag) != formatId
    ensures FirstMatch(ss, formatId) == Some(k)
  {
  }

  lemma FirstVideoMatch(data: Payload, formatId: string, i: nat)
    requires i < |data.videoStreams| && IntToDecimal(data.videoStreams[i].itag) == formatId
    requires forall i' :: 0 <= i' < i ==> IntToDecimal(data.videoStreams[i'].itag) != formatId
    ensures FindStream(data, formatId) == Some(data.videoStreams[i])
  {
    var v := data.videoStreams;
    var all := v + data.audioStreams;
    assert forall k :: 0 <= k <= i ==> all[k] == v[k];
    FirstMatchAt(all, formatId, i);
  }

  lemma FirstAudioMatch(data: Payload, formatId: string, j: nat)
    requires j < |data.audioStreams| && IntToDecimal(data.audioStreams[j].itag) == formatId
    requires forall i :: 0 <= i < |data.videoStreams| ==> IntToDecimal(data.videoStreams[i].itag) != formatId
    requires forall j' :: 0 <= j' < j ==> IntToDecimal(data.audioStreams[j'].itag) != formatId
    ensures FindStream(data, formatId) == Some(data.audioStreams[j])
  {
    var v := data.videoStreams;
    var a := data.audioStreams;
    var all := v + a;
    forall k | 0 <= k < |v| + j
      ensures IntToDecimal(all[k].itag) != formatId
    {
      if k < |v| {
        assert all[k] == v[k];
      } else {
        assert all[k] == a[k - |v|];
      }
    }
    assert all[|v| + j] == a[j];
    FirstMatchAt(all, formatId, |v| + j);
  }

  /** The handler fails exactly when the fetch fails, no stream matches, the
      payload has no title, or the byte copy fails, and it reports the first
      of these in that order. */
  lemma ServeFailures(url: string, formatId: string, tmpDir: string, fetch: Fetch, transfer: Transfer)
    ensures var fetched := fetch(StreamsUrl(url));
      var r := Serve(url, formatId, tmpDir, fetch, transfer);
      && (fetched.Failure? ==> r == Failure(fetched.error))
      && (fetched.Success? && FindStream(fetched.value, formatId).None? ==> r == Failure(FormatNotFound))
      && (fetched.Success? && FindStream(fetched.value, formatId).Some? && fetched.value.title.None? ==>
            r == Failure(MissingTitle))
      && (fetched.Success? && FindStream(fetched.value, formatId).Some? && fetched.value.title.Some? ==>
            var stream := FindStream(fetched.value, formatId).value;
            var path := JoinPath(tmpDir, FileName(fetched.value.title.value, FileExt(stream)));
            (r.Failure? <==> transfer(stream.url, path).Fail?) &&
            (r.Failure? ==> r.error == transfer(stream.url, path).error))
  {
  }

  /** Sanitising `<title>.<ext>` only touches the title part when the
      extension is `mp4` or `mp3`. */
  lemma FileNameKeepsExt(title: string, ext: string)
    requires ext == "mp4" || ext == "mp3"
    ensures FileName(title, ext) == Sanitize(title) + "." + ext
  {
    SanitizeAppend(title, "." + ext);
    assert title + "." + ext == title + ("." + ext);
    ExtIsClean(ext);
  }

  lemma ExtIsClean(ext: string)
    requires ext == "mp4" || ext == "mp3"
    ensures Sanitize("." + ext) == "." + ext
  {
    var x := "." + ext;
    forall i | 0 <= i < |x|
      ensures x[i] !in Forbidden
    {
      assert x[i] in {'.', 'm', 'p', '3', '4'};
    }
    SanitizeFixedPoint(x);
  }

  /** A served file: named after the sanitised `<title>.<ext>`, where the
      extension is `mp4` exactly when the stream's MIME type mentions `video`
      and `mp3` otherwise; typed `video/mp4` exactly for `mp4` and
      `audio/mpeg` otherwise; and announced by the RFC 5987 header carrying
      the percent-encoded name. */
  lemma ServedFile(url: string, formatId: string, tmpDir: string, fetch: Fetch, transfer: Transfer)
    requires Serve(url, formatId, tmpDir, fetch, transfer).Success?
    ensures var data := fetch(StreamsUrl(url)).value;
      var stream := FindStream(data, formatId).value;
      var served := Serve(url, formatId, tmpDir, fetch, transfer).value;
      var ext := if Contains(stream.mimeType, "video") then "mp4" else "mp3";
      && fetch(StreamsUrl(url)).Success?
      && FindStream(data, formatId).Some?
      && IntToDecimal(stream.itag) == formatId
      && data.title.Some?
      && served.fileName == Sanitize(data.title.value) + "." + ext
      && (served.mediaType == "video/mp4" <==> ext == "mp4")
      && (served.mediaType == "audio/mpeg" <==> ext == "mp3")
      && served.contentDisposition == DispositionPrefix + Quote(served.fileName)
  {
    var data := fetch(StreamsUrl(url)).value;
    var stream := FindStream(data, formatId).value;
    var all := data.videoStreams + data.audioStreams;
    var k := FirstMatch(all, formatId).value;
    assert stream == all[k];
    FileNameKeepsExt(data.title.value, FileExt(stream));
  }

  /** The file is written directly inside the temporary directory: the
      sanitised name has no `/`, so `os.path.join` appends it as a single
      path component, and it ends in `.mp4` or `.mp3`, so it is never `.` or
      `..`. This is what lets removing the directory remove the file. */
  lemma FileInsideTempDir(url: string, formatId: string, tmpDir: string, fetch: Fetch, transfer: Transfer)
    requires tmpDir != [] && tmpDir[|tmpDir| - 1] != '/'
    requires Serve(url, formatId, tmpDir, fetch, transfer).Success?
    ensures var served := Serve(url, formatId, tmpDir, fetch, transfer).value;
      && served.filePath == tmpDir + "/" + served.fileName
      && '/' !in served.fileName
      && served.fileName != "." && served.fileName != ".."
  {
    var served := Serve(url, formatId, tmpDir, fetch, transfer).value;
    ServedFile(url, formatId, tmpDir, fetch, transfer);
    var name := served.fileName;
    assert forall i :: 0 <= i < |name| ==> name[i] != '/';
    assert !StartsWith(name, "/");
    assert !EndsWith(tmpDir, "/");
    assert |name| >= 4;
  }
}
