/** The `/formats` handler: derive the video id, fetch the Piped payload, and
    turn its streams into the format list the frontend shows. */
module Formats {
  import opened Wrappers
  import opened Text
  import opened Decimal
  import opened Piped

  /** One element of the `formats` array. */
  datatype FormatEntry = FormatEntry(id: int, ext: string, resolution: string, size: int)

  /** The response body: `title`, `thumbnail` (JSON `null` when absent) and
      `formats`. */
  datatype MediaInfo = MediaInfo(title: string, thumbnail: Option<string>, formats: seq<FormatEntry>)

  /** The message raised when the payload has no `title`. */
  const NoVideoData: string := "Could not fetch video data"

  /** `f.get("contentLength", 0)`. */
  function SizeOf(s: Stream): int {
    s.contentLength.GetOr(0)
  }

  /** The label `"<quality> (<fps>fps)"` of a video stream. */
  function VideoResolution(s: Stream): string {
    s.quality + " (" + IntToDecimal(s.fps) + "fps)"
  }

  /** The entry listed for a video stream. */
  function VideoEntry(s: Stream): FormatEntry {
    FormatEntry(s.itag, if Contains(s.mimeType, "video") then "mp4" else "webm", VideoResolution(s), SizeOf(s))
  }

  /** The entry listed for an audio stream. */
  function AudioEntry(s: Stream): FormatEntry {
    FormatEntry(s.itag, if Contains(s.mimeType, "audio/mp3") then "mp3" else "m4a", "Audio", SizeOf(s))
  }

  /** One loop of the handler: appends one entry per stream, in order. */
  function Entries(ss: seq<Stream>, entry: Stream -> FormatEntry): (es: seq<FormatEntry>)
    ensures |es| == |ss|
    ensures forall i :: 0 <= i < |ss| ==> es[i] == entry(ss[i])
    decreases |ss|
  {
    if ss == [] then [] else [entry(ss[0])] + Entries(ss[1..], entry)
  }

  /** The body of the handler's `try` once the payload is decoded. */
  function GetFormats(data: Payload): (r: Result<MediaInfo, HttpError>)
    ensures r.Failure? <==> data.title.None?
    ensures r.Failure? ==> r.error == HttpError(400, NoVideoData)
    ensures r.Success? ==>
      && r.value.title == data.title.value
      && r.value.thumbnail == data.thumbnailUrl
      && |r.value.formats| == |data.videoStreams| + |data.audioStreams|
      && (forall i :: 0 <= i < |data.videoStreams| ==>
            r.value.formats[i] == VideoEntry(data.videoStreams[i]))
      && (forall j :: 0 <= j < |data.audioStreams| ==>
            r.value.formats[|data.videoStreams| + j] == AudioEntry(data.audioStreams[j]))
  {
    if data.title.None? then
      Failure(HttpError(400, NoVideoData))
    else
      var formats := Entries(data.videoStreams, VideoEntry) + Entries(data.audioStreams, AudioEntry);
      Success(MediaInfo(data.title.value, data.thumbnailUrl, formats))
  }

  /** `GET /formats?url=...`: every failure, whether raised by the fetch or by
      the missing title, becomes status 400 with the raised message; once the
      payload is fetched, the answer is its listing. */
  function ListFormats(url: string, fetch: Fetch): (r: Result<MediaInfo, HttpError>)
    ensures r.Failure? ==> r.error.status == 400
    ensures r.Failure? <==> (fetch(StreamsUrl(url)).Failure? || fetch(StreamsUrl(url)).value.title.None?)
    ensures fetch(StreamsUrl(url)).Failure? ==> r.error.detail == fetch(StreamsUrl(url)).error
    ensures fetch(StreamsUrl(url)).Success? && fetch(StreamsUrl(url)).value.title.None? ==>
      r.error.detail == NoVideoData
    ensures fetch(StreamsUrl(url)).Success? ==> r == GetFormats(fetch(StreamsUrl(url)).value)
  {
    match fetch(StreamsUrl(url))
    case Failure(message) => Failure(HttpError(400, message))
    case Success(data) => GetFormats(data)
  }

  /** A listed video entry: `mp4` exactly when the MIME type mentions
      `video`, otherwise `webm`; the label is quality and frame rate; the size
      is the declared length or 0. */
  lemma VideoEntryShape(data: Payload, i: nat)
    requires data.title.Some? && i < |data.videoStreams|
    ensures var e := GetFormats(data).value.formats[i];
      var s := data.videoStreams[i];
      && e.id == s.itag
      && (e.ext == "mp4" <==> Contains(s.mimeType, "video"))
      && (e.ext == "webm" <==> !Contains(s.mimeType, "video"))
      && e.resolution == s.quality + " (" + IntToDecimal(s.fps) + "fps)"
      && (s.contentLength.Some? ==> e.size == s.contentLength.value)
      && (s.contentLength.None? ==> e.size == 0)
  {
  }

  /** A listed audio entry: `mp3` exactly when the MIME type mentions
      `audio/mp3`, otherwise `m4a`; the label is `Audio`; the size is the
      declared length or 0. */
  lemma AudioEntryShape(data: Payload, j: nat)
    requires data.title.Some? && j < |data.audioStreams|
    ensures var e := GetFormats(data).value.formats[|data.videoStreams| + j];
      var s := data.audioStreams[j];
      && e.id == s.itag
      && (e.ext == "mp3" <==> Contains(s.mimeType, "audio/mp3"))
      && (e.ext == "m4a" <==> !Contains(s.mimeType, "audio/mp3"))
      && e.resolution == "Audio"
      && (s.contentLength.Some? ==> e.size == s.contentLength.value)
      && (s.contentLength.None? ==> e.size == 0)
  {
  }

  /** Every listed entry has a non-empty label and, when no declared length is
      negative, a non-negative size. */
  lemma ListingWellFormed(data: Payload)
    requires data.title.Some?
    ensures forall e :: e in GetFormats(data).value.formats ==> e.resolution != []
    ensures (forall s :: s in data.videoStreams + data.audioStreams ==> s.contentLength.GetOr(0) >= 0) ==>
      forall e :: e in GetFormats(data).value.formats ==> e.size >= 0
  {
    var fs := GetFormats(data).value.formats;
    var all := data.videoStreams + data.audioStreams;
    forall e | e in fs
      ensures e.resolution != [] && e.size == SizeOf(all[IndexOf(fs, e)])
    {
      EntryAt(data, IndexOf(fs, e));
    }
  }

  /** Some position of `e` in `fs`. */
  ghost function IndexOf(fs: seq<FormatEntry>, e: FormatEntry): (k: nat)
    requires e in fs
    ensures k < |fs| && fs[k] == e
  {
    var k :| 0 <= k < |fs| && fs[k] == e; k
  }

  /** The `k`-th entry comes from the `k`-th stream of the scan order. */
  lemma EntryAt(data: Payload, k: nat)
    requires data.title.Some? && k < |data.videoStreams| + |data.audioStreams|
    ensures var e := GetFormats(data).value.formats[k];
      && e.resolution != []
      && e.size == SizeOf((data.videoStreams + data.audioStreams)[k])
  {
    var v := data.videoStreams;
    if k < |v| {
      assert (v + data.audioStreams)[k] == v[k];
    } else {
      assert (v + data.audioStreams)[k] == data.audioStreams[k - |v|];
    }
  }
}
