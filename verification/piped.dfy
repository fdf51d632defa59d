/** The decoded JSON payload of the Piped `/streams/<id>` endpoint, reduced to
    the fields the backend reads, and the error shape FastAPI reports. */
module Piped {
  import opened Wrappers
  import VideoId

  /** One entry of `videoStreams` or `audioStreams`. A missing
      `contentLength` is `None`. */
  datatype Stream = Stream(
    itag: int,
    mimeType: string,
    quality: string,
    fps: int,
    contentLength: Option<int>,
    url: string
  )

  /** The payload. `title` is `None` when the key is absent; a missing stream
      list reads as empty, as `data.get(key, [])` does. */
  datatype Payload = Payload(
    title: Option<string>,
    thumbnailUrl: Option<string>,
    videoStreams: seq<Stream>,
    audioStreams: seq<Stream>
  )

  /** An `HTTPException`: status code and `detail` text. */
  datatype HttpError = HttpError(status: int, detail: string)

  /** The Piped instance every request goes to. */
  const PipedApi: string := "https://pipedapi.kavin.rocks"

  /** The metadata URL both handlers request for a video URL. */
  function StreamsUrl(url: string): string {
    PipedApi + "/streams/" + VideoId.VideoId(url)
  }

  /** The metadata request (`requests.get(...).json()`): the decoded payload
      or the message of whatever it raised. */
  type Fetch = string -> Result<Payload, string>
}
