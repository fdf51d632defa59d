# Universal Downloader core, in Dafny

Universal Downloader is a thin HTTP relay with two parts. A FastAPI backend
has two endpoints. `GET /formats` asks a Piped instance for a video's streams
and lists them as downloadable formats. `GET /download` fetches the chosen
stream into a temporary directory and returns it with a
`Content-Disposition` header. A React frontend reads the file name back out
of that header.

This project models the parts of that flow that hold logic:

- `Filename`: `sanitize_filename`.
- `Text` and `VideoId`: the video-id derivation `url.split("v=")[-1].split("&")[0]`, including Python's `str.split`.
- `Piped` and `Formats`: the `/formats` handler and the Piped payload it reads.
- `Decimal`: `str(int)`, used to compare itags with the requested format id.
- `Download`: the `/download` handler. It covers the stream lookup, file naming, media type, header value and the fate of the temporary directory.
- `Percent`: Python's `urllib.parse.quote` and JavaScript's `decodeURIComponent` over UTF-8.
- `ContentDisposition`: the frontend's `extractFilenameFromCD`. It tries three regular expressions in turn, replaces `+` with a space, and falls back to the raw capture.
- `Consistency`: how the listing and the download relate.
- `HeaderRoundTrip`: the round trip of the file name from backend header to frontend.

Everything is pure functions over immutable datatypes. The metadata request
and the byte copy are function parameters (`Piped.Fetch`,
`Download.Transfer`). The temporary directory's fate is a value
(`Download.TempDir`).

The live handlers differ from the repository's earlier `yt_dlp` variant and
leave one gap. The model follows the live code in both places:

- **Media types.** The commented-out `yt_dlp` variant maps six extensions to MIME types, with `application/octet-stream` as the fallback (`backend/main.py:101-108`). The live `/download` handler only ever produces `mp4` with `video/mp4`, or `mp3` with `audio/mpeg` (`backend/main.py:227`, `:238`). The live listing, by contrast, labels entries `webm` or `m4a` (`backend/main.py:178`, `:187`). `Consistency.ListedExtVersusDownloadExt` states exactly when the listing and the download disagree. `Consistency.AudioMp4ListedM4aServedMp3` shows one case: an `audio/mp4` stream is listed as `m4a` but saved as `.mp3` and served as `audio/mpeg`.
- **Cleanup.** When anything in the handler raises, the `except` branch removes the temporary directory at once (`backend/main.py:249-250`). On success, removal is only registered when `background_tasks` is present (`backend/main.py:240-241`). Otherwise nothing removes the directory, and `Download.HandleDownload` reports it as `LeftBehind`.

## Model

| member | source | states |
|---|---|---|
| Filename.Sanitize | backend/main.py:153-154 | the result is no longer than the name and contains none of `\ / * ? : " < > \|` |
| Filename.SanitizeCounts | backend/main.py:153-154 | every allowed character is kept exactly as often as it occurs; every forbidden one is dropped |
| Filename.SanitizeChar | backend/main.py:153-154 | a single character is kept exactly when it is not one of the nine |
| Filename.SanitizeAppend | backend/main.py:153-154 | sanitising distributes over concatenation, so, with `Filename.SanitizeChar`, allowed characters keep their order |
| Filename.SanitizeFixedPoint | backend/main.py:153-154 | a name is left unchanged if and only if it holds none of the nine characters |
| Filename.SanitizeIdempotent | backend/main.py:153-154 | sanitising twice equals sanitising once |
| Text.Split | backend/main.py:161 | Python `str.split` with a non-empty separator always yields at least one part |
| Text.SplitPartsClean | backend/main.py:161 | no part of a split contains the separator |
| Text.SplitJoin | backend/main.py:161 | joining the parts with the separator gives back the input |
| Text.SplitWithoutSeparator | backend/main.py:161 | text without the separator splits into itself alone |
| Text.SplitFirst | backend/main.py:161 | `[0]` is the prefix before the first separator: no separator starts inside it, and it is either the whole text or followed by the separator |
| Text.SplitLast | backend/main.py:161 | `[-1]` is the suffix after the last separator: either the whole text, or preceded by the separator |
| VideoId.VideoIdClean | backend/main.py:161 | the derived id contains no `&` and no `v=` |
| VideoId.VideoIdIdempotent | backend/main.py:161 | deriving the id of an id changes nothing |
| VideoId.VideoIdLocation | backend/main.py:212 | the id sits in the URL right after the last `v=` (or at the start) and runs to the next `&` (or the end) |
| Decimal.IntToDecimalRoundTrip | backend/main.py:219 | the decimal text of `str(itag)` parses back to the same integer, negatives included |
| Decimal.IntToDecimalInjective | backend/main.py:219 | two itags have equal `str` texts if and only if they are equal |
| Formats.GetFormats | backend/main.py:166-196 | fails with 400 "Could not fetch video data" if and only if the title is missing; otherwise it carries the title and thumbnail and one entry per stream, video entries first and then audio entries, each in payload order |
| Formats.ListFormats | backend/main.py:160-199 | every failure is status 400; it fails if and only if the fetch fails or the title is missing; a fetch error's message is passed through, a missing title gives "Could not fetch video data"; once the payload is fetched, the answer is exactly its listing by `Formats.GetFormats` |
| Formats.VideoEntryShape | backend/main.py:175-181 | a video entry has the stream's itag; it is `mp4` if and only if the MIME type contains `video`, else `webm`; its label is `<quality> (<fps>fps)`; its size is the declared length or 0 |
| Formats.AudioEntryShape | backend/main.py:184-190 | an audio entry has the stream's itag; it is `mp3` if and only if the MIME type contains `audio/mp3`, else `m4a`; its label is `Audio`; its size is the declared length or 0 |
| Formats.ListingWellFormed | backend/main.py:175-190 | every label is non-empty; sizes are non-negative when no declared length is negative |
| Download.FirstMatch | backend/main.py:217-221 | the index returned is the first stream whose `str(itag)` equals the format id; none is returned only when no stream matches |
| Download.FirstWhereIsLeftmost | backend/main.py:218-221 | the loop stops at the first stream from a given position that passes the test; it finds nothing only when no stream from there on passes |
| Download.VideoStreamsFirst | backend/main.py:217-224 | a matching video stream always wins over audio streams; audio is served only when no video stream matches; no stream is found if and only if none matches |
| Download.ServeFailures | backend/main.py:211-234 | the handler fails on a fetch error, then "Format not found", then the missing-title `KeyError`, then a transfer error, in that order, with each message passed through |
| Download.FileNameKeepsExt | backend/main.py:227-228 | sanitising `<title>.mp4` or `<title>.mp3` only touches the title |
| Download.ServedFile | backend/main.py:226-247 | a served file's stream matches the format id; its name is the sanitised title plus `.mp4` when the MIME type contains `video`, else `.mp3`; its type is `video/mp4` for mp4 and `audio/mpeg` for mp3; its header is `attachment; filename*=UTF-8''` plus the quoted name |
| Download.FileInsideTempDir | backend/main.py:228-229 | the file path is the temporary directory, `/`, and a name without `/` that is neither `.` nor `..` |
| Download.HandleDownload | backend/main.py:209-251 | every failure is status 500 with the raised message and removes the directory at once; a success answers with exactly the file the handler's body built, and schedules removal only when background tasks are present, otherwise leaving the directory behind |
| Percent.HexRoundTrip | backend/main.py:236 | an upper-case hex digit written by `quote` reads back to its value |
| Percent.QuoteBytesAppend | backend/main.py:236 | percent-encoding distributes over concatenation of byte strings |
| Percent.QuoteAlphabet | backend/main.py:236 | `quote` output holds only unreserved characters, `/` and `%`; a non-empty name gives non-empty output |
| Percent.DecodeQuotedChar | backend/main.py:236 | one escaped character, in one to four UTF-8 bytes, decodes back to that character |
| Percent.DecodeQuote | backend/main.py:236 | `decodeURIComponent(quote(s)) == s` for every string |
| ContentDisposition.MatchAt | frontend/src/App.jsx:40 | a greedy non-empty capture at a fixed position matches exactly the capture that the pattern's text allows there, and is the only such capture |
| ContentDisposition.Search | frontend/src/App.jsx:40 | the position returned is the leftmost where the pattern matches; none is returned only when no position matches |
| ContentDisposition.PlusToSpace | frontend/src/App.jsx:43 | same length; each `+` becomes a space and every other character is kept |
| ContentDisposition.CaptureLeftmost | frontend/src/App.jsx:40 | `match` finds nothing if and only if the pattern matches nowhere; otherwise it finds the capture at the leftmost match |
| ContentDisposition.ExtractFromFirstMatchingTier | frontend/src/App.jsx:39-63 | the file name comes from the first of the three forms that matches anywhere, at its leftmost match, decoded or raw |
| ContentDisposition.ExtractNull | frontend/src/App.jsx:37-64 | `null` is returned if and only if the header is missing or empty, or none of the three forms matches |
| ContentDisposition.DecodeWithoutPercent | frontend/src/App.jsx:43 | text without `%` decodes to itself |
| ContentDisposition.TrailingPercentFails | frontend/src/App.jsx:42-46 | text ending in a lone `%` makes `decodeURIComponent` throw |
| ContentDisposition.TrailingPercentRaw | frontend/src/App.jsx:42-46 | for a capture ending in a lone `%`, the extractor returns the raw capture unchanged, `+` signs included |
| HeaderRoundTrip.DispositionRoundTrip | backend/main.py:236-244 | for any non-empty name, the frontend's extractor reads the backend's header value back to exactly that name |
| HeaderRoundTrip.ServedNameReadBack | backend/main.py:226-247 | the name the frontend's extractor reads back from a successful download's header is exactly the file name the backend chose |
| Consistency.ListedIdIsItag | backend/main.py:175-190 | the k-th listed id is the itag of the k-th stream in `videoStreams + audioStreams` order |
| Consistency.ListedFormatDownloads | backend/main.py:175-232 | every listed id re-resolves on download against the same payload to a stream with that itag; the download then succeeds if and only if its one byte copy, from that stream's URL into the file named after the title, succeeds |
| Consistency.SongListing | backend/main.py:184-190 | a payload titled `song` whose one stream is an `audio/mp4` audio stream with itag 140 is listed as a single `m4a` entry with id 140 |
| Consistency.AudioMp4ListedM4aServedMp3 | backend/main.py:217-238 | downloading format `140` from that same payload, when the copy into `song.mp3` succeeds, saves `song.mp3` with type `audio/mpeg` |
| Consistency.ListedExtVersusDownloadExt | backend/main.py:175-227 | with distinct itags, the download serves the listed stream; its extension matches the listed one if and only if: for video, the MIME type contains `video`; for audio, it contains `audio/mp3` and not `video` |

## Left out

- Network I/O: the Piped request, JSON decoding and the streamed byte copy are parameters. Their failures are modelled as error messages, and the bytes written are not modelled.
- FastAPI routing, CORS, query parsing and `FileResponse` streaming: framework behaviour outside the handlers' logic.
- The commented-out `yt_dlp` variant at the top of `backend/main.py` (lines 1-124): it is dead code.
- The frontend's state handling, download progress, blob handling and `niceSize`: UI behaviour with no logic beyond formatting.
- `Piped.Payload` has typed fields only. A stream without `itag`, `mimeType` or `url` makes the source raise `KeyError`, which is not modelled. So does a video stream without `quality` or `fps` in the listing (`backend/main.py:179`, answered with 400). A `videoStreams` or `audioStreams` key that is present but JSON `null` makes the concatenation or the loop raise `TypeError` (`backend/main.py:175`, `:184`, `:218`). The typed payload has no such value, so this failure is not modelled either. Neither is a `title` that is present but JSON `null`. A `contentLength` that is present but JSON `null` is read like a missing one, as size 0. The source's `f.get("contentLength", 0)` returns `None` for it, so the listing would show `size: null` (`backend/main.py:180`, `:189`).
- The per-request concurrency and the uniqueness of `mkdtemp` names: the directory is given to `Download.HandleDownload` as a parameter.
- When `shutil.rmtree` runs relative to the response being sent is not modelled. Only whether removal happens, is scheduled or is skipped is modelled.
- The format id reaches the backend as JavaScript's `String(id)` of a JSON number. It is assumed to equal Python's `str(itag)`. This holds only for itags of magnitude at most 2^53: `JSON.parse` rounds larger integers to the nearest double, so the id sent back can differ from the listed itag, and the lookup then fails with "Format not found".
- Characters are Unicode scalar values. JavaScript strings are UTF-16, so lone surrogates are not modelled on either side. `Percent.Quote` therefore never meets the code points that Python's `quote` would reject.
- `decodeURIComponent` error kinds: every `URIError` is a single `None`.
- The percent decoder rejects overlong forms, surrogates, code points above U+10FFFF and stray continuation bytes, as JavaScript does. Its behaviour on other malformed input is only as faithful as that list of checks.
