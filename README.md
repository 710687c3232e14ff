# StreamSave analyze handler, modelled in Dafny

StreamSave is a small Flask backend. A client posts a video page URL to
`/analyze`; the server asks yt_dlp for the video's metadata and answers
with the title, thumbnail, channel, the duration in seconds and as a
clock string, and a list of downloadable quality variants. Each variant
carries a link to `/download`, which redirects to the media itself.

This project models the logic the repository owns inside `analyze_video`:

- **URL check** (`Analyze.RequireUrl`): a missing or empty `url` is answered with 400.
- **Duration string** (`Duration`): two `divmod` calls split the seconds into
  hours, minutes and seconds, printed as `H:MM:SS` with at least one hour
  and as `M:SS` otherwise. A missing duration counts as 0.
- **Format list** (`Formats`, `Ordering`, `Processing`): the loop over the
  extractor's formats skips entries without a truthy height. A missing `ext`
  becomes `mp4`. Each kept format gets the key `"<h>p-<ext>"`. The loop keeps
  the first mp4/webm format per key, using a `seen_qualities` set. The list is
  then sorted by numeric height, highest first, with a stable sort.
  `Processing.ProcessFormats` is that loop as a method. It is proved equal to
  `Processing.Listing`, which sorts the result of `Formats.Collect`.
  `Formats.Collect` is proved equal to `Formats.FirstSeen`, a declarative
  reference without the seen set: "the first format of each (height, ext)
  pair, in input order". The theorems in `Processing` are stated against that
  reference.
- **Download link** (`Query`): each variant carries the link
  `/download?url=<url>&format_id=<id>` exactly as the handler pastes it
  together (`Query.LinkAsWritten`), with nothing percent-encoded. The model
  also covers how the `/download` route reads the query string back with
  `request.args.get` (`Query.Lookup`). The url and id come back intact when
  neither holds '&', '%', '+' or '#' (`Query.LinkAsWrittenRoundTrip`); a url
  holding '&' is cut short (`Query.LinkAsWrittenTruncates`).
- **The handler** (`Analyze.AnalyzeVideo`): the steps above in their order.
  The extractor is a function parameter from the url to its answer or error
  message. Every error path becomes a 400 or 500 answer.

A format dictionary key is modelled as `Missing`, `Null` or `Present(v)`
because the handler tells them apart in three places:
- `f.get('ext', 'mp4')` gives `mp4` only when the key is absent. A null ext
  is not mp4/webm, so the format is dropped.
- `f['format_id']` raises `KeyError` when the key is absent. This happens for
  every format that passes the height check, before the mp4/webm filter, so
  the whole request fails with 500 and the message `'format_id'`.
- A null `format_id` is printed as `None` in the link.

Three edge cases follow from the code as written. A format whose height is 0
is dropped like one with no height, since `not 0` holds. An empty url is
refused like a missing one. A format that has a height but no `format_id`
fails the whole request.

## Model

| member | source | states |
|---|---|---|
| `Analyze.RequireUrl` | stream.py:19-20 | the url is refused, with status 400, exactly when it is missing or empty; otherwise it is passed on unchanged |
| `Analyze.AnalyzeVideo` | stream.py:15-91 | 400 exactly for a missing or empty url; an extractor error becomes a 500 with its message; otherwise the format loop's error becomes a 500 or the response carries the defaults for absent keys, the duration string of the duration (0 when absent) and the sorted format list |
| `Duration.Split` | stream.py:44-45 | hours*3600 + minutes*60 + seconds equals the total, with minutes and seconds below 60 |
| `Duration.SplitUnique` | stream.py:44-45 | that decomposition is the only one with minutes and seconds below 60 |
| `Duration.Format` | stream.py:46 | `duration_str`, the f-string over the two divmods; what it means is stated by `FormatFields` and `ParseFormat` |
| `Duration.FormatFields` | stream.py:46 | the string has three colon-separated fields when the total is at least an hour and two otherwise; the first field is printed unpadded (no leading zero unless it is the single digit 0); the last field is two digits worth total mod 60; in the long form the minutes are two digits |
| `Duration.ParseFormat` | stream.py:46 | reading the printed string back as H:MM:SS or M:SS gives the original number of seconds |
| `Duration.FormatInjective` | stream.py:46 | two different durations never print the same string |
| `Duration.Examples` | stream.py:40-46 | 3661 prints as "1:01:01", 59 as "0:59", and the default 0 as "0:00" |
| `Text.Show` | stream.py:56 | str(n) is one or more digits, with no leading zero for a non-zero n |
| `Text.ParseShow` | stream.py:78 | int(str(n)) == n |
| `Text.ZeroPad2` | stream.py:46 | the :02d form is all digits, at least two of them, exactly two below 100 |
| `Text.ParseZeroPad2` | stream.py:46 | padding does not change the value read back |
| `Formats.Ext` | stream.py:57 | `f.get('ext', 'mp4')`: "mp4" only for an absent key, none for a null, the value otherwise |
| `Formats.UniqueKey` | stream.py:65 | `unique_key`, "<h>p-<ext>"; it tells formats apart as their (height, ext) pair does (`UniqueKeyInjective`) |
| `Formats.HeightOf` | stream.py:78 | the sort key `int(resolution.replace('p', ''))`; it gives back the height for every resolution the handler builds (`ResolutionRoundTrip`) |
| `Formats.UniqueKeyInjective` | stream.py:65 | for mp4/webm formats with a height, the string key "<h>p-<ext>" is equal exactly when the (height, ext) pair is |
| `Formats.ResolutionRoundTrip` | stream.py:78 | removing "p" from "<h>p" and parsing gives h back, so the sort key is the format's height |
| `Formats.SizeOf` | stream.py:60-61 | "Unknown" exactly when neither filesize nor filesize_approx is non-zero; otherwise the exact size wins over the approximate one |
| `Formats.MakeVariant` | stream.py:60-75 | the variant's (resolution, ext) key is the format's key, its ext is the format's ext, its filesize is the format's size (or "Unknown"), and its link is the one the handler pastes together |
| `Formats.VariantFacts` | stream.py:56-78 | the variant's sort key is the format's height, its resolution is "<height>p", its link is `/download?url=<url>&format_id=<id>`, and that link reads back the url and the id when neither holds '&', '%', '+' or '#' |
| `Formats.Step` | stream.py:53-75 | one pass of the loop body: skip without a height, raise without a format_id, otherwise append when the key is new and the ext is mp4 or webm |
| `Formats.Collect` | stream.py:49-75 | the list the loop has built after a prefix of the formats, or the KeyError; its meaning is stated by `CollectFails` and `CollectIsFirstSeen` |
| `Formats.FirstSeen` | stream.py:65-75 | the reference list without a seen set: one variant per format that is first of its (height, ext) pair, in input order |
| `Formats.CollectFails` | stream.py:52-64 | the loop raises exactly when some format with a height has no format_id, with the KeyError's message |
| `Formats.FirstSeenKeys` | stream.py:65-69 | after each prefix, the seen set holds exactly the keys of the mp4/webm formats with a height met so far |
| `Formats.CollectIsFirstSeen` | stream.py:49-75 | the loop with its seen set lists exactly the first format of each (height, ext) pair, in input order |
| `Formats.FirstSeenSound` | stream.py:65-75 | every listed variant comes from a format that is first of its (height, ext) pair |
| `Formats.FirstSeenComplete` | stream.py:65-75 | every format that is first of its (height, ext) pair is listed |
| `Formats.FirstSeenMembers` | stream.py:65-75 | a variant is listed if and only if it is made from a format that is first of its (height, ext) pair |
| `Formats.FirstSeenDistinct` | stream.py:65-69 | no two listed variants share a (resolution, ext) pair |
| `Formats.FirstOfKeyExists` | stream.py:65-69 | every mp4/webm format with a height has a format at or before it that is first of its (height, ext) pair |
| `Ordering.Insert` | stream.py:78 | inserting adds exactly the one element |
| `Ordering.SortBy` | stream.py:78 | the sort is a permutation of its input |
| `Ordering.SortDescending` | stream.py:78 | with `reverse=True`, keys never increase after the sort |
| `Ordering.SortStable` | stream.py:78 | the sort is stable: for every key, the elements with that key keep their order |
| `Ordering.SortDistinct` | stream.py:78 | sorting cannot make two elements agree on a property they did not agree on before |
| `Processing.Listing` | stream.py:49-78 | the `formats` list of the response: the loop's list sorted by height, or the loop's error |
| `Processing.ProcessFormats` | stream.py:49-78 | the loop with its list and seen set, then the sort, produces exactly the list of `Listing`, or the KeyError's message |
| `Processing.ListingFails` | stream.py:52-64 | the format list fails exactly when a format with a height lacks a format_id, with message 'format_id' |
| `Processing.ListingIsSortedFirstSeen` | stream.py:49-78 | otherwise the list is the first format of each (height, ext) pair, sorted by height |
| `Processing.ListingMembers` | stream.py:52-75 | a variant is in the response if and only if its format has a non-zero height, an mp4/webm ext and no earlier such format with the same (height, ext) |
| `Processing.ListingShape` | stream.py:53-68 | every variant has a non-zero height, resolution "<height>p", and ext "mp4" or "webm" |
| `Processing.ListingDistinct` | stream.py:65-69 | no two variants in the response share a (resolution, ext) pair |
| `Processing.ListingComplete` | stream.py:52-75 | every mp4/webm format with a height has its (height, ext) pair in the response, as the variant of the first such format; that variant's link is `/download?url=<url>&format_id=<id>` with its id, and reads both back when neither holds '&', '%', '+' or '#' |
| `Processing.ListingOrder` | stream.py:78 | the response is ordered by height, non-increasing, and for each height its variants appear in input order |
| `Query.LinkAsWritten` | stream.py:64 | `download_link`, the url and format id pasted in unencoded |
| `Query.Lookup` | stream.py:95-96 | `request.args.get(name)`: split the query at '&', take the first pair whose decoded name matches, decode its value |
| `Query.LinkAsWrittenRoundTrip` | stream.py:64 | the link as written reads back the url and the format id when neither holds '&', '%', '+' or '#' |
| `Query.DecodeEncode` | stream.py:64 | percent-decoding undoes percent-encoding |
| `Query.LinkRoundTrip` | stream.py:64 | the corrected link, read with request.args.get, gives back exactly the url and the format id |
| `Query.LinkAsWrittenTruncates` | stream.py:64 | the link as written, for a url holding '&', gives back only the part before the '&' |
| `Query.LinkAsWrittenExample` | stream.py:64 | the url "https://y.tv/w?v=a&t=1" comes back from the link as written as "https://y.tv/w?v=a" |

## Left out

- Flask setup, CORS, the root route, `jsonify` and the HTTP status plumbing (stream.py:1-12, 80-87, 127-129): web I/O. The response is a datatype and the status a function of the error.
- The yt_dlp options and `extract_info` (stream.py:25-35): a foreign library call. Its answer is the `extract` parameter of `Analyze.AnalyzeVideo`.
- `download_video` and `download_audio` (stream.py:93-125): they only pass parameters to yt_dlp and redirect. Only how `/download` reads its query string (`request.args.get`) is modelled, in `Query.Lookup`.
- The megabyte string `round(filesize / (1024*1024), 1)` (stream.py:61): floating-point division and rounding. `Size.Megabytes` keeps the byte count that would be printed; the "Unknown" branch is modelled exactly.
- Exceptions other than the extractor's error and the missing `format_id` KeyError: a non-numeric filesize, a `formats` key that is null, a null duration, a request body that is not JSON.
- Non-integer durations and negative heights: durations and heights are natural numbers.
- Null values of the top-level keys title, thumbnail and uploader: only absent keys get their defaults.
- A url that is not a string: the url is an optional string, refused when absent or empty.
- Python's sort algorithm: the library sorts in place. Its result is modelled by the stable insertion sort `Ordering.SortBy`, keyed like `sort(key=...)` and applied with `Formats.HeightOf` as the key, with order, stability and permutation proved.
- Formats.HeightOf: returns 0 where `int()` would raise. Every variant the handler builds parses (`Formats.ResolutionRoundTrip`), so that branch is never taken.
- Query.Encode: leaves characters above 127 unescaped, where `urllib.parse.quote` would escape their UTF-8 bytes. `Query.Decode` turns %XY into the character with code XY rather than decoding UTF-8. Both agree on ASCII.
- Query.Lookup: does not strip a '#' fragment, which a client would drop before sending the request.

## Findings

| source | as written | input that shows it | evidently intended | confidence | as-written member | corrected member |
|---|---|---|---|---|---|---|
| stream.py:64 | the video url and format_id are pasted into the `/download` link without percent-encoding, and `/download` reads them back with `request.args.get` (stream.py:95-96) | video url `https://y.tv/w?v=a&t=1`, format id `18`: the link is `/download?url=https://y.tv/w?v=a&t=1&format_id=18`, and `/download` reads url `https://y.tv/w?v=a` | both values percent-encoded, so `/download` reads back exactly the analyzed url and the format id | medium, not executed | `Query.LinkAsWrittenTruncates` | `Query.LinkRoundTrip` |

The handler's model keeps the link as written (`Formats.MakeVariant`). The corrected `Query.Link` is defined and proved beside it but used nowhere else.
