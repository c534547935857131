# Video controller of the downloader backend, in Dafny

This project models the backend controller of a small web service that wraps
the `yt-dlp` extraction tool. The controller answers two requests:

- **info** (`POST /api/info`, body `{ url }`). It checks for the URL, then
  looks the URL up in a metadata cache whose entries live one hour. On a hit
  it answers with the cached object. On a miss it runs the tool once in
  JSON-dump mode, projects the output to `{ title, thumbnail, duration,
  author, formats }`, stores the result and answers with it. When the tool
  fails, the error goes to the next handler and nothing is stored.
- **download** (`GET /api/download?url=&format=`). It checks for the URL and
  always runs the tool once for the title, without looking at the cache. It
  sets `Content-Disposition: attachment; filename="<stem>.<format>"`. The
  stem is the title, or `video` when the title is missing or empty, with
  every character outside `[\w\s-]` deleted. It then streams either audio
  extracted to mp3 (format `mp3`) or the best mp4 (any other format). A
  failure before streaming answers 500 if the headers are still unsent.

The project has five modules:

- `Wrappers` (`wrappers.dfy`): `Option`.
- `Duration` (`duration.dfy`): `ConvertDuration` turns whole seconds into
  `M:SS`. `ParseDuration` is its inverse, and the two are proved to be a
  bijection between whole numbers and well-formed duration texts.
- `Sanitize` (`sanitize.dfy`): the title filter `StripDisallowed`, the stem
  with its fallback `TitleStem`, and lemmas about the output's
  characters, order, counts and idempotence.
- `TtlCache` (`ttl_cache.dfy`): the cache's `Get` and `Set`. An entry stored
  at time t is live up to and including t + 3600 s. A `Get` of an expired
  entry finds nothing and deletes it.
- `Controller` (`video_controller.dfy`): the class `VideoController`. Its
  field `cache` is the module-level cache. `GetVideoInfo` updates the cache
  and `DownloadVideo` does not touch it. The module also holds the
  file-name and header functions and two client methods that chain two
  info requests.

Inputs the code reads from its environment become parameters:

- The extraction tool is a function `Extractor` from an `Invocation`
  (URL plus options) to `Option<Metadata>`.
- The clock is a number of milliseconds. The info handler gets two clock
  values: `now` when it reads the cache and `setAt` when it stores.
- Both handlers return what they answer as a value: `InfoResponse` or
  `DownloadResponse`.
- Both handlers return the list of tool invocations they made, so "no
  extraction" can be stated.

The model rests on three assumptions about the platform:

- JavaScript's `\s` is the ECMAScript WhiteSpace and LineTerminator set,
  with the space separators of Unicode category Zs. `Sanitize.IsJsSpace`
  lists that set. `\w` is `[A-Za-z0-9_]`.
- Setting a header throws when the value holds a character other than tab,
  `0x20`-`0x7E` or `0x80`-`0xFF`; this is the rule of Node's HTTP module.
  `res.header` at backend/controllers/videoController.js:59 is inside the
  `try`, so such a title takes the catch path and answers 500. One case the
  model proves: a title with an ideographic space (U+3000) survives
  sanitising and makes the download fail.
- Dafny characters are Unicode scalar values, while JavaScript strings are
  UTF-16 code units. For these character classes the two agree: each half
  of a surrogate pair is neither kept by the sanitiser nor allowed in a
  header, and neither is the whole character.

What the handlers do with their inputs and failures:

- `format` goes into the file name unchanged. The `type` and `quality`
  query parameters are ignored.
- A failed tool call, whatever the cause, takes the catch path.
- A failed info request calls `next` with a fixed message. The
  application's error handler (backend/index.js:37-43) answers 500 with it,
  and `InfoStatus` gives 500 for it.

## Model

| member | source | states |
|---|---|---|
| `Duration.NatToString` | backend/controllers/videoController.js:91 | the printed number of minutes or seconds is a decimal numeral without leading zero; it has one digit exactly when the number is below 10, and starts with '0' exactly when it is 0 |
| `Duration.ParseNatToString` | backend/controllers/videoController.js:91 | reading a printed number back gives the number |
| `Duration.ToStringParseNat` | backend/controllers/videoController.js:91 | every numeral without leading zero is the printing of its own value, so printing is one-to-one onto such numerals |
| `Duration.PadSecondsShape` | backend/controllers/videoController.js:90-91 | the seconds part is always exactly two digits; its value is the seconds, and it starts with '0' exactly when they are below 10 |
| `Duration.ConvertDurationShape` | backend/controllers/videoController.js:88-92 | the text is minutes, ':', two digits; the minutes part is the decimal of n / 60 with no roll-over into hours; the two digits read as n % 60 < 60, with a '0' in front exactly when n % 60 < 10 |
| `Duration.DurationRoundTrip` | backend/controllers/videoController.js:88-92 | reading the text back gives minutes * 60 + seconds == n |
| `Duration.DurationParseInverse` | backend/controllers/videoController.js:88-92 | every well-formed duration text is the formatting of exactly the number it reads as |
| `Duration.DurationExamples` | backend/controllers/videoController.js:88-92 | 75 gives "1:15", 5 gives "0:05", 3600 gives "60:00" |
| `Sanitize.StripDisallowed` | backend/controllers/videoController.js:57 | the sanitised text is never longer than the input |
| `Sanitize.StripOnlyKept` | backend/controllers/videoController.js:57 | every character left is a word character, JavaScript white space or '-' |
| `Sanitize.StripFromInput` | backend/controllers/videoController.js:57 | every character left occurs in the input; nothing is added |
| `Sanitize.StripIsSubsequence` | backend/controllers/videoController.js:57 | the output is the input with characters deleted, order preserved |
| `Sanitize.StripCounts` | backend/controllers/videoController.js:57 | each kept character occurs as often as in the input and every other character not at all; with the subsequence lemma, the output is exactly the input minus the other characters |
| `Sanitize.StripConcat` | backend/controllers/videoController.js:57 | the global replace works character by character: sanitising a concatenation concatenates the sanitised parts |
| `Sanitize.StripFixedPoint` | backend/controllers/videoController.js:57 | sanitising leaves a text unchanged exactly when all its characters are kept ones |
| `Sanitize.StripIdempotent` | backend/controllers/videoController.js:57 | sanitising twice is sanitising once |
| `Sanitize.StripNothingKept` | backend/controllers/videoController.js:57 | a text with no kept character becomes empty |
| `Sanitize.TitleStemCases` | backend/controllers/videoController.js:57 | the stem is "video" for a missing or empty title and the sanitised title otherwise |
| `Sanitize.TitleStemNothingKept` | backend/controllers/videoController.js:57 | the fallback comes before sanitising: a non-empty title of punctuation or non-`\w` letters gives an empty stem, not "video" |
| `Sanitize.TitleStemExample` | backend/controllers/videoController.js:57 | the title "Test/Video: Best?!" gives the stem "TestVideo Best" |
| `Sanitize.TitleStemExampleLiteral` | backend/controllers/videoController.js:57 | the same example with the title written as one literal |
| `Sanitize.TitleStemNonLatinExamples` | backend/controllers/videoController.js:57 | a Thai title and the title "!?" both give an empty stem |
| `TtlCache.GetCases` | backend/controllers/videoController.js:7-21 | a lookup finds a value exactly when the key holds an entry stored at most 3600 s ago; a hit leaves the cache as it was; a miss only drops the key |
| `TtlCache.SetThenGet` | backend/controllers/videoController.js:7-41 | what was stored is found again, unchanged, up to 3600 s after the store |
| `TtlCache.SetThenGetExpired` | backend/controllers/videoController.js:7-41 | more than 3600 s after the store the lookup is a miss and the entry is gone |
| `TtlCache.OtherKeysUnchanged` | backend/controllers/videoController.js:17-41 | lookup and store of one URL leave every other URL's entry as it was |
| `Controller.ToVideoDataShape` | backend/controllers/videoController.js:32-38 | the public object copies title and thumbnail, has author == uploader, formats == ["mp3", "mp4"], and a duration text that reads back as the tool's duration |
| `Controller.StreamFlagsChoice` | backend/controllers/videoController.js:62-77 | audio extraction to mp3 is chosen exactly when format is "mp3"; every other value, absent included, selects the mp4 selector |
| `Controller.CatchDownloadStatus` | backend/controllers/videoController.js:79-84 | the catch block answers 500 exactly when the headers are unsent, and nothing more otherwise |
| `Controller.KeptHeaderChar` | backend/controllers/videoController.js:57-59 | a kept character is refused in a header exactly when it is a line break from LF to CR or a space separator above U+00FF |
| `Controller.AttachmentFilenameCases` | backend/controllers/videoController.js:57-59 | the file name is the stem of kept characters, '.', and the format text ("undefined" when absent); "video." + format for a missing or empty title; "." + format for a title with nothing kept |
| `Controller.ContentDispositionAllowed` | backend/controllers/videoController.js:59 | setting the header succeeds exactly when no stem character breaks a header and the format text is a valid header value |
| `Controller.AsciiTitleHeaderAllowed` | backend/controllers/videoController.js:57-59 | a title of printable ASCII and tabs, with a valid format text, always gets past the header |
| `Controller.IdeographicSpaceBreaksHeader` | backend/controllers/videoController.js:57-59 | the title "A" U+3000 "B" keeps its ideographic space, so the header is refused and the download takes the catch path |
| `Controller.VideoController.constructor` | backend/controllers/videoController.js:7 | the cache starts empty |
| `Controller.VideoController.GetVideoInfo` | backend/controllers/videoController.js:9-48 | status 400 exactly for a missing or empty URL, with no extraction, cache unchanged; live hit: the cached value, no extraction, cache unchanged; miss: exactly one extraction with the info options; on success the answer is the projection and the cache is the old one with this URL's entry replaced and timestamped at the store; on failure the forwarded error and only this URL's expired entry removed; every other URL's entry is never changed; an OK answer equals what the cache holds for the URL and offers ["mp3", "mp4"]; the invariant that every cached value offers ["mp3", "mp4"] is kept |
| `Controller.VideoController.DownloadVideo` | backend/controllers/videoController.js:50-85 | status 400 exactly for a missing or empty URL (line 53), with no extraction; otherwise exactly one extraction with the title options, whatever the cache holds; a stream exactly when the tool answers and the Content-Disposition value is valid, with the sanitised file name and the mp3 or mp4 options; every other outcome is the 500 "Download Failed" |
| `Controller.InfoTwiceWithinTtl` | backend/controllers/videoController.js:17-41 | after an info request that asked the tool and got an answer, a second request within 3600 s of the store gets the same answer with no extraction |
| `Controller.InfoTwiceAfterTtl` | backend/controllers/videoController.js:17-41 | a second request more than 3600 s after the store asks the tool again |

## Left out

- The `yt-dlp-exec` calls and `process.stdout.pipe(res)`. The foreign binary, its subprocess and the byte stream are out of the model. The metadata call becomes the `Extractor` parameter. The streaming call becomes the `Invocation` held in `Stream`.
- Failures of the streaming process. They happen after the handler has returned and outside its `try`, so the handler cannot answer them. The model leaves them out. This is also why `CatchDownload` is always reached with the headers unsent.
- node-cache's periodic check. It deletes expired entries in the background, but a lookup already treats expired entries as absent. Clones made by `get` and `set` are also out; Dafny values need none.
- The exact expiry instant. node-cache keeps an entry while its expiry time is not before the clock. The model picks that boundary: an entry stored at t is live at t + 3 600 000 ms and expired after.
- Durations of 2^53 seconds or more. JavaScript numbers are doubles: from 2^53 on, `seconds / 60` and `seconds % 60` work on rounded values, and from 10^21 on `${m}` prints exponent form. `Duration.NatToString`, `Duration.DurationRoundTrip` and `Duration.DurationParseInverse` describe the program below 2^53 s, where its arithmetic and printing agree with the model on unbounded naturals.
- Durations that are fractional, missing or null. `Math.floor` and `%` on such values give floating-point, `NaN:NaN` or `0:00` results. `Metadata.duration` is a natural number.
- Request parameters that are not strings, such as a repeated query parameter (an array) or a number in the JSON body. `url` and `format` are `Option<string>`.
- The Express setup, CORS, rate limiting and route binding in `backend/index.js` and `backend/routes/api.js`. The error handler is reduced to the status 500 it gives a failed info request.
- The frontend (`frontend/src/services/api.js` and the React components). It is fetch I/O and presentation. `getDownloadUrl` only adds the defaults `type = 'video'` and `quality = 'best'`, which the backend ignores.
- Concurrent requests sharing the cache. Requests are modelled one at a time, and the time between the lookup and the store is only the two clock values.
- Logging to the console.
- `Controller.VideoController.GetVideoInfo`: for a cache hit it promises only that the answer offers ["mp3", "mp4"], not that its duration text reads back. A class invariant that also checks the duration text made the proof too costly. Every value enters the cache through the projection covered by `Controller.ToVideoDataShape`.
