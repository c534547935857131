/** The video controller: the info handler, which answers from a URL-keyed
    metadata cache or asks the extraction tool and caches the answer, and the
    download handler, which always asks the tool for the title, names the
    attachment after it and chooses the options of the streaming process.
    The extraction tool is a parameter: the answer it gives to one
    invocation. Responses are values instead of writes to the response
    object. */
module Controller {

  import opened Wrappers
  import Duration
  import Sanitize
  import TtlCache

  /** The fields of the extraction tool's JSON output that the handlers read. */
  datatype Metadata = Metadata(
    title: Option<string>,
    thumbnail: Option<string>,
    duration: nat,
    uploader: Option<string>)

  /** The public shape the info handler answers with and caches. */
  datatype VideoData = VideoData(
    title: Option<string>,
    thumbnail: Option<string>,
    duration: string,
    author: Option<string>,
    formats: seq<string>)

  /** An option passed to the extraction tool: a switch set to true, or a
      named value. */
  datatype Flag = Switch(name: string) | Param(name: string, value: string)

  /** One run of the extraction tool. */
  datatype Invocation = Invocation(url: string, flags: seq<Flag>)

  /** What the extraction tool answers to a metadata invocation: the parsed
      output, or None when the run fails. */
  type Extractor = Invocation -> Option<Metadata>

  const InfoFlags: seq<Flag> := [Switch("dumpJson"), Switch("noWarnings"), Switch("noCallHome"),
                                 Switch("preferFreeFormats"), Switch("youtubeSkipDashManifest")]

  const FilenameFlags: seq<Flag> := [Switch("dumpJson"), Switch("noWarnings")]

  const AudioFlags: seq<Flag> := [Switch("extractAudio"), Param("audioFormat", "mp3"), Param("output", "-")]

  const VideoFlags: seq<Flag> :=
    [Param("format", "bestvideo[ext=mp4]+bestaudio[ext=m4a]/best[ext=mp4]/best"), Param("output", "-")]

  const PublicFormats: seq<string> := ["mp3", "mp4"]

  const UrlRequired := "URL is required"
  const InfoFailure := "Failed to fetch video info. It might be restricted or private."
  const InvalidUrl := "Invalid URL"
  const DownloadFailure := "Download Failed"

  /** InfoFailed is the error handed to the next handler; the application's
      error handler answers it with status 500. */
  datatype InfoResponse = InfoBadRequest(error: string) | InfoOk(data: VideoData) | InfoFailed(message: string)

  /** NoErrorResponse: the error came after the headers were sent, so nothing
      more is written. */
  datatype DownloadResponse =
    | DownloadBadRequest(body: string)
    | Stream(filename: string, process: Invocation)
    | DownloadFailed(body: string)
    | NoErrorResponse

  function InfoStatus(r: InfoResponse): nat {
    match r
    case InfoBadRequest(_) => 400
    case InfoOk(_) => 200
    case InfoFailed(_) => 500
  }

  function DownloadStatus(r: DownloadResponse): nat {
    match r
    case DownloadBadRequest(_) => 400
    case DownloadFailed(_) => 500
    case _ => 200
  }

  /** A request parameter is usable when it is present and not the empty
      string (the truthiness test `!url`). */
  predicate Present(p: Option<string>) {
    p.Some? && p.value != ""
  }

  /** The object the info handler builds from the tool's output. */
  function ToVideoData(m: Metadata): VideoData {
    VideoData(m.title, m.thumbnail, Duration.ConvertDuration(m.duration), m.uploader, PublicFormats)
  }

  /** The projection keeps title, thumbnail and uploader, offers exactly mp3
      and mp4, and its duration text reads back as the tool's duration. */
  lemma ToVideoDataShape(m: Metadata)
    ensures ToVideoData(m).formats == PublicFormats
    ensures Duration.ParseDuration(ToVideoData(m).duration) == Some(m.duration)
    ensures ToVideoData(m).author == m.uploader && ToVideoData(m).title == m.title
    ensures ToVideoData(m).thumbnail == m.thumbnail
  {
    Duration.DurationRoundTrip(m.duration);
  }

  /** `${format}`: an absent query parameter prints as "undefined". */
  function FormatText(format: Option<string>): string {
    if format.None? then "undefined" else format.value
  }

  /** The file name of the attachment: sanitised stem, '.', format. */
  function AttachmentFilename(title: Option<string>, format: Option<string>): string {
    Sanitize.TitleStem(title) + "." + FormatText(format)
  }

  function ContentDisposition(filename: string): string {
    "attachment; filename=\"" + filename + "\""
  }

  /** The characters the HTTP layer accepts in a header value: tab, printable
      ASCII and the bytes 0x80 to 0xFF. Setting a header to anything else
      throws. */
  predicate HeaderCharAllowed(c: char) {
    c == '\t' || (' ' <= c <= '~') || ('\U{0080}' <= c <= '\U{00FF}')
  }

  predicate HeaderValueAllowed(v: string) {
    forall i :: 0 <= i < |v| ==> HeaderCharAllowed(v[i])
  }

  /** The options of the streaming process: audio extraction to mp3 exactly
      when the requested format is "mp3", the mp4 selector otherwise. */
  function StreamFlags(format: Option<string>): seq<Flag> {
    if format == Some("mp3") then AudioFlags else VideoFlags
  }

  /** The catch block of the download handler. */
  function CatchDownload(headersSent: bool): DownloadResponse {
    if !headersSent then DownloadFailed(DownloadFailure) else NoErrorResponse
  }

  /** The white-space characters kept by the sanitiser that the HTTP layer
      refuses in a header: line feed, vertical tab, form feed, carriage
      return, and every space separator above U+00FF. */
  predicate BreaksHeader(c: char) {
    ('\n' <= c <= '\r') || c > '\U{00FF}'
  }

  lemma KeptHeaderChar(c: char)
    requires Sanitize.Kept(c)
    ensures HeaderCharAllowed(c) <==> !BreaksHeader(c)
  {
  }

  /** Only `mp3` selects audio extraction; every other value, absent
      included, selects the mp4 selector. */
  lemma StreamFlagsChoice(format: Option<string>)
    ensures StreamFlags(format) == AudioFlags <==> format == Some("mp3")
    ensures StreamFlags(format) == VideoFlags <==> format != Some("mp3")
  {
  }

  /** The catch block answers 500 exactly when the headers are unsent. */
  lemma CatchDownloadStatus(headersSent: bool)
    ensures DownloadStatus(CatchDownload(headersSent)) == 500 <==> !headersSent
    ensures headersSent ==> CatchDownload(headersSent) == NoErrorResponse
  {
  }

  /** The file name: the stem keeps only `[\w\s-]` characters of the title;
      "video" is the stem only for a missing or empty title; a title with
      nothing to keep leaves just the extension. */
  lemma AttachmentFilenameCases(title: Option<string>, format: Option<string>)
    ensures var name := AttachmentFilename(title, format);
      && |name| > |FormatText(format)|
      && name[|name| - |FormatText(format)| - 1..] == "." + FormatText(format)
      && forall i :: 0 <= i < |name| - |FormatText(format)| - 1 ==> Sanitize.Kept(name[i])
    ensures !Present(title) ==> AttachmentFilename(title, format) == "video." + FormatText(format)
    ensures Present(title) && (forall i :: 0 <= i < |title.value| ==> !Sanitize.Kept(title.value[i])) ==>
      AttachmentFilename(title, format) == "." + FormatText(format)
  {
    var stem := Sanitize.TitleStem(title);
    var name := AttachmentFilename(title, format);
    Sanitize.TitleStemCases(title);
    Sanitize.StripOnlyKept(if title.None? || title.value == "" then "video" else title.value);
    assert name[|name| - |FormatText(format)| - 1..] == "." + FormatText(format);
    assert forall i :: 0 <= i < |stem| ==> name[i] == stem[i];
    if Present(title) && forall i :: 0 <= i < |title.value| ==> !Sanitize.Kept(title.value[i]) {
      Sanitize.TitleStemNothingKept(title.value);
    }
  }

  /** The download gets past the header exactly when no character of the
      stem breaks a header and the format text is a valid header value. */
  lemma ContentDispositionAllowed(title: Option<string>, format: Option<string>)
    ensures HeaderValueAllowed(ContentDisposition(AttachmentFilename(title, format))) <==>
      && (forall i :: 0 <= i < |Sanitize.TitleStem(title)| ==> !BreaksHeader(Sanitize.TitleStem(title)[i]))
      && HeaderValueAllowed(FormatText(format))
  {
    var stem := Sanitize.TitleStem(title);
    var fmt := FormatText(format);
    var prefix := "attachment; filename=\"";
    var v := ContentDisposition(AttachmentFilename(title, format));
    assert v == prefix + stem + "." + fmt + "\"";
    Sanitize.StripOnlyKept(if title.None? || title.value == "" then "video" else title.value);
    forall i | 0 <= i < |stem|
      ensures HeaderCharAllowed(stem[i]) <==> !BreaksHeader(stem[i])
    {
      KeptHeaderChar(stem[i]);
    }
    assert forall i :: 0 <= i < |stem| ==> v[|prefix| + i] == stem[i];
    assert forall i :: 0 <= i < |fmt| ==> v[|prefix| + |stem| + 1 + i] == fmt[i];
    if HeaderValueAllowed(fmt) && forall i :: 0 <= i < |stem| ==> !BreaksHeader(stem[i]) {
      forall i | 0 <= i < |v|
        ensures HeaderCharAllowed(v[i])
      {
        if i < |prefix| {
          assert v[i] == prefix[i];
        } else if i < |prefix| + |stem| {
          assert v[i] == stem[i - |prefix|];
        } else if i == |prefix| + |stem| {
          assert v[i] == '.';
        } else if i < |prefix| + |stem| + 1 + |fmt| {
          assert v[i] == fmt[i - |prefix| - |stem| - 1];
        } else {
          assert v[i] == '"';
        }
      }
    }
  }

  /** A title of printable ASCII and tabs never stops the download at the
      header, whatever punctuation it has. */
  lemma AsciiTitleHeaderAllowed(title: string, format: Option<string>)
    requires forall i :: 0 <= i < |title| ==> title[i] == '\t' || ' ' <= title[i] <= '~'
    requires HeaderValueAllowed(FormatText(format))
    ensures HeaderValueAllowed(ContentDisposition(AttachmentFilename(Some(title), format)))
  {
    var source := if title == "" then "video" else title;
    Sanitize.StripFromInput(source);
    Sanitize.TitleStemCases(Some(title));
    ContentDispositionAllowed(Some(title), format);
  }

  /** A title with an ideographic space (U+3000), common in Japanese and
      Chinese titles, survives sanitising, so setting the header throws and
      the download answers 500. */
  lemma IdeographicSpaceBreaksHeader(format: Option<string>)
    ensures !HeaderValueAllowed(ContentDisposition(AttachmentFilename(Some("A\U{3000}B"), format)))
  {
    var t := "A\U{3000}B";
    Sanitize.StripFixedPoint(t);
    Sanitize.TitleStemCases(Some(t));
    assert Sanitize.TitleStem(Some(t))[1] == '\U{3000}';
    ContentDispositionAllowed(Some(t), format);
  }

  class VideoController {

    /** `videoCache`. */
    var cache: TtlCache.Cache<VideoData>

    /** Every cached value offers exactly the public formats. */
    ghost predicate Valid()
      reads this
    {
      forall u :: u in cache ==> cache[u].value.formats == PublicFormats
    }

    constructor ()
      ensures Valid() && cache == map[]
    {
      cache := map[];
    }

    /** POST info. `now` is the clock when the cache is read, `setAt` the
        clock when the tool's answer is stored. */
    method GetVideoInfo(url: Option<string>, now: nat, setAt: nat, extractor: Extractor)
      returns (response: InfoResponse, extractions: seq<Invocation>)
      requires Valid()
      modifies this
      ensures Valid()
      ensures InfoStatus(response) == 400 <==> !Present(url)
      ensures !Present(url) ==>
        response == InfoBadRequest(UrlRequired) && extractions == [] && cache == old(cache)
      ensures Present(url) ==>
        var u := url.value;
        var hit := TtlCache.Get(old(cache), u, now).found;
        && (hit.Some? ==> response == InfoOk(hit.value) && extractions == [] && cache == old(cache))
        && (hit.None? ==> extractions == [Invocation(u, InfoFlags)])
        && (hit.None? && extractor(Invocation(u, InfoFlags)).Some? ==>
              var stored := ToVideoData(extractor(Invocation(u, InfoFlags)).value);
              response == InfoOk(stored) && cache == TtlCache.Set(old(cache), u, stored, setAt))
        && (hit.None? && extractor(Invocation(u, InfoFlags)).None? ==>
              response == InfoFailed(InfoFailure) && cache == old(cache) - {u})
      ensures Present(url) ==> cache - {url.value} == old(cache) - {url.value}
      ensures response.InfoOk? ==>
        url.value in cache && cache[url.value].value == response.data && response.data.formats == PublicFormats
    {
      if url.None? || url.value == "" {
        response, extractions := InfoBadRequest(UrlRequired), [];
        return;
      }
      var u := url.value;
      var lookup := TtlCache.Get(cache, u, now);
      cache := lookup.after;
      if lookup.found.Some? {
        response, extractions := InfoOk(lookup.found.value), [];
        return;
      }
      var call := Invocation(u, InfoFlags);
      extractions := [call];
      var output := extractor(call);
      if output.None? {
        response := InfoFailed(InfoFailure);
        return;
      }
      var videoData := ToVideoData(output.value);
      ToVideoDataShape(output.value);
      cache := TtlCache.Set(cache, u, videoData, setAt);
      response := InfoOk(videoData);
    }

    /** GET download. The cache is neither read nor written. */
    method DownloadVideo(url: Option<string>, format: Option<string>, extractor: Extractor)
      returns (response: DownloadResponse, extractions: seq<Invocation>)
      ensures !Present(url) <==> response == DownloadBadRequest(InvalidUrl)
      ensures DownloadStatus(response) == 400 <==> !Present(url)
      ensures !Present(url) ==> extractions == []
      ensures Present(url) ==> extractions == [Invocation(url.value, FilenameFlags)]
      ensures response.Stream? <==>
        && Present(url)
        && extractor(Invocation(url.value, FilenameFlags)).Some?
        && HeaderValueAllowed(ContentDisposition(
             AttachmentFilename(extractor(Invocation(url.value, FilenameFlags)).value.title, format)))
      ensures response.Stream? ==>
        && response.filename == AttachmentFilename(extractor(Invocation(url.value, FilenameFlags)).value.title, format)
        && response.process == Invocation(url.value, StreamFlags(format))
      ensures Present(url) && !response.Stream? ==> response == DownloadFailed(DownloadFailure)
    {
      if url.None? || url.value == "" {
        response, extractions := DownloadBadRequest(InvalidUrl), [];
        return;
      }
      var u := url.value;
      // Nothing is written to the response before the stream is piped, so
      // every error below reaches the catch block with the headers unsent.
      var headersSent := false;
      var call := Invocation(u, FilenameFlags);
      extractions := [call];
      var output := extractor(call);
      if output.None? {
        response := CatchDownload(headersSent);
        return;
      }
      var filename := AttachmentFilename(output.value.title, format);
      if !HeaderValueAllowed(ContentDisposition(filename)) {
        response := CatchDownload(headersSent);
        return;
      }
      response := Stream(filename, Invocation(u, StreamFlags(format)));
    }
  }


  /** Two info requests for one URL. When the first one asked the tool and
      got an answer, a second one within the time-to-live of that store is
      served from the cache: the same data, and no extraction, whatever the
      tool would now answer. */
  method InfoTwiceWithinTtl(c: VideoController, url: string, t0: nat, t1: nat, t2: nat,
                            first: Extractor, second: Extractor)
    returns (r1: InfoResponse, e1: seq<Invocation>, r2: InfoResponse, e2: seq<Invocation>)
    requires c.Valid() && url != ""
    requires t2 <= t1 + TtlCache.StdTtlMillis
    modifies c
    ensures r1.InfoOk? && e1 != [] ==> r2 == r1 && e2 == []
  {
    r1, e1 := c.GetVideoInfo(Some(url), t0, t1, first);
    if r1.InfoOk? && e1 != [] {
      TtlCache.SetThenGet(old(c.cache), url, r1.data, t1, t2);
    }
    r2, e2 := c.GetVideoInfo(Some(url), t2, t2, second);
  }

  /** The same two requests when the second one comes after the
      time-to-live: it is a miss and asks the tool again. */
  method InfoTwiceAfterTtl(c: VideoController, url: string, t0: nat, t1: nat, t2: nat,
                           first: Extractor, second: Extractor)
    returns (r1: InfoResponse, e1: seq<Invocation>, r2: InfoResponse, e2: seq<Invocation>)
    requires c.Valid() && url != ""
    requires t1 + TtlCache.StdTtlMillis < t2
    modifies c
    ensures r1.InfoOk? && e1 != [] ==> e2 == [Invocation(url, InfoFlags)]
  {
    r1, e1 := c.GetVideoInfo(Some(url), t0, t1, first);
    if r1.InfoOk? && e1 != [] {
      TtlCache.SetThenGetExpired(old(c.cache), url, r1.data, t1, t2);
    }
    r2, e2 := c.GetVideoInfo(Some(url), t2, t2, second);
  }

}
