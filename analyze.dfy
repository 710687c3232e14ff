/** The `/analyze` handler: check the url, take the extractor's answer,
    and build the response from it. The extractor is a parameter: a
    function from the url to its metadata or the message of its error. */
module Analyze {
  import opened Wrappers
  import opened Formats
  import Processing
  import Duration

  /** The keys of the extractor's answer the handler reads; None where a key is absent. */
  datatype Info = Info(
    title: Option<string>,
    thumbnail: Option<string>,
    duration: Option<nat>,
    uploader: Option<string>,
    formats: Option<seq<RawFormat>>)

  /** The JSON body of a successful analyze. */
  datatype Response = Response(
    title: string,
    thumbnail: string,
    channel: string,
    durationSeconds: nat,
    durationString: string,
    formats: seq<Variant>)

  /** The two error answers: no url (400), or an exception's message (500). */
  datatype ApiError = NoUrl | ServerError(message: string)

  function Status(e: ApiError): nat
  {
    match e
    case NoUrl => 400
    case ServerError(_) => 500
  }

  /** `if not video_url`: a missing or empty url is refused with 400. */
  function RequireUrl(url: Option<string>): (r: Result<string, ApiError>)
    ensures r.Failure? <==> url == None || url == Some("")
    ensures r.Failure? ==> r.error == NoUrl && Status(r.error) == 400
    ensures r.Success? ==> url == Some(r.value) && r.value != ""
  {
    if url.None? || url.value == "" then Failure(NoUrl) else Success(url.value)
  }

  /** The analyze handler, given the url from the request body and the extractor. */
  method AnalyzeVideo(url: Option<string>, extract: string -> Result<Info, string>)
    returns (r: Result<Response, ApiError>)
    ensures r == Failure(NoUrl) <==> url == None || url == Some("")
    ensures url.Some? && url.value != "" && extract(url.value).Failure? ==>
      r == Failure(ServerError(extract(url.value).error))
    ensures url.Some? && url.value != "" && extract(url.value).Success? ==>
      var info := extract(url.value).value;
      var seconds := info.duration.GetOr(0);
      match Processing.Listing(url.value, info.formats.GetOr([]))
      case Failure(e) => r == Failure(ServerError(e))
      case Success(formats) =>
        r == Success(Response(info.title.GetOr("Unknown Title"), info.thumbnail.GetOr(""),
                              info.uploader.GetOr("Unknown Channel"), seconds,
                              Duration.Format(seconds), formats))
  {
    var checked := RequireUrl(url);
    if checked.Failure? {
      return Failure(NoUrl);
    }
    var videoUrl := checked.value;
    var extraction := extract(videoUrl);
    if extraction.Failure? {
      return Failure(ServerError(extraction.error));
    }
    var info := extraction.value;
    var seconds := info.duration.GetOr(0);
    var durationString := Duration.Format(seconds);
    var listing := Processing.ProcessFormats(videoUrl, info.formats.GetOr([]));
    if listing.Failure? {
      return Failure(ServerError(listing.error));
    }
    r := Success(Response(info.title.GetOr("Unknown Title"), info.thumbnail.GetOr(""),
                          info.uploader.GetOr("Unknown Channel"), seconds, durationString, listing.value));
  }
}
