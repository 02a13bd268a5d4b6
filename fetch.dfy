/**
 * The translation fetcher: one attempt per endpoint, each judged by the
 * same success criteria, and the chain primary → fallback → "No Data".
 * The HTTP exchange of an attempt is an input: the model does not send
 * anything, it decides what the program does with what came back.
 */
module Fetch {
  import opened Wrappers
  import opened Text
  import Extract
  import Snippet

  /** What one HTTP GET to an endpoint produced. */
  datatype Exchange =
    | SendFailed                                  // the client could not be built or the request not sent
    | Received(status: nat, body: Option<string>) // the status code; `None` when the body could not be read as text

  /** Why an attempt was rejected (the `anyhow` errors of one attempt). */
  datatype FetchError =
    | RequestFailed         // building the client or sending the request failed
    | BadStatus(status: nat) // "API returned status: ..."
    | BodyUnreadable        // reading the body as text failed
    | ParseFailed           // the extractor returned None
    | NoValidData           // "No valid data from API": the extractor returned ""

  /** `StatusCode::is_success`: a 2xx status. */
  predicate IsSuccess(status: nat) {
    200 <= status <= 299
  }

  /** The extractor had a non-empty result for the body of a received, 2xx exchange. */
  predicate Usable(ex: Exchange, parse: string -> Option<string>) {
    ex.Received? && IsSuccess(ex.status) && ex.body.Some? &&
    parse(ex.body.value).Some? && parse(ex.body.value).value != []
  }

  /**
   * The shared body of `fetch_from_bing` and `fetch_from_bing_fallback`:
   * fail on a transport error or a non-2xx status, then run the extractor on
   * the body and fail when it finds nothing or the empty string.
   */
  function Attempt(ex: Exchange, parse: string -> Option<string>): (r: Result<string, FetchError>)
    ensures r.Success? <==> Usable(ex, parse)
    ensures r.Success? ==> r.value != [] && Some(r.value) == parse(ex.body.value)
    ensures ex.SendFailed? ==> r == Failure(RequestFailed)
    ensures ex.Received? && !IsSuccess(ex.status) ==> r == Failure(BadStatus(ex.status))
    ensures ex.Received? && IsSuccess(ex.status) && ex.body.None? ==> r == Failure(BodyUnreadable)
    ensures ex.Received? && IsSuccess(ex.status) && ex.body.Some? && parse(ex.body.value).None? ==>
      r == Failure(ParseFailed)
    ensures ex.Received? && IsSuccess(ex.status) && ex.body.Some? && parse(ex.body.value) == Some([]) ==>
      r == Failure(NoValidData)
  {
    match ex
    case SendFailed => Failure(RequestFailed)
    case Received(status, body) =>
      if !IsSuccess(status) then Failure(BadStatus(status))
      else
        match body
        case None => Failure(BodyUnreadable)
        case Some(html) =>
          match parse(html)
          case None => Failure(ParseFailed)
          case Some(result) => if result == [] then Failure(NoValidData) else Success(result)
  }

  /** The primary endpoint's extractor, given what the regex engine finds in a page. */
  function PrimaryParser(regex: string -> Snippet.Captures): string -> Option<string> {
    html => Snippet.BingSnippet(regex(html))
  }

  /** `fetch_from_bing`: an attempt whose extractor is `parse_bing_response`. */
  function FetchFromBing(ex: Exchange, regex: string -> Snippet.Captures): (r: Result<string, FetchError>)
    ensures r.Success? ==>
      ex.Received? && IsSuccess(ex.status) && ex.body.Some? &&
      Snippet.BingSnippet(regex(ex.body.value)) == Some(r.value) && r.value != []
  {
    Attempt(ex, PrimaryParser(regex))
  }

  /** `fetch_from_bing_fallback`: an attempt whose extractor is `parse_bing_response_fallback`. */
  function FetchFromBingFallback(ex: Exchange): (r: Result<string, FetchError>)
    ensures r.Success? ==>
      ex.Received? && IsSuccess(ex.status) && ex.body.Some? &&
      Extract.ParseFallback(ex.body.value) == Some(r.value) && r.value != []
  {
    Attempt(ex, Extract.ParseFallback)
  }

  /**
   * The primary extractor never yields the empty string, so the "No valid
   * data" rejection can only come from the fallback endpoint.
   */
  lemma PrimaryNeverEmpty(ex: Exchange, regex: string -> Snippet.Captures)
    ensures FetchFromBing(ex, regex) != Failure(NoValidData)
  {
    if ex.Received? && IsSuccess(ex.status) && ex.body.Some? {
      var c := regex(ex.body.value);
      if Snippet.BingSnippet(c).Some? {
        Snippet.SnippetStartsWithBullet(Snippet.RegexSearch(c.phonetic), Snippet.SearchAllResult(c.explains));
      }
    }
  }

  /** The text shown when neither endpoint produced a translation. */
  const NoData: string := "No Data"

  /**
   * `fetch_translation`: the primary result if that attempt succeeded, else
   * the fallback result if that one did, else "No Data". It never fails and
   * never returns the empty string.
   */
  function FetchTranslation(primary: Exchange, fallback: Exchange, regex: string -> Snippet.Captures)
    : (r: Result<string, FetchError>)
    ensures r.Success? && r.value != []
    ensures FetchFromBing(primary, regex).Success? ==> r.value == FetchFromBing(primary, regex).value
    ensures FetchFromBing(primary, regex).Failure? && FetchFromBingFallback(fallback).Success? ==>
      r.value == FetchFromBingFallback(fallback).value
    ensures FetchFromBing(primary, regex).Failure? && FetchFromBingFallback(fallback).Failure? ==>
      r.value == NoData
  {
    match FetchFromBing(primary, regex)
    case Success(result) => Success(result)
    case Failure(_) =>
      match FetchFromBingFallback(fallback)
      case Success(result) => Success(result)
      case Failure(_) => Success(NoData)
  }

  /** Once the primary attempt succeeded, the fallback endpoint's response plays no part. */
  lemma PrimaryShortCircuits(primary: Exchange, f1: Exchange, f2: Exchange, regex: string -> Snippet.Captures)
    requires primary.Received? && IsSuccess(primary.status) && primary.body.Some?
    requires Snippet.BingSnippet(regex(primary.body.value)).Some?
    ensures FetchTranslation(primary, f1, regex) == FetchTranslation(primary, f2, regex)
    ensures FetchTranslation(primary, f1, regex).value == Snippet.BingSnippet(regex(primary.body.value)).value
  {
    var c := regex(primary.body.value);
    Snippet.SnippetStartsWithBullet(Snippet.RegexSearch(c.phonetic), Snippet.SearchAllResult(c.explains));
  }

  /** The shown text is "No Data" or what one of the two extractors found in a 2xx response body. */
  lemma TranslationOrigin(primary: Exchange, fallback: Exchange, regex: string -> Snippet.Captures)
    ensures var t := FetchTranslation(primary, fallback, regex).value;
      t == NoData ||
      (primary.Received? && IsSuccess(primary.status) && primary.body.Some? &&
       Snippet.BingSnippet(regex(primary.body.value)) == Some(t)) ||
      (fallback.Received? && IsSuccess(fallback.status) && fallback.body.Some? &&
       Extract.ParseFallback(fallback.body.value) == Some(t))
  {
  }

  /** Both endpoints answering with a server error yields exactly "No Data". */
  lemma BothServerErrors(b1: Option<string>, b2: Option<string>, regex: string -> Snippet.Captures)
    ensures FetchTranslation(Received(500, b1), Received(500, b2), regex) == Success(NoData)
  {
  }

  /** An unparseable primary page and a fallback page with a description yield that description. */
  lemma FallbackRescues(page1: string, page2: string, d: string, regex: string -> Snippet.Captures)
    requires Snippet.BingSnippet(regex(page1)) == None
    requires Extract.ParseFallback(page2) == Some(d) && d != []
    ensures FetchTranslation(Received(200, Some(page1)), Received(200, Some(page2)), regex) == Success(d)
  {
  }

  /**
   * The search handler: a whitespace-only query returns at once, so nothing
   * is fetched and the display is not touched (`None`); any other query shows
   * the text `fetch_translation` produced.
   */
  function OnSearch(word: string, primary: Exchange, fallback: Exchange, regex: string -> Snippet.Captures)
    : (shown: Option<string>)
    ensures shown.None? <==> IsBlank(word)
    ensures shown.Some? ==> shown.value != [] && shown.value == FetchTranslation(primary, fallback, regex).value
  {
    TrimEmptyIffBlank(word);
    if Trim(word) == [] then None else Some(FetchTranslation(primary, fallback, regex).value)
  }
}
