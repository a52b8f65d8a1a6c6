/**
 * The request handlers of routes.py, reduced to their decisions: which
 * response a request gets and when the service is called. Responses are
 * abstract; the JSON bodies and status codes are named in comments.
 */
module Routes {
  import opened Wrappers
  import opened Services

  const MISSING_URL_MESSAGE: string := "Missing 'long_url' in request body"
  const BAD_SCHEME_MESSAGE: string := "URL must start with http:// or https://"
  const NOT_FOUND_MESSAGE: string := "Short URL not found"

  /** What a handler answers. */
  datatype Response =
    | BadRequest(error: string)       // 400, {"error": error}
    | ServerError(error: string)      // 500, {"error": error}
    | Uncaught(exception: Exception)  // an exception the handler does not catch: Flask's own 500 page
    | Shortened(shortCode: string)    // 200, {"short_url": the absolute URL of shortCode}
    | Redirect(location: string)      // 302 to location
    | NotFound(error: string)         // 404, {"error": error}

  /** The scheme check of `shorten_url`. */
  predicate HasAcceptedScheme(url: string)
  {
    "http://" <= url || "https://" <= url
  }

  /** A `long_url` that passes both checks of `shorten_url`. */
  predicate Acceptable(longUrl: Option<string>)
  {
    longUrl.Some? && longUrl.value != "" && HasAcceptedScheme(longUrl.value)
  }

  /** How a handler turns an exception into a response: it catches RuntimeError only. */
  function Caught(e: Exception): Response
  {
    if e.RuntimeError? then ServerError(e.message) else Uncaught(e)
  }

  /**
   * `shorten_url` on the state `s`, for the request body's `long_url`
   * (None when the key is missing): the new state and the response.
   */
  function Shorten(s: RedisState, longUrl: Option<string>): (r: (RedisState, Response))
    ensures !Acceptable(longUrl) ==> r.0 == s && r.1.BadRequest?
    ensures Acceptable(longUrl) ==> r.0 == Generate(s, longUrl.value).0
    ensures r.1.Shortened? <==> Acceptable(longUrl) && s.connected
    ensures !r.1.ServerError?
    ensures Acceptable(longUrl) && !s.connected ==> r.1 == Uncaught(AttributeError(NO_CLIENT_MESSAGE))
  {
    if longUrl.None? || longUrl.value == "" then (s, BadRequest(MISSING_URL_MESSAGE))
    else if !HasAcceptedScheme(longUrl.value) then (s, BadRequest(BAD_SCHEME_MESSAGE))
    else
      var (s', result) := Generate(s, longUrl.value);
      (s', if result.Ok? then Shortened(result.value) else Caught(result.error))
  }

  /** `redirect_to_long_url` on the state `s`: a lookup and nothing else. */
  function RedirectToLongUrl(s: RedisState, shortCode: string): (response: Response)
    ensures response.ServerError? || response.Redirect? || response.NotFound?
    ensures response.ServerError? <==> !s.connected
    ensures response.Redirect? ==> response.location != "" && Get(s, shortCode) == Some(response.location)
  {
    var lookup := GetLongUrl(s, shortCode);
    if lookup.Err? then Caught(lookup.error)
    else if lookup.value.Some? && lookup.value.value != "" then Redirect(lookup.value.value)
    else NotFound(NOT_FOUND_MESSAGE)
  }

  /** A missing or empty `long_url` is refused before the service is called. */
  lemma ShortenRejectsMissing(s: RedisState, longUrl: Option<string>)
    requires longUrl == None || longUrl == Some("")
    ensures Shorten(s, longUrl) == (s, BadRequest(MISSING_URL_MESSAGE))
  {
  }

  /** A URL with neither accepted scheme is refused before the service is called. */
  lemma ShortenRejectsScheme(s: RedisState, url: string)
    requires url != "" && !HasAcceptedScheme(url)
    ensures Shorten(s, Some(url)) == (s, BadRequest(BAD_SCHEME_MESSAGE))
  {
  }

  /** The state changes only for an acceptable URL, and then exactly as the service changes it. */
  lemma ShortenTouchesStoreOnlyWhenAcceptable(s: RedisState, longUrl: Option<string>)
    ensures !Acceptable(longUrl) ==> Shorten(s, longUrl).0 == s && Shorten(s, longUrl).1.BadRequest?
    ensures Acceptable(longUrl) ==> Shorten(s, longUrl).0 == Generate(s, longUrl.value).0
  {
  }

  /** An acceptable URL is handed over unchanged and the response names exactly the code returned. */
  lemma ShortenAnswersWithIssuedCode(s: RedisState, url: string)
    requires s.connected && Acceptable(Some(url))
    ensures Shorten(s, Some(url)).1 == Shortened(Generate(s, url).1.value)
    ensures Shorten(s, Some(url)).1.shortCode == ShortCode(CounterValue(s) + 1)
  {
  }

  /**
   * The service never raises RuntimeError when shortening, so the handler's
   * `except RuntimeError` never fires; without a client the AttributeError
   * escapes the handler.
   */
  lemma ShortenNeverServerError(s: RedisState, longUrl: Option<string>)
    ensures !Shorten(s, longUrl).1.ServerError?
    ensures !s.connected && Acceptable(longUrl) ==>
      Shorten(s, longUrl) == (s, Uncaught(AttributeError(NO_CLIENT_MESSAGE)))
  {
  }

  /** Visiting the code `shorten_url` answered with redirects to the URL that was shortened. */
  lemma ShortenThenRedirect(s: RedisState, url: string)
    requires s.connected && Acceptable(Some(url))
    ensures Shorten(s, Some(url)).1.Shortened?
    ensures RedirectToLongUrl(Shorten(s, Some(url)).0, Shorten(s, Some(url)).1.shortCode) == Redirect(url)
  {
    GenerateThenGet(s, url);
  }

  /**
   * The three outcomes of `redirect_to_long_url`: a 500 exactly while `r`
   * is None, a redirect to exactly the stored value when it is non-empty,
   * and a 404 when the key is absent or holds the empty string.
   */
  lemma RedirectOutcomes(s: RedisState, shortCode: string)
    ensures RedirectToLongUrl(s, shortCode).ServerError? <==> !s.connected
    ensures !s.connected ==> RedirectToLongUrl(s, shortCode) == ServerError(NOT_INITIALIZED_MESSAGE)
    ensures RedirectToLongUrl(s, shortCode).Redirect? <==>
      s.connected && shortCode in Keyspace(s) && Keyspace(s)[shortCode] != ""
    ensures RedirectToLongUrl(s, shortCode).Redirect? ==>
      RedirectToLongUrl(s, shortCode).location == Keyspace(s)[shortCode]
    ensures RedirectToLongUrl(s, shortCode) == NotFound(NOT_FOUND_MESSAGE) <==>
      s.connected && (shortCode !in Keyspace(s) || Keyspace(s)[shortCode] == "")
  {
  }

  /** The counter shares the keyspace: its key redirects to the counter's decimal value. */
  lemma RedirectCounterKey(s: RedisState)
    requires s.connected && s.counter.Some?
    ensures RedirectToLongUrl(s, COUNTER_KEY) == Redirect(DecimalString(s.counter.value))
  {
  }

  /** `shorten_url` on the service object: both checks first, the service call last. */
  method ShortenUrl(service: RedisService, longUrl: Option<string>) returns (response: Response)
    requires Consistent(service.State())
    modifies service
    ensures (service.State(), response) == Shorten(old(service.State()), longUrl)
    ensures Consistent(service.State())
  {
    if longUrl.None? || longUrl.value == "" {
      return BadRequest(MISSING_URL_MESSAGE);
    }
    var url := longUrl.value;
    if !HasAcceptedScheme(url) {
      return BadRequest(BAD_SCHEME_MESSAGE);
    }
    var result := service.GenerateAndStoreUrl(url);
    if result.Err? {
      return Caught(result.error);
    }
    response := Shortened(result.value);
  }

  /**
   * A client of the handlers: the application starts over an empty
   * database (whatever the ping reported, assuming every later Redis
   * command succeeds), one URL is shortened and its code is visited.
   */
  method StartShortenVisit(pingSucceeds: bool, url: string) returns (shortened: Response, visited: Response)
    requires HasAcceptedScheme(url)
    ensures shortened == Shortened("1")
    ensures visited == Redirect(url)
  {
    var service := new RedisService(None, map[]);
    service.InitRedis(pingSucceeds);
    ghost var started := service.State();
    ShortenAnswersWithIssuedCode(started, url);
    ShortenThenRedirect(started, url);
    FirstCodeIsOne();
    shortened := ShortenUrl(service, Some(url));
    visited := RedirectToLongUrl(service.State(), shortened.shortCode);
  }
}
