/**
 * The check the handler makes on the traffic-advice URL before fetching it.
 * The URL is `new URL("/.well-known/traffic-advice", origin)`; parsing is done
 * by the WHATWG URL parser, so this model takes the parser's output as input:
 * `None` when the constructor throws, otherwise the record's `protocol` and
 * `port` attributes. The parser stores a port equal to the scheme's default
 * as the empty string, so `https://host:443` yields port "" and passes, while
 * `https://host:8443` yields "8443" and is refused.
 */
module UrlGuard {
  import opened Wrappers

  /** The attributes of a parsed URL the guard reads. */
  datatype ParsedUrl = ParsedUrl(protocol: string, port: string)

  /** The errors the handler throws before any request is issued. */
  datatype GuardError =
    | InvalidUrl       // the URL constructor itself throws
    | InvalidProtocol  // "invalid protocol"
    | NonDefaultPort   // "only default ports permitted"

  /** The message of the thrown `Error`; the URL constructor's own message is not modelled. */
  function Message(e: GuardError): string
  {
    match e
    case InvalidUrl => ""
    case InvalidProtocol => "invalid protocol"
    case NonDefaultPort => "only default ports permitted"
  }

  /** The two schemes the endpoint is willing to fetch. */
  predicate AllowedProtocol(protocol: string)
  {
    protocol == "https:" || protocol == "http:"
  }

  /**
   * Accepts `url` only if its protocol is `http:` or `https:` and its port is
   * empty (the scheme's default); the protocol is checked first.
   */
  function CheckTarget(url: ParsedUrl): (r: Result<ParsedUrl, GuardError>)
    ensures r.Success? <==> AllowedProtocol(url.protocol) && url.port == ""
    ensures r.Success? ==> r.value == url
    ensures r == Failure(InvalidProtocol) <==> !AllowedProtocol(url.protocol)
    ensures r == Failure(NonDefaultPort) <==> AllowedProtocol(url.protocol) && url.port != ""
    ensures r.Failure? ==>
      Message(r.error) == if AllowedProtocol(url.protocol) then "only default ports permitted" else "invalid protocol"
  {
    if url.protocol != "https:" && url.protocol != "http:" then Failure(InvalidProtocol)
    else if |url.port| > 0 then Failure(NonDefaultPort)
    else Success(url)
  }

  /** The whole guard, from the URL constructor's outcome to the URL that may be fetched. */
  function Guard(parsed: Option<ParsedUrl>): (r: Result<ParsedUrl, GuardError>)
    ensures r.Success? <==> parsed.Some? && AllowedProtocol(parsed.value.protocol) && parsed.value.port == ""
    ensures r.Success? ==> parsed == Some(r.value)
    ensures parsed.None? ==> r == Failure(InvalidUrl)
  {
    match parsed
    case None => Failure(InvalidUrl)
    case Some(url) => CheckTarget(url)
  }
}
