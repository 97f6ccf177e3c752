/**
 * The traffic-advice fetch handler: guard the target URL, fetch it once,
 * report the response's metadata and, for a successful response of type
 * `application/trafficadvice+json`, its body in base64 or the reason it is
 * absent.
 *
 * The network call, the URL parser and the MIME type parser are foreign code;
 * their results are inputs here. The JSON serialisation of the report and the
 * platform's response wrapper are not modelled.
 */
module FetchHandler {
  import opened Wrappers
  import opened Bytes
  import opened UrlGuard
  import opened BodyReader
  import Base64

  /** The only MIME essence whose body is read. */
  const TrafficAdviceEssence: string := "application/trafficadvice+json"

  /** One header as the response's header iteration yields it. */
  datatype Header = Header(name: string, value: string)

  /**
   * A response as the fetch library hands it over. `headers` is the order in
   * which iterating `response.headers` yields them; `essence` is the result of
   * parsing the Content-Type header, `None` for the JSON null that stands for
   * an absent or unparsable header.
   */
  datatype Response = Response(
    responseType: string,
    status: int,
    headers: seq<Header>,
    ok: bool,
    essence: Option<string>,
    body: Stream)

  /** What the fetch gives back: it throws, or it resolves to a response. */
  datatype FetchOutcome = Unreachable | Reached(response: Response)

  /**
   * The `info` object reported to the client. Each field is `None` when the
   * object has no such key. `responseType` is the `type` key; for `essence`
   * the inner `None` is the JSON null.
   */
  datatype Info = Info(
    responseType: Option<string>,
    status: Option<int>,
    headers: Option<seq<Header>>,
    essence: Option<Option<string>>,
    error: Option<string>,
    body: Option<string>)

  /** `{ error: "unreachable" }`. */
  const UnreachableInfo: Info := Info(None, None, None, None, Some("unreachable"), None)

  /** Whether the handler goes on to read the body of `r`. */
  predicate ReadsBody(r: Response)
  {
    r.ok && r.essence == Some(TrafficAdviceEssence)
  }

  /** The report for a fetch outcome, as a function of that outcome. */
  function Report(f: FetchOutcome): Info
  {
    match f
    case Unreachable => UnreachableInfo
    case Reached(r) =>
      var info := Info(Some(r.responseType), Some(r.status), Some(r.headers), Some(r.essence), None, None);
      if !ReadsBody(r) then info
      else
        var read := Read(r.body);
        if read.state == Complete then info.(body := Some(Base64.Encode(read.received)))
        else info.(error := ErrorText(read.state))
  }

  /** The handler's result as a function of its inputs: a thrown guard error, or the report. */
  function Handle(parsed: Option<ParsedUrl>, f: FetchOutcome): Result<Info, GuardError>
  {
    match Guard(parsed)
    case Failure(e) => Failure(e)
    case Success(_) => Success(Report(f))
  }

  /**
   * The handler. `network` is what fetching the guarded URL would give.
   * `requested` is the URL handed to the fetch: there is one iff the guard
   * passes, and it is the parsed URL itself.
   */
  method Handler(parsed: Option<ParsedUrl>, network: FetchOutcome)
    returns (result: Result<Info, GuardError>, requested: Option<ParsedUrl>)
    ensures requested.Some? <==> Guard(parsed).Success?
    ensures requested.Some? ==> requested == parsed
    ensures result == Handle(parsed, network)
  {
    requested := None;
    var target := Guard(parsed);
    if target.Failure? {
      result := Failure(target.error);
      return;
    }
    requested := Some(target.value);
    if network.Unreachable? {
      result := Success(UnreachableInfo);
      return;
    }
    var response := network.response;
    var info := Info(Some(response.responseType), Some(response.status), Some(response.headers), None, None, None);
    info := info.(essence := Some(response.essence));
    if response.ok && response.essence == Some(TrafficAdviceEssence) {
      var buffer, offset, error := ReadBody(response.body);
      info := info.(error := error);
      if error.None? {
        info := info.(body := Some(Base64.Encode(buffer[..offset])));
      }
    }
    result := Success(info);
  }

  /** A guard failure is thrown whatever the network would have answered. */
  lemma GuardFailureIgnoresNetwork(parsed: Option<ParsedUrl>, f: FetchOutcome, g: FetchOutcome)
    requires Guard(parsed).Failure?
    ensures Handle(parsed, f) == Handle(parsed, g) == Failure(Guard(parsed).error)
  {
  }

  /** A fetch that throws is reported as exactly `{ error: "unreachable" }`. */
  lemma UnreachableReport(parsed: Option<ParsedUrl>)
    requires Guard(parsed).Success?
    ensures var info := Handle(parsed, Unreachable).value;
      && info.error == Some("unreachable")
      && info.responseType.None? && info.status.None? && info.headers.None? && info.essence.None?
      && info.body.None?
  {
  }

  /**
   * Type, status, headers (in order) and essence of a reached response are
   * reported as they are, whatever happens in the body phase.
   */
  lemma MetadataAlwaysReported(r: Response)
    ensures var info := Report(Reached(r));
      && info.responseType == Some(r.responseType)
      && info.status == Some(r.status)
      && info.headers == Some(r.headers)
      && info.essence == Some(r.essence)
  {
  }

  /** A response that fails the gate has no chunk read and neither `body` nor `error`. */
  lemma GateClosedNoBody(r: Response)
    requires !r.ok || r.essence != Some(TrafficAdviceEssence)
    ensures Report(Reached(r)).body.None? && Report(Reached(r)).error.None?
  {
  }

  /**
   * After the body phase exactly one of `body` and `error` is present. `body`
   * is present iff the stream delivers at most `Capacity` bytes and ends
   * without failing, and then it decodes to exactly those bytes; `error` is
   * "body too large" iff the delivered bytes exceed `Capacity`, and
   * "error reading body" iff the stream fails within capacity.
   */
  lemma BodyPhaseReport(r: Response)
    requires ReadsBody(r)
    ensures var info := Report(Reached(r));
      var total := |Concat(Delivered(r.body))|;
      && (info.body.Some? <==> info.error.None?)
      && (info.body.Some? <==> !Fails(r.body) && total <= Capacity)
      && (info.body.Some? ==> Base64.Decode(info.body.value) == Some(Concat(r.body.chunks)))
      && (info.error == Some("body too large") <==> total > Capacity)
      && (info.error == Some("error reading body") <==> Fails(r.body) && total <= Capacity)
  {
    ReadCharacterized(r.body);
    var read := Read(r.body);
    if read.state == Complete {
      Base64.DecodeEncode(read.received);
    }
  }

  /** The encoded body is never longer than the encoding of a full buffer. */
  lemma BodyLengthBound(r: Response)
    requires ReadsBody(r) && Report(Reached(r)).body.Some?
    ensures |Report(Reached(r)).body.value| <= 4 * ((Capacity + 2) / 3)
  {
    ReadCharacterized(r.body);
  }
}
