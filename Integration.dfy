/** The page and the API route together: the page's `fetch` answered by the
    route's `POST`, and what the stored results then say about the probes. */
module Integration {

  import opened Options
  import opened JsString
  import EcmaDate
  import opened CheckDomainRoute
  import opened DomainStatusTable
  import opened HomePage

  /** The route's response as the page's `fetch` sees it. An error body has
      no `sslExpiry` or `whoisExpiry`, so both read as undefined. */
  function Deliver(resp: Response): (o: FetchOutcome)
    ensures o.HttpResponse? && o.status == resp.status && o.body.CheckData?
    ensures resp.payload.CheckPayload? ==>
              o.body == CheckData(resp.payload.sslExpiry, resp.payload.whoisExpiry)
  {
    match resp.payload
    case ErrorPayload(_) => HttpResponse(resp.status, CheckData(None, None))
    case CheckPayload(_, ssl, whois, _) => HttpResponse(resp.status, CheckData(ssl, whois))
  }

  /** The body `JSON.stringify({ domain })` as the route reads it. */
  function RequestFor(d: string): RequestBody {
    JsonBody(JObject(map["domain" := JString(d)]))
  }

  /** What the page's `fetch` for domain `d` gets from the route. */
  function ServerAnswer(env: Env, d: string): FetchOutcome {
    Deliver(Post(RequestFor(d), env).response)
  }

  /** For a domain the page sends, the page records a result exactly when the
      TLS probe found a certificate, and the result carries the certificate's
      UTC date and the WHOIS date the route chose. */
  lemma AddSucceedsExactlyWithCertificate(env: Env, d: string)
    requires d != ""
    ensures Delivered(ServerAnswer(env, d)) <==> env.tls(d).Certificate?
    ensures Delivered(ServerAnswer(env, d)) ==>
              ServerAnswer(env, d).body
              == CheckData(Some(IsoDate(env.tls(d).validTo)), WhoisExpiry(env.whois(d), env.otherDateFormats))
  {
    var body := RequestFor(d);
    assert DestructureDomain(body.value) == Value(JString(d));
    assert Accepted(body) && AcceptedDomain(body) == d;
  }

  /** A date the route produced from instant `t` is classified by the number
      of UTC calendar days from today to the day of `t`. */
  lemma IsoDateBadge(t: EcmaDate.TimeValue, now: EcmaDate.TimeValue,
                     browserDateFormats: string -> Option<EcmaDate.TimeValue>)
    ensures StatusBadge(Some(IsoDate(t)), now, browserDateFormats)
            == Tier(EcmaDate.Day(t) - EcmaDate.Day(now))
  {
    IsoDateReadsBack(t);
    assert EcmaDate.Parse(IsoDate(t), browserDateFormats) == Some(EcmaDate.DayStart(t));
    ClassifyDayStart(EcmaDate.Day(t), now);
  }

  /** The SSL badge the table shows for a stored result is decided by the
      number of UTC calendar days from today to the certificate's expiry
      day: that day itself is already Expired. */
  lemma StoredSslBadgeCountsCalendarDays(env: Env, d: string, now: EcmaDate.TimeValue,
                                         browserDateFormats: string -> Option<EcmaDate.TimeValue>)
    requires d != "" && env.tls(d).Certificate?
    ensures var data := ServerAnswer(env, d).body;
            StatusBadge(data.sslExpiry, now, browserDateFormats)
            == Tier(EcmaDate.Day(env.tls(d).validTo) - EcmaDate.Day(now))
  {
    AddSucceedsExactlyWithCertificate(env, d);
    IsoDateBadge(env.tls(d).validTo, now, browserDateFormats);
  }

  /** After a successful add the row for the domain shows the certificate's
      date, never the manual-check link, and its SSL badge is not Failed. */
  lemma AddedRowShowsCertificateDate(env: Env, d: string, now: EcmaDate.TimeValue,
                                     browserDateFormats: string -> Option<EcmaDate.TimeValue>)
    requires d != "" && env.tls(d).Certificate?
    ensures var data := ServerAnswer(env, d).body;
            var row := RenderRow(DomainResult(d, data.sslExpiry, data.whoisExpiry), now, browserDateFormats);
            row.ssl == DateText(IsoDate(env.tls(d).validTo)) && row.sslStatus != FailedBadge
  {
    AddSucceedsExactlyWithCertificate(env, d);
    var date := IsoDate(env.tls(d).validTo);
    var data := ServerAnswer(env, d).body;
    assert data.sslExpiry == Some(date) && TruthyOpt(data.sslExpiry);
    var r := DomainResult(d, data.sslExpiry, data.whoisExpiry);
    assert ExpiryCell(r.sslExpiry, SslCheckerUrl + d) == DateText(date);
  }
}
