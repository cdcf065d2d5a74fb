/** The POST handler of the domain-check API route: the request guard, the TLS
    and WHOIS probes seen as outcomes, the ordered WHOIS field fallback, the
    cut of an ISO string down to its date, and the mapping of outcomes to
    HTTP responses. The probes run one after the other, and only a WHOIS
    failure is absorbed; a TLS failure fails the whole request. */
module CheckDomainRoute {

  import opened Options
  import opened JsString
  import EcmaDate

  // ------------------------------------------------------------ the request

  /** A JSON value as `req.json()` produces it. */
  datatype Json =
    | JNull
    | JBool(b: bool)
    | JNumber(n: real)
    | JString(s: string)
    | JArray(items: seq<Json>)
    | JObject(fields: map<string, Json>)

  /** The request body: text that is not JSON, or the JSON value it holds. */
  datatype RequestBody = NotJson | JsonBody(value: Json)

  /** What `const { domain } = value` yields: a TypeError when the value is
      null, `undefined` when there is no "domain" property, or its value. */
  datatype DomainProperty = Throws | Undefined | Value(v: Json)

  function DestructureDomain(value: Json): (p: DomainProperty)
    ensures p.Throws? <==> value.JNull?
    ensures p.Value? ==> value.JObject? && "domain" in value.fields && p.v == value.fields["domain"]
    ensures value.JObject? && "domain" in value.fields ==> p == Value(value.fields["domain"])
    ensures !value.JNull? && !(value.JObject? && "domain" in value.fields) ==> p == Undefined
  {
    match value
    case JNull => Throws
    case JObject(fields) => if "domain" in fields then Value(fields["domain"]) else Undefined
    case _ => Undefined
  }

  /** JavaScript truthiness of a JSON value (JSON has no NaN). */
  predicate JsonTruthy(v: Json) {
    match v
    case JNull => false
    case JBool(b) => b
    case JNumber(n) => n != 0.0
    case JString(s) => Truthy(s)
    case _ => true
  }

  /** The guard `!domain || typeof domain !== "string"`. */
  predicate RejectsDomain(p: DomainProperty) {
    !(p.Value? && JsonTruthy(p.v)) || !(p.Value? && p.v.JString?)
  }

  /** The guard lets through exactly a non-empty string. */
  lemma GuardAcceptsExactlyNonEmptyStrings(p: DomainProperty)
    ensures !RejectsDomain(p) <==> p.Value? && p.v.JString? && p.v.s != ""
  {
  }

  // -------------------------------------------------------------- the probes

  /** How the TLS probe's promise rejects: a socket error, the 5 s timeout,
      or a peer certificate without `valid_to`. */
  datatype TlsFailure = SocketError | Timeout | NoCertificate

  /** The outcome of the TLS handshake: the certificate's expiry instant, or a
      rejection. */
  datatype TlsOutcome = Certificate(validTo: EcmaDate.TimeValue) | TlsFailed(cause: TlsFailure)

  /** The outcome of the WHOIS lookup: the parsed record, or a thrown error. */
  datatype WhoisOutcome = WhoisRecord(data: map<string, string>) | WhoisThrew

  /** The world the handler runs in: what each probe answers for a host, and
      how `new Date` reads strings outside the modelled ISO forms. */
  datatype Env = Env(
    tls: string -> TlsOutcome,
    whois: string -> WhoisOutcome,
    otherDateFormats: string -> Option<EcmaDate.TimeValue>)

  /** `new Date(t).toISOString().split("T")[0]`: the UTC calendar date. */
  function IsoDate(t: EcmaDate.TimeValue): (r: string)
    ensures r == EcmaDate.DateString(EcmaDate.UtcDate(t))
  {
    var c := EcmaDate.UtcDate(t);
    SplitHeadOfPrefix(EcmaDate.DateString(c), "T" + EcmaDate.TimeString(EcmaDate.TimeWithinDay(t)) + "Z", 'T');
    SplitHead(EcmaDate.ToIsoString(t), 'T')
  }

  /** The date string reads back, as `new Date` does, as midnight UTC of the
      instant's day: it is a calendar date, never a raw or partial string. */
  lemma IsoDateReadsBack(t: EcmaDate.TimeValue)
    ensures EcmaDate.ReadDateTimeString(IsoDate(t))
            == EcmaDate.InFormat(Some(EcmaDate.DayStart(t)))
  {
    var c := EcmaDate.UtcDate(t);
    assert EcmaDate.DayStart(t) == EcmaDate.MsPerDay * EcmaDate.MakeDay(c.year, c.month, c.day);
    EcmaDate.ReadDateString(c);
  }

  /** Two instants give the same date string exactly when they fall on the same UTC day. */
  lemma IsoDateSameExactlyOnSameDay(t1: EcmaDate.TimeValue, t2: EcmaDate.TimeValue)
    ensures IsoDate(t1) == IsoDate(t2) <==> EcmaDate.Day(t1) == EcmaDate.Day(t2)
  {
    IsoDateReadsBack(t1);
    IsoDateReadsBack(t2);
  }

  /** What `getSSLCertExpiry` resolves to, or None when its promise rejects. */
  function CertExpiry(o: TlsOutcome): (r: Option<string>)
    ensures r.Some? <==> o.Certificate?
    ensures r.Some? ==> r.value == EcmaDate.DateString(EcmaDate.UtcDate(o.validTo))
  {
    match o
    case Certificate(t) => Some(IsoDate(t))
    case TlsFailed(_) => None
  }

  /** The WHOIS fields that may hold the expiry, in the order they are tried. */
  const ExpiryFields: seq<string> :=
    ["Registry Expiry Date", "Registrar Registration Expiration Date", "Expiration Date"]

  /** `data[key]`, None for `undefined`. */
  function Lookup(data: map<string, string>, key: string): Option<string> {
    if key in data then Some(data[key]) else None
  }

  /** `data[k0] || data[k1] || ...`, None when every value is falsy. */
  function FirstTruthy(data: map<string, string>, keys: seq<string>): (r: Option<string>)
    ensures r.None? <==> forall i :: 0 <= i < |keys| ==> !TruthyOpt(Lookup(data, keys[i]))
    ensures r.Some? ==> exists i :: 0 <= i < |keys| && Lookup(data, keys[i]) == r
                                 && TruthyOpt(r)
                                 && forall j :: 0 <= j < i ==> !TruthyOpt(Lookup(data, keys[j]))
  {
    if keys == [] then None
    else if TruthyOpt(Lookup(data, keys[0])) then Lookup(data, keys[0])
    else
      var r := FirstTruthy(data, keys[1..]);
      assert forall i :: 1 <= i < |keys| ==> keys[i] == keys[1..][i - 1];
      if r.Some? then
        var i' :| 0 <= i' < |keys| - 1 && Lookup(data, keys[1..][i']) == r && TruthyOpt(r)
                  && forall j :: 0 <= j < i' ==> !TruthyOpt(Lookup(data, keys[1..][j]));
        assert Lookup(data, keys[i' + 1]) == r;
        r
      else r
  }

  /** The expiry text `getWhoisExpiry` picks from a record. */
  function SelectExpiry(data: map<string, string>): Option<string> {
    FirstTruthy(data, ExpiryFields)
  }

  /** "Registry Expiry Date", when present and non-empty, wins over the others. */
  lemma RegistryExpiryDateWins(data: map<string, string>)
    requires TruthyOpt(Lookup(data, "Registry Expiry Date"))
    ensures SelectExpiry(data) == Some(data["Registry Expiry Date"])
  {
  }

  /** A missing or empty higher-priority field falls through to the next one. */
  lemma {:induction false} SelectExpiryFallsThrough(data: map<string, string>)
    ensures !TruthyOpt(Lookup(data, "Registry Expiry Date"))
            && TruthyOpt(Lookup(data, "Registrar Registration Expiration Date"))
            ==> SelectExpiry(data) == Some(data["Registrar Registration Expiration Date"])
    ensures !TruthyOpt(Lookup(data, "Registry Expiry Date"))
            && !TruthyOpt(Lookup(data, "Registrar Registration Expiration Date"))
            && TruthyOpt(Lookup(data, "Expiration Date"))
            ==> SelectExpiry(data) == Some(data["Expiration Date"])
    ensures (forall i :: 0 <= i < |ExpiryFields| ==> !TruthyOpt(Lookup(data, ExpiryFields[i])))
            ==> SelectExpiry(data) == None
  {
    var k0 := ExpiryFields;
    var k1 := ["Registrar Registration Expiration Date", "Expiration Date"];
    var k2 := ["Expiration Date"];
    assert k0[1..] == k1 && k1[1..] == k2 && k2[1..] == [];
    if !TruthyOpt(Lookup(data, k0[0])) {
      assert SelectExpiry(data) == FirstTruthy(data, k1);
      if !TruthyOpt(Lookup(data, k1[0])) {
        assert FirstTruthy(data, k1) == FirstTruthy(data, k2);
        if !TruthyOpt(Lookup(data, k2[0])) {
          assert FirstTruthy(data, k2) == FirstTruthy(data, []);
        }
      }
    }
  }

  /** What `getWhoisExpiry` resolves to; it never rejects. None when the lookup
      throws, when no candidate field is truthy, or when the text does not
      parse as a date. */
  function WhoisExpiry(o: WhoisOutcome, other: string -> Option<EcmaDate.TimeValue>): (r: Option<string>)
    ensures r.Some? <==> o.WhoisRecord? && SelectExpiry(o.data).Some?
                         && EcmaDate.Parse(SelectExpiry(o.data).value, other).Some?
    ensures r.Some? ==> r.value == EcmaDate.DateString(EcmaDate.UtcDate(
                                     EcmaDate.Parse(SelectExpiry(o.data).value, other).value))
  {
    match o
    case WhoisThrew => None
    case WhoisRecord(data) =>
      match SelectExpiry(data)
      case None => None
      case Some(text) =>
        match EcmaDate.Parse(text, other)
        case None => None
        case Some(t) => Some(IsoDate(t))
  }

  /** A selected ISO date-time in UTC comes out as its own date part. */
  lemma {:induction false} WhoisExpiryOfUtcDateTime(data: map<string, string>, other: string -> Option<EcmaDate.TimeValue>,
                                                    c: EcmaDate.CalendarDate, hh: nat, mm: nat, ss: nat)
    requires -999999 <= c.year <= 999999 && EcmaDate.ValidDate(c)
    requires hh < 24 && mm < 60 && ss < 60
    requires -EcmaDate.MaxTime <= EcmaDate.MsPerDay * EcmaDate.MakeDay(c.year, c.month, c.day)
    requires EcmaDate.MsPerDay * (EcmaDate.MakeDay(c.year, c.month, c.day) + 1) <= EcmaDate.MaxTime
    requires SelectExpiry(data) == Some(EcmaDate.DateString(c) + ("T" + EcmaDate.ClockText(hh, mm, ss) + "Z"))
    ensures WhoisExpiry(WhoisRecord(data), other) == Some(EcmaDate.DateString(c))
  {
    var f := EcmaDate.TimeFields(hh, mm, ss, 0);
    EcmaDate.ReadClockPartOf(hh, mm, ss);
    EcmaDate.ReadDateTimeOf(c, EcmaDate.ClockText(hh, mm, ss), f);
    EcmaDate.UtcDateOfFields(c, f);
  }

  /** The date text of the worked example below, built from its fields. */
  lemma ExampleDateText()
    ensures EcmaDate.DateString(EcmaDate.CalendarDate(2030, 0, 1)) == "2030-01-01"
  {
    assert EcmaDate.Digits(2, 1) == "2";
    assert EcmaDate.Digits(20, 2) == EcmaDate.Digits(2, 1) + "0";
    assert EcmaDate.Digits(203, 3) == EcmaDate.Digits(20, 2) + "3";
    assert EcmaDate.Digits(2030, 4) == EcmaDate.Digits(203, 3) + "0";
    assert EcmaDate.Digits(1, 2) == EcmaDate.Digits(0, 1) + "1";
  }

  /** The time text of the worked example below. */
  lemma ExampleClockText()
    ensures EcmaDate.ClockText(0, 0, 0) == "00:00:00"
  {
    assert EcmaDate.Digits(0, 1) == "0";
    assert EcmaDate.Digits(0, 2) == EcmaDate.Digits(0, 1) + "0";
  }

  /** 1 January 2030 is day 21915 of the epoch. */
  lemma ExampleDayNumber()
    ensures EcmaDate.MakeDay(2030, 0, 1) == 21915
  {
  }

  /** The worked example: "Registry Expiry Date": "2030-01-01T00:00:00Z"
      yields "2030-01-01", whatever the other two fields hold. */
  lemma RegistryExpiryExample(data: map<string, string>, other: string -> Option<EcmaDate.TimeValue>)
    requires Lookup(data, "Registry Expiry Date") == Some("2030-01-01T00:00:00Z")
    ensures WhoisExpiry(WhoisRecord(data), other) == Some("2030-01-01")
  {
    var c := EcmaDate.CalendarDate(2030, 0, 1);
    ExampleDateText();
    ExampleClockText();
    ExampleDayNumber();
    assert "2030-01-01" + ("T" + "00:00:00" + "Z") == "2030-01-01T00:00:00Z";
    RegistryExpiryDateWins(data);
    WhoisExpiryOfUtcDateTime(data, other, c, 0, 0, 0);
  }

  // ----------------------------------------------------------- the handler

  /** The probes the handler starts, in the order it starts them. */
  datatype Probe = TlsProbe(host: string) | WhoisProbe(host: string)

  /** The JSON of a response. */
  datatype Payload =
    | ErrorPayload(error: string)
    | CheckPayload(domain: string, sslExpiry: Option<string>, whoisExpiry: Option<string>, status: string)

  datatype Response = Response(status: int, payload: Payload)

  /** A response together with the probes that were started to produce it. */
  datatype Handled = Handled(response: Response, probes: seq<Probe>)

  const InvalidDomain: Response := Response(400, ErrorPayload("Invalid domain"))
  const CheckFailed: Response := Response(500, ErrorPayload("Failed to check domain"))

  /** The domain a request carries when it gets past the guard. */
  predicate Accepted(body: RequestBody) {
    body.JsonBody? && !DestructureDomain(body.value).Throws? && !RejectsDomain(DestructureDomain(body.value))
  }

  function AcceptedDomain(body: RequestBody): (d: string)
    requires Accepted(body)
    ensures d != ""
  {
    DestructureDomain(body.value).v.s
  }

  /** `POST(req)`. Every exception inside the try block (a body that is not
      JSON, destructuring null, a rejected TLS probe) becomes the 500 response. */
  function Post(body: RequestBody, env: Env): (h: Handled)
    ensures h.response.status == 400 <==> body.JsonBody? && !DestructureDomain(body.value).Throws?
                                          && RejectsDomain(DestructureDomain(body.value))
    ensures h.response.status == 400 ==> h.response == InvalidDomain && h.probes == []
    ensures h.probes != [] <==> Accepted(body)
    ensures h.response.status == 200 <==> Accepted(body) && env.tls(AcceptedDomain(body)).Certificate?
    ensures h.response.status == 500 <==> !body.JsonBody? || DestructureDomain(body.value).Throws?
                                          || (Accepted(body) && env.tls(AcceptedDomain(body)).TlsFailed?)
    ensures h.response.status == 500 ==> h.response == CheckFailed
    ensures h.response.status == 200 ==>
              var d := AcceptedDomain(body);
              h.response.payload == CheckPayload(d, CertExpiry(env.tls(d)),
                                                 WhoisExpiry(env.whois(d), env.otherDateFormats), "ok")
  {
    match body
    case NotJson => Handled(CheckFailed, [])
    case JsonBody(value) =>
      var p := DestructureDomain(value);
      if p.Throws? then Handled(CheckFailed, [])
      else if RejectsDomain(p) then Handled(InvalidDomain, [])
      else
        var domain := p.v.s;
        match CertExpiry(env.tls(domain))
        case None => Handled(CheckFailed, [TlsProbe(domain)])
        case Some(sslExpiry) =>
          var whoisExpiry := WhoisExpiry(env.whois(domain), env.otherDateFormats);
          Handled(Response(200, CheckPayload(domain, Some(sslExpiry), whoisExpiry, "ok")),
                  [TlsProbe(domain), WhoisProbe(domain)])
  }

  /** A missing, empty or non-string domain gives 400 "Invalid domain" and starts no probe. */
  lemma InvalidDomainStartsNoProbe(fields: map<string, Json>, env: Env)
    requires "domain" !in fields || !fields["domain"].JString? || fields["domain"].s == ""
    ensures Post(JsonBody(JObject(fields)), env) == Handled(InvalidDomain, [])
  {
  }

  /** Every "ok" response echoes the domain and carries an SSL date. */
  lemma OkResponseHasSslDate(body: RequestBody, env: Env)
    requires Post(body, env).response.status == 200
    ensures var p := Post(body, env).response.payload;
            p.CheckPayload? && p.status == "ok" && p.domain == AcceptedDomain(body) && p.sslExpiry.Some?
  {
  }

  /** The probes run in sequence: WHOIS is asked only after the TLS probe succeeded. */
  lemma WhoisOnlyAfterTls(body: RequestBody, env: Env, host: string)
    requires WhoisProbe(host) in Post(body, env).probes
    ensures Post(body, env).probes == [TlsProbe(host), WhoisProbe(host)]
    ensures env.tls(host).Certificate?
  {
  }

  /** A TLS failure is not isolated: it fails the whole request, even though
      the WHOIS probe might have had an answer. */
  lemma TlsFailureFailsRequest(body: RequestBody, env: Env)
    requires Accepted(body) && env.tls(AcceptedDomain(body)).TlsFailed?
    ensures Post(body, env) == Handled(CheckFailed, [TlsProbe(AcceptedDomain(body))])
  {
  }

  /** The WHOIS probe never decides the status: two worlds that differ only in
      their WHOIS answers give the same status and the same SSL date. */
  lemma WhoisNeverFailsRequest(body: RequestBody, env1: Env, env2: Env)
    requires env1.tls == env2.tls
    ensures Post(body, env1).response.status == Post(body, env2).response.status
    ensures Post(body, env1).probes == Post(body, env2).probes
    ensures Post(body, env1).response.status == 200 ==>
              Post(body, env1).response.payload.sslExpiry == Post(body, env2).response.payload.sslExpiry
  {
  }

  /** A body that is not JSON, or is JSON null, gives 500, not 400. */
  lemma UnreadableBodyIsServerError(body: RequestBody, env: Env)
    requires body.NotJson? || body == JsonBody(JNull)
    ensures Post(body, env) == Handled(CheckFailed, [])
  {
  }
}
