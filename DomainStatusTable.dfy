/** The results table: the urgency badge computed from a nullable date
    string and the current time, and one row per result that shows either the
    date or a link for checking it by hand. */
module DomainStatusTable {

  import opened Options
  import opened JsString
  import EcmaDate

  /** One checked domain, as the page holds it. */
  datatype DomainResult = DomainResult(domain: string, sslExpiry: Option<string>, whoisExpiry: Option<string>)

  /** No two results share a domain. */
  predicate UniqueDomains(rs: seq<DomainResult>) {
    forall i, j :: 0 <= i < j < |rs| ==> rs[i].domain != rs[j].domain
  }

  // ----------------------------------------------------------------- badge

  /** The four badges: "❌ Failed", "❌ Expired", "⚠️ Soon", "✅ OK". */
  datatype Badge = FailedBadge | ExpiredBadge | SoonBadge | OkBadge

  /** `Math.ceil(gap / 86400000)` on a whole number of milliseconds. */
  function CeilDays(gap: int): (n: int)
    ensures EcmaDate.MsPerDay * (n - 1) < gap <= EcmaDate.MsPerDay * n
  {
    -((-gap) / EcmaDate.MsPerDay)
  }

  /** `diffDays`: whole days, rounded up, from now to the expiry. */
  function DiffDays(expiry: int, now: int): int {
    CeilDays(expiry - now)
  }

  /** The if/else chain on diffDays. */
  function Tier(diffDays: int): Badge {
    if diffDays <= 0 then ExpiredBadge
    else if diffDays < 30 then SoonBadge
    else OkBadge
  }

  /** The badge for an expiry instant and the current instant. */
  function Classify(expiry: int, now: int): Badge {
    Tier(DiffDays(expiry, now))
  }

  /** `getStatusBadge(dateStr)` with the current time `now`. A string that does
      not parse gives NaN, every comparison with NaN is false, and so it falls
      through to OK. */
  function StatusBadge(dateStr: Option<string>, now: EcmaDate.TimeValue,
                       other: string -> Option<EcmaDate.TimeValue>): (b: Badge)
    ensures b == FailedBadge <==> !TruthyOpt(dateStr)
    ensures TruthyOpt(dateStr) && EcmaDate.Parse(dateStr.value, other).None? ==> b == OkBadge
  {
    if !TruthyOpt(dateStr) then FailedBadge
    else
      match EcmaDate.Parse(dateStr.value, other)
      case None => OkBadge
      case Some(expiry) => Classify(expiry, now)
  }

  /** The tiers by the gap in milliseconds: Expired when the expiry is not
      after now, Soon up to 29 days ahead, OK beyond. */
  lemma ClassifyByGap(expiry: int, now: int)
    ensures Classify(expiry, now) == ExpiredBadge <==> expiry <= now
    ensures Classify(expiry, now) == SoonBadge <==> 0 < expiry - now <= 29 * EcmaDate.MsPerDay
    ensures Classify(expiry, now) == OkBadge <==> expiry - now > 29 * EcmaDate.MsPerDay
  {
    var n := DiffDays(expiry, now);
    assert n <= 0 <==> expiry - now <= 0;
    assert n < 30 <==> expiry - now <= 29 * EcmaDate.MsPerDay;
  }

  /** An expiry even one millisecond after now is never Expired. */
  lemma LaterIsNeverExpired(expiry: int, now: int)
    requires expiry > now
    ensures Classify(expiry, now) != ExpiredBadge
  {
    ClassifyByGap(expiry, now);
  }

  /** Urgency rank: a higher number is more urgent. */
  function Urgency(b: Badge): nat {
    match b
    case OkBadge => 0
    case SoonBadge => 1
    case ExpiredBadge => 2
    case FailedBadge => 3
  }

  /** `getStatusBadge` on any date string that parses: Failed never, Expired
      exactly when the instant is not after now, Soon exactly up to 29 days
      ahead, OK beyond. */
  lemma StatusBadgeOfParsed(dateStr: Option<string>, e: EcmaDate.TimeValue, now: EcmaDate.TimeValue,
                            other: string -> Option<EcmaDate.TimeValue>)
    requires TruthyOpt(dateStr) && EcmaDate.Parse(dateStr.value, other) == Some(e)
    ensures StatusBadge(dateStr, now, other) == Classify(e, now)
    ensures StatusBadge(dateStr, now, other) == ExpiredBadge <==> e <= now
    ensures StatusBadge(dateStr, now, other) == SoonBadge <==> 0 < e - now <= 29 * EcmaDate.MsPerDay
    ensures StatusBadge(dateStr, now, other) == OkBadge <==> e - now > 29 * EcmaDate.MsPerDay
  {
    ClassifyByGap(e, now);
  }

  /** With now fixed, a later expiry never gives a more urgent badge. */
  lemma ClassifyMonotone(e1: int, e2: int, now: int)
    requires e1 <= e2
    ensures Urgency(Classify(e2, now)) <= Urgency(Classify(e1, now))
  {
    ClassifyByGap(e1, now);
    ClassifyByGap(e2, now);
  }

  /** An expiry at the start of UTC day `d` is classified by how many days
      that day lies after today. */
  lemma ClassifyDayStart(d: int, now: EcmaDate.TimeValue)
    ensures Classify(EcmaDate.MsPerDay * d, now) == Tier(d - EcmaDate.Day(now))
  {
    var k := d - EcmaDate.Day(now);
    var w := EcmaDate.TimeWithinDay(now);
    assert EcmaDate.MsPerDay * d - now == EcmaDate.MsPerDay * k - w;
    assert CeilDays(EcmaDate.MsPerDay * k - w) == k;
  }

  /** On a date string such as the API sends, the badge depends only on how
      many calendar days (UTC) lie between today and the expiry date. */
  lemma {:induction false} DateStringBadge(c: EcmaDate.CalendarDate, now: EcmaDate.TimeValue,
                                           other: string -> Option<EcmaDate.TimeValue>)
    requires -999999 <= c.year <= 999999 && EcmaDate.ValidDate(c)
    requires -EcmaDate.MaxTime <= EcmaDate.MsPerDay * EcmaDate.MakeDay(c.year, c.month, c.day) <= EcmaDate.MaxTime
    ensures StatusBadge(Some(EcmaDate.DateString(c)), now, other)
            == Tier(EcmaDate.MakeDay(c.year, c.month, c.day) - EcmaDate.Day(now))
  {
    var d := EcmaDate.MakeDay(c.year, c.month, c.day);
    EcmaDate.ReadDateString(c);
    assert EcmaDate.Parse(EcmaDate.DateString(c), other) == Some(EcmaDate.MsPerDay * d);
    ClassifyDayStart(d, now);
  }

  /** The calendar-day boundaries: the expiry day itself is Expired, 1 to 29
      days ahead is Soon, 30 or more days ahead is OK. */
  lemma CalendarDayBoundaries(c: EcmaDate.CalendarDate, now: EcmaDate.TimeValue,
                              other: string -> Option<EcmaDate.TimeValue>)
    requires -999999 <= c.year <= 999999 && EcmaDate.ValidDate(c)
    requires -EcmaDate.MaxTime <= EcmaDate.MsPerDay * EcmaDate.MakeDay(c.year, c.month, c.day) <= EcmaDate.MaxTime
    ensures var ahead := EcmaDate.MakeDay(c.year, c.month, c.day) - EcmaDate.Day(now);
            var b := StatusBadge(Some(EcmaDate.DateString(c)), now, other);
            (b == ExpiredBadge <==> ahead <= 0)
            && (b == SoonBadge <==> 1 <= ahead <= 29)
            && (b == OkBadge <==> ahead >= 30)
  {
    DateStringBadge(c, now, other);
  }

  // ------------------------------------------------------------------ rows

  /** What a date cell shows: the date text, or a "Check manually" link. */
  datatype Cell = DateText(text: string) | ManualCheck(href: string)

  const SslCheckerUrl: string := "https://www.sslshopper.com/ssl-checker.html#hostname="
  const WhoisLookupUrl: string := "https://who.is/whois/"

  /** `date ? date : <a href={manualUrl}>`. */
  function ExpiryCell(date: Option<string>, manualUrl: string): (c: Cell)
    ensures c.DateText? <==> TruthyOpt(date)
    ensures c.DateText? ==> c.text == date.value
    ensures c.ManualCheck? ==> c.href == manualUrl
  {
    if TruthyOpt(date) then DateText(date.value) else ManualCheck(manualUrl)
  }

  /** One table row: the domain, then date and badge for SSL and for WHOIS. */
  datatype Row = Row(key: string, domain: string, ssl: Cell, sslStatus: Badge,
                     whois: Cell, whoisStatus: Badge)

  function RenderRow(r: DomainResult, now: EcmaDate.TimeValue,
                     other: string -> Option<EcmaDate.TimeValue>): (row: Row)
    ensures row.key == r.domain && row.domain == r.domain
    ensures row.ssl.ManualCheck? ==> row.ssl.href == SslCheckerUrl + r.domain
    ensures row.whois.ManualCheck? ==> row.whois.href == WhoisLookupUrl + r.domain
    ensures row.ssl.DateText? ==> r.sslExpiry == Some(row.ssl.text)
    ensures row.whois.DateText? ==> r.whoisExpiry == Some(row.whois.text)
    ensures row.ssl.ManualCheck? <==> row.sslStatus == FailedBadge
    ensures row.whois.ManualCheck? <==> row.whoisStatus == FailedBadge
  {
    Row(r.domain, r.domain,
        ExpiryCell(r.sslExpiry, SslCheckerUrl + r.domain), StatusBadge(r.sslExpiry, now, other),
        ExpiryCell(r.whoisExpiry, WhoisLookupUrl + r.domain), StatusBadge(r.whoisExpiry, now, other))
  }

  /** `results.map(r => <TableRow key={r.domain}>...)`. */
  function RenderTable(results: seq<DomainResult>, now: EcmaDate.TimeValue,
                       other: string -> Option<EcmaDate.TimeValue>): (rows: seq<Row>)
    ensures |rows| == |results|
    ensures forall i :: 0 <= i < |results| ==> rows[i] == RenderRow(results[i], now, other)
  {
    if results == [] then []
    else [RenderRow(results[0], now, other)] + RenderTable(results[1..], now, other)
  }

  /** Rows come in the order of the results and, when the domains are unique,
      their React keys are too. */
  lemma RowKeysDistinct(results: seq<DomainResult>, now: EcmaDate.TimeValue,
                        other: string -> Option<EcmaDate.TimeValue>)
    requires UniqueDomains(results)
    ensures var rows := RenderTable(results, now, other);
            forall i, j :: 0 <= i < j < |rows| ==> rows[i].key != rows[j].key
  {
  }
}
