# expirypulse — a verified Dafny model of the domain-expiry check

expirypulse lets an operator type a domain and see when its TLS certificate
and its registration expire, with a badge for how urgent each one is. This
project models the three pieces of logic behind that:

- **The API route** `POST /api/check-domain` (module `CheckDomainRoute`). It
  covers the request guard, the TLS and WHOIS probes as outcomes, the ordered
  WHOIS field fallback, the cut of an ISO-8601 string down to its date, and the
  mapping of outcomes to the 200/400/500 responses.
- **The urgency classifier and the results table** (module
  `DomainStatusTable`). That is `getStatusBadge` with its ceiling day
  difference and four tiers, plus each row's choice between showing the date
  and showing a manual-check link.
- **The page's "Add" handler** (module `HomePage`). It covers trimming and
  lower-casing, the domain-format validator, the last-write-wins upsert into the
  results list, and the state changes on success and failure. `HomePage.Home`
  is a class whose fields are the two pieces of React state, `domain` and
  `results`.

Supporting modules:

- `JsString`: JavaScript string truthiness, `trim`, `toLowerCase`, and
  `split(sep)[0]`.
- `EcmaDate`: the Date abstract operations of ECMA-262, section 21.4.1. This
  includes Day, DayFromYear, MakeDay and TimeClip, and the standard's
  YearFromTime, MonthFromTime and DateFromTime, which are written on day
  numbers as `YearFromDay`, `MonthFromDayInYear` and `DateOfDay`. It also gives `Date.prototype.toISOString` (section 21.4.4.36)
  and the Date Time String Format of section 21.4.1, which the
  `new Date(string)` parser must accept.
- `Integration`: connects the two sides. The page's `fetch` is answered by the
  route's `POST`.

The probes are parameters, not I/O. An `Env` value holds three oracles:

- the outcome of the TLS handshake for a host (a certificate's `valid_to`
  instant, or a socket error, timeout or missing certificate);
- the WHOIS record (a `map<string, string>`, or a thrown error);
- the implementation-defined part of `Date.parse` for strings outside the
  standard format.

`Post` returns the response together with the list of probes it started, and
in what order, so "no probe is started" and "WHOIS runs only after TLS" are
facts about that list. The current time is a parameter `now` of the
classifier. The page's `fetch` is a parameter of `HandleAddDomain`.

### Where the model follows the code rather than the specification

- **A failed TLS probe fails the whole request.** In `route.ts`, the TLS
  probe's rejection at line 13 is not caught locally. It reaches the `catch`
  at lines 22-25, so the response is 500 "Failed to check domain"
  (`TlsFailureFailsRequest`). As a result, an "ok" response always has an SSL
  date (`OkResponseHasSslDate`). The system's specification instead asks for
  `sslExpiry: null` with the WHOIS result kept.
- **The probes run one after the other.** WHOIS is queried only after the TLS
  probe succeeded (`WhoisOnlyAfterTls`). The system's specification asks for the
  two probes to run concurrently.
- **Only the TLS outcome decides the request.** A WHOIS failure always
  degrades to `null` (`WhoisNeverFailsRequest`).
- **A date string that does not parse gets the "✅ OK" badge.** In the
  browser it becomes NaN, every comparison with NaN is false, and the
  if/else chain falls through to OK. `StatusBadge` states this case.
- **Same-day expiry counts as Expired.** A date-only string such as
  "2030-01-01" is read as midnight UTC of that day. `diffDays` is computed from
  that instant, so an expiry dated today is Expired, and 1 to 29 calendar days
  ahead is Soon (`CalendarDayBoundaries`,
  `StoredSslBadgeCountsCalendarDays`). This matches the specification's examples:
  today gives Expired, 10 days gives Soon, 30 and 365 days give OK.

## Model

| member | source | states |
|---|---|---|
| CheckDomainRoute.DestructureDomain | src/app/api/check-domain/route.ts:7 | destructuring throws exactly on a JSON `null`; an object with a "domain" property yields that property's value; every other value yields `undefined` |
| CheckDomainRoute.GuardAcceptsExactlyNonEmptyStrings | src/app/api/check-domain/route.ts:9-11 | the guard lets a value through if and only if it is a non-empty string |
| CheckDomainRoute.AcceptedDomain | src/app/api/check-domain/route.ts:9-13 | the domain that gets past the guard is never empty |
| CheckDomainRoute.InvalidDomainStartsNoProbe | src/app/api/check-domain/route.ts:9-11 | a body whose domain is missing, not a string or empty gets 400 "Invalid domain" and starts no probe |
| CheckDomainRoute.UnreadableBodyIsServerError | src/app/api/check-domain/route.ts:7 | a body that is not JSON, or is JSON `null`, gets the 500 response with no probe started, not the 400 |
| CheckDomainRoute.Post | src/app/api/check-domain/route.ts:5-26 | 400 exactly when the guard rejects, and then no probe runs; 500 exactly for an unreadable body or a failed TLS probe; 200 exactly when the TLS probe found a certificate; a probe runs if and only if the guard accepted; the 200 body echoes the domain and carries both dates and status "ok" |
| CheckDomainRoute.OkResponseHasSslDate | src/app/api/check-domain/route.ts:13-21 | every 200 response echoes the accepted domain, has status "ok" and has a non-null `sslExpiry` |
| CheckDomainRoute.WhoisOnlyAfterTls | src/app/api/check-domain/route.ts:13-14 | when WHOIS was queried, the probes were exactly TLS then WHOIS for the same host, and TLS had succeeded |
| CheckDomainRoute.TlsFailureFailsRequest | src/app/api/check-domain/route.ts:13 | a TLS socket error, timeout or missing certificate turns an accepted request into 500 "Failed to check domain", with WHOIS never queried |
| CheckDomainRoute.WhoisNeverFailsRequest | src/app/api/check-domain/route.ts:14-25 | the WHOIS answers never change the response status, the probes started or the SSL date |
| CheckDomainRoute.CertExpiry | src/app/api/check-domain/route.ts:36-39 | the TLS probe resolves if and only if it has a certificate, and it resolves to the UTC calendar date of `valid_to` |
| CheckDomainRoute.IsoDate | src/app/api/check-domain/route.ts:38 | `toISOString().split("T")[0]` is exactly the `YYYY-MM-DD` (or `±YYYYYY-MM-DD`) UTC date of the instant |
| CheckDomainRoute.IsoDateReadsBack | src/app/api/check-domain/route.ts:38 | the date string parses back, in the standard format, to midnight UTC of the instant's day |
| CheckDomainRoute.IsoDateSameExactlyOnSameDay | src/app/api/check-domain/route.ts:38 | two instants give the same date string if and only if they fall on the same UTC day |
| CheckDomainRoute.FirstTruthy | src/app/api/check-domain/route.ts:57-60 | the `\|\|` chain gives none exactly when no key has a truthy value, and otherwise a value found under one of the keys |
| CheckDomainRoute.RegistryExpiryDateWins | src/app/api/check-domain/route.ts:58 | a truthy "Registry Expiry Date" is chosen whatever the other fields hold |
| CheckDomainRoute.SelectExpiryFallsThrough | src/app/api/check-domain/route.ts:57-60 | an absent or empty higher-priority field falls through to the next, in the order Registry, Registrar Registration, Expiration; none truthy gives none |
| CheckDomainRoute.WhoisExpiry | src/app/api/check-domain/route.ts:51-72 | the WHOIS result is non-null if and only if the lookup returned a record with a truthy candidate that parses, and it is then that instant's UTC date; a thrown lookup, no candidate or an unparsable date give null |
| CheckDomainRoute.WhoisExpiryOfUtcDateTime | src/app/api/check-domain/route.ts:62-67 | a candidate of the form `YYYY-MM-DDTHH:mm:ssZ` yields its own `YYYY-MM-DD` |
| CheckDomainRoute.RegistryExpiryExample | src/app/api/check-domain/route.ts:57-67 | "2030-01-01T00:00:00Z" under "Registry Expiry Date" yields "2030-01-01" |
| EcmaDate.ToIsoString | src/app/api/check-domain/route.ts:38 | `toISOString` is 24 characters long, or 27 for an expanded year; it starts with the UTC calendar date, a "T" follows the date, and it ends in "Z" |
| EcmaDate.ReadIsoString | src/app/api/check-domain/route.ts:64-67 | the parser reads every `toISOString` output back to the same instant |
| EcmaDate.ParseIsoString | src/app/api/check-domain/route.ts:64-67 | `new Date` of a `toISOString` output gives back the same instant, whatever the implementation-defined parser does |
| EcmaDate.ParseDateString | src/components/DomainStatusTable.tsx:22 | `new Date` of a `YYYY-MM-DD` string gives midnight UTC of that date, whatever the implementation-defined parser does |
| EcmaDate.ParseInFormatIgnoresOther | src/app/api/check-domain/route.ts:64 | a string in the modelled standard format is read the same under every implementation-defined parser |
| EcmaDate.YearMonthFormsGoToOther | src/app/api/check-domain/route.ts:64 | the year-only and year-month forms `YYYY` and `YYYY-MM` are handed to the implementation-defined parser |
| EcmaDate.UtcDate | src/app/api/check-domain/route.ts:38 | the calendar date of an instant is a valid date whose MakeDay is the instant's day number |
| EcmaDate.YearFromTimeIsLargest | src/app/api/check-domain/route.ts:38 | the year of an instant is the largest year whose start is not after it |
| EcmaDate.DateOfMakeDay | src/app/api/check-domain/route.ts:38 | reading the calendar date back from MakeDay of a valid date gives that date |
| EcmaDate.DigitsRoundTrip | src/app/api/check-domain/route.ts:38 | the zero-padded digits of a number read back as that number |
| EcmaDate.ReadDateString | src/components/DomainStatusTable.tsx:22 | a date-only string is read as midnight UTC of its day |
| DomainStatusTable.CeilDays | src/components/DomainStatusTable.tsx:23 | the day count is the ceiling of the gap over 86 400 000 ms: the least n with gap ≤ n days |
| DomainStatusTable.StatusBadge | src/components/DomainStatusTable.tsx:16-32 | Failed if and only if the date is null or empty; a non-empty date that does not parse gives OK |
| DomainStatusTable.StatusBadgeOfParsed | src/components/DomainStatusTable.tsx:21-31 | a non-empty date string that parses to instant e gets the tier of e: Expired exactly when e is not after now, Soon exactly when 0 < e − now ≤ 29 × 86 400 000 ms, OK beyond |
| DomainStatusTable.ClassifyByGap | src/components/DomainStatusTable.tsx:23-31 | Expired if and only if the expiry is not after now; Soon if and only if 0 < gap ≤ 29 × 86 400 000 ms; OK if and only if gap > 29 × 86 400 000 ms |
| DomainStatusTable.LaterIsNeverExpired | src/components/DomainStatusTable.tsx:23-26 | an expiry even 1 ms after now is never Expired |
| DomainStatusTable.ClassifyMonotone | src/components/DomainStatusTable.tsx:23-31 | with now fixed, a later expiry never gives a more urgent badge |
| DomainStatusTable.ClassifyDayStart | src/components/DomainStatusTable.tsx:21-31 | an expiry at midnight UTC of day d gets the tier of d minus today's day number |
| DomainStatusTable.DateStringBadge | src/components/DomainStatusTable.tsx:21-31 | a `YYYY-MM-DD` string gets the tier of its day minus today's UTC day |
| DomainStatusTable.CalendarDayBoundaries | src/components/DomainStatusTable.tsx:25-31 | for a date-only string: today or earlier is Expired, 1 to 29 days ahead is Soon, 30 or more is OK |
| DomainStatusTable.ExpiryCell | src/components/DomainStatusTable.tsx:52-63 | a cell shows the date verbatim if and only if it is truthy, and otherwise the manual-check link |
| DomainStatusTable.RenderRow | src/components/DomainStatusTable.tsx:49-80 | a row is keyed by its domain; an absent SSL date links to the sslshopper checker and an absent WHOIS date to who.is, both with the domain appended; a link is shown exactly where the badge is Failed |
| DomainStatusTable.RenderTable | src/components/DomainStatusTable.tsx:48-49 | one row per result, in list order |
| DomainStatusTable.RowKeysDistinct | src/components/DomainStatusTable.tsx:49 | results with distinct domains give rows with distinct keys |
| JsString.TrimSpec | src/app/page.tsx:21 | `trim` gives a slice of its input with only white space cut before and after it, and that slice neither starts nor ends with white space |
| JsString.TrimFixes | src/app/page.tsx:21 | a string with no white space at either end is unchanged by `trim` |
| JsString.ToLowerSpec | src/app/page.tsx:21 | `toLowerCase` keeps the length and maps each character on its own: A-Z to a-z, every other character unchanged |
| JsString.ToLowerFixes | src/app/page.tsx:21 | a string without upper-case letters is unchanged by `toLowerCase` |
| JsString.SplitHead | src/app/api/check-domain/route.ts:38 | `split(sep)[0]` is the longest prefix without the separator: it is followed by the separator or ends the string |
| JsString.SplitHeadOfPrefix | src/app/api/check-domain/route.ts:38 | a separator-free piece followed by the separator (or by nothing) is what `split(sep)[0]` returns |
| HomePage.NormalizeIdempotent | src/app/page.tsx:21 | trimming and lower-casing twice is the same as once |
| HomePage.NormalizeFixesValid | src/app/page.tsx:21-23 | a string that passes the validator is its own normal form |
| HomePage.LastIndexOf | src/app/page.tsx:23 | the index found holds the character and none follows it; not found means the character does not occur |
| HomePage.ValidatorMatchesPattern | src/app/page.tsx:23 | the character-level validator accepts exactly the strings `^[a-z0-9.-]+\.[a-z]{2,}$` matches |
| HomePage.ValidatorAcceptsExamples | src/app/page.tsx:23 | "example.com" and "my-site.co.uk" pass the validator |
| HomePage.ValidatorRejectsExamples | src/app/page.tsx:23 | "localhost", ".com", "example.c", "example.c0m" and "Example.com" fail the validator |
| HomePage.Without | src/app/page.tsx:42 | the filter keeps only entries of the list, and none for the removed domain |
| HomePage.EntriesForWithout | src/app/page.tsx:42 | the filter drops every entry for the domain and keeps every other domain's entries, in order |
| HomePage.WithoutIsSubsequence | src/app/page.tsx:42 | the filtered list is a subsequence of the original |
| HomePage.UpsertEntries | src/app/page.tsx:41-44 | after the upsert the domain has exactly one entry, the new one; every other domain's entries are unchanged |
| HomePage.UpsertPutsLast | src/app/page.tsx:43 | the new entry is the last element |
| HomePage.UpsertKeepsOrder | src/app/page.tsx:42-43 | the entries before the new one are a subsequence of the old list, and none is for the new domain |
| HomePage.UpsertKeepsUnique | src/app/page.tsx:41-44 | a list with at most one entry per domain keeps that property |
| HomePage.UpsertLength | src/app/page.tsx:41-44 | with unique domains, the length grows by one exactly when the domain was new, and is unchanged otherwise |
| HomePage.UpsertKeepsValid | src/app/page.tsx:41-44 | unique, validator-passing domains stay so after upserting a valid domain |
| HomePage.Home.constructor | src/app/page.tsx:17-18 | the field starts empty and the results start empty |
| HomePage.Home.SetDomain | src/app/page.tsx:72 | typing replaces the field and leaves the results unchanged |
| HomePage.Home.HandleAddDomain | src/app/page.tsx:20-51 | invalid input: an error toast, no request, and nothing changes; otherwise the request carries the trimmed, lower-cased domain; a network error, a non-2xx status or an unreadable body leave the results and the field unchanged; success upserts the entry with the returned dates and clears the field; the result stays duplicate-free |
| Integration.Deliver | src/app/page.tsx:37-39 | the page sees the route's status and, for a check payload, its two dates |
| Integration.AddSucceedsExactlyWithCertificate | src/app/page.tsx:37-44 | the page stores a result if and only if the TLS probe found a certificate; the stored SSL date is then the certificate's UTC date and the WHOIS date is the route's choice |
| Integration.IsoDateBadge | src/components/DomainStatusTable.tsx:21-31 | a date produced from an instant gets the tier of that instant's UTC day minus today's |
| Integration.StoredSslBadgeCountsCalendarDays | src/components/DomainStatusTable.tsx:65 | the SSL badge of a stored result is the tier of the certificate's UTC expiry day minus today's |
| Integration.AddedRowShowsCertificateDate | src/components/DomainStatusTable.tsx:52-65 | after a successful add, the row shows the certificate's date, not the link, and its SSL badge is not Failed |

## Left out

- TLS socket mechanics (`tls.connect`, callbacks, `end`/`destroy`) and the 5-second timeout. These are network I/O. The probe is an outcome: a certificate's instant, a socket error, a timeout, or no certificate. `tls.connect` verifies the peer certificate by default. So an expired, self-signed or mismatched certificate ends in the socket's `'error'` event, and then in the 500 response, never in a date. The model counts it as a socket error, which means a fresh check rarely produces an "Expired" SSL badge.
- A certificate whose `valid_to` does not parse. `new Date(...).toISOString()` would then throw inside the socket callback rather than reject the promise. The model's certificate outcome always carries a valid instant.
- The `whois-json` library. Its result is a `map<string, string>` or a thrown error.
- EcmaDate.Parse: implements only part of the Date Time String Format, in UTC. It reads the date-only form `YYYY-MM-DD`, and date-time forms with seconds, optional milliseconds and "Z", with 4-digit or signed 6-digit years. The standard's other date-only forms `YYYY` and `YYYY-MM` (`YearMonthFormsGoToOther`) go to the implementation-defined parameter `otherDateFormats`. So do free-form text, local-time forms, numeric offsets and times without seconds.
- Wall-clock `new Date()`. It is the parameter `now`.
- DomainStatusTable.CeilDays: uses integer ceiling division. `getTime()` values are whole milliseconds, and floating-point rounding is not modelled.
- JsString.ToLower: maps only ASCII letters. Non-ASCII case mapping (for example U+212A, KELVIN SIGN, which lowers to "k") is not modelled. A string containing it can therefore pass the real validator but not the modelled one.
- HTTP and JSON plumbing (`NextResponse`, `req.json`, `fetch`, `JSON.stringify`). These are datatypes. Inside the page, a non-string `sslExpiry` or `whoisExpiry` in the response body is not modelled.
- Toasts, JSX markup, CSS, `Image`, the footer, `console` logging, and the `results.length > 0` switch that hides the table. Toasts are returned as values only.
- React's asynchronous state updates. Another handler could run between the `await` and `setResults`, and the model treats each `HandleAddDomain` as one atomic step.
