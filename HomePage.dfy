/** The home page: normalisation and format check of the typed domain, the
    last-write-wins update of the results list, and the state changes of
    the "Add" handler. */
module HomePage {

  import opened Options
  import opened JsString
  import opened DomainStatusTable

  // --------------------------------------------------------- normalisation

  /** `domain.trim().toLowerCase()`. */
  function Normalize(s: string): string {
    ToLower(Trim(s))
  }

  /** Lower-casing never produces an upper-case letter. */
  lemma ToLowerHasNoUpper(s: string)
    ensures forall k :: 0 <= k < |ToLower(s)| ==> !IsUpperAscii(ToLower(s)[k])
  {
    ToLowerSpec(s);
  }

  /** No white-space character is an ASCII letter. */
  lemma WhiteSpaceIsNotLetter(c: char)
    requires IsWhiteSpace(c)
    ensures !IsUpperAscii(c) && !('a' <= c <= 'z')
  {
  }

  /** Lower-casing keeps a character that is not white space out of white space. */
  lemma LowerCharKeepsNonWhiteSpace(c: char)
    requires !IsWhiteSpace(c)
    ensures !IsWhiteSpace(LowerChar(c))
  {
    if IsWhiteSpace(LowerChar(c)) {
      WhiteSpaceIsNotLetter(LowerChar(c));
    }
  }

  /** Normalising twice is normalising once. */
  lemma {:induction false} NormalizeIdempotent(s: string)
    ensures Normalize(Normalize(s)) == Normalize(s)
  {
    var t := Trim(s);
    var r := ToLower(t);
    var _, _ := TrimSpec(s);
    ToLowerHasNoUpper(t);
    ToLowerSpec(t);
    if r != [] {
      LowerCharKeepsNonWhiteSpace(t[0]);
      LowerCharKeepsNonWhiteSpace(t[|t| - 1]);
    }
    TrimFixes(r);
    ToLowerFixes(r);
  }

  // ------------------------------------------------------------- validator

  predicate IsLowerLetter(c: char) {
    'a' <= c <= 'z'
  }

  /** The character class `[a-z0-9.-]`. */
  predicate IsDomainChar(c: char) {
    IsLowerLetter(c) || '0' <= c <= '9' || c == '.' || c == '-'
  }

  predicate AllDomainChars(s: string) {
    forall i :: 0 <= i < |s| ==> IsDomainChar(s[i])
  }

  predicate AllLowerLetters(s: string) {
    forall i :: 0 <= i < |s| ==> IsLowerLetter(s[i])
  }

  /** `s.lastIndexOf(c)`, with None for -1. */
  function LastIndexOf(s: string, c: char): (r: Option<nat>)
    ensures r.Some? ==> r.value < |s| && s[r.value] == c
                        && forall i :: r.value < i < |s| ==> s[i] != c
    ensures r.None? ==> forall i :: 0 <= i < |s| ==> s[i] != c
  {
    if s == [] then None
    else if s[|s| - 1] == c then Some(|s| - 1)
    else LastIndexOf(s[..|s| - 1], c)
  }

  /** The validator as a scan: only `[a-z0-9.-]`, a last dot that is not the
      first character, and two or more lower-case letters after it. */
  predicate IsValidDomainFormat(s: string) {
    AllDomainChars(s) &&
    match LastIndexOf(s, '.')
    case None => false
    case Some(k) => 1 <= k && k + 3 <= |s| && AllLowerLetters(s[k + 1..])
  }

  /** What `/^[a-z0-9.-]+\.[a-z]{2,}$/` matches: a non-empty run from the
      class, a dot, and a run of at least two lower-case letters. */
  ghost predicate MatchesDomainPattern(s: string) {
    exists k :: 0 < k < |s| && s[k] == '.' && AllDomainChars(s[..k])
                && |s[k + 1..]| >= 2 && AllLowerLetters(s[k + 1..])
  }

  /** The scan accepts exactly the strings the pattern matches. */
  lemma ValidatorMatchesPattern(s: string)
    ensures IsValidDomainFormat(s) <==> MatchesDomainPattern(s)
  {
    if IsValidDomainFormat(s) {
      var k := LastIndexOf(s, '.').value;
      assert AllDomainChars(s[..k]);
    }
    if MatchesDomainPattern(s) {
      var k :| 0 < k < |s| && s[k] == '.' && AllDomainChars(s[..k])
               && |s[k + 1..]| >= 2 && AllLowerLetters(s[k + 1..]);
      forall i | 0 <= i < |s|
        ensures IsDomainChar(s[i])
      {
        if i < k {
          assert s[i] == s[..k][i];
        } else if i > k {
          assert s[i] == s[k + 1..][i - k - 1];
        }
      }
      forall i | k < i < |s|
        ensures s[i] != '.'
      {
        assert s[i] == s[k + 1..][i - k - 1];
      }
      assert LastIndexOf(s, '.') == Some(k);
    }
  }

  /** A string that passes the validator is already normalised, so the
      domains stored in the results are their own normal form. */
  lemma NormalizeFixesValid(s: string)
    requires IsValidDomainFormat(s)
    ensures Normalize(s) == s
  {
    TrimFixes(s);
    ToLowerFixes(s);
  }

  /** The last dot is the one with no dot after it. */
  lemma LastDotAt(s: string, k: nat)
    requires k < |s| && s[k] == '.'
    requires forall i :: k < i < |s| ==> s[i] != '.'
    ensures LastIndexOf(s, '.') == Some(k)
  {
  }

  lemma ValidatorAcceptsExamples()
    ensures IsValidDomainFormat("example.com")
    ensures IsValidDomainFormat("my-site.co.uk")
  {
    LastDotAt("example.com", 7);
    LastDotAt("my-site.co.uk", 10);
    assert "example.com"[8..] == "com";
    assert "my-site.co.uk"[11..] == "uk";
  }

  lemma ValidatorRejectsExamples()
    ensures !IsValidDomainFormat("localhost")
    ensures !IsValidDomainFormat(".com")
    ensures !IsValidDomainFormat("example.c")
    ensures !IsValidDomainFormat("example.c0m")
    ensures !IsValidDomainFormat("Example.com")
  {
    LastDotAt("example.c", 7);
    LastDotAt("example.c0m", 7);
    LastDotAt(".com", 0);
    assert "example.c0m"[8..][1] == '0';
    assert !IsDomainChar("Example.com"[0]);
    assert LastIndexOf("localhost", '.') == None;
  }

  // --------------------------------------------------------------- upsert

  /** `list.filter(r => r.domain !== d)`. */
  function Without(rs: seq<DomainResult>, d: string): (r: seq<DomainResult>)
    ensures |r| <= |rs|
    ensures forall x :: x in r ==> x in rs && x.domain != d
  {
    if rs == [] then []
    else (if rs[0].domain == d then [] else [rs[0]]) + Without(rs[1..], d)
  }

  /** The entries for domain `d`, in list order. */
  function EntriesFor(rs: seq<DomainResult>, d: string): (r: seq<DomainResult>)
    ensures forall x :: x in r ==> x in rs && x.domain == d
  {
    if rs == [] then []
    else (if rs[0].domain == d then [rs[0]] else []) + EntriesFor(rs[1..], d)
  }

  /** The list with `e` written last-write-wins: every entry for `e.domain`
      removed, then `e` appended. */
  function Upsert(rs: seq<DomainResult>, e: DomainResult): seq<DomainResult> {
    Without(rs, e.domain) + [e]
  }

  predicate HasEntry(rs: seq<DomainResult>, d: string) {
    exists i :: 0 <= i < |rs| && rs[i].domain == d
  }

  lemma {:induction false} EntriesForAppend(a: seq<DomainResult>, b: seq<DomainResult>, d: string)
    ensures EntriesFor(a + b, d) == EntriesFor(a, d) + EntriesFor(b, d)
  {
    if a == [] {
      assert a + b == b;
    } else {
      assert (a + b)[1..] == a[1..] + b;
      EntriesForAppend(a[1..], b, d);
    }
  }

  /** Filtering out `d` drops its entries and keeps every other domain's. */
  lemma {:induction false} EntriesForWithout(rs: seq<DomainResult>, d: string, d2: string)
    ensures EntriesFor(Without(rs, d), d2) == if d2 == d then [] else EntriesFor(rs, d2)
  {
    if rs != [] {
      var head := if rs[0].domain == d then [] else [rs[0]];
      EntriesForAppend(head, Without(rs[1..], d), d2);
      EntriesForWithout(rs[1..], d, d2);
    }
  }

  /** A list splits into the entries for `d` and the rest. */
  lemma {:induction false} PartitionLength(rs: seq<DomainResult>, d: string)
    ensures |Without(rs, d)| + |EntriesFor(rs, d)| == |rs|
  {
    if rs != [] {
      PartitionLength(rs[1..], d);
    }
  }

  /** After the upsert the list holds exactly one entry for the domain, the
      new one, and the entries of every other domain are the same, in the
      same order. */
  lemma UpsertEntries(rs: seq<DomainResult>, e: DomainResult, d: string)
    ensures EntriesFor(Upsert(rs, e), d) == if d == e.domain then [e] else EntriesFor(rs, d)
  {
    EntriesForAppend(Without(rs, e.domain), [e], d);
    EntriesForWithout(rs, e.domain, d);
    assert EntriesFor([e], d) == (if e.domain == d then [e] else []) + EntriesFor([], d);
  }

  /** The new entry is the last one. */
  lemma UpsertPutsLast(rs: seq<DomainResult>, e: DomainResult)
    ensures var u := Upsert(rs, e);
            |u| >= 1 && u[|u| - 1] == e
  {
  }

  /** `a` is `b` with some elements left out. */
  predicate IsSubsequence(a: seq<DomainResult>, b: seq<DomainResult>)
    decreases |b|
  {
    if b == [] then a == []
    else (a != [] && a[0] == b[0] && IsSubsequence(a[1..], b[1..])) || IsSubsequence(a, b[1..])
  }

  /** The filtered list keeps the surviving entries in their original order. */
  lemma {:induction false} WithoutIsSubsequence(rs: seq<DomainResult>, d: string)
    ensures IsSubsequence(Without(rs, d), rs)
  {
    if rs != [] {
      WithoutIsSubsequence(rs[1..], d);
      if rs[0].domain != d {
        assert Without(rs, d) == [rs[0]] + Without(rs[1..], d);
        assert Without(rs, d)[1..] == Without(rs[1..], d);
      } else {
        assert Without(rs, d) == Without(rs[1..], d);
      }
    }
  }

  /** Everything before the new entry is the old list minus the old entries
      for that domain, in the old order. */
  lemma UpsertKeepsOrder(rs: seq<DomainResult>, e: DomainResult)
    ensures var u := Upsert(rs, e);
            IsSubsequence(u[..|u| - 1], rs)
            && forall x :: x in u[..|u| - 1] ==> x.domain != e.domain
  {
    var u := Upsert(rs, e);
    assert u[..|u| - 1] == Without(rs, e.domain);
    WithoutIsSubsequence(rs, e.domain);
  }

  /** The tail of a duplicate-free list is duplicate-free and does not
      repeat the head's domain. */
  lemma UniqueTail(rs: seq<DomainResult>)
    requires rs != [] && UniqueDomains(rs)
    ensures UniqueDomains(rs[1..])
    ensures forall y :: y in rs[1..] ==> y.domain != rs[0].domain
  {
    forall i, j | 0 <= i < j < |rs[1..]|
      ensures rs[1..][i].domain != rs[1..][j].domain
    {
      assert rs[1..][i] == rs[i + 1] && rs[1..][j] == rs[j + 1];
    }
    forall y | y in rs[1..]
      ensures y.domain != rs[0].domain
    {
      var j :| 0 <= j < |rs[1..]| && rs[1..][j] == y;
      assert rs[j + 1] == y;
    }
  }

  /** Putting an entry for a new domain in front keeps a list duplicate-free. */
  lemma UniqueCons(x: DomainResult, t: seq<DomainResult>)
    requires UniqueDomains(t)
    requires forall y :: y in t ==> y.domain != x.domain
    ensures UniqueDomains([x] + t)
  {
    var w := [x] + t;
    forall i, j | 0 <= i < j < |w|
      ensures w[i].domain != w[j].domain
    {
      if i == 0 {
        assert w[j] == t[j - 1];
      } else {
        assert w[i] == t[i - 1] && w[j] == t[j - 1];
      }
    }
  }

  /** Putting an entry for a new domain at the end keeps a list duplicate-free. */
  lemma UniqueSnoc(t: seq<DomainResult>, x: DomainResult)
    requires UniqueDomains(t)
    requires forall y :: y in t ==> y.domain != x.domain
    ensures UniqueDomains(t + [x])
  {
    var w := t + [x];
    forall i, j | 0 <= i < j < |w|
      ensures w[i].domain != w[j].domain
    {
      if j == |t| {
        assert w[i] == t[i];
      } else {
        assert w[i] == t[i] && w[j] == t[j];
      }
    }
  }

  lemma {:induction false} WithoutKeepsUnique(rs: seq<DomainResult>, d: string)
    requires UniqueDomains(rs)
    ensures UniqueDomains(Without(rs, d))
  {
    if rs != [] {
      UniqueTail(rs);
      WithoutKeepsUnique(rs[1..], d);
      var tail := Without(rs[1..], d);
      if rs[0].domain != d {
        UniqueCons(rs[0], tail);
        assert Without(rs, d) == [rs[0]] + tail;
      } else {
        assert Without(rs, d) == tail;
      }
    }
  }

  /** An upsert keeps the domains unique. */
  lemma UpsertKeepsUnique(rs: seq<DomainResult>, e: DomainResult)
    requires UniqueDomains(rs)
    ensures UniqueDomains(Upsert(rs, e))
  {
    WithoutKeepsUnique(rs, e.domain);
    UniqueSnoc(Without(rs, e.domain), e);
  }

  /** In a list with unique domains a domain has one entry or none. */
  lemma {:induction false} UniqueEntriesFor(rs: seq<DomainResult>, d: string)
    requires UniqueDomains(rs)
    ensures |EntriesFor(rs, d)| == if HasEntry(rs, d) then 1 else 0
  {
    if rs != [] {
      UniqueTail(rs);
      UniqueEntriesFor(rs[1..], d);
      if rs[0].domain == d {
        assert !HasEntry(rs[1..], d) by {
          forall j | 0 <= j < |rs[1..]|
            ensures rs[1..][j].domain != d
          {
            assert rs[1..][j] == rs[j + 1];
          }
        }
      } else {
        if HasEntry(rs, d) {
          var j :| 0 <= j < |rs| && rs[j].domain == d;
          assert rs[1..][j - 1].domain == d;
        }
        if HasEntry(rs[1..], d) {
          var j :| 0 <= j < |rs[1..]| && rs[1..][j].domain == d;
          assert rs[j + 1].domain == d;
        }
      }
    }
  }

  /** With unique domains, an upsert grows the list by one exactly when the
      domain is new, and otherwise keeps its length. */
  lemma UpsertLength(rs: seq<DomainResult>, e: DomainResult)
    requires UniqueDomains(rs)
    ensures |Upsert(rs, e)| == if HasEntry(rs, e.domain) then |rs| else |rs| + 1
  {
    PartitionLength(rs, e.domain);
    UniqueEntriesFor(rs, e.domain);
  }

  // -------------------------------------------------------------- handler

  /** What `res.json()` yields: not JSON (it throws), or the two fields,
      `null` and a missing field both read as None. */
  datatype ResponseBody = Unreadable | CheckData(sslExpiry: Option<string>, whoisExpiry: Option<string>)

  /** What `await fetch(...)` gives: a rejected promise or a response. */
  datatype FetchOutcome = NetworkError | HttpResponse(status: int, body: ResponseBody)

  /** `res.ok`: the status is in 200..299. */
  predicate HttpOk(status: int) {
    200 <= status <= 299
  }

  /** The handler reaches `setResults`: the fetch resolved with an ok status
      and a body that reads as JSON. */
  predicate Delivered(o: FetchOutcome) {
    o.HttpResponse? && HttpOk(o.status) && o.body.CheckData?
  }

  /** The notifications the handler raises. */
  datatype Toast =
    | InvalidFormatToast
    | LoadingToast
    | SslExpiresOnToast(sslExpiry: Option<string>)
    | FailedToCheckToast

  /** Every stored domain is a normalised, valid domain and no domain is
      stored twice. */
  predicate ValidResults(rs: seq<DomainResult>) {
    UniqueDomains(rs) && forall i :: 0 <= i < |rs| ==> IsValidDomainFormat(rs[i].domain)
  }

  /** An upsert of a valid domain keeps the results valid. */
  lemma UpsertKeepsValid(rs: seq<DomainResult>, e: DomainResult)
    requires ValidResults(rs) && IsValidDomainFormat(e.domain)
    ensures ValidResults(Upsert(rs, e))
  {
    UpsertKeepsUnique(rs, e);
    var u := Upsert(rs, e);
    forall i | 0 <= i < |u|
      ensures IsValidDomainFormat(u[i].domain)
    {
      if i < |u| - 1 {
        assert u[i] in Without(rs, e.domain);
      }
    }
  }

  /** The `Home` component's state: the input field and the results list. */
  class Home {
    var domain: string
    var results: seq<DomainResult>

    ghost predicate Valid()
      reads this
    {
      ValidResults(results)
    }

    /** `useState("")` and `useState([])`. */
    constructor()
      ensures domain == "" && results == []
      ensures Valid()
    {
      domain := "";
      results := [];
    }

    /** The input's `onChange`. */
    method SetDomain(text: string)
      requires Valid()
      modifies this
      ensures domain == text && results == old(results)
      ensures Valid()
    {
      domain := text;
    }

    /** `handleAddDomain`. `fetch` answers the POST for a domain; `request`
        is the domain the POST carried, None when no request was made. */
    method HandleAddDomain(fetch: string -> FetchOutcome) returns (request: Option<string>, toasts: seq<Toast>)
      requires Valid()
      modifies this
      ensures Valid()
      ensures !IsValidDomainFormat(Normalize(old(domain))) ==>
                request == None && toasts == [InvalidFormatToast]
                && domain == old(domain) && results == old(results)
      ensures IsValidDomainFormat(Normalize(old(domain))) ==> request == Some(Normalize(old(domain)))
      ensures request.Some? && !Delivered(fetch(request.value)) ==>
                toasts == [LoadingToast, FailedToCheckToast]
                && domain == old(domain) && results == old(results)
      ensures request.Some? && Delivered(fetch(request.value)) ==>
                var data := fetch(request.value).body;
                toasts == [LoadingToast, SslExpiresOnToast(data.sslExpiry)]
                && domain == ""
                && results == Upsert(old(results), DomainResult(request.value, data.sslExpiry, data.whoisExpiry))
    {
      var trimmed := Normalize(domain);
      if !IsValidDomainFormat(trimmed) {
        request := None;
        toasts := [InvalidFormatToast];
      } else {
        toasts := [LoadingToast];
        request := Some(trimmed);
        var res := fetch(trimmed);
        if !Delivered(res) {
          toasts := toasts + [FailedToCheckToast];
        } else {
          var entry := DomainResult(trimmed, res.body.sslExpiry, res.body.whoisExpiry);
          UpsertKeepsValid(results, entry);
          results := Upsert(results, entry);
          toasts := toasts + [SslExpiresOnToast(res.body.sslExpiry)];
          domain := "";
        }
      }
    }
  }
}
