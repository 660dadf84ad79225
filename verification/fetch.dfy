/**
 The retry loops of `PyPiScrapper.fetch_page` and `GitHubAPI.fetch_github_api`.
 Both make up to `retries` attempts; what an attempt's outcome leads to (return
 the body, give up, or sleep and try again) is decided by a classifier, and the
 two fetchers differ only in their classifier. The network is an input: the
 outcome of the k-th attempt is `net(k)`. Sleeps are recorded, not taken.
 */
module Fetch {
  import opened Optional

  /** What one `session.get(...)` followed by `raise_for_status()` produced. */
  datatype Attempt =
    | Success(content: string)   // a non-error status; `content` is the response body
    | HttpError(status: int)     // raise_for_status raised HTTPError with this status
    | Timeout                    // requests.Timeout
    | OtherRequestError          // any other requests.RequestException

  /** A delay drawn uniformly from [low, high]; the draw itself is not modelled. */
  datatype Jitter = Uniform(low: int, high: int)

  datatype Sleep =
    | Backoff(base: int, jitter: Jitter)   // backoff_factor * 2 ** attempt + random.uniform(jitter)
    | Cooldown(seconds: nat)               // the fixed wait after a GitHub 403
    | Pause(jitter: Jitter)                // random.uniform(delay_range) between listing pages

  /** What the loop does with one attempt's outcome. */
  datatype Verdict =
    | Deliver(content: string)   // return the body
    | GiveUp                     // break out of the loop and return None
    | Retry(cooldown: seq<Sleep>) // take `cooldown`, then the backoff sleep, then the next attempt

  datatype Policy = Policy(retries: int, backoffFactor: int, jitter: Jitter)

  /** The returned body (None for Python's None), the attempts made, and the sleeps taken, in order. */
  datatype FetchResult = FetchResult(content: Option<string>, attempts: nat, sleeps: seq<Sleep>)

  const DefaultRetries := 3
  const DefaultBackoffFactor := 1
  /** fetch_github_api draws its jitter from a fixed range. */
  const GitHubJitter := Uniform(3, 6)
  const RateLimitCooldown := 60

  /** The policy `fetch_page` runs with: default retries and backoff, the scraper's delay range. */
  function PagePolicy(delayRange: Jitter): Policy {
    Policy(DefaultRetries, DefaultBackoffFactor, delayRange)
  }

  /** The policy `get_repo_details` runs `fetch_github_api` with. */
  const ApiPolicy := Policy(DefaultRetries, DefaultBackoffFactor, GitHubJitter)

  /** Python's `if content:` on the returned body: present and non-empty. */
  predicate HasContent(r: FetchResult) {
    r.content.Some? && |r.content.value| > 0
  }

  /** Number of iterations of `for attempt in range(retries)`. */
  function Budget(retries: int): nat {
    if retries > 0 then retries else 0
  }

  function Pow2(n: nat): (r: nat)
    ensures r >= 1
  {
    if n == 0 then 1 else 2 * Pow2(n - 1)
  }

  /** The integer part of the backoff sleep after attempt `attempt`. */
  function BackoffBase(p: Policy, attempt: nat): int {
    p.backoffFactor * Pow2(attempt)
  }

  /** Sleeps taken after attempt `attempt` when its verdict is `v`. */
  function SleepsAfter(v: Verdict, p: Policy, attempt: nat): seq<Sleep> {
    if v.Retry? then v.cooldown + [Backoff(BackoffBase(p, attempt), p.jitter)] else []
  }

  /** Reference trace: the sleeps after attempts `lo` .. `hi - 1`, in order. */
  function SleepTrace(net: nat -> Attempt, classify: Attempt -> Verdict, p: Policy, lo: nat, hi: nat): seq<Sleep>
    decreases if lo < hi then hi - lo else 0
  {
    if hi <= lo then []
    else SleepsAfter(classify(net(lo)), p, lo) + SleepTrace(net, classify, p, lo + 1, hi)
  }

  /**
   The attempts from index `attempt` on. Every attempt before the last one
   was retried, the loop stops before its budget only on an attempt it does
   not retry, a body is returned exactly when the last attempt delivered one,
   and the sleeps are those the attempts made call for.
   */
  function RetryLoop(net: nat -> Attempt, classify: Attempt -> Verdict, p: Policy, attempt: nat): (r: FetchResult)
    ensures attempt <= r.attempts
    ensures r.attempts <= if attempt < p.retries then p.retries else attempt
    ensures forall j :: attempt <= j < r.attempts - 1 ==> classify(net(j)).Retry?
    ensures r.attempts < p.retries ==> attempt < r.attempts && !classify(net(r.attempts - 1)).Retry?
    ensures r.content.Some? ==> attempt < r.attempts && classify(net(r.attempts - 1)) == Deliver(r.content.value)
    ensures attempt < r.attempts && classify(net(r.attempts - 1)).Deliver? ==>
      r.content == Some(classify(net(r.attempts - 1)).content)
    ensures r.sleeps == SleepTrace(net, classify, p, attempt, r.attempts)
    decreases if attempt < p.retries then p.retries - attempt else 0
  {
    if p.retries <= attempt then FetchResult(None, attempt, [])
    else
      var v := classify(net(attempt));
      match v
      case Deliver(c) => FetchResult(Some(c), attempt + 1, [])
      case GiveUp => FetchResult(None, attempt + 1, [])
      case Retry(_) =>
        var rest := RetryLoop(net, classify, p, attempt + 1);
        rest.(sleeps := SleepsAfter(v, p, attempt) + rest.sleeps)
  }

  lemma {:induction false} SleepTraceSnoc(net: nat -> Attempt, classify: Attempt -> Verdict, p: Policy, lo: nat, hi: nat)
    requires lo <= hi
    ensures SleepTrace(net, classify, p, lo, hi + 1)
         == SleepTrace(net, classify, p, lo, hi) + SleepsAfter(classify(net(hi)), p, hi)
    decreases hi - lo
  {
    if lo < hi {
      SleepTraceSnoc(net, classify, p, lo + 1, hi);
    }
  }

  /** When every attempt in [lo, hi) is retried with no cooldown, the trace is one backoff per attempt. */
  lemma {:induction false} PlainRetryTrace(net: nat -> Attempt, classify: Attempt -> Verdict, p: Policy, lo: nat, hi: nat)
    requires lo <= hi
    requires forall j :: lo <= j < hi ==> classify(net(j)) == Retry([])
    ensures |SleepTrace(net, classify, p, lo, hi)| == hi - lo
    ensures forall i :: 0 <= i < hi - lo ==>
      (SleepTrace(net, classify, p, lo, hi)[i] == Backoff(BackoffBase(p, lo + i), p.jitter))
    decreases hi - lo
  {
    if lo < hi {
      PlainRetryTrace(net, classify, p, lo + 1, hi);
      var rest := SleepTrace(net, classify, p, lo + 1, hi);
      assert SleepTrace(net, classify, p, lo, hi) == [Backoff(BackoffBase(p, lo), p.jitter)] + rest;
    }
  }

  // ---------------------------------------------------------------------------
  // fetch_page

  /** fetch_page: a body is returned, a Timeout is retried, any HTTPError or other RequestException breaks. */
  function ClassifyPage(a: Attempt): Verdict {
    match a
    case Success(c) => Deliver(c)
    case HttpError(_) => GiveUp
    case Timeout => Retry([])
    case OtherRequestError => GiveUp
  }

  /**
   `PyPiScrapper.fetch_page`. At most `retries` attempts; only a Timeout
   leads to another attempt; the loop ends early only on an attempt that is
   not a Timeout; the body of a successful last attempt is returned and
   nothing is returned otherwise; there is one backoff sleep per Timeout
   (also after a final Timeout, none after an error), the i-th with base
   `backoff_factor * 2^i`.
   */
  function FetchPage(net: nat -> Attempt, p: Policy): (r: FetchResult)
    ensures r.attempts <= Budget(p.retries)
    ensures r.attempts == 0 <==> p.retries <= 0
    ensures forall j :: 0 <= j < r.attempts - 1 ==> net(j).Timeout?
    ensures r.attempts < p.retries ==> 0 < r.attempts && !net(r.attempts - 1).Timeout?
    ensures r.content.Some? ==> 0 < r.attempts && net(r.attempts - 1) == Success(r.content.value)
    ensures 0 < r.attempts && net(r.attempts - 1).Success? ==> r.content == Some(net(r.attempts - 1).content)
    ensures r.attempts == 0 ==> r.sleeps == []
    ensures 0 < r.attempts ==> |r.sleeps| == if net(r.attempts - 1).Timeout? then r.attempts else r.attempts - 1
    ensures forall i :: 0 <= i < |r.sleeps| ==> r.sleeps[i] == Backoff(BackoffBase(p, i), p.jitter)
  {
    var r := RetryLoop(net, ClassifyPage, p, 0);
    if r.attempts == 0 then r
    else
      PageTraceShape(net, p, r.attempts - 1);
      r
  }

  /** The sleeps of fetch_page after `last` timeouts followed by one more attempt. */
  lemma PageTraceShape(net: nat -> Attempt, p: Policy, last: nat)
    requires forall j :: 0 <= j < last ==> net(j).Timeout?
    ensures var t := SleepTrace(net, ClassifyPage, p, 0, last + 1);
      |t| == (if net(last).Timeout? then last + 1 else last) &&
      forall i :: 0 <= i < |t| ==> t[i] == Backoff(BackoffBase(p, i), p.jitter)
  {
    PlainRetryTrace(net, ClassifyPage, p, 0, last);
    SleepTraceSnoc(net, ClassifyPage, p, 0, last);
  }

  /** The first successful attempt's body is returned and no further attempt is made. */
  lemma PageFirstSuccess(net: nat -> Attempt, p: Policy, k: nat)
    requires k < p.retries
    requires forall j :: 0 <= j < k ==> net(j).Timeout?
    requires net(k).Success?
    ensures FetchPage(net, p).content == Some(net(k).content)
    ensures FetchPage(net, p).attempts == k + 1
    ensures |FetchPage(net, p).sleeps| == k
  {
  }

  /** An HTTPError of any status, or another RequestException, ends the loop with no backoff sleep after it. */
  lemma PageStopsOnError(net: nat -> Attempt, p: Policy, k: nat)
    requires k < p.retries
    requires forall j :: 0 <= j < k ==> net(j).Timeout?
    requires net(k).HttpError? || net(k).OtherRequestError?
    ensures FetchPage(net, p).content.None?
    ensures FetchPage(net, p).attempts == k + 1
    ensures |FetchPage(net, p).sleeps| == k
  {
  }

  /**
   With nothing but timeouts, fetch_page makes exactly `retries` attempts and
   `retries` sleeps, returns None, and the backoff bases strictly increase
   when the backoff factor is positive.
   */
  lemma PageAllTimeouts(net: nat -> Attempt, p: Policy)
    requires p.retries >= 0
    requires forall j :: 0 <= j < p.retries ==> net(j).Timeout?
    ensures FetchPage(net, p).content.None?
    ensures FetchPage(net, p).attempts == p.retries
    ensures |FetchPage(net, p).sleeps| == p.retries
    ensures p.backoffFactor > 0 ==>
      forall i, j :: 0 <= i < j < p.retries ==>
        FetchPage(net, p).sleeps[i].base < FetchPage(net, p).sleeps[j].base
  {
    var r := FetchPage(net, p);
    if p.backoffFactor > 0 {
      forall i, j | 0 <= i < j < p.retries
        ensures r.sleeps[i].base < r.sleeps[j].base
      {
        BackoffIncreases(p, i, j);
      }
    }
  }

  /** With a positive factor, a later attempt's backoff base is larger. */
  lemma {:induction false} BackoffIncreases(p: Policy, i: nat, j: nat)
    requires p.backoffFactor > 0 && i < j
    ensures BackoffBase(p, i) < BackoffBase(p, j)
    decreases j
  {
    if i < j - 1 {
      BackoffIncreases(p, i, j - 1);
    }
    assert Pow2(j) == 2 * Pow2(j - 1);
  }

  // ---------------------------------------------------------------------------
  // fetch_github_api

  /**
   fetch_github_api: a body is returned; 404 and a non-HTTP RequestException
   break; 403 sleeps the 60 s cooldown and then backs off; any other status
   and a Timeout back off.
   */
  function ClassifyApi(a: Attempt): Verdict {
    match a
    case Success(c) => Deliver(c)
    case HttpError(status) =>
      if status == 404 then GiveUp
      else if status == 403 then Retry([Cooldown(RateLimitCooldown)])
      else Retry([])
    case Timeout => Retry([])
    case OtherRequestError => GiveUp
  }

  /** An outcome after which fetch_github_api tries again. */
  predicate ApiRetries(a: Attempt) {
    a.Timeout? || (a.HttpError? && a.status != 404)
  }

  /**
   `GitHubAPI.fetch_github_api`. At most `retries` attempts; every attempt
   but the last is a Timeout or an HTTP error other than 404; the loop ends
   early only on a success, a 404 or another RequestException; the last
   attempt's body is returned when it succeeded and nothing otherwise.
   */
  function FetchGitHubApi(net: nat -> Attempt, p: Policy): (r: FetchResult)
    ensures r.attempts <= Budget(p.retries)
    ensures r.attempts == 0 <==> p.retries <= 0
    ensures forall j :: 0 <= j < r.attempts - 1 ==> ApiRetries(net(j))
    ensures r.attempts < p.retries ==> 0 < r.attempts && !ApiRetries(net(r.attempts - 1))
    ensures r.content.Some? ==> 0 < r.attempts && net(r.attempts - 1) == Success(r.content.value)
    ensures 0 < r.attempts && net(r.attempts - 1).Success? ==> r.content == Some(net(r.attempts - 1).content)
    ensures r.sleeps == SleepTrace(net, ClassifyApi, p, 0, r.attempts)
  {
    RetryLoop(net, ClassifyApi, p, 0)
  }

  /** A 404 on the first attempt: one attempt, no sleep, no body. */
  lemma ApiNotFoundStops(net: nat -> Attempt, p: Policy)
    requires p.retries > 0
    requires net(0) == HttpError(404)
    ensures FetchGitHubApi(net, p) == FetchResult(None, 1, [])
  {
  }

  /** A non-HTTP RequestException on the first attempt: one attempt, no sleep, no body. */
  lemma ApiTransportErrorStops(net: nat -> Attempt, p: Policy)
    requires p.retries > 0
    requires net(0) == OtherRequestError
    ensures FetchGitHubApi(net, p) == FetchResult(None, 1, [])
  {
  }

  /**
   The sleeps that follow `n` attempts answered 403, starting at attempt `lo`:
   for each, the 60 s cooldown and then that attempt's backoff sleep.
   */
  ghost predicate ForbiddenPattern(t: seq<Sleep>, p: Policy, lo: nat, n: nat)
    decreases n
  {
    if n == 0 then t == []
    else
      |t| >= 2 && t[0] == Cooldown(RateLimitCooldown) && t[1] == Backoff(BackoffBase(p, lo), p.jitter) &&
      ForbiddenPattern(t[2..], p, lo + 1, n - 1)
  }

  lemma {:induction false} ForbiddenPatternLength(t: seq<Sleep>, p: Policy, lo: nat, n: nat)
    requires ForbiddenPattern(t, p, lo, n)
    ensures |t| == 2 * n
    decreases n
  {
    if n > 0 {
      ForbiddenPatternLength(t[2..], p, lo + 1, n - 1);
    }
  }

  /** Attempts lo .. hi - 1 all answered 403: each leaves the cooldown and then the backoff sleep. */
  lemma {:induction false} ForbiddenTrace(net: nat -> Attempt, p: Policy, lo: nat, hi: nat)
    requires lo <= hi
    requires forall j :: lo <= j < hi ==> net(j) == HttpError(403)
    ensures ForbiddenPattern(SleepTrace(net, ClassifyApi, p, lo, hi), p, lo, hi - lo)
    decreases hi - lo
  {
    if lo < hi {
      ForbiddenTrace(net, p, lo + 1, hi);
      var t := SleepTrace(net, ClassifyApi, p, lo, hi);
      assert ClassifyApi(net(lo)) == Retry([Cooldown(RateLimitCooldown)]);
      assert t[2..] == SleepTrace(net, ClassifyApi, p, lo + 1, hi);
    }
  }

  /**
   A 403 on every attempt: all `retries` attempts are made, each followed by
   the 60 s cooldown and then the backoff sleep, and nothing is returned.
   */
  lemma ApiForbiddenEveryTime(net: nat -> Attempt, p: Policy)
    requires p.retries >= 0
    requires forall j :: 0 <= j < p.retries ==> net(j) == HttpError(403)
    ensures FetchGitHubApi(net, p).content.None?
    ensures FetchGitHubApi(net, p).attempts == p.retries
    ensures |FetchGitHubApi(net, p).sleeps| == 2 * p.retries
    ensures ForbiddenPattern(FetchGitHubApi(net, p).sleeps, p, 0, p.retries)
  {
    var r := FetchGitHubApi(net, p);
    assert r.attempts == p.retries;
    ForbiddenTrace(net, p, 0, p.retries);
    ForbiddenPatternLength(r.sleeps, p, 0, p.retries);
  }

  /** Timeouts and retryable statuses up to attempt k, then a success: the body of attempt k is returned. */
  lemma ApiSuccessAfterRetries(net: nat -> Attempt, p: Policy, k: nat)
    requires k < p.retries
    requires forall j :: 0 <= j < k ==> ApiRetries(net(j))
    requires net(k).Success?
    ensures FetchGitHubApi(net, p).content == Some(net(k).content)
    ensures FetchGitHubApi(net, p).attempts == k + 1
  {
  }

  // ---------------------------------------------------------------------------
  // request headers

  /** The browser-like headers of `utils.helpers.get_headers`. */
  const BrowserHeaders: map<string, string> := map[
    "User-Agent" := "Mozilla/5.0 (Windows NT 10.0; Win64; x64; rv:117.0) Gecko/20100101 Firefox/117.0",
    "Accept" := "text/html,application/xhtml+xml,application/xml;q=0.9,image/avif,image/webp,*/*;q=0.8",
    "Accept-Language" := "en-US,en;q=0.9",
    "Accept-Encoding" := "gzip, deflate, br",
    "Connection" := "keep-alive",
    "Upgrade-Insecure-Requests" := "1",
    "Referer" := "https://pypi.org/",
    "DNT" := "1",
    "Sec-Fetch-Dest" := "document",
    "Sec-Fetch-Mode" := "navigate",
    "Sec-Fetch-Site" := "none",
    "Sec-Fetch-User" := "?1"
  ]

  const GitHubAccept := "application/vnd.github.v3+json"

  /** Python truthiness of the GITHUB_TOKEN environment value. */
  predicate HasToken(token: Option<string>) {
    token.Some? && |token.value| > 0
  }

  /**
   The headers fetch_github_api sends: `Accept` is always the GitHub v3 media
   type, `Authorization: token <t>` is present exactly when a non-empty token
   is configured, and every other browser header is kept as it is.
   */
  function GitHubHeaders(token: Option<string>): (h: map<string, string>)
    ensures "Accept" in h && h["Accept"] == GitHubAccept
    ensures "Authorization" in h <==> HasToken(token)
    ensures HasToken(token) ==> h["Authorization"] == "token " + token.value
    ensures forall k :: k in BrowserHeaders && k != "Accept" ==> k in h && h[k] == BrowserHeaders[k]
    ensures forall k :: k in h ==> k in BrowserHeaders || k == "Authorization"
  {
    var headers := BrowserHeaders;
    if HasToken(token) then
      headers["Authorization" := "token " + token.value]["Accept" := GitHubAccept]
    else
      headers["Accept" := GitHubAccept]
  }
}
