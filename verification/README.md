# PyPiScraper in Dafny

A model of the core of PyPiScraper, a crawler that walks PyPI's search
listing page by page. It scrapes each new project's detail page. It
enriches the project with its GitHub repository's metadata. It keeps a
checkpoint file so that an interrupted crawl can resume.

The network, the clock, randomness and HTML parsing are inputs of the model:

- the outcome of the k-th HTTP attempt is `net(k)`;
- a sleep is recorded as a trace event: an integer backoff base plus an
  abstract jitter range, the fixed 60 s cooldown, or the pause between pages;
- a parsed page is a `Document` holding the looked-up tags and the ordered
  list of `(isVerticalTab, href)` links;
- urllib3's path extraction and the JSON decoder are functions passed in;
- the file system is a map from path to content.

Modules, one file each:

| file | module | models |
|---|---|---|
| optional.dfy | Optional | `Option` |
| text.dfy | Text | Python's `str.strip`, `split`, `in`, `lower`, `split(".git")[0]`, integer formatting |
| fetch.dfy | Fetch | the retry loops of `fetch_page` and `fetch_github_api`, and the request headers |
| github.dfy | GitHub | `extract_owner_repo`, `get_repo_details` |
| extract.dfy | Extract | `scrape_search_page`, `scrape_project_page` (field extraction, link scans, enrichment) |
| checkpoint.dfy | Checkpoint | `load_progress`, `save_progress` |
| crawl.dfy | Crawl | `scrape_all_projects` as a fold over listing pages, started from the loaded checkpoint |
| sink.dfy | Sink | the database step of the crawl loop as written (see Findings) |

Both fetchers share one retry loop, `Fetch.RetryLoop`. Each fetcher passes
it a classifier that says whether an outcome delivers the body, gives up,
or is retried after some extra sleeps. The loop's sleep trace is checked
against an independent reference definition, `Fetch.SleepTrace`.

The model follows the code on these points of its behaviour:

- After a 403, `fetch_github_api` sleeps 60 s and then also takes the
  backoff sleep (app/github_api.py:74-92).
- `fetch_page` stops on any HTTP error, without retrying (app/scrapper.py:78-80).
- The crawl resumes at the saved `last_page` itself: that page is requested
  again (app/scrapper.py:223). The saved `last_page` is the last page that had
  links, so a run over one non-empty page and then an empty one saves page 1
  (`Crawl.TwoProjectRun`).
- A run does not end without error once a record is scraped, because of the
  insert check (see Findings). The crawl model uses the corrected step.

## Model

| member | source | states |
|---|---|---|
| Text.Strip | app/github_api.py:101 | `str.strip(chars)`: the result is the slice of the input between the leading and the trailing run of stripped characters, and neither of its ends is a stripped character |
| Text.Split | app/github_api.py:101 | `str.split(sep)`: the parts contain no separator, joining them with the separator gives back the input, and there are two or more parts exactly when the separator occurs |
| Text.SplitJoin | app/github_api.py:101 | splitting the join of separator-free parts gives back the parts |
| Text.SplitAfterPart | app/github_api.py:101 | splitting `a + sep + b`, for `a` without the separator, gives `a` followed by the parts of `b` |
| Text.Contains | app/scrapper.py:160 | the substring test `t in s` holds exactly when `t` occurs in `s` at some position |
| Text.IndexOfFrom | app/scrapper.py:160 | the first position at or after `from` where `t` occurs, or none when it occurs nowhere there |
| Text.BeforeFirst | app/github_api.py:105 | `s.split(t)[0]`: a prefix of `s` without `t`, which is all of `s` or is followed by `t`, and no occurrence of `t` starts inside it, so it is cut at the first occurrence of `t` when there is one |
| Text.Lower | app/scrapper.py:159 | `str.lower` on ASCII: the same length, every character lowered, the result is lowercase, and a lowercase input is returned unchanged |
| Text.ShowInt | app/scrapper.py:100 | the decimal text of an integer in an f-string: non-empty, starting with `-` exactly for a negative number, and the rest is decimal digits whose value is the number's magnitude, with no leading zero (only the text of 0 starts with `0`) |
| Text.ShowIntInjective | app/scrapper.py:100 | two integers with the same decimal text are equal |
| Text.ReadShowNat | app/scrapper.py:100 | reading back the decimal text of a natural number gives the number |
| Fetch.RetryLoop | app/scrapper.py:67-96 | the shared loop: at most `retries` attempts, every attempt but the last was retried, an early stop only on an attempt that is not retried, a body exactly when the last attempt delivered one, and the sleeps equal the reference trace `SleepTrace` |
| Fetch.SleepTraceSnoc | app/scrapper.py:89-93 | the reference sleep trace grows at its end by the sleeps of one more attempt |
| Fetch.PlainRetryTrace | app/scrapper.py:89-93 | over attempts retried without cooldown, the trace holds one backoff sleep per attempt, the i-th with base `backoff_factor * 2^i` |
| Fetch.FetchPage | app/scrapper.py:63-96 | `fetch_page`: at most `retries` attempts, none for `retries <= 0`; only a Timeout leads to another attempt; a body only from a successful last attempt; one backoff sleep per Timeout (also after a final one, none after an error), the i-th with base `backoff_factor * 2^i` |
| Fetch.PageTraceShape | app/scrapper.py:81-93 | after Timeouts only, the sleep trace including the last attempt has one backoff sleep per Timeout |
| Fetch.PageFirstSuccess | app/scrapper.py:67-77 | the first successful attempt's body is returned, with no further attempt, after one sleep per preceding Timeout |
| Fetch.PageStopsOnError | app/scrapper.py:78-87 | an HTTP error of any status, or another request error, ends the loop at that attempt with no body and no backoff sleep for it |
| Fetch.PageAllTimeouts | app/scrapper.py:81-96 | with Timeouts only, exactly `retries` attempts and `retries` sleeps, no body, and strictly increasing bases when `backoff_factor > 0` |
| Fetch.BackoffIncreases | app/scrapper.py:89 | for a positive backoff factor the base `backoff_factor * 2^i` strictly increases with `i` |
| Fetch.FetchGitHubApi | app/github_api.py:44-95 | `fetch_github_api`: at most `retries` attempts; every attempt but the last is a Timeout or an HTTP error other than 404; an early stop only on a success, a 404 or another request error; a body only from a successful last attempt |
| Fetch.ApiNotFoundStops | app/github_api.py:71-73 | a 404 on the first attempt: one attempt, no sleep, no body |
| Fetch.ApiTransportErrorStops | app/github_api.py:86-88 | a non-HTTP request error on the first attempt: one attempt, no sleep, no body |
| Fetch.ForbiddenPatternLength | app/github_api.py:74-92 | the 403 sleep pattern has two sleeps per attempt |
| Fetch.ForbiddenTrace | app/github_api.py:74-92 | after each 403 the trace holds the 60 s cooldown and then that attempt's backoff sleep |
| Fetch.ApiForbiddenEveryTime | app/github_api.py:53-95 | with 403 on every attempt: exactly `retries` attempts, no body, and `2 * retries` sleeps alternating cooldown and backoff |
| Fetch.ApiSuccessAfterRetries | app/github_api.py:53-63 | a success after retried outcomes returns its body at once, after that many attempts |
| Fetch.GitHubHeaders | app/github_api.py:46-51 | `Accept` is always the GitHub v3 media type; `Authorization: token <t>` is present exactly when a non-empty token is set; every other browser header from utils/helpers.py is kept |
| GitHub.ExtractOwnerRepo | app/github_api.py:97-107 | no result exactly when the slash-stripped path has no `/`; otherwise the owner and the name contain no `/`, the name contains no `.git`, `owner/name` starts the stripped path, and what follows is nothing, a `/` or `.git` |
| GitHub.OwnerRepoOfStripped | app/github_api.py:101-106 | for a stripped path with a `/`, the first segment and the second segment cut at `.git` have the shape above |
| GitHub.SecondSegment | app/github_api.py:101-104 | with a `/` present, the second split part follows the first part and one `/`, and ends at the next `/` or the end |
| GitHub.CutSegment | app/github_api.py:105 | cutting a segment at `.git` leaves a prefix followed by the end, a `/` or `.git` |
| GitHub.ExtractInvertsRepoPath | app/github_api.py:97-107 | for a non-empty owner and name without `/` and without `.git`, both `/owner/name` and `/owner/name.git` give back the owner and the name |
| GitHub.StripRepoPath | app/github_api.py:101 | `/owner/segment` strips to `owner/segment` |
| GitHub.SplitRepoPath | app/github_api.py:101 | `owner/segment` splits into exactly the owner and the segment |
| GitHub.ExtractViaStripped | app/github_api.py:101-106 | the result depends on the path only through its stripped form |
| GitHub.StripOneLeadingSlash | app/github_api.py:101 | one leading `/` before text that starts and ends with another character is stripped away |
| GitHub.NoOccurrenceInsideName | app/github_api.py:105 | in `name.git`, for a name without `.git`, no `.git` starts inside the name |
| GitHub.CutAfterName | app/github_api.py:105 | cutting `name` or `name.git` at `.git` gives back the name |
| GitHub.GetRepoDetails | app/github_api.py:109-135 | no request exactly when the owner or the name is missing or empty; otherwise exactly `https://api.github.com/repos/{owner}/{name}` is fetched with the API headers; an object exactly when the body was non-empty, decoded, and is not the "Not Found" reply, and then it is the decoded object itself |
| GitHub.EmptyNameIsNotFetched | app/github_api.py:111-115 | the path `/x//y` gives an empty name, so nothing is fetched and nothing returned |
| GitHub.BareGitSuffixIsNotFetched | app/github_api.py:105-115 | the path `/x/.git` gives an empty name, so nothing is fetched and nothing returned |
| Extract.PageUrl | app/scrapper.py:100 | the listing URL is the search URL, `&page=`, and then the page number's decimal text |
| Extract.PageUrlInjective | app/scrapper.py:100 | different page numbers give different listing URLs |
| Extract.ScrapeSearchPage | app/scrapper.py:98-116 | the page URL is fetched with the page policy; no links when there is no body or there are no cards, otherwise the card hrefs in document order; one pause exactly when links are returned |
| Extract.SearchPageHttpErrorIsEmpty | app/scrapper.py:78-80 | a listing whose first attempt is an HTTP error gives no links, after exactly one attempt |
| Extract.Title | app/scrapper.py:129-130 | the stripped heading text, or "N/A" when there is no heading |
| Extract.Description | app/scrapper.py:132-139 | the placeholder when there is no heading; raises exactly when there is a heading but no summary; otherwise the stripped summary |
| Extract.Maintainer | app/scrapper.py:141-147 | "Unknown" without a maintainer span; raises exactly when there is a span and either no heading, or a heading with an `<a>` but a span without one; a span under a heading without an `<a>` gives "Unknown"; with both `<a>` tags the name is the span's stripped `<a>` text |
| Extract.FirstMatch | app/scrapper.py:150-154 | the scan that breaks at its first hit: no position exactly when no link matches, and otherwise the first matching position |
| Extract.FirstMatchUnique | app/scrapper.py:150-154 | there is only one first match |
| Extract.MaintainerEmail | app/scrapper.py:149-154 | none exactly when no href starts with `mailto:`; otherwise the first such href without its seven-character prefix |
| Extract.RepoLink | app/scrapper.py:156-169 | none exactly when no lowercased href contains `github.com`; the first GitHub vertical tab wins; only without one the first GitHub link of any kind; the value is lowercased and contains `github.com` |
| Extract.TabBeatsEarlierLink | app/scrapper.py:156-169 | a GitHub vertical tab is chosen over an earlier plain GitHub link |
| Extract.Enrich | app/scrapper.py:171-198 | without a non-empty object every repo column keeps its default; with one, every column is that object's value for its key, or the default when the key is absent |
| Extract.NoRepoIsDefaults | app/scrapper.py:171-180 | the unenriched columns are None for text and 0 for counts |
| Extract.EnrichAllOrNothing | app/scrapper.py:182-194 | if any column differs from its default, the object was read and every column comes from it |
| Extract.ScrapeProjectPage | app/scrapper.py:118-219 | the detail URL is `https://pypi.org` plus the href; None exactly when the fetch gave no body; raises exactly on the description or maintainer guard, or on a repository URL without a path; a record holds the title, description, maintainer, e-mail and repository link found; a lookup is made exactly for a record with a repository link; the repo columns come from that lookup's object or are all defaults |
| Extract.NoRepoLinkNoLookup | app/scrapper.py:164-182 | with no link mentioning github.com, no lookup is made and a record has no repository and default columns |
| Extract.FailedLookupKeepsDefaults | app/scrapper.py:182-198 | a lookup that returns nothing gives a record whose repo columns are all defaults |
| Checkpoint.LoadProgress | app/scrapper.py:270-287 | a missing or undecodable file loads as (empty set, page 1); otherwise each key is read, `[]` and 1 standing in for a missing key |
| Checkpoint.TempPath | app/scrapper.py:295 | the temporary file differs from the progress file and extends its name |
| Checkpoint.SaveProgress | app/scrapper.py:289-305 | success puts the encoded state at the progress path; any failure leaves the progress path as it was; the temporary file is gone afterwards; no other path changes |
| Checkpoint.SaveLoadRoundTrip | app/scrapper.py:270-300 | loading after a successful save gives back the saved visited set and last page |
| Checkpoint.FailedSaveKeepsCheckpoint | app/scrapper.py:302-305 | after a failed save a load gives what it gave before |
| Checkpoint.SaveIsLocal | app/scrapper.py:295-305 | a save changes what no other progress file loads as |
| Crawl.ScrapedLinks | app/scrapper.py:239-253 | a link is among the scraped links exactly when some call for it gave a record, and there are no more of them than calls |
| Crawl.ScrapedLinksInOrder | app/scrapper.py:234-253 | the scraped links keep call order: those scraped by the first n calls form a prefix of all of them |
| Crawl.VisitLink | app/scrapper.py:234-257 | a visited link is skipped; otherwise exactly one detail call is made, the link becomes visited exactly when it gave a record, and only a raised exception ends the run |
| Crawl.VisitLinkConsistent | app/scrapper.py:234-257 | one step keeps the visited set equal to the initial set plus the scraped links, calls off the initial set, and no call after a successful one for the same link |
| Crawl.VisitLinks | app/scrapper.py:234-257 | the inner loop only appends calls and grows the visited set; it leaves the page, the file system and the saves alone; a halt comes from a raising call |
| Crawl.VisitLinksCovers | app/scrapper.py:234-257 | without an exception every listed link ends visited, or a call for it on this page returned None |
| Crawl.VisitLinksCalls | app/scrapper.py:234-239 | every call the inner loop appends is for a link of this listing; the appended calls follow the listing's order with at most one call per entry, and none is for a link visited before the listing |
| Crawl.VisitLinksConsistent | app/scrapper.py:234-257 | the inner loop keeps the crawl invariant |
| Crawl.CrawlPages | app/scrapper.py:223-264 | the outer loop requests at least one more page, and the saves already made stay as a prefix of the result's saves (the facts for each round are in `Crawl.CrawlRequests` and `Crawl.CrawlSaves`) |
| Crawl.CrawlRequests | app/scrapper.py:223-262 | the pages requested are consecutive, from the start page on |
| Crawl.CrawlStopsAtFirstEmpty | app/scrapper.py:224-232 | every page requested before the last one had links; unless a detail scrape raised, the last one requested had none |
| Crawl.CrawlSaves | app/scrapper.py:228-262 | every page requested but the last one is saved, so there is one save fewer than requests; the k-th save records page `start + k`; the last page in memory is the last one saved, or the old one when nothing was saved |
| Crawl.CrawlPagesGrows | app/scrapper.py:234-260 | detail calls are only appended, the visited set only grows, and every saved visited set is contained in the final one |
| Crawl.CrawlPagesConsistent | app/scrapper.py:223-262 | the outer loop keeps the crawl invariant |
| Crawl.CrawlCheckpointBehind | app/scrapper.py:259-260 | the progress file never runs ahead of memory: loading it gives no link and no page beyond the state the scraper holds |
| Crawl.LastWritten | app/scrapper.py:259-260 | the state given to the latest save that went through: None exactly when no save went through, otherwise a save with that state was written and no later one was |
| Crawl.CrawlCheckpointWritten | app/scrapper.py:259-260 | after the crawl the progress file holds the state of the latest save that went through; when every save failed it holds what it held before |
| Crawl.CrawlNoSaveKeepsFiles | app/scrapper.py:223-264 | a crawl that saves nothing leaves the whole file system as it was |
| Crawl.VisitLinksFollow | app/scrapper.py:234-257 | the inner loop makes call number k with the outcome the detail scrape gives for its link as call k |
| Crawl.CrawlPagesFollow | app/scrapper.py:223-262 | the outer loop keeps every call's outcome equal to what the detail scrape gives for its link and call number |
| Crawl.VisitedExactlyWhenRecorded | app/scrapper.py:221-257 | every call ended as the detail scrape gives; a link outside the loaded checkpoint ends visited exactly when some call for it gave a record |
| Crawl.VisitedExactlyWhenScraped | app/scrapper.py:221-257 | with scrape_project_page as the detail scrape, a link outside the loaded checkpoint ends visited exactly when scrape_project_page returned a record for it on some call |
| Crawl.Start | app/scrapper.py:34-35 | construction holds exactly the loaded checkpoint and has done nothing yet |
| Crawl.ScrapeAllProjects | app/scrapper.py:221-262 | after loading, the crawl starts at the loaded last page itself and requests consecutive pages; no loaded link is detail-scraped; the visited set is the loaded one plus the scraped links |
| Crawl.CheckpointTrail | app/scrapper.py:221-262 | after loading and crawling, the k-th save records page `last_page + k`, the page in memory is no earlier than the loaded one, the file never runs ahead of memory, and it holds the latest save that went through (or, if none did, what it held before) |
| Crawl.AddedOnce | app/scrapper.py:234-253 | after a call for a link gave a record, no later call is made for that link, even a duplicate on the same page |
| Crawl.ResumeSkipsSaved | app/scrapper.py:223-287 | when some save of a first run went through, a second run from the file it left starts at the page of the latest such save and scrapes none of the links that save listed as visited |
| Crawl.TwoProjectRun | app/scrapper.py:221-305 | one listing with `/project/a/` and `/project/b/` followed by an empty page: both are visited, pages 1 and 2 are requested, and the checkpoint holds both links and page 1 |
| Sink.ErrorAttribute | app/scrapper.py:244 | reading `error` on insert_project's result raises, whether it is a list of rows or None |
| Sink.VisitLinkAsWritten | app/scrapper.py:239-253 | the step as written never adds a link to the visited set |
| Sink.ScrapedRecordHaltsAsWritten | app/scrapper.py:239-253 | for a new link that scrapes to a record, the step as written ends the crawl with the link unvisited, while the corrected step marks it visited and goes on |

## Left out

- HTTP sessions and the response cache: only logging depends on `from_cache`. Each attempt's outcome is an input.
- The `ratelimit` decorators: they come from a foreign library and wrap whole calls. Setting `RATE_LIMIT_CALLS = 60` for a missing token (app/github_api.py:40) does not change the decorator, which was bound to 5000 when the class was defined.
- `time.sleep` and `random.uniform`: sleeps are trace events. Jitter is a range, not a float drawn from it.
- The pause between listing pages (app/scrapper.py:264) is not recorded in the crawl trace. The pause inside `scrape_search_page` is.
- BeautifulSoup: the listing parser and the detail-page parser are input functions. `Extract.Document` is the detail-page parser's output.
- urllib3's `parse_url` is an input function. A None from it stands both for a URL whose path is None, which makes `.strip` raise, and for a malformed URL on which `parse_url` itself raises LocationParseError (a non-numeric port, say). Both end in the Raised outcome.
- Extract.ScrapeSearchPage: the listing parser returns the card hrefs directly. A `package-snippet` card without an `href` makes `card["href"]` (app/scrapper.py:113) raise KeyError, which ends `scrape_all_projects`; neither the parser nor the crawl's page list can express that exception.
- `Crawl.CrawlPages` takes the listing results as a finite sequence of link lists rather than calling `Extract.ScrapeSearchPage` for every page. Past the sequence's end every page is empty.
- JSON: a decoded reply is an object mapping keys to scalar values. Arrays, nested objects and fractional numbers are opaque. A top-level value that is not an object, and non-list or non-integer values in the progress file, are not modelled.
- Text.Lower: lowers ASCII letters only, where Python's `str.lower` also lowers other Unicode letters.
- Response bodies are strings. Python's bytes are not distinguished from text.
- Checkpoint.LoadProgress: only a missing file and invalid JSON give the fresh state (app/scrapper.py:280-287). A file that exists but cannot be opened (a permission error, a directory) or is not valid text raises out of the constructor in the source. The model has no such file content, so it does not represent that exception.
- Checkpoint.SaveProgress: the cleanup `os.remove` in the handler (app/scrapper.py:304-305) is assumed to succeed. In the source its own failure would raise out of `save_progress` and end the crawl; the model always removes the temporary file and carries on.
- Crawl.ScrapeAllProjects: the database insert is not part of the corrected crawl, because its result only affects logging there.
- The record construction `Project(...)` at app/scrapper.py:200-216 passes keywords that the dataclass in app/model.py does not declare, which would raise TypeError. The record shape is taken from the call site.
- app/database.py is not part of this model beyond the type of `insert_project`'s result. main.py and logging are not modelled.

## Findings

| source | as written | input that shows it | evidently intended | confidence | as-written member | corrected member |
|---|---|---|---|---|---|---|
| app/scrapper.py:244 | reads `res.error`, but `insert_project` returns the inserted rows (a list) or None (app/database.py:42-51), and neither has an `error` attribute | any new listing link whose detail page scrapes to a record, once the `Project(...)` call at app/scrapper.py:200 no longer raises TypeError (see Left out) | log a failed insert, mark the link visited and go on with the crawl | not executed; high, since both possible return values lack the attribute | Sink.ScrapedRecordHaltsAsWritten | Crawl.VisitLink |
