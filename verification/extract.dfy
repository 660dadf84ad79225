/**
 `PyPiScrapper.scrape_search_page` and `PyPiScrapper.scrape_project_page`.
 HTML parsing is an input: a listing body is mapped to the hrefs of its
 `package-snippet` cards, and a project body to a `Document` holding the
 tags the scraper looks up and its `<a href=...>` links in document order.
 */
module Extract {
  import opened Optional
  import opened Text
  import opened Fetch
  import opened GitHub

  // ---------------------------------------------------------------- listing page

  /** What one call of scrape_search_page did: the URL, the fetch, the hrefs returned, the pause taken. */
  datatype SearchScrape = SearchScrape(url: string, fetch: FetchResult, links: seq<string>, pause: seq<Sleep>)

  /** The listing URL of page `page`: the search URL followed by `&page=` and the page number. */
  function PageUrl(base: string, page: int): (u: string)
    ensures base + "&page=" <= u && u[|base| + 6..] == ShowInt(page)
  {
    base + "&page=" + ShowInt(page)
  }

  /** Two page numbers give the same listing URL only when they are equal. */
  lemma PageUrlInjective(base: string, a: int, b: int)
    requires PageUrl(base, a) == PageUrl(base, b)
    ensures a == b
  {
    var n := |base| + 6;
    assert ShowInt(a) == PageUrl(base, a)[n..];
    assert ShowInt(b) == PageUrl(base, b)[n..];
    ShowIntInjective(a, b);
  }

  /**
   scrape_search_page: the listing page is fetched with the page retry policy.
   Without a body, or when the body has no project cards, nothing is returned
   and no pause is taken; otherwise the card hrefs are returned in document
   order after one pause drawn from the delay range.
   */
  function ScrapeSearchPage(base: string, page: int, net: nat -> Attempt, delay: Jitter,
                            cards: string -> seq<string>): (r: SearchScrape)
    ensures r.url == PageUrl(base, page)
    ensures r.fetch == FetchPage(net, PagePolicy(delay))
    ensures !HasContent(r.fetch) ==> r.links == []
    ensures HasContent(r.fetch) ==> r.links == cards(r.fetch.content.value)
    ensures |r.links| > 0 <==> r.pause == [Pause(delay)]
    ensures |r.links| == 0 <==> r.pause == []
  {
    var url := PageUrl(base, page);
    var fetch := FetchPage(net, PagePolicy(delay));
    if !HasContent(fetch) then SearchScrape(url, fetch, [], [])
    else
      var hrefs := cards(fetch.content.value);
      if |hrefs| == 0 then SearchScrape(url, fetch, [], [])
      else SearchScrape(url, fetch, hrefs, [Pause(delay)])
  }

  /** A listing whose fetch fails on the first attempt with an HTTP error returns no links. */
  lemma SearchPageHttpErrorIsEmpty(base: string, page: int, net: nat -> Attempt, delay: Jitter,
                                   cards: string -> seq<string>)
    requires net(0).HttpError?
    ensures ScrapeSearchPage(base, page, net, delay, cards).links == []
    ensures ScrapeSearchPage(base, page, net, delay, cards).fetch.attempts == 1
  {
    PageStopsOnError(net, PagePolicy(delay), 0);
  }

  // ---------------------------------------------------------------- detail page

  /** An `<a>` tag carrying an href; `isVerticalTab` when it has class `vertical-tabs__tabs`. */
  datatype Link = Link(isVerticalTab: bool, href: string)

  /** A tag found by `soup.find`: its text, and the text of its first `<a>` descendant, if any. */
  datatype Element = Element(text: string, anchor: Option<string>)

  /**
   A parsed project page: the `package-header__name` heading, the
   `package-description__summary` paragraph, the `sidebar-section__maintainer`
   span, and all links with an href, in document order.
   */
  datatype Document = Document(title: Option<Element>, summary: Option<Element>,
                               maintainer: Option<Element>, links: seq<Link>)

  /** A value, or the AttributeError raised by reading an attribute of None. */
  datatype Outcome<T> = Ok(value: T) | AttrError

  /** The page title: the stripped heading text, or "N/A" without a heading. */
  function Title(doc: Document): (t: string)
    ensures doc.title.None? ==> t == "N/A"
    ensures doc.title.Some? ==> t == Strip(doc.title.value.text, Whitespace)
    ensures doc.title.Some? ==> |t| == 0 || (t[0] !in Whitespace && t[|t| - 1] !in Whitespace)
  {
    if doc.title.Some? then Strip(doc.title.value.text, Whitespace) else "N/A"
  }

  /**
   The description. The guard looks at the heading, not the summary: without
   a heading the placeholder is used, and with a heading but no summary the
   read of the summary's text raises.
   */
  function Description(doc: Document): (d: Outcome<string>)
    ensures d.AttrError? <==> doc.title.Some? && doc.summary.None?
    ensures doc.title.None? ==> d == Ok("No description available")
    ensures doc.title.Some? && doc.summary.Some? ==> d == Ok(Strip(doc.summary.value.text, Whitespace))
  {
    if doc.title.None? then Ok("No description available")
    else if doc.summary.None? then AttrError
    else Ok(Strip(doc.summary.value.text, Whitespace))
  }

  /**
   The maintainer. The guard asks for a maintainer span and an `<a>` in the
   heading; a span with no heading raises, and so does a span without its own
   `<a>` once the heading has one. In every other case without a name the
   placeholder "Unknown" is used.
   */
  function Maintainer(doc: Document): (m: Outcome<string>)
    ensures m.AttrError? <==>
      doc.maintainer.Some? && (doc.title.None? || (doc.title.value.anchor.Some? && doc.maintainer.value.anchor.None?))
    ensures m.Ok? && m.value != "Unknown" ==> doc.maintainer.Some? && doc.maintainer.value.anchor.Some?
    ensures doc.maintainer.None? ==> m == Ok("Unknown")
    ensures doc.maintainer.Some? && doc.title.Some? && doc.title.value.anchor.None? ==> m == Ok("Unknown")
    ensures doc.maintainer.Some? && doc.title.Some? && doc.title.value.anchor.Some? && doc.maintainer.value.anchor.Some? ==>
      m == Ok(Strip(doc.maintainer.value.anchor.value, Whitespace))
  {
    if doc.maintainer.None? then Ok("Unknown")
    else if doc.title.None? then AttrError
    else if doc.title.value.anchor.None? then Ok("Unknown")
    else if doc.maintainer.value.anchor.None? then AttrError
    else
      var name := Strip(doc.maintainer.value.anchor.value, Whitespace);
      Ok(name)
  }

  /** `links[i]` is the first link satisfying `p`. */
  ghost predicate IsFirst(links: seq<Link>, p: Link -> bool, i: int) {
    0 <= i < |links| && p(links[i]) && forall j :: 0 <= j < i ==> !p(links[j])
  }

  /** The position of the first link satisfying `p`: the scan that `break`s at its first hit. */
  function FirstMatch(links: seq<Link>, p: Link -> bool): (r: Option<nat>)
    ensures r.None? <==> forall i :: 0 <= i < |links| ==> !p(links[i])
    ensures r.Some? ==> IsFirst(links, p, r.value)
  {
    if |links| == 0 then None
    else if p(links[0]) then Some(0)
    else
      var rest := FirstMatch(links[1..], p);
      if rest.None? then None else Some(rest.value + 1)
  }

  predicate IsMailto(l: Link) {
    "mailto:" <= l.href
  }

  /** The lowercased href contains `github.com`. */
  predicate MentionsGitHub(l: Link) {
    Contains(Lower(l.href), "github.com")
  }

  predicate IsGitHubTab(l: Link) {
    l.isVerticalTab && MentionsGitHub(l)
  }

  /**
   The maintainer's e-mail: the first link whose href starts with `mailto:`,
   without those seven characters; None when no link does.
   */
  function MaintainerEmail(links: seq<Link>): (e: Option<string>)
    ensures e.None? <==> forall i :: 0 <= i < |links| ==> !IsMailto(links[i])
    ensures e.Some? ==> exists i :: IsFirst(links, IsMailto, i) && links[i].href == "mailto:" + e.value
  {
    var k := FirstMatch(links, IsMailto);
    if k.None? then None
    else
      var href := links[k.value].href;
      assert href == "mailto:" + href[7..];
      Some(href[7..])
  }

  /**
   The repository link: the lowercased href of the first vertical tab that
   mentions github.com; only when there is none, the first link of any kind
   that does; None when no link mentions github.com.
   */
  function RepoLink(links: seq<Link>): (r: Option<string>)
    ensures r.None? <==> forall i :: 0 <= i < |links| ==> !MentionsGitHub(links[i])
    ensures r.Some? ==> IsLowerCase(r.value) && Occurs(r.value, "github.com")
    ensures forall i :: IsFirst(links, IsGitHubTab, i) ==> r == Some(Lower(links[i].href))
    ensures (forall i :: 0 <= i < |links| ==> !IsGitHubTab(links[i])) ==>
      forall i :: IsFirst(links, MentionsGitHub, i) ==> r == Some(Lower(links[i].href))
  {
    var tab := FirstMatch(links, IsGitHubTab);
    if tab.Some? then
      FirstMatchUnique(links, IsGitHubTab, tab.value);
      Some(Lower(links[tab.value].href))
    else
      var any := FirstMatch(links, MentionsGitHub);
      if any.Some? then
        FirstMatchUnique(links, MentionsGitHub, any.value);
        Some(Lower(links[any.value].href))
      else None
  }

  /** There is at most one first match. */
  lemma FirstMatchUnique(links: seq<Link>, p: Link -> bool, k: nat)
    requires IsFirst(links, p, k)
    ensures forall i :: IsFirst(links, p, i) ==> i == k
  {
  }

  /** A vertical tab to GitHub wins over an earlier plain link to GitHub. */
  lemma TabBeatsEarlierLink(plain: string, tab: string)
    requires Occurs(Lower(plain), "github.com") && Occurs(Lower(tab), "github.com")
    ensures RepoLink([Link(false, plain), Link(true, tab)]) == Some(Lower(tab))
  {
    var links := [Link(false, plain), Link(true, tab)];
    assert IsFirst(links, IsGitHubTab, 1);
  }

  // ---------------------------------------------------------------- enrichment

  /** The repo_* columns of a record. */
  datatype RepoFields = RepoFields(
    name: JValue, description: JValue, htmlUrl: JValue,
    stargazers: JValue, forks: JValue, openIssues: JValue,
    language: JValue, updatedAt: JValue, createdAt: JValue, watchers: JValue)

  /** The JSON keys the repo_* columns are read from, in column order. */
  const RepoKeys: seq<string> := ["name", "description", "html_url", "stargazers_count", "forks_count",
    "open_issues_count", "language", "updated_at", "created_at", "watchers_count"]

  /** Each column's value when it is not read, or its key is absent: None for text, 0 for counts. */
  const RepoDefaults: seq<JValue> := [JNull, JNull, JNull, JNumber(0), JNumber(0),
    JNumber(0), JNull, JNull, JNull, JNumber(0)]

  /** Column `i` of `f`, in the order of RepoKeys. */
  function Column(f: RepoFields, i: nat): JValue
    requires i < 10
  {
    match i
    case 0 => f.name
    case 1 => f.description
    case 2 => f.htmlUrl
    case 3 => f.stargazers
    case 4 => f.forks
    case 5 => f.openIssues
    case 6 => f.language
    case 7 => f.updatedAt
    case 8 => f.createdAt
    case _ => f.watchers
  }

  /** The record's repo columns before, or without, enrichment. */
  const NoRepo := RepoFields(JNull, JNull, JNull, JNumber(0), JNumber(0), JNumber(0), JNull, JNull, JNull, JNumber(0))

  /** Python's `dict.get(key, default)`. */
  function Get(obj: RepoObject, key: string, default: JValue): JValue {
    if key in obj then obj[key] else default
  }

  /** Whether `if repo_data:` holds: the lookup gave a non-empty object. */
  predicate Enriched(data: Option<RepoObject>) {
    data.Some? && |data.value| > 0
  }

  /**
   The repo columns from the lookup's object: all of them are read from the
   same object when it is present and non-empty, and all keep their defaults
   otherwise.
   */
  function Enrich(data: Option<RepoObject>): (f: RepoFields)
    ensures !Enriched(data) ==> f == NoRepo
    ensures Enriched(data) ==>
      forall i :: 0 <= i < 10 ==> Column(f, i) == Get(data.value, RepoKeys[i], RepoDefaults[i])
  {
    if !Enriched(data) then NoRepo
    else
      var obj := data.value;
      var f := RepoFields(Get(obj, "name", JNull), Get(obj, "description", JNull), Get(obj, "html_url", JNull),
        Get(obj, "stargazers_count", JNumber(0)), Get(obj, "forks_count", JNumber(0)),
        Get(obj, "open_issues_count", JNumber(0)), Get(obj, "language", JNull),
        Get(obj, "updated_at", JNull), Get(obj, "created_at", JNull), Get(obj, "watchers_count", JNumber(0)));
      assert forall i :: 0 <= i < 10 ==> Column(f, i) == Get(obj, RepoKeys[i], RepoDefaults[i]) by {
        forall i | 0 <= i < 10 ensures Column(f, i) == Get(obj, RepoKeys[i], RepoDefaults[i]) {
          assert i == 0 || i == 1 || i == 2 || i == 3 || i == 4 || i == 5 || i == 6 || i == 7 || i == 8 || i == 9;
        }
      }
      f
  }

  /** The defaults are exactly NoRepo, column by column. */
  lemma NoRepoIsDefaults()
    ensures forall i :: 0 <= i < 10 ==> Column(NoRepo, i) == RepoDefaults[i]
  {
    forall i | 0 <= i < 10 ensures Column(NoRepo, i) == RepoDefaults[i] {
      assert i == 0 || i == 1 || i == 2 || i == 3 || i == 4 || i == 5 || i == 6 || i == 7 || i == 8 || i == 9;
    }
  }

  /**
   All or nothing: if any column differs from its default, the object was
   read, and then every column is the object's value for its key (or the
   default for an absent key).
   */
  lemma EnrichAllOrNothing(data: Option<RepoObject>, i: nat)
    requires i < 10 && Column(Enrich(data), i) != RepoDefaults[i]
    ensures Enriched(data)
    ensures forall j :: 0 <= j < 10 ==> Column(Enrich(data), j) == Get(data.value, RepoKeys[j], RepoDefaults[j])
  {
    if !Enriched(data) {
      NoRepoIsDefaults();
    }
  }

  // ---------------------------------------------------------------- record assembly

  /** The fields passed to `Project(...)` by scrape_project_page. */
  datatype Record = Record(title: string, description: string, maintainer: string,
                           maintainerEmail: Option<string>, githubRepo: Option<string>, repo: RepoFields)

  /** What scrape_project_page ended with: a record, None, or an exception it raised (AttributeError, or LocationParseError from `parse_url`). */
  datatype Scrape = Scraped(record: Record) | NotScraped | Raised

  /**
   Everything one call of scrape_project_page depends on besides the link:
   the page and API networks, the HTML parser, urllib3's path extraction
   (None for a URL without a path, and for a malformed URL on which
   `parse_url` raises; both end in Raised), the JSON decoder, the token and the
   scraper's delay range.
   */
  datatype DetailInputs = DetailInputs(pageNet: nat -> Attempt, parse: string -> Document,
                                       urlPath: string -> Option<string>, apiNet: nat -> Attempt,
                                       decode: string -> Option<RepoObject>, token: Option<string>,
                                       delay: Jitter)

  /** What one call of scrape_project_page did: the URL, the page fetch, the GitHub lookup if one ran, the outcome. */
  datatype ProjectScrape = ProjectScrape(url: string, fetch: FetchResult, lookup: Option<RepoLookup>, outcome: Scrape)

  const PyPiRoot := "https://pypi.org"

  /**
   scrape_project_page for the listing href `projectUrl`. Without a body the
   result is None. Otherwise the page is parsed, the description and
   maintainer may raise, the e-mail and repository link are scanned for, and
   when a repository link was found its details are looked up; the repo
   columns are filled from that lookup or all left at their defaults.
   */
  function ScrapeProjectPage(projectUrl: string, w: DetailInputs): (r: ProjectScrape)
    ensures r.url == PyPiRoot + projectUrl
    ensures r.fetch == FetchPage(w.pageNet, PagePolicy(w.delay))
    ensures r.outcome.NotScraped? <==> !HasContent(r.fetch)
    ensures HasContent(r.fetch) ==>
      var doc := w.parse(r.fetch.content.value);
      (r.outcome.Raised? <==>
        Description(doc).AttrError? || Maintainer(doc).AttrError? ||
        (RepoLink(doc.links).Some? && w.urlPath(RepoLink(doc.links).value).None?)) &&
      (r.outcome.Scraped? ==>
        r.outcome.record == Record(Title(doc), Description(doc).value, Maintainer(doc).value,
                                   MaintainerEmail(doc.links), RepoLink(doc.links), r.outcome.record.repo))
    ensures r.lookup.Some? ==>
      (r.outcome.Scraped? && r.outcome.record.githubRepo.Some? &&
       w.urlPath(r.outcome.record.githubRepo.value).Some? &&
       r.lookup.value == GetRepoDetails(w.urlPath(r.outcome.record.githubRepo.value).value, w.token, w.apiNet, w.decode))
    ensures r.outcome.Scraped? && r.outcome.record.githubRepo.Some? ==> r.lookup.Some?
    ensures r.outcome.Scraped? ==>
      r.outcome.record.repo == Enrich(if r.lookup.Some? then r.lookup.value.data else None)
  {
    var url := PyPiRoot + projectUrl;
    var fetch := FetchPage(w.pageNet, PagePolicy(w.delay));
    if !HasContent(fetch) then ProjectScrape(url, fetch, None, NotScraped)
    else
      var doc := w.parse(fetch.content.value);
      var description := Description(doc);
      var maintainer := Maintainer(doc);
      if description.AttrError? || maintainer.AttrError? then ProjectScrape(url, fetch, None, Raised)
      else
        var repoLink := RepoLink(doc.links);
        var record := Record(Title(doc), description.value, maintainer.value,
                             MaintainerEmail(doc.links), repoLink, NoRepo);
        if repoLink.None? then ProjectScrape(url, fetch, None, Scraped(record))
        else
          match w.urlPath(repoLink.value)
          case None => ProjectScrape(url, fetch, None, Raised)
          case Some(path) =>
            var lookup := GetRepoDetails(path, w.token, w.apiNet, w.decode);
            ProjectScrape(url, fetch, Some(lookup), Scraped(record.(repo := Enrich(lookup.data))))
  }

  /** Without a link to GitHub no lookup is made and every repo column keeps its default. */
  lemma NoRepoLinkNoLookup(projectUrl: string, w: DetailInputs)
    requires HasContent(FetchPage(w.pageNet, PagePolicy(w.delay)))
    requires var doc := w.parse(FetchPage(w.pageNet, PagePolicy(w.delay)).content.value);
      forall i :: 0 <= i < |doc.links| ==> !MentionsGitHub(doc.links[i])
    ensures ScrapeProjectPage(projectUrl, w).lookup.None?
    ensures ScrapeProjectPage(projectUrl, w).outcome.Scraped? ==>
      ScrapeProjectPage(projectUrl, w).outcome.record.repo == NoRepo
      && ScrapeProjectPage(projectUrl, w).outcome.record.githubRepo.None?
  {
  }

  /** A repository lookup that returns nothing leaves every repo column at its default. */
  lemma FailedLookupKeepsDefaults(projectUrl: string, w: DetailInputs)
    ensures var s := ScrapeProjectPage(projectUrl, w);
      s.lookup.Some? && s.lookup.value.data.None? ==> s.outcome.Scraped? && s.outcome.record.repo == NoRepo
  {
  }
}
