/**
 `PyPiScrapper.scrape_all_projects`, run on the state `load_progress` left:
 listing pages are requested from the last saved page on, every link not yet
 visited is detail-scraped, a link is marked visited when its detail page
 gave a record, and progress is saved after every non-empty page. The crawl
 ends at the first page without links, or when a detail scrape raises.
 The database insert does not influence any of this and is left out here.
 */
module Crawl {
  import opened Optional
  import opened Checkpoint
  import opened Extract

  /** The links of the `i`-th page requested; past the end of `pages` every page is empty. */
  function Listing(pages: seq<seq<string>>, i: nat): seq<string> {
    if i < |pages| then pages[i] else []
  }

  /** One call of scrape_project_page: the link and what it ended with. */
  datatype Call = Call(link: string, outcome: Scrape)

  /**
   The scraper's state and what it has done so far: its progress, the file
   system, the detail scrapes made, the listing pages requested, the saves
   attempted, and whether an exception ended the run.
   */
  datatype Crawler = Crawler(progress: Progress, fs: FileSystem, calls: seq<Call>,
                             requested: seq<int>, saved: seq<Save>, halted: bool)

  /** One call of save_progress: the state it was given and how the write went. */
  datatype Save = Save(state: Progress, outcome: WriteOutcome)

  /**
   The links whose detail scrape gave a record, in call order: a link is
   among them exactly when some call for it gave a record.
   */
  function ScrapedLinks(calls: seq<Call>): (ls: seq<string>)
    ensures |ls| <= |calls|
    ensures forall l :: l in ls <==> exists i :: 0 <= i < |calls| && calls[i].link == l && calls[i].outcome.Scraped?
  {
    if |calls| == 0 then []
    else
      var front := calls[..|calls| - 1];
      var last := calls[|calls| - 1];
      assert forall i :: 0 <= i < |front| ==> front[i] == calls[i];
      ScrapedLinks(front) + (if last.outcome.Scraped? then [last.link] else [])
  }

  function Elems(s: seq<string>): set<string> {
    set x | x in s
  }

  /**
   The order of the scraped links follows the calls: the links scraped by the
   first `n` calls come first, and a link scraped later follows them.
   */
  lemma {:induction false} ScrapedLinksInOrder(calls: seq<Call>, n: nat)
    requires n <= |calls|
    ensures ScrapedLinks(calls[..n]) <= ScrapedLinks(calls)
    decreases |calls| - n
  {
    if n < |calls| {
      ScrapedLinksInOrder(calls, n + 1);
      var m := n + 1;
      assert calls[..m][..m - 1] == calls[..n];
    } else {
      assert calls[..n] == calls;
    }
  }

  /**
   What holds of every state the crawl reaches from visited set `init`: the
   visited set is `init` plus the links that gave a record, no call was made
   for a link of `init`, and no call follows a call for the same link that
   gave a record.
   */
  ghost predicate Consistent(init: set<string>, c: Crawler) {
    c.progress.visited == init + Elems(ScrapedLinks(c.calls)) &&
    (forall i :: 0 <= i < |c.calls| ==> c.calls[i].link !in init) &&
    (forall i, j :: 0 <= i < j < |c.calls| && c.calls[i].outcome.Scraped? ==> c.calls[j].link != c.calls[i].link)
  }

  /**
   One iteration of the inner loop. A visited link is skipped. Otherwise its
   detail page is scraped (this is call number |c.calls|): a record marks the
   link visited, whatever the database made of it; None leaves it unvisited;
   an exception ends the run.
   */
  function VisitLink(c: Crawler, link: string, detail: (string, nat) -> Scrape): (r: Crawler)
    requires !c.halted
    ensures link in c.progress.visited ==> r == c
    ensures link !in c.progress.visited ==> r.calls == c.calls + [Call(link, detail(link, |c.calls|))]
    ensures r.progress.visited == c.progress.visited + (if r.calls != c.calls && detail(link, |c.calls|).Scraped? then {link} else {})
    ensures r.halted <==> link !in c.progress.visited && detail(link, |c.calls|).Raised?
    ensures r.fs == c.fs && r.requested == c.requested && r.saved == c.saved
    ensures r.progress.lastPage == c.progress.lastPage
  {
    if link in c.progress.visited then c
    else
      var outcome := detail(link, |c.calls|);
      var c1 := c.(calls := c.calls + [Call(link, outcome)]);
      match outcome
      case Scraped(_) => c1.(progress := c1.progress.(visited := c1.progress.visited + {link}))
      case NotScraped => c1
      case Raised => c1.(halted := true)
  }

  lemma VisitLinkConsistent(init: set<string>, c: Crawler, link: string, detail: (string, nat) -> Scrape)
    requires !c.halted && Consistent(init, c)
    ensures Consistent(init, VisitLink(c, link, detail))
  {
    var r := VisitLink(c, link, detail);
    if link !in c.progress.visited {
      var n := |c.calls|;
      assert r.calls[..n] == c.calls;
      assert ScrapedLinks(r.calls) == ScrapedLinks(c.calls) + (if r.calls[n].outcome.Scraped? then [link] else []);
      forall i | 0 <= i < n && r.calls[i].outcome.Scraped?
        ensures r.calls[n].link != r.calls[i].link
      {
        assert r.calls[i] == c.calls[i];
      }
    }
  }

  /** The inner loop over one listing: the links in order, until one raises. */
  function VisitLinks(c: Crawler, links: seq<string>, detail: (string, nat) -> Scrape): (r: Crawler)
    decreases |links|
    ensures c.calls <= r.calls && |r.calls| - |c.calls| <= |links|
    ensures c.progress.visited <= r.progress.visited
    ensures c.halted ==> r == c
    ensures !c.halted && r.halted ==> |r.calls| > 0 && r.calls[|r.calls| - 1].outcome.Raised?
    ensures r.fs == c.fs && r.requested == c.requested && r.saved == c.saved
    ensures r.progress.lastPage == c.progress.lastPage
  {
    if |links| == 0 || c.halted then c
    else
      var c1 := VisitLink(c, links[0], detail);
      VisitLinks(c1, links[1..], detail)
  }

  /**
   When no detail scrape raised, every link of the listing ends up visited,
   or a call for it during this listing returned None.
   */
  lemma {:induction false} VisitLinksCovers(c: Crawler, links: seq<string>, detail: (string, nat) -> Scrape)
    requires !c.halted && !VisitLinks(c, links, detail).halted
    ensures var r := VisitLinks(c, links, detail);
      forall k :: 0 <= k < |links| ==>
        links[k] in r.progress.visited || exists j :: |c.calls| <= j < |r.calls| && r.calls[j] == Call(links[k], NotScraped)
    decreases |links|
  {
    if |links| > 0 {
      var c1 := VisitLink(c, links[0], detail);
      var r := VisitLinks(c1, links[1..], detail);
      VisitLinksCovers(c1, links[1..], detail);
      forall k | 0 <= k < |links|
        ensures links[k] in r.progress.visited || exists j :: |c.calls| <= j < |r.calls| && r.calls[j] == Call(links[k], NotScraped)
      {
        if k == 0 {
          if links[0] !in c.progress.visited && detail(links[0], |c.calls|).NotScraped? {
            assert r.calls[|c.calls|] == c1.calls[|c.calls|];
          }
        } else {
          assert links[k] == links[1..][k - 1];
        }
      }
    }
  }

  /** Every call from index `from` on is for a link of the listing. */
  predicate CallsFrom(calls: seq<Call>, from: nat, links: seq<string>) {
    forall j :: from <= j < |calls| ==> calls[j].link in links
  }

  /** The links of `calls` occur in `links` as a subsequence: in listing order, one call per entry at most. */
  predicate InListingOrder(calls: seq<Call>, links: seq<string>)
    decreases |links|
  {
    |calls| == 0 ||
    (|links| > 0 &&
     ((calls[0].link == links[0] && InListingOrder(calls[1..], links[1..])) || InListingOrder(calls, links[1..])))
  }

  /**
   The calls the inner loop appends are for links of this listing, taken in
   listing order with one call per entry at most, and none is for a link that
   was visited before the listing.
   */
  lemma {:induction false} VisitLinksCalls(c: Crawler, links: seq<string>, detail: (string, nat) -> Scrape)
    ensures CallsFrom(VisitLinks(c, links, detail).calls, |c.calls|, links)
    ensures InListingOrder(VisitLinks(c, links, detail).calls[|c.calls|..], links)
    ensures forall j :: |c.calls| <= j < |VisitLinks(c, links, detail).calls| ==>
      VisitLinks(c, links, detail).calls[j].link !in c.progress.visited
    decreases |links|
  {
    var r := VisitLinks(c, links, detail);
    if |links| == 0 || c.halted {
      assert r.calls[|c.calls|..] == [];
    } else {
      var c1 := VisitLink(c, links[0], detail);
      VisitLinksCalls(c1, links[1..], detail);
      var tail := r.calls[|c1.calls|..];
      assert InListingOrder(tail, links[1..]);
      if links[0] in c.progress.visited {
        assert c1 == c;
        assert InListingOrder(r.calls[|c.calls|..], links);
      } else {
        var n := |c.calls|;
        assert c1.calls == c.calls + [Call(links[0], detail(links[0], n))];
        assert r.calls[n] == c1.calls[n];
        assert r.calls[n..][1..] == tail;
        assert InListingOrder(r.calls[n..], links);
      }
      forall j | |c.calls| <= j < |r.calls|
        ensures r.calls[j].link in links && r.calls[j].link !in c.progress.visited
      {
        if j >= |c1.calls| {
          assert r.calls[j].link in links[1..];
        } else {
          assert r.calls[j] == c1.calls[j];
        }
      }
    }
  }

  lemma {:induction false} VisitLinksConsistent(init: set<string>, c: Crawler, links: seq<string>,
                                                detail: (string, nat) -> Scrape)
    requires Consistent(init, c)
    ensures Consistent(init, VisitLinks(c, links, detail))
    decreases |links|
  {
    if |links| > 0 && !c.halted {
      VisitLinkConsistent(init, c, links[0], detail);
      VisitLinksConsistent(init, VisitLink(c, links[0], detail), links[1..], detail);
    }
  }

  /**
   The end of a page whose links were all visited: it becomes the last page,
   and the progress is saved with the write outcome `w`.
   */
  function FinishPage(c2: Crawler, page: int, path: string, w: WriteOutcome): Crawler {
    var p := Progress(c2.progress.visited, page);
    c2.(progress := p, fs := SaveProgress(c2.fs, path, p, w), saved := c2.saved + [Save(p, w)])
  }

  /**
   The outer loop from the `i`-th page requested, numbered `start + i`. The
   page is requested; an empty listing ends the crawl; otherwise its links
   are visited and, unless one raised, the page becomes the last page and
   the progress is saved with the `i`-th write outcome.
   */
  function CrawlPages(c: Crawler, pages: seq<seq<string>>, i: nat, start: int, path: string,
                      detail: (string, nat) -> Scrape, writes: nat -> WriteOutcome): (r: Crawler)
    requires !c.halted && i <= |pages|
    decreases |pages| - i
    ensures c.requested < r.requested && c.saved <= r.saved
  {
    var c1 := c.(requested := c.requested + [start + i]);
    var listing := Listing(pages, i);
    if |listing| == 0 then c1
    else
      var c2 := VisitLinks(c1, listing, detail);
      if c2.halted then c2
      else
        var c3 := FinishPage(c2, start + i, path, writes(i));
        CrawlPages(c3, pages, i + 1, start, path, detail, writes)
  }

  /** From index `from` on, `s` counts up by one from `first`. */
  predicate CountsUp(s: seq<int>, from: nat, first: int) {
    forall k :: from <= k < |s| ==> s[k] == first + (k - from)
  }

  /** From index `from` on, the saved pages count up by one from `first`. */
  predicate SavesCountUp(saved: seq<Save>, from: nat, first: int) {
    forall k :: from <= k < |saved| ==> saved[k].state.lastPage == first + (k - from)
  }

  /** The pages requested are consecutive, from `start + i` on. */
  lemma {:induction false} CrawlRequests(c: Crawler, pages: seq<seq<string>>, i: nat, start: int, path: string,
                                         detail: (string, nat) -> Scrape, writes: nat -> WriteOutcome)
    requires !c.halted && i <= |pages|
    ensures CountsUp(CrawlPages(c, pages, i, start, path, detail, writes).requested, |c.requested|, start + i)
    decreases |pages| - i
  {
    var c1 := c.(requested := c.requested + [start + i]);
    var listing := Listing(pages, i);
    if |listing| > 0 {
      var c2 := VisitLinks(c1, listing, detail);
      if !c2.halted {
        var c3 := FinishPage(c2, start + i, path, writes(i));
        assert CrawlPages(c, pages, i, start, path, detail, writes) == CrawlPages(c3, pages, i + 1, start, path, detail, writes);
        CrawlRequests(c3, pages, i + 1, start, path, detail, writes);
        assert c3.requested[|c.requested|] == start + i;
      } else {
        assert CrawlPages(c, pages, i, start, path, detail, writes) == c2;
      }
    } else {
      assert CrawlPages(c, pages, i, start, path, detail, writes) == c1;
    }
  }

  /**
   The crawl stops at the first page without links: every page requested
   before the last one had links, and unless a detail scrape raised, the
   last one requested had none.
   */
  lemma {:induction false} CrawlStopsAtFirstEmpty(c: Crawler, pages: seq<seq<string>>, i: nat, start: int, path: string,
                                                  detail: (string, nat) -> Scrape, writes: nat -> WriteOutcome)
    requires !c.halted && i <= |pages|
    ensures var r := CrawlPages(c, pages, i, start, path, detail, writes);
      var last := i + (|r.requested| - |c.requested|) - 1;
      NonEmptyBetween(pages, i, last) && (!r.halted ==> |Listing(pages, last)| == 0)
    decreases |pages| - i
  {
    var c1 := c.(requested := c.requested + [start + i]);
    var listing := Listing(pages, i);
    if |listing| > 0 {
      var c2 := VisitLinks(c1, listing, detail);
      if !c2.halted {
        var c3 := FinishPage(c2, start + i, path, writes(i));
        assert CrawlPages(c, pages, i, start, path, detail, writes) == CrawlPages(c3, pages, i + 1, start, path, detail, writes);
        CrawlStopsAtFirstEmpty(c3, pages, i + 1, start, path, detail, writes);
        var r := CrawlPages(c3, pages, i + 1, start, path, detail, writes);
        var last := i + 1 + (|r.requested| - |c3.requested|) - 1;
        assert |c3.requested| == |c.requested| + 1;
        assert last == i + (|r.requested| - |c.requested|) - 1;
        assert NonEmptyBetween(pages, i, last) by {
          forall k: nat | i <= k < last
            ensures |Listing(pages, k)| > 0
          {
            if k > i {
              assert NonEmptyBetween(pages, i + 1, last);
            }
          }
        }
      } else {
        assert CrawlPages(c, pages, i, start, path, detail, writes) == c2;
      }
    } else {
      assert CrawlPages(c, pages, i, start, path, detail, writes) == c1;
    }
  }

  /** Every listing from page `from` up to, not including, page `to` has links. */
  predicate NonEmptyBetween(pages: seq<seq<string>>, from: nat, to: int) {
    forall k: nat :: from <= k < to ==> |Listing(pages, k)| > 0
  }

  /**
   Every page requested but the last one is saved, in order, and the last
   page in memory is the last one saved.
   */
  lemma {:induction false} CrawlSaves(c: Crawler, pages: seq<seq<string>>, i: nat, start: int, path: string,
                                      detail: (string, nat) -> Scrape, writes: nat -> WriteOutcome)
    requires !c.halted && i <= |pages|
    ensures var r := CrawlPages(c, pages, i, start, path, detail, writes);
      |r.saved| + |c.requested| + 1 == |c.saved| + |r.requested| &&
      SavesCountUp(r.saved, |c.saved|, start + i) &&
      r.progress.lastPage == if |r.saved| == |c.saved| then c.progress.lastPage else start + i + (|r.saved| - |c.saved| - 1)
    decreases |pages| - i
  {
    var c1 := c.(requested := c.requested + [start + i]);
    var listing := Listing(pages, i);
    if |listing| > 0 {
      var c2 := VisitLinks(c1, listing, detail);
      if !c2.halted {
        var c3 := FinishPage(c2, start + i, path, writes(i));
        assert CrawlPages(c, pages, i, start, path, detail, writes) == CrawlPages(c3, pages, i + 1, start, path, detail, writes);
        CrawlSaves(c3, pages, i + 1, start, path, detail, writes);
        assert c3.saved[|c.saved|].state.lastPage == start + i;
      } else {
        assert CrawlPages(c, pages, i, start, path, detail, writes) == c2;
      }
    } else {
      assert CrawlPages(c, pages, i, start, path, detail, writes) == c1;
    }
  }

  /**
   The crawl only appends detail calls, the visited set only grows, and
   every state it saves is contained in the final one.
   */
  lemma {:induction false} CrawlPagesGrows(c: Crawler, pages: seq<seq<string>>, i: nat, start: int, path: string,
                                           detail: (string, nat) -> Scrape, writes: nat -> WriteOutcome)
    requires !c.halted && i <= |pages|
    ensures var r := CrawlPages(c, pages, i, start, path, detail, writes);
      c.calls <= r.calls && c.progress.visited <= r.progress.visited &&
      forall k :: |c.saved| <= k < |r.saved| ==> r.saved[k].state.visited <= r.progress.visited
    decreases |pages| - i
  {
    var c1 := c.(requested := c.requested + [start + i]);
    var listing := Listing(pages, i);
    if |listing| > 0 {
      var c2 := VisitLinks(c1, listing, detail);
      if !c2.halted {
        var p := Progress(c2.progress.visited, start + i);
        var c3 := FinishPage(c2, start + i, path, writes(i));
        var r := CrawlPages(c3, pages, i + 1, start, path, detail, writes);
        assert CrawlPages(c, pages, i, start, path, detail, writes) == r;
        CrawlPagesGrows(c3, pages, i + 1, start, path, detail, writes);
        assert r.saved[|c.saved|].state == p;
      } else {
        assert CrawlPages(c, pages, i, start, path, detail, writes) == c2;
      }
    } else {
      assert CrawlPages(c, pages, i, start, path, detail, writes) == c1;
    }
  }

  lemma {:induction false} CrawlPagesConsistent(init: set<string>, c: Crawler, pages: seq<seq<string>>, i: nat,
                                                start: int, path: string, detail: (string, nat) -> Scrape,
                                                writes: nat -> WriteOutcome)
    requires !c.halted && i <= |pages| && Consistent(init, c)
    ensures Consistent(init, CrawlPages(c, pages, i, start, path, detail, writes))
    decreases |pages| - i
  {
    var c1 := c.(requested := c.requested + [start + i]);
    var listing := Listing(pages, i);
    if |listing| > 0 {
      VisitLinksConsistent(init, c1, listing, detail);
      var c2 := VisitLinks(c1, listing, detail);
      if !c2.halted {
        var c3 := FinishPage(c2, start + i, path, writes(i));
        CrawlPagesConsistent(init, c3, pages, i + 1, start, path, detail, writes);
      }
    }
  }

  /** The loaded checkpoint is no further along than the state in memory. */
  predicate Behind(a: Progress, b: Progress) {
    a.visited <= b.visited && a.lastPage <= b.lastPage
  }

  /**
   The progress file never runs ahead of memory: what loading it gives has
   no link and no page beyond the state the scraper holds.
   */
  lemma {:induction false} CrawlCheckpointBehind(c: Crawler, pages: seq<seq<string>>, i: nat, start: int, path: string,
                                                 detail: (string, nat) -> Scrape, writes: nat -> WriteOutcome)
    requires !c.halted && i <= |pages|
    requires Behind(LoadProgress(c.fs, path), c.progress) && c.progress.lastPage <= start + i
    ensures var r := CrawlPages(c, pages, i, start, path, detail, writes);
      Behind(LoadProgress(r.fs, path), r.progress)
    decreases |pages| - i
  {
    var c1 := c.(requested := c.requested + [start + i]);
    var listing := Listing(pages, i);
    if |listing| > 0 {
      var c2 := VisitLinks(c1, listing, detail);
      if !c2.halted {
        var p := Progress(c2.progress.visited, start + i);
        var c3 := FinishPage(c2, start + i, path, writes(i));
        if writes(i).Written? {
          SaveLoadRoundTrip(c2.fs, path, p);
        } else {
          FailedSaveKeepsCheckpoint(c2.fs, path, p, writes(i));
        }
        assert Behind(LoadProgress(c3.fs, path), c3.progress);
        CrawlCheckpointBehind(c3, pages, i + 1, start, path, detail, writes);
      }
    }
  }

  /** The state given to the latest save that went through, if any did. */
  function LastWritten(saved: seq<Save>): (o: Option<Progress>)
    ensures o.None? <==> forall k :: 0 <= k < |saved| ==> !saved[k].outcome.Written?
    ensures o.Some? ==> exists k :: 0 <= k < |saved| && saved[k] == Save(o.value, Written) &&
                                    (forall j :: k < j < |saved| ==> !saved[j].outcome.Written?)
  {
    if |saved| == 0 then None
    else if saved[|saved| - 1].outcome.Written? then Some(saved[|saved| - 1].state)
    else
      var front := saved[..|saved| - 1];
      assert forall k :: 0 <= k < |front| ==> front[k] == saved[k];
      LastWritten(front)
  }

  /**
   The progress file holds the state of the latest save that went through;
   when every save failed, it holds what it held before the crawl.
   */
  lemma {:induction false} CrawlCheckpointWritten(c: Crawler, pages: seq<seq<string>>, i: nat, start: int, path: string,
                                                  detail: (string, nat) -> Scrape, writes: nat -> WriteOutcome)
    requires !c.halted && i <= |pages|
    requires LastWritten(c.saved).Some? ==> LoadProgress(c.fs, path) == LastWritten(c.saved).value
    ensures var r := CrawlPages(c, pages, i, start, path, detail, writes);
      (LastWritten(r.saved).Some? ==> LoadProgress(r.fs, path) == LastWritten(r.saved).value) &&
      (LastWritten(r.saved).None? ==> LoadProgress(r.fs, path) == LoadProgress(c.fs, path))
    decreases |pages| - i
  {
    var c1 := c.(requested := c.requested + [start + i]);
    var listing := Listing(pages, i);
    if |listing| > 0 {
      var c2 := VisitLinks(c1, listing, detail);
      if !c2.halted {
        var p := Progress(c2.progress.visited, start + i);
        var c3 := FinishPage(c2, start + i, path, writes(i));
        if writes(i).Written? {
          SaveLoadRoundTrip(c2.fs, path, p);
          assert LastWritten(c3.saved) == Some(p);
        } else {
          FailedSaveKeepsCheckpoint(c2.fs, path, p, writes(i));
          assert c3.saved[..|c3.saved| - 1] == c.saved;
          assert LastWritten(c3.saved) == LastWritten(c.saved);
        }
        CrawlCheckpointWritten(c3, pages, i + 1, start, path, detail, writes);
      }
    }
  }

  /** A crawl that saves nothing leaves the file system as it was. */
  lemma CrawlNoSaveKeepsFiles(c: Crawler, pages: seq<seq<string>>, i: nat, start: int, path: string,
                              detail: (string, nat) -> Scrape, writes: nat -> WriteOutcome)
    requires !c.halted && i <= |pages|
    ensures var r := CrawlPages(c, pages, i, start, path, detail, writes);
      |r.saved| == |c.saved| ==> r.fs == c.fs
  {
  }

  /**
   The detail outcomes of a crawl whose `k`-th scrape_project_page call sees
   the inputs `world(k)`.
   */
  function ProjectDetail(world: nat -> DetailInputs): (detail: (string, nat) -> Scrape)
    ensures forall l, k :: detail(l, k) == ScrapeProjectPage(l, world(k)).outcome
  {
    (l: string, k: nat) => ScrapeProjectPage(l, world(k)).outcome
  }

  /** The scraper's state right after construction: the loaded checkpoint, nothing done yet. */
  function Start(fs: FileSystem, path: string): (c: Crawler)
    ensures c.progress == LoadProgress(fs, path) && c.fs == fs && !c.halted
    ensures c.calls == [] && c.requested == [] && c.saved == []
  {
    Crawler(LoadProgress(fs, path), fs, [], [], [], false)
  }

  /**
   Construction followed by scrape_all_projects: the crawl starts at the
   loaded last page itself, requests consecutive pages, and never
   detail-scrapes a link the checkpoint lists as visited.
   */
  function ScrapeAllProjects(fs: FileSystem, path: string, pages: seq<seq<string>>,
                             detail: (string, nat) -> Scrape, writes: nat -> WriteOutcome): (r: Crawler)
    ensures |r.requested| > 0 && r.requested[0] == LoadProgress(fs, path).lastPage
    ensures forall k :: 0 <= k < |r.requested| ==> r.requested[k] == LoadProgress(fs, path).lastPage + k
    ensures forall k :: 0 <= k < |r.calls| ==> r.calls[k].link !in LoadProgress(fs, path).visited
    ensures r.progress.visited == LoadProgress(fs, path).visited + Elems(ScrapedLinks(r.calls))
  {
    var c := Start(fs, path);
    CrawlPagesConsistent(c.progress.visited, c, pages, 0, c.progress.lastPage, path, detail, writes);
    CrawlRequests(c, pages, 0, c.progress.lastPage, path, detail, writes);
    var r := CrawlPages(c, pages, 0, c.progress.lastPage, path, detail, writes);
    assert CountsUp(r.requested, 0, c.progress.lastPage);
    r
  }

  /**
   What scrape_all_projects leaves in the progress file: page `k` of the
   saves is the loaded page plus `k`, the last page in memory is no earlier
   than the loaded one, the file never runs ahead of memory, and it holds the
   state of the latest save that went through (or, when none did, what it
   held before).
   */
  lemma CheckpointTrail(fs: FileSystem, path: string, pages: seq<seq<string>>,
                        detail: (string, nat) -> Scrape, writes: nat -> WriteOutcome)
    ensures var r := ScrapeAllProjects(fs, path, pages, detail, writes);
      var loaded := LoadProgress(fs, path);
      SavesCountUp(r.saved, 0, loaded.lastPage) &&
      r.progress.lastPage >= loaded.lastPage &&
      Behind(LoadProgress(r.fs, path), r.progress) &&
      (LastWritten(r.saved).Some? ==> LoadProgress(r.fs, path) == LastWritten(r.saved).value) &&
      (LastWritten(r.saved).None? ==> LoadProgress(r.fs, path) == loaded)
  {
    var c := Start(fs, path);
    CrawlCheckpointBehind(c, pages, 0, c.progress.lastPage, path, detail, writes);
    CrawlSaves(c, pages, 0, c.progress.lastPage, path, detail, writes);
    CrawlCheckpointWritten(c, pages, 0, c.progress.lastPage, path, detail, writes);
  }

  /** Call `k` ended with what the detail scrape gives for its link as call number `k`. */
  predicate CallsFollow(calls: seq<Call>, detail: (string, nat) -> Scrape) {
    forall k :: 0 <= k < |calls| ==> calls[k].outcome == detail(calls[k].link, k)
  }

  lemma {:induction false} VisitLinksFollow(c: Crawler, links: seq<string>, detail: (string, nat) -> Scrape)
    requires CallsFollow(c.calls, detail)
    ensures CallsFollow(VisitLinks(c, links, detail).calls, detail)
    decreases |links|
  {
    if |links| > 0 && !c.halted {
      var c1 := VisitLink(c, links[0], detail);
      assert CallsFollow(c1.calls, detail);
      VisitLinksFollow(c1, links[1..], detail);
    }
  }

  lemma {:induction false} CrawlPagesFollow(c: Crawler, pages: seq<seq<string>>, i: nat, start: int, path: string,
                                            detail: (string, nat) -> Scrape, writes: nat -> WriteOutcome)
    requires !c.halted && i <= |pages| && CallsFollow(c.calls, detail)
    ensures CallsFollow(CrawlPages(c, pages, i, start, path, detail, writes).calls, detail)
    decreases |pages| - i
  {
    var c1 := c.(requested := c.requested + [start + i]);
    var listing := Listing(pages, i);
    if |listing| > 0 {
      VisitLinksFollow(c1, listing, detail);
      var c2 := VisitLinks(c1, listing, detail);
      if !c2.halted {
        CrawlPagesFollow(FinishPage(c2, start + i, path, writes(i)), pages, i + 1, start, path, detail, writes);
      }
    }
  }

  /**
   Every call of a crawl ended as the detail scrape gives for its link and
   call number, and a link not in the loaded checkpoint ends up visited
   exactly when the detail scrape gave a record for it on some call.
   */
  lemma VisitedExactlyWhenRecorded(fs: FileSystem, path: string, pages: seq<seq<string>>,
                                   detail: (string, nat) -> Scrape, writes: nat -> WriteOutcome, link: string)
    ensures var r := ScrapeAllProjects(fs, path, pages, detail, writes);
      CallsFollow(r.calls, detail) &&
      ((link in r.progress.visited && link !in LoadProgress(fs, path).visited) <==>
       exists k :: 0 <= k < |r.calls| && r.calls[k].link == link && detail(link, k).Scraped?)
  {
    var c := Start(fs, path);
    CrawlPagesFollow(c, pages, 0, c.progress.lastPage, path, detail, writes);
    var r := ScrapeAllProjects(fs, path, pages, detail, writes);
    assert CallsFollow(r.calls, detail);
    if link in r.progress.visited && link !in LoadProgress(fs, path).visited {
      assert link in ScrapedLinks(r.calls);
      var k :| 0 <= k < |r.calls| && r.calls[k].link == link && r.calls[k].outcome.Scraped?;
      assert detail(link, k).Scraped?;
    }
    if exists k :: 0 <= k < |r.calls| && r.calls[k].link == link && detail(link, k).Scraped? {
      var k :| 0 <= k < |r.calls| && r.calls[k].link == link && detail(link, k).Scraped?;
      assert r.calls[k].outcome.Scraped?;
      assert link in ScrapedLinks(r.calls);
    }
  }

  /**
   A crawl over the project pages of `world`, whose `k`-th detail scrape sees
   the inputs `world(k)`: a link not in the loaded checkpoint ends up visited
   exactly when scrape_project_page returned a record for it on some call.
   */
  lemma VisitedExactlyWhenScraped(fs: FileSystem, path: string, pages: seq<seq<string>>,
                                  world: nat -> DetailInputs, writes: nat -> WriteOutcome, link: string)
    ensures var r := ScrapeAllProjects(fs, path, pages, ProjectDetail(world), writes);
      (link in r.progress.visited && link !in LoadProgress(fs, path).visited) <==>
      exists k :: 0 <= k < |r.calls| && r.calls[k].link == link && ScrapeProjectPage(link, world(k)).outcome.Scraped?
  {
    var detail := ProjectDetail(world);
    VisitedExactlyWhenRecorded(fs, path, pages, detail, writes, link);
    var r := ScrapeAllProjects(fs, path, pages, detail, writes);
    assert forall k :: 0 <= k < |r.calls| ==> detail(link, k) == ScrapeProjectPage(link, world(k)).outcome;
  }

  /** A link is added to the visited set exactly once, and only by a call that gave a record. */
  lemma AddedOnce(fs: FileSystem, path: string, pages: seq<seq<string>>,
                  detail: (string, nat) -> Scrape, writes: nat -> WriteOutcome, i: nat, j: nat)
    requires var r := ScrapeAllProjects(fs, path, pages, detail, writes);
      i < j < |r.calls| && r.calls[i].outcome.Scraped?
    ensures var r := ScrapeAllProjects(fs, path, pages, detail, writes);
      r.calls[j].link != r.calls[i].link
  {
    var c := Start(fs, path);
    CrawlPagesConsistent(c.progress.visited, c, pages, 0, c.progress.lastPage, path, detail, writes);
  }

  /**
   Resuming: when some save of a run went through, a second run started from
   the file it left begins again at the page of the latest such save, and
   never detail-scrapes a link that save listed as visited.
   */
  lemma ResumeSkipsSaved(fs: FileSystem, path: string, pages: seq<seq<string>>, pages2: seq<seq<string>>,
                         detail: (string, nat) -> Scrape, detail2: (string, nat) -> Scrape,
                         writes: nat -> WriteOutcome, writes2: nat -> WriteOutcome)
    requires LastWritten(ScrapeAllProjects(fs, path, pages, detail, writes).saved).Some?
    ensures var r := ScrapeAllProjects(fs, path, pages, detail, writes);
      var r2 := ScrapeAllProjects(r.fs, path, pages2, detail2, writes2);
      var last := LastWritten(r.saved).value;
      r2.requested[0] == last.lastPage && forall k :: 0 <= k < |r2.calls| ==> r2.calls[k].link !in last.visited
  {
    var c := Start(fs, path);
    CrawlCheckpointWritten(c, pages, 0, c.progress.lastPage, path, detail, writes);
  }

  /**
   One listing with two new projects, then an empty page, every detail
   scrape giving a record and every save going through: both links are
   visited, pages 1 and 2 are requested, and the checkpoint records page 1,
   the last page that had links.
   */
  lemma TwoProjectRun(path: string, rec: Record, writes: nat -> WriteOutcome)
    requires forall k :: writes(k) == Written
    ensures var r := ScrapeAllProjects(map[], path, [["/project/a/", "/project/b/"]], (l, k) => Scraped(rec), writes);
      r.progress == Progress({"/project/a/", "/project/b/"}, 1) &&
      r.requested == [1, 2] && !r.halted &&
      LoadProgress(r.fs, path) == r.progress
  {
  }
}
