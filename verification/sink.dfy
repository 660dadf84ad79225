/**
 The database step of `scrape_all_projects` as the code is written: after a
 record is scraped it is inserted, and the attribute `error` of the value
 `SupabaseDatabase.insert_project` returns is read. That value is the list of
 inserted rows or None, and neither has such an attribute, so the read raises
 AttributeError and the exception leaves the crawl. The crawl in module Crawl
 models the evident intention instead: the insert result is only logged and
 the link is marked visited either way.
 */
module Sink {
  import opened Checkpoint
  import opened Extract
  import opened Crawl

  /** What insert_project returns: the inserted rows (`res.data`) or None. */
  datatype InsertResult = InsertedRows(rows: nat) | NoResult

  /** Python's `res.error` on that value: a list has no such attribute and None has none. */
  function ErrorAttribute(res: InsertResult): (e: Outcome<bool>)
    ensures e.AttrError?
  {
    match res
    case InsertedRows(_) => AttrError
    case NoResult => AttrError
  }

  /**
   One iteration of the inner loop as written: like Crawl.VisitLink, except
   that a scraped record is inserted (with the `|c.calls|`-th insert result)
   and `res.error` is then read before the link is marked visited.
   */
  function VisitLinkAsWritten(c: Crawler, link: string, detail: (string, nat) -> Scrape,
                              insert: nat -> InsertResult): (r: Crawler)
    requires !c.halted
    ensures link in c.progress.visited ==> r == c
    ensures link !in c.progress.visited ==> r.calls == c.calls + [Call(link, detail(link, |c.calls|))]
    ensures r.progress == c.progress
  {
    if link in c.progress.visited then c
    else
      var outcome := detail(link, |c.calls|);
      var c1 := c.(calls := c.calls + [Call(link, outcome)]);
      match outcome
      case Scraped(_) =>
        (match ErrorAttribute(insert(|c.calls|))
         case AttrError => c1.(halted := true)
         case Ok(_) => c1.(progress := c1.progress.(visited := c1.progress.visited + {link})))
      case NotScraped => c1
      case Raised => c1.(halted := true)
  }

  /**
   The discrepancy: for a new link whose page scrapes to a record, the code
   as written ends the crawl with the link unvisited, whatever the insert
   returned, where the intended step marks it visited and carries on.
   */
  lemma ScrapedRecordHaltsAsWritten(c: Crawler, link: string, detail: (string, nat) -> Scrape,
                                    insert: nat -> InsertResult)
    requires !c.halted && link !in c.progress.visited && detail(link, |c.calls|).Scraped?
    ensures VisitLinkAsWritten(c, link, detail, insert).halted
    ensures link !in VisitLinkAsWritten(c, link, detail, insert).progress.visited
    ensures !VisitLink(c, link, detail).halted
    ensures link in VisitLink(c, link, detail).progress.visited
  {
  }
}
