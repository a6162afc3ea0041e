# jobs.ge scraper: record pipeline model

This project is a Dafny model of the record pipeline of a small job-listing
scraper. The pipeline runs from an extracted page to the insert statements.
It has two parts:

- **Extraction** (`WebScraping`, from `web_scraping.py`). `WebScraper.extract_job_details` looks for the
  listing table `temp_table`. It then walks the table's direct children and,
  for each child, every `tr` of the table. A row with at least two `td` cells
  is read at fixed offsets. Cell 1 gives the vacancy name and its link, cell
  3 the company, cell 4 the publication date and cell 5 the deadline. The
  row is kept when cell 1 holds an `<a>` with an `href`. The link is resolved
  against the base url.
- **Crawl driver** (`JobScraping`, from `main.py`). `JobScraper` keeps a set
  of known `job_url`s and the list of accumulated jobs.
  - `load_existing_job_urls` seeds the set from `SELECT job_url FROM jobs`.
  - `scrape_jobs` filters one page's records against the set. It appends
    the new ones to the job list and returns the whole list.
  - `run` seeds, scrapes page 1 (the only page of `range(1, 2)`) and issues
    one insert per record of every page result.

The parsed page is abstract data. A `Document` either has the listing table
or not. A `Table` has a number of direct children and its rows. A row is the
sequence of its cells, and a `Cell` is its stripped text plus its link.
`urljoin` is the `urlJoin` function the scraper is built with, and nothing
is assumed about it. The fetcher's answer and the seeding query's answer
are parameters. Each insert statement is recorded in the scraper's
`inserted` log.

The model follows the code as written:

- The inner pass over the rows runs once per child of the table. The
  output is therefore the single-pass record list repeated that many times
  (`ExtractMeaning`). `DedupRepeated` and `FirstPageJobs` show that the url
  filter of `scrape_jobs` removes the repetition again.
- A missing table is a fault (`TableNotFound`), not an empty result.
  Iterating over `None` raises.
- A row with two to five cells passes the `len(td_tags) >= 2` guard. It then
  faults on cell 3, 4 or 5 (`CellMissing`). This happens only when the table
  has at least one child, because otherwise the loops never run.
- `scrape_jobs` returns `None` when the page was not retrieved or yielded no
  records. It then changes nothing. `run` iterates over the returned value,
  so a `None` result faults there (`NoneNotIterable`) before any insert.
- The code has no end-of-listing rules (repeated page, loop detection,
  inter-page delay) and no concurrent insertion; neither is modelled. A
  missing table or a short row raises; it does not yield zero records, and
  the model follows the code.

Files: `records.dfy` (the job record and shared helpers), `extraction.dfy`
(module `WebScraping`), `crawl.dfy` (module `JobScraping`).

## Model

| member | source | states |
|---|---|---|
| `WebScraping.WebScraper.constructor` | web_scraping.py:8-9 | the scraper keeps the base url (and the url-join function) it is built with |
| `WebScraping.WebScraper.ExtractJobDetails` | web_scraping.py:34-57 | the nested loops compute exactly `Extract`: a fault for a missing table, otherwise one inner pass per child of the table, the first faulting row ending everything |
| `WebScraping.ExtractMeaning` | web_scraping.py:35-57 | extraction faults iff the table is missing (`TableNotFound`) or the table has at least one child and some row has 2 to 5 cells (`CellMissing`); otherwise it yields the records of the qualifying rows, in row order, concatenated once per child of the table |
| `WebScraping.ScanMeaning` | web_scraping.py:39-56 | one pass over the rows faults iff some row passes the two-cell guard with fewer than six cells; otherwise it yields exactly the records of the rows with at least six cells whose cell 1 has an anchor with an href, in row order |
| `WebScraping.ScanAppend` | web_scraping.py:39-56 | order preservation: the pass over rows `a + b` is the pass over `a` followed by the pass over `b`, the first fault winning |
| `WebScraping.SkippedRow` | web_scraping.py:41-47 | a row with fewer than two cells, or a full row whose cell 1 has no anchor or an anchor without href, contributes nothing wherever it stands |
| `WebScraping.RecordsFromRows` | web_scraping.py:42-55 | every extracted record is `RecordOf` one qualifying row: name from cell 1, company from cell 3, published from cell 4, deadline from cell 5, url = urlJoin(base url, href of cell 1's anchor) |
| `WebScraping.RecordsLength` | web_scraping.py:39-56 | one pass yields at most one record per row, and none exactly when no row qualifies |
| `WebScraping.RepeatOk` | web_scraping.py:37-38 | repeating a successful pass k times yields its records concatenated k times |
| `WebScraping.RepeatErr` | web_scraping.py:37-38 | repeating a faulting pass at least once yields that fault |
| `WebScraping.ExtractBound` | web_scraping.py:35-57 | a successful extraction yields at most (children of the table) x (rows) records, and none when no row qualifies |
| `JobScraping.JobScraper.constructor` | main.py:14-18 | a new scraper has no known urls, no jobs and has issued no inserts, and its extractor uses the given base url |
| `JobScraping.JobScraper.LoadExistingJobUrls` | main.py:20-25 | the known-url set becomes `Seeded(old set, query answer)` and nothing else changes |
| `JobScraping.Seeded` | main.py:22-24 | with a non-empty query answer the set is replaced by the first column of its rows (membership both ways); with a failed query (`None`) or no rows it is left unchanged |
| `JobScraping.JobScraper.InsertJob` | main.py:27-34 | exactly one insert of the record is issued |
| `JobScraping.JobScraper.ScrapeJobs` | main.py:39-61 | result, known urls and job list after the call are exactly `ScrapeStep` of the old ones and of what extraction gives for the fetched page; the scraper invariant (distinct accumulated urls, all known) is kept |
| `JobScraping.ScrapeStepOutcome` | main.py:44-61 | a list is returned iff a page was fetched and extraction gave a non-empty list, and then it is the whole accumulated list; a missing page or an empty extraction returns `None`; an extraction fault is raised; all three leave set and list unchanged |
| `JobScraping.ScrapeStepGrowth` | main.py:53-58 | the old job list is a prefix of the new one; the set only grows, by exactly the urls of the appended records; every appended record's url was unknown, they are pairwise distinct, and they are a subsequence of the page (page order) |
| `JobScraping.ScrapeStepKeepsAccumulated` | main.py:53-58 | across calls no url is accepted twice: distinct accumulated urls, all in the known set, stay so |
| `JobScraping.DedupUrls` | main.py:54-57 | the urls the accumulate loop adds are exactly the page's urls minus the known ones |
| `JobScraping.DedupFresh` | main.py:54-58 | no appended record's url was known before the loop |
| `JobScraping.DedupDistinct` | main.py:54-57 | the appended records have pairwise distinct urls, even when the page repeats a url |
| `JobScraping.DedupSubsequence` | main.py:53-58 | the appended records keep their page order (they are a subsequence of the page) |
| `JobScraping.DedupSnoc` | main.py:53-58 | one step of the accumulate loop: the next record is appended, and its url added to the set, exactly when its url is neither known nor already appended |
| `JobScraping.DedupAppend` | main.py:53-58 | filtering `a + b` is filtering `a`, then `b` against the set grown by `a`'s new urls |
| `JobScraping.DedupKnown` | main.py:54-56 | a page all of whose urls are known appends nothing |
| `JobScraping.DedupIdempotent` | main.py:54-57 | filtering a page again after the urls it added appends nothing |
| `JobScraping.DedupRepeated` | main.py:53-58 | a page that is one list repeated k >= 1 times (as the extractor produces) appends exactly what one copy appends |
| `JobScraping.FirstPageJobs` | main.py:48-58 | from an empty job list, the jobs accumulated from a listing table with at least one child and no short row are the filtered records of its qualifying rows, independent of the number of children |
| `JobScraping.RerunAddsNothing` | main.py:53-58 | a second run whose seed holds the urls known after a first run over the same page accumulates nothing |
| `JobScraping.JobScraper.InsertPages` | main.py:69-72 | the insert log grows by exactly `Drain` of the page results, and the loop completes iff no result is `None` before the end |
| `JobScraping.DrainPresent` | main.py:69-72 | when every page result is a list, the loop completes and inserts the records of all pages, page after page |
| `JobScraping.DrainOrder` | main.py:69-72 | page p's records are inserted once each, as the contiguous block right after the records of the pages before it |
| `JobScraping.DrainStops` | main.py:70-72 | once a `None` result faults, nothing after it is inserted |
| `JobScraping.JobScraper.Run` | main.py:63-73 | after seeding and scraping page 1, set and list are those of `ScrapeStep`; a fault raised by the extractor ends the run with no insert; a `None` result faults with no insert; otherwise the insert log grows by the whole returned job list |

## Left out

- `WebScraper.scrape_page` (web_scraping.py:11-32) is not modelled. It
  launches a browser, navigates with a 180 s timeout and parses the page, all
  of which is I/O. Its answer, a parsed page or `None`, is the `page`
  parameter.
- HTML parsing is not modelled: `soup.find`, `find_all`, iteration over a
  tag's children and `get_text(strip=True)`. A table arrives as its child
  count and its rows, and a cell as its stripped text and its first anchor.
- `urljoin` is not interpreted. It is the scraper's `urlJoin` function, and
  the model assumes nothing about it.
- The page url built at main.py:40 is not modelled, because the fetch it
  feeds is a parameter.
- database.py is not part of this model. Connecting, querying, closing and
  the no-op `commit` (also called at main.py:60) have no logic of their own.
  The seeding query's answer is a parameter (`None` when the query failed).
  Each insert is an entry in the `inserted` log.
- JobScraper.InsertJob: a failing INSERT is caught and logged in the source,
  so the log records insert attempts, not stored rows.
- `asyncio.gather`, `asyncio.to_thread` and `async_insert_job` are not
  modelled. With the single page 1 they add no ordering of their own.
- JobScraper.Run: the model stops after the insert loop. It does not model
  the wiring faults around `run`. main.py:4 imports a `Database` that
  database.py does not define. main.py:42 awaits the synchronous
  `scrape_page`. main.py:73 gathers the `None` values returned by
  `insert_job`. main.py:75 calls a `close` that `WebScraper` does not have.
- Logging, timing (main.py:64, 76-78) and the entry point (main.py:81-87) are
  not modelled.
- A page range larger than `range(1, 2)` is not modelled. In that case every
  `scrape_jobs` call would return the same shared job list, and `run` would
  insert its records once per page.
