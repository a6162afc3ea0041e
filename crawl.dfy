/** The crawl driver (`JobScraper` in main.py): it seeds the set of known
    job urls from the database, filters one page's extracted records against
    that set while accumulating the new ones, and issues one insert per
    accumulated record. The database and the page fetcher are outside the
    model: their answers are parameters, and each insert is recorded in an
    insert log instead of being sent to the database. */
module JobScraping {
  import opened Records
  import opened WebScraping

  // ---------------------------------------------------------------------
  // Deduplication of one page against the set of known urls

  /** The records of `page` that the accumulate loop appends when it starts
      with the known urls `seen`: a record is kept when its url is not yet
      known, and its url is known from then on. */
  function Dedup(seen: set<string>, page: seq<JobRecord>): seq<JobRecord>
    decreases |page|
  {
    if page == [] then []
    else if page[0].jobUrl in seen then Dedup(seen, page[1..])
    else [page[0]] + Dedup(seen + {page[0].jobUrl}, page[1..])
  }

  /** The urls that the accumulate loop adds are exactly the page's urls
      that were not known: the set grows by those and by nothing else. */
  lemma {:induction false} DedupUrls(seen: set<string>, page: seq<JobRecord>)
    ensures Urls(Dedup(seen, page)) == Urls(page) - seen
    decreases |page|
  {
    if page != [] {
      var u := page[0].jobUrl;
      assert page == [page[0]] + page[1..];
      UrlsAppend([page[0]], page[1..]);
      assert Urls([page[0]]) == {u};
      if u in seen {
        DedupUrls(seen, page[1..]);
      } else {
        DedupUrls(seen + {u}, page[1..]);
        UrlsAppend([page[0]], Dedup(seen + {u}, page[1..]));
      }
    }
  }

  /** No appended record's url was known before it was processed. */
  lemma DedupFresh(seen: set<string>, page: seq<JobRecord>)
    ensures forall r :: r in Dedup(seen, page) ==> r.jobUrl !in seen
  {
    DedupUrls(seen, page);
    forall r | r in Dedup(seen, page) ensures r.jobUrl !in seen {
      assert r.jobUrl in Urls(Dedup(seen, page));
    }
  }

  /** The appended records have pairwise distinct urls, even when the page
      repeats a url. */
  lemma {:induction false} DedupDistinct(seen: set<string>, page: seq<JobRecord>)
    ensures DistinctUrls(Dedup(seen, page))
    decreases |page|
  {
    if page != [] {
      var u := page[0].jobUrl;
      if u in seen {
        DedupDistinct(seen, page[1..]);
      } else {
        var rest := Dedup(seen + {u}, page[1..]);
        DedupDistinct(seen + {u}, page[1..]);
        DedupFresh(seen + {u}, page[1..]);
        var out := [page[0]] + rest;
        forall i, j | 0 <= i < j < |out| ensures out[i].jobUrl != out[j].jobUrl {
          assert out[j] == rest[j - 1];
          if i > 0 {
            assert out[i] == rest[i - 1];
          } else {
            assert rest[j - 1] in rest;
          }
        }
      }
    }
  }

  /** The appended records keep their page order: they are a subsequence of
      the page. */
  lemma {:induction false} DedupSubsequence(seen: set<string>, page: seq<JobRecord>)
    ensures IsSubsequence(Dedup(seen, page), page)
    decreases |page|
  {
    if page != [] {
      var u := page[0].jobUrl;
      if u in seen {
        DedupSubsequence(seen, page[1..]);
      } else {
        DedupSubsequence(seen + {u}, page[1..]);
        assert ([page[0]] + Dedup(seen + {u}, page[1..]))[1..] == Dedup(seen + {u}, page[1..]);
      }
    }
  }

  /** Processing two blocks of records is processing the first block, then
      the second against the grown set. */
  lemma {:induction false} DedupAppend(seen: set<string>, a: seq<JobRecord>, b: seq<JobRecord>)
    ensures Dedup(seen, a + b) == Dedup(seen, a) + Dedup(seen + Urls(Dedup(seen, a)), b)
    decreases |a|
  {
    if a == [] {
      assert a + b == b;
      assert Urls([]) == {};
      assert seen + {} == seen;
    } else {
      var u := a[0].jobUrl;
      assert (a + b)[0] == a[0];
      assert (a + b)[1..] == a[1..] + b;
      if u in seen {
        DedupAppend(seen, a[1..], b);
      } else {
        DedupAppend(seen + {u}, a[1..], b);
        var rest := Dedup(seen + {u}, a[1..]);
        UrlsAppend([a[0]], rest);
        assert Urls([a[0]]) == {u};
        assert seen + Urls([a[0]] + rest) == seen + {u} + Urls(rest);
      }
    }
  }

  /** One step of the accumulate loop: the next record is appended, and its
      url added, exactly when its url is not yet known. */
  lemma DedupSnoc(seen: set<string>, prefix: seq<JobRecord>, job: JobRecord)
    ensures var before := Dedup(seen, prefix);
      if job.jobUrl in seen + Urls(before) then
        Dedup(seen, prefix + [job]) == before
      else
        && Dedup(seen, prefix + [job]) == before + [job]
        && seen + Urls(before + [job]) == seen + Urls(before) + {job.jobUrl}
  {
    var before := Dedup(seen, prefix);
    DedupAppend(seen, prefix, [job]);
    assert [job][1..] == [];
    UrlsAppend(before, [job]);
    assert Urls([job]) == {job.jobUrl};
  }

  /** A page all of whose urls are known appends nothing. */
  lemma {:induction false} DedupKnown(seen: set<string>, page: seq<JobRecord>)
    requires Urls(page) <= seen
    ensures Dedup(seen, page) == []
  {
    DedupUrls(seen, page);
    UrlsEmpty(Dedup(seen, page));
  }

  /** Idempotence: processing the same page again, after the urls it added,
      appends nothing. */
  lemma DedupIdempotent(seen: set<string>, page: seq<JobRecord>)
    ensures Dedup(seen + Urls(Dedup(seen, page)), page) == []
  {
    DedupUrls(seen, page);
    DedupKnown(seen + Urls(Dedup(seen, page)), page);
  }

  /** A page whose records are one list repeated k >= 1 times (as the
      extractor produces for a table with k children) appends exactly what
      one copy appends. */
  lemma {:induction false} DedupRepeated(seen: set<string>, s: seq<JobRecord>, k: nat)
    requires k >= 1
    ensures Dedup(seen, Power(s, k)) == Dedup(seen, s)
  {
    if k == 1 {
      assert Power(s, 1) == [] + s == s;
    } else {
      DedupRepeated(seen, s, k - 1);
      DedupAppend(seen, Power(s, k - 1), s);
      DedupIdempotent(seen, s);
      assert Dedup(seen, s) + [] == Dedup(seen, s);
    }
  }

  // ---------------------------------------------------------------------
  // Seeding

  /** Each row of the seeding query has at least its `job_url` column. */
  predicate WellFormedRows(rows: seq<seq<string>>)
  {
    forall row :: row in rows ==> |row| >= 1
  }

  function FirstColumn(rows: seq<seq<string>>): set<string>
    requires WellFormedRows(rows)
  {
    set row | row in rows :: row[0]
  }

  /** The set after seeding from the query answer `fetched` (`None` when the
      query failed): replaced by the first column when there is at least one
      row, left as it was otherwise. */
  function Seeded(current: set<string>, fetched: Option<seq<seq<string>>>): (s: set<string>)
    requires fetched.Some? ==> WellFormedRows(fetched.value)
    ensures fetched.Some? && |fetched.value| > 0 ==>
      forall u :: u in s <==> exists row :: row in fetched.value && row[0] == u
    ensures fetched.None? || |fetched.value| == 0 ==> s == current
  {
    if fetched.Some? && |fetched.value| > 0 then FirstColumn(fetched.value) else current
  }

  // ---------------------------------------------------------------------
  // One page

  /** What `scrape_jobs` gives back: the whole accumulated job list, `None`,
      or the fault raised by the extractor. */
  datatype PageResult = Returned(jobs: seq<JobRecord>) | ReturnedNone | Raised(error: ExtractError)

  datatype ScrapeState = ScrapeState(result: PageResult, seen: set<string>, jobs: seq<JobRecord>)

  /** The effect of `scrape_jobs` on the known urls and the job list, given
      what extraction produced (`None` when the page was not retrieved). */
  function ScrapeStep(seen: set<string>, jobs: seq<JobRecord>, extracted: Option<Result<seq<JobRecord>, ExtractError>>): ScrapeState
  {
    match extracted
    case None => ScrapeState(ReturnedNone, seen, jobs)
    case Some(Err(e)) => ScrapeState(Raised(e), seen, jobs)
    case Some(Ok(details)) =>
      if details == [] then ScrapeState(ReturnedNone, seen, jobs)
      else ScrapeState(Returned(jobs + Dedup(seen, details)), seen + Urls(Dedup(seen, details)), jobs + Dedup(seen, details))
  }

  /** What extraction produces for a fetched page, if any. */
  function ExtractPage(page: Option<Document>, baseUrl: string, urlJoin: (string, string) -> string): Option<Result<seq<JobRecord>, ExtractError>>
  {
    match page
    case None => None
    case Some(doc) => Some(Extract(doc, baseUrl, urlJoin))
  }

  /** Without a page, without records or with a fault, nothing changes;
      otherwise the whole accumulated list is returned. */
  lemma ScrapeStepOutcome(seen: set<string>, jobs: seq<JobRecord>, extracted: Option<Result<seq<JobRecord>, ExtractError>>)
    ensures var st := ScrapeStep(seen, jobs, extracted);
      && (st.result.Returned? <==> extracted.Some? && extracted.value.Ok? && extracted.value.value != [])
      && (st.result.Returned? ==> st.result.jobs == st.jobs)
      && (!st.result.Returned? ==> st.seen == seen && st.jobs == jobs)
      && (extracted.None? || (extracted.value.Ok? && extracted.value.value == []) ==> st.result == ReturnedNone)
      && (extracted.Some? && extracted.value.Err? ==> st.result == Raised(extracted.value.error))
  {
  }

  /** The job list is only extended, the set only grows, and it grows by
      exactly the urls of the appended records; every appended record was
      unknown before and they are pairwise distinct and in page order. */
  lemma ScrapeStepGrowth(seen: set<string>, jobs: seq<JobRecord>, extracted: Option<Result<seq<JobRecord>, ExtractError>>)
    ensures var st := ScrapeStep(seen, jobs, extracted);
      var added := st.jobs[|jobs|..];
      && |jobs| <= |st.jobs| && st.jobs[..|jobs|] == jobs
      && seen <= st.seen
      && st.seen == seen + Urls(added)
      && (forall r :: r in added ==> r.jobUrl !in seen)
      && DistinctUrls(added)
      && (extracted.Some? && extracted.value.Ok? ==> IsSubsequence(added, extracted.value.value))
  {
    var st := ScrapeStep(seen, jobs, extracted);
    if extracted.Some? && extracted.value.Ok? && extracted.value.value != [] {
      var details := extracted.value.value;
      assert st.jobs[|jobs|..] == Dedup(seen, details);
      DedupFresh(seen, details);
      DedupDistinct(seen, details);
      DedupSubsequence(seen, details);
    } else {
      assert st.jobs[|jobs|..] == [];
      assert Urls([]) == {};
      if extracted.Some? && extracted.value.Ok? {
        assert IsSubsequence([], extracted.value.value) by {
          SubsequenceEmpty(extracted.value.value);
        }
      }
    }
  }

  lemma {:induction false} SubsequenceEmpty<T>(ys: seq<T>)
    ensures IsSubsequence([], ys)
    decreases |ys|
  {
    if ys != [] {
      SubsequenceEmpty(ys[1..]);
    }
  }

  /** The scraper's invariant: the accumulated jobs have distinct urls, all
      of them known. */
  predicate Accumulated(seen: set<string>, jobs: seq<JobRecord>)
  {
    DistinctUrls(jobs) && Urls(jobs) <= seen
  }

  /** `scrape_jobs` keeps the invariant: no url is ever accepted twice,
      across calls. */
  lemma ScrapeStepKeepsAccumulated(seen: set<string>, jobs: seq<JobRecord>, extracted: Option<Result<seq<JobRecord>, ExtractError>>)
    requires Accumulated(seen, jobs)
    ensures var st := ScrapeStep(seen, jobs, extracted); Accumulated(st.seen, st.jobs)
  {
    var st := ScrapeStep(seen, jobs, extracted);
    if st.jobs != jobs {
      var added := st.jobs[|jobs|..];
      ScrapeStepGrowth(seen, jobs, extracted);
      assert st.jobs == jobs + added;
      UrlsAppend(jobs, added);
      forall i, j | 0 <= i < j < |st.jobs| ensures st.jobs[i].jobUrl != st.jobs[j].jobUrl {
        if j >= |jobs| {
          assert st.jobs[j] == added[j - |jobs|];
          if i < |jobs| {
            assert st.jobs[i].jobUrl in Urls(jobs);
            assert added[j - |jobs|] in added;
          }
        }
      }
    }
  }

  /** End to end for one page: starting from an empty job list, the jobs
      accumulated from a listing table are the deduplicated records of its
      qualifying rows; repeating the scan once per child of the table adds
      nothing. */
  lemma FirstPageJobs(seed: set<string>, doc: Document, baseUrl: string, urlJoin: (string, string) -> string)
    requires doc.listing.Some? && doc.listing.value.children > 0 && !HasShortRow(doc.listing.value.rows)
    ensures var rows := RowRecords(doc.listing.value.rows, baseUrl, urlJoin);
      ScrapeStep(seed, [], Some(Extract(doc, baseUrl, urlJoin))).jobs == Dedup(seed, rows)
  {
    var rows := RowRecords(doc.listing.value.rows, baseUrl, urlJoin);
    ExtractMeaning(doc, baseUrl, urlJoin);
    DedupRepeated(seed, rows, doc.listing.value.children);
    if Power(rows, doc.listing.value.children) == [] {
      assert Dedup(seed, []) == [];
    }
  }

  /** Idempotence of a crawl: a second run whose seed already holds the
      urls known after a first run over the same page accumulates nothing. */
  lemma RerunAddsNothing(seed: set<string>, seed2: set<string>, extracted: Option<Result<seq<JobRecord>, ExtractError>>)
    requires ScrapeStep(seed, [], extracted).seen <= seed2
    ensures ScrapeStep(seed2, [], extracted).jobs == []
  {
    if extracted.Some? && extracted.value.Ok? && extracted.value.value != [] {
      var details := extracted.value.value;
      DedupUrls(seed, details);
      DedupKnown(seed2, details);
    }
  }

  // ---------------------------------------------------------------------
  // Issuing the inserts

  datatype Drained = Drained(issued: seq<JobRecord>, completed: bool)

  /** The inserts issued by the nested loop over the page results: page by
      page, record by record; iterating over a `None` result faults, and
      nothing after it is inserted. */
  function Drain(pages: seq<Option<seq<JobRecord>>>): Drained
    decreases |pages|
  {
    if pages == [] then Drained([], true)
    else
      var before := Drain(pages[..|pages| - 1]);
      if !before.completed then before
      else match pages[|pages| - 1]
        case None => Drained(before.issued, false)
        case Some(jobs) => Drained(before.issued + jobs, true)
  }

  /** The records of all pages, page after page. */
  function Flatten(pages: seq<seq<JobRecord>>): seq<JobRecord>
    decreases |pages|
  {
    if pages == [] then [] else Flatten(pages[..|pages| - 1]) + pages[|pages| - 1]
  }

  /** Every page result as a list. */
  function Present(pages: seq<seq<JobRecord>>): seq<Option<seq<JobRecord>>>
  {
    seq(|pages|, i requires 0 <= i < |pages| => Some(pages[i]))
  }

  lemma {:induction false} FlattenAppend(a: seq<seq<JobRecord>>, b: seq<seq<JobRecord>>)
    ensures Flatten(a + b) == Flatten(a) + Flatten(b)
    decreases |b|
  {
    if b == [] {
      assert a + b == a;
    } else {
      var n := |b| - 1;
      assert (a + b)[..|a + b| - 1] == a + b[..n];
      assert (a + b)[|a + b| - 1] == b[n];
      FlattenAppend(a, b[..n]);
      calc {
        Flatten(a + b);
        Flatten(a + b[..n]) + b[n];
        Flatten(a) + Flatten(b[..n]) + b[n];
        Flatten(a) + (Flatten(b[..n]) + b[n]);
      }
    }
  }

  /** When every page result is a list, the loop completes and issues the
      records of all pages, page after page. */
  lemma {:induction false} DrainPresent(pages: seq<seq<JobRecord>>)
    ensures Drain(Present(pages)) == Drained(Flatten(pages), true)
    decreases |pages|
  {
    if pages != [] {
      var n := |pages| - 1;
      assert Present(pages)[..n] == Present(pages[..n]);
      DrainPresent(pages[..n]);
    }
  }

  /** Page-then-record order: with every page result a list, page p's
      records are inserted one each, as the contiguous block that follows
      the records of pages 0 to p - 1. */
  lemma DrainOrder(pages: seq<seq<JobRecord>>, p: nat)
    requires p < |pages|
    ensures var start := |Flatten(pages[..p])|;
      var issued := Drain(Present(pages)).issued;
      && start + |pages[p]| <= |issued|
      && issued[start..start + |pages[p]|] == pages[p]
  {
    DrainPresent(pages);
    assert pages == pages[..p + 1] + pages[p + 1..];
    FlattenAppend(pages[..p + 1], pages[p + 1..]);
    assert pages[..p + 1][..p] == pages[..p];
  }

  /** A faulting page result stops the loop for good. */
  lemma {:induction false} DrainStops(pages: seq<Option<seq<JobRecord>>>, n: nat)
    requires n <= |pages| && !Drain(pages[..n]).completed
    ensures Drain(pages) == Drain(pages[..n])
    decreases |pages| - n
  {
    if n < |pages| {
      assert pages[..|pages| - 1][..n] == pages[..n];
      DrainStops(pages[..|pages| - 1], n);
    } else {
      assert pages[..n] == pages;
    }
  }

  /** How `run` ends. */
  datatype RunOutcome =
    | AllInserted                      // every record of every page result was inserted
    | PageFault(error: ExtractError)   // raised by `scrape_jobs`, before any insert
    | NoneNotIterable                  // `scrape_jobs` returned `None`

  // ---------------------------------------------------------------------
  // The scraper object

  class JobScraper {
    const scraper: WebScraper
    var uniqueJobUrls: set<string>
    var jobs: seq<JobRecord>
    /** The inserts issued so far, in order; each stands for one INSERT
        statement of all five fields into the `jobs` table. */
    var inserted: seq<JobRecord>

    ghost predicate Valid()
      reads this
    {
      Accumulated(uniqueJobUrls, jobs)
    }

    constructor (baseUrl: string, urlJoin: (string, string) -> string)
      ensures Valid()
      ensures scraper.baseUrl == baseUrl && scraper.urlJoin == urlJoin
      ensures uniqueJobUrls == {} && jobs == [] && inserted == []
    {
      scraper := new WebScraper(baseUrl, urlJoin);
      uniqueJobUrls := {};
      jobs := [];
      inserted := [];
    }

    /** Seeds the known urls from the answer of `SELECT job_url FROM jobs`. */
    method LoadExistingJobUrls(fetched: Option<seq<seq<string>>>)
      requires fetched.Some? ==> WellFormedRows(fetched.value)
      modifies this`uniqueJobUrls
      ensures uniqueJobUrls == Seeded(old(uniqueJobUrls), fetched)
    {
      if fetched.Some? && |fetched.value| > 0 {
        uniqueJobUrls := FirstColumn(fetched.value);
      }
    }

    /** One insert statement for `job`; its failure is caught and logged. */
    method InsertJob(job: JobRecord)
      modifies this`inserted
      ensures inserted == old(inserted) + [job]
    {
      inserted := inserted + [job];
    }

    /** Scrapes one page: `page` is what the fetcher returned (`None` when it
        failed). New records are appended to `jobs` in page order and their
        urls added to `uniqueJobUrls`; records with a known url are skipped. */
    method ScrapeJobs(page: Option<Document>) returns (result: PageResult)
      modifies this`uniqueJobUrls, this`jobs
      ensures old(Valid()) ==> Valid()
      ensures ScrapeState(result, uniqueJobUrls, jobs)
        == ScrapeStep(old(uniqueJobUrls), old(jobs), ExtractPage(page, scraper.baseUrl, scraper.urlJoin))
    {
      if Valid() {
        ScrapeStepKeepsAccumulated(uniqueJobUrls, jobs, ExtractPage(page, scraper.baseUrl, scraper.urlJoin));
      }
      if page.None? {
        return ReturnedNone;
      }
      var extracted := scraper.ExtractJobDetails(page.value);
      if extracted.Err? {
        return Raised(extracted.error);
      }
      var jobDetails := extracted.value;
      if jobDetails == [] {
        return ReturnedNone;
      }
      ghost var seen0, jobs0 := uniqueJobUrls, jobs;
      var i := 0;
      while i < |jobDetails|
        invariant 0 <= i <= |jobDetails|
        invariant jobs == jobs0 + Dedup(seen0, jobDetails[..i])
        invariant uniqueJobUrls == seen0 + Urls(Dedup(seen0, jobDetails[..i]))
      {
        var job := jobDetails[i];
        assert jobDetails[..i + 1] == jobDetails[..i] + [job];
        DedupSnoc(seen0, jobDetails[..i], job);
        if job.jobUrl in uniqueJobUrls {
          i := i + 1;
          continue;
        }
        uniqueJobUrls := uniqueJobUrls + {job.jobUrl};
        jobs := jobs + [job];
        i := i + 1;
      }
      assert jobDetails[..|jobDetails|] == jobDetails;
      return Returned(jobs);
    }

    /** The nested loop of `run` over the gathered page results: one insert
        per record, page by page; a `None` result faults. */
    method InsertPages(allJobs: seq<Option<seq<JobRecord>>>) returns (completed: bool)
      modifies this`inserted
      ensures inserted == old(inserted) + Drain(allJobs).issued
      ensures completed == Drain(allJobs).completed
    {
      var p := 0;
      while p < |allJobs|
        invariant 0 <= p <= |allJobs|
        invariant Drain(allJobs[..p]).completed
        invariant inserted == old(inserted) + Drain(allJobs[..p]).issued
      {
        assert allJobs[..p + 1][..p] == allJobs[..p];
        var eachPageJob := allJobs[p];
        if eachPageJob.None? {
          DrainStops(allJobs, p + 1);
          return false;
        }
        var pageJobs := eachPageJob.value;
        ghost var before := inserted;
        var j := 0;
        while j < |pageJobs|
          invariant 0 <= j <= |pageJobs|
          invariant inserted == before + pageJobs[..j]
        {
          InsertJob(pageJobs[j]);
          assert pageJobs[..j + 1] == pageJobs[..j] + [pageJobs[j]];
          j := j + 1;
        }
        assert pageJobs[..j] == pageJobs;
        p := p + 1;
      }
      assert allJobs[..p] == allJobs;
      return true;
    }

    /** The crawl: seed, scrape page 1 (the only page of `range(1, 2)`), then
        insert every record of every page result. `existing` is the answer of
        the seeding query, `page1` what the fetcher returned for page 1. */
    method Run(existing: Option<seq<seq<string>>>, page1: Option<Document>) returns (outcome: RunOutcome)
      requires existing.Some? ==> WellFormedRows(existing.value)
      modifies this`uniqueJobUrls, this`jobs, this`inserted
      ensures var seed := Seeded(old(uniqueJobUrls), existing);
        var st := ScrapeStep(seed, old(jobs), ExtractPage(page1, scraper.baseUrl, scraper.urlJoin));
        && uniqueJobUrls == st.seen && jobs == st.jobs
        && match st.result
           case Raised(e) => outcome == PageFault(e) && inserted == old(inserted)
           case ReturnedNone => outcome == NoneNotIterable && inserted == old(inserted)
           case Returned(all) => outcome == AllInserted && inserted == old(inserted) + all
    {
      LoadExistingJobUrls(existing);
      var result := ScrapeJobs(page1);
      if result.Raised? {
        return PageFault(result.error);
      }
      var allJobs := [if result.Returned? then Some(result.jobs) else None];
      assert allJobs[..0] == [];
      var completed := InsertPages(allJobs);
      outcome := if completed then AllInserted else NoneNotIterable;
      if result.Returned? {
        assert result.jobs + [] == result.jobs;
      }
    }
  }
}
