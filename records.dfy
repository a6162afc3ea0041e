/** Values shared by the page extractor and the crawl driver: the job record
    that flows from a listing table into the `jobs` table of the database,
    and the small result wrappers used at the boundaries. */
module Records {

  datatype Option<+T> = None | Some(value: T)

  /** A failed step carries its error; a successful one its value. */
  datatype Result<+T, +E> = Ok(value: T) | Err(error: E)

  /** One listing row as it is inserted into the `jobs` table.
      `jobUrl` is the only identity key; the other fields are descriptive text. */
  datatype JobRecord = JobRecord(
    vacancyName: string,
    companyName: string,
    published: string,
    deadline: string,
    jobUrl: string)

  /** The set of `job_url` keys of a sequence of records. */
  function Urls(jobs: seq<JobRecord>): set<string>
  {
    set r | r in jobs :: r.jobUrl
  }

  /** No two records of `jobs` share a `job_url`. */
  predicate DistinctUrls(jobs: seq<JobRecord>)
  {
    forall i, j :: 0 <= i < j < |jobs| ==> jobs[i].jobUrl != jobs[j].jobUrl
  }

  /** Sequential composition of two steps that each produce a list:
      the first failure wins, otherwise the lists are concatenated. */
  function Then<T, E>(first: Result<seq<T>, E>, second: Result<seq<T>, E>): Result<seq<T>, E>
  {
    if first.Err? then first
    else if second.Err? then second
    else Ok(first.value + second.value)
  }

  /** `s` concatenated with itself `k` times. */
  function Power<T>(s: seq<T>, k: nat): seq<T>
  {
    if k == 0 then [] else Power(s, k - 1) + s
  }

  /** `xs` can be obtained from `ys` by deleting elements: the elements of
      `xs` occur in `ys` in the same relative order. */
  ghost predicate IsSubsequence<T>(xs: seq<T>, ys: seq<T>)
    decreases |ys|
  {
    if ys == [] then xs == []
    else
      || (xs != [] && xs[0] == ys[0] && IsSubsequence(xs[1..], ys[1..]))
      || IsSubsequence(xs, ys[1..])
  }

  lemma UrlsAppend(a: seq<JobRecord>, b: seq<JobRecord>)
    ensures Urls(a + b) == Urls(a) + Urls(b)
  {
    forall u ensures u in Urls(a + b) <==> u in Urls(a) + Urls(b) {
      if u in Urls(a + b) {
        var r :| r in a + b && r.jobUrl == u;
      }
      if u in Urls(a) {
        var r :| r in a && r.jobUrl == u;
        assert r in a + b;
      }
      if u in Urls(b) {
        var r :| r in b && r.jobUrl == u;
        assert r in a + b;
      }
    }
  }

  lemma UrlsEmpty(jobs: seq<JobRecord>)
    ensures jobs == [] <==> Urls(jobs) == {}
  {
    if jobs != [] {
      assert jobs[0].jobUrl in Urls(jobs);
    }
  }

  lemma {:induction false} PowerLength<T>(s: seq<T>, k: nat)
    ensures |Power(s, k)| == k * |s|
  {
    if k > 0 {
      PowerLength(s, k - 1);
    }
  }
}
