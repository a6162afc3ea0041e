/** The listing-table extractor of the scraper (`WebScraper` in
    web_scraping.py). The parsed page is given as abstract data: the document
    either has the listing table or not; the table has a number of direct
    children and a sequence of rows; a row is the sequence of its `td` cells;
    a cell is its (already stripped) text and the `<a>` tag it may contain.
    Resolving a relative link against the site's base url is a function the
    scraper is given and about which nothing is assumed. */
module WebScraping {
  import opened Records

  /** The first `<a>` tag of a cell, if any, and its `href` attribute, if any. */
  datatype Link = NoAnchor | Anchor(href: Option<string>)

  datatype Cell = Cell(text: string, link: Link)

  type Row = seq<Cell>

  /** `children` is the number of direct children of the table element;
      `rows` are all `tr` elements found inside it, in document order. */
  datatype Table = Table(children: nat, rows: seq<Row>)

  /** A parsed page; `listing` is the table with id `temp_table`, if present. */
  datatype Document = Document(listing: Option<Table>)

  /** `TableNotFound`: iterating over the missing table faults.
      `CellMissing`: a row passed the two-cell guard but has no cell 3, 4 or 5. */
  datatype ExtractError = TableNotFound | CellMissing

  function Href(cell: Cell): Option<string>
  {
    match cell.link
    case NoAnchor => None
    case Anchor(h) => h
  }

  /** The guard on the cell count of a row. */
  predicate PassesGuard(row: Row)
  {
    |row| >= 2
  }

  /** A row that passes the guard and then faults on a fixed offset. */
  predicate IsShort(row: Row)
  {
    PassesGuard(row) && |row| < 6
  }

  /** A row that yields a record: all offsets exist and cell 1 links somewhere. */
  predicate Qualifies(row: Row)
  {
    |row| >= 6 && Href(row[1]).Some?
  }

  predicate HasShortRow(rows: seq<Row>)
  {
    exists i :: 0 <= i < |rows| && IsShort(rows[i])
  }

  /** The record read from a qualifying row at the fixed column offsets. */
  function RecordOf(row: Row, baseUrl: string, urlJoin: (string, string) -> string): JobRecord
    requires Qualifies(row)
  {
    JobRecord(
      vacancyName := row[1].text,
      companyName := row[3].text,
      published := row[4].text,
      deadline := row[5].text,
      jobUrl := urlJoin(baseUrl, Href(row[1]).value))
  }

  /** What the body of the inner loop does with one row. */
  function RowStep(row: Row, baseUrl: string, urlJoin: (string, string) -> string): Result<seq<JobRecord>, ExtractError>
  {
    if !PassesGuard(row) then Ok([])
    else if |row| < 6 then Err(CellMissing)
    else if Href(row[1]).None? then Ok([])
    else Ok([RecordOf(row, baseUrl, urlJoin)])
  }

  /** One pass of the inner loop over all rows, step by step. */
  function Scan(rows: seq<Row>, baseUrl: string, urlJoin: (string, string) -> string): Result<seq<JobRecord>, ExtractError>
    decreases |rows|
  {
    if rows == [] then Ok([])
    else Then(Scan(rows[..|rows| - 1], baseUrl, urlJoin), RowStep(rows[|rows| - 1], baseUrl, urlJoin))
  }

  /** The outer loop: the inner pass is run once per child of the table. */
  function Repeat(pass: Result<seq<JobRecord>, ExtractError>, k: nat): Result<seq<JobRecord>, ExtractError>
  {
    if k == 0 then Ok([]) else Then(Repeat(pass, k - 1), pass)
  }

  /** The whole extraction, as the nested loops compute it. */
  function Extract(doc: Document, baseUrl: string, urlJoin: (string, string) -> string): Result<seq<JobRecord>, ExtractError>
  {
    match doc.listing
    case None => Err(TableNotFound)
    case Some(table) => Repeat(Scan(table.rows, baseUrl, urlJoin), table.children)
  }

  /** Reference definition: the records of the qualifying rows, in row order. */
  function RowRecords(rows: seq<Row>, baseUrl: string, urlJoin: (string, string) -> string): seq<JobRecord>
    decreases |rows|
  {
    if rows == [] then []
    else
      var head := if Qualifies(rows[0]) then [RecordOf(rows[0], baseUrl, urlJoin)] else [];
      head + RowRecords(rows[1..], baseUrl, urlJoin)
  }

  lemma {:induction false} RecordsAppend(a: seq<Row>, b: seq<Row>, baseUrl: string, urlJoin: (string, string) -> string)
    ensures RowRecords(a + b, baseUrl, urlJoin) == RowRecords(a, baseUrl, urlJoin) + RowRecords(b, baseUrl, urlJoin)
    decreases |a|
  {
    if a == [] {
      assert a + b == b;
    } else {
      var head := if Qualifies(a[0]) then [RecordOf(a[0], baseUrl, urlJoin)] else [];
      assert (a + b)[0] == a[0];
      assert (a + b)[1..] == a[1..] + b;
      RecordsAppend(a[1..], b, baseUrl, urlJoin);
      calc {
        RowRecords(a + b, baseUrl, urlJoin);
        head + RowRecords(a[1..] + b, baseUrl, urlJoin);
        head + (RowRecords(a[1..], baseUrl, urlJoin) + RowRecords(b, baseUrl, urlJoin));
        (head + RowRecords(a[1..], baseUrl, urlJoin)) + RowRecords(b, baseUrl, urlJoin);
      }
    }
  }

  lemma HasShortRowSnoc(init: seq<Row>, last: Row)
    ensures HasShortRow(init + [last]) <==> HasShortRow(init) || IsShort(last)
  {
    var rows := init + [last];
    if HasShortRow(rows) && !IsShort(last) {
      var i :| 0 <= i < |rows| && IsShort(rows[i]);
      if i < |init| {
        assert rows[i] == init[i];
      }
    }
    if HasShortRow(init) {
      var i :| 0 <= i < |init| && IsShort(init[i]);
      assert IsShort(rows[i]);
    }
    if IsShort(last) {
      assert IsShort(rows[|rows| - 1]);
    }
  }

  lemma RowStepMeaning(row: Row, baseUrl: string, urlJoin: (string, string) -> string)
    ensures RowStep(row, baseUrl, urlJoin)
      == if IsShort(row) then Err(CellMissing) else Ok(RowRecords([row], baseUrl, urlJoin))
  {
    assert [row][1..] == [];
    assert RowRecords([row], baseUrl, urlJoin)
      == if Qualifies(row) then [RecordOf(row, baseUrl, urlJoin)] else [];
  }

  /** One pass either faults, exactly when some row passes the guard with
      fewer than six cells, or yields the records of the qualifying rows. */
  lemma {:induction false} ScanMeaning(rows: seq<Row>, baseUrl: string, urlJoin: (string, string) -> string)
    ensures Scan(rows, baseUrl, urlJoin)
      == if HasShortRow(rows) then Err(CellMissing) else Ok(RowRecords(rows, baseUrl, urlJoin))
    decreases |rows|
  {
    if rows != [] {
      var init, last := rows[..|rows| - 1], rows[|rows| - 1];
      assert rows == init + [last];
      ScanMeaning(init, baseUrl, urlJoin);
      RecordsAppend(init, [last], baseUrl, urlJoin);
      HasShortRowSnoc(init, last);
      RowStepMeaning(last, baseUrl, urlJoin);
      assert Scan(rows, baseUrl, urlJoin)
        == Then(Scan(init, baseUrl, urlJoin), RowStep(last, baseUrl, urlJoin));
    }
  }

  /** Order preservation: scanning two blocks of rows is scanning the first
      block, then the second. */
  lemma ScanAppend(a: seq<Row>, b: seq<Row>, baseUrl: string, urlJoin: (string, string) -> string)
    ensures Scan(a + b, baseUrl, urlJoin) == Then(Scan(a, baseUrl, urlJoin), Scan(b, baseUrl, urlJoin))
  {
    ScanMeaning(a + b, baseUrl, urlJoin);
    ScanMeaning(a, baseUrl, urlJoin);
    ScanMeaning(b, baseUrl, urlJoin);
    RecordsAppend(a, b, baseUrl, urlJoin);
    if HasShortRow(a + b) {
      var i :| 0 <= i < |a + b| && IsShort((a + b)[i]);
      if i < |a| {
        assert IsShort(a[i]);
      } else {
        assert IsShort(b[i - |a|]);
      }
    }
    if HasShortRow(a) {
      var i :| 0 <= i < |a| && IsShort(a[i]);
      assert IsShort((a + b)[i]);
    }
    if HasShortRow(b) {
      var i :| 0 <= i < |b| && IsShort(b[i]);
      assert IsShort((a + b)[|a| + i]);
    }
  }

  /** A row with fewer than two cells, or with six or more cells whose cell 1
      has no anchor or an anchor without `href`, contributes nothing. */
  lemma SkippedRow(a: seq<Row>, row: Row, b: seq<Row>, baseUrl: string, urlJoin: (string, string) -> string)
    requires !PassesGuard(row) || (|row| >= 6 && Href(row[1]).None?)
    ensures Scan(a + [row] + b, baseUrl, urlJoin) == Scan(a + b, baseUrl, urlJoin)
  {
    ScanAppend(a + [row], b, baseUrl, urlJoin);
    ScanAppend(a, [row], baseUrl, urlJoin);
    ScanAppend(a, b, baseUrl, urlJoin);
    assert [row][..0] == [];
    assert RowStep(row, baseUrl, urlJoin) == Ok([]);
    assert Scan([row], baseUrl, urlJoin) == Then(Scan([], baseUrl, urlJoin), Ok([]));
    if Scan(a, baseUrl, urlJoin).Ok? {
      assert Scan(a, baseUrl, urlJoin).value + [] == Scan(a, baseUrl, urlJoin).value;
    }
  }

  /** Every extracted record is read from one qualifying row, at the fixed
      offsets (see `RecordOf`). */
  lemma {:induction false} RecordsFromRows(rows: seq<Row>, j: nat, baseUrl: string, urlJoin: (string, string) -> string)
    requires j < |RowRecords(rows, baseUrl, urlJoin)|
    ensures exists i ::
      && 0 <= i < |rows|
      && Qualifies(rows[i])
      && RowRecords(rows, baseUrl, urlJoin)[j] == RecordOf(rows[i], baseUrl, urlJoin)
    decreases |rows|
  {
    var head := if Qualifies(rows[0]) then [RecordOf(rows[0], baseUrl, urlJoin)] else [];
    if j < |head| {
      assert RowRecords(rows, baseUrl, urlJoin)[j] == RecordOf(rows[0], baseUrl, urlJoin);
    } else {
      RecordsFromRows(rows[1..], j - |head|, baseUrl, urlJoin);
      var i :| 0 <= i < |rows[1..]| && Qualifies(rows[1..][i])
        && RowRecords(rows[1..], baseUrl, urlJoin)[j - |head|] == RecordOf(rows[1..][i], baseUrl, urlJoin);
      assert rows[1..][i] == rows[i + 1];
    }
  }

  /** One pass yields at most one record per row, and none exactly when no
      row qualifies. */
  lemma {:induction false} RecordsLength(rows: seq<Row>, baseUrl: string, urlJoin: (string, string) -> string)
    ensures |RowRecords(rows, baseUrl, urlJoin)| <= |rows|
    ensures |RowRecords(rows, baseUrl, urlJoin)| == 0 <==> forall i :: 0 <= i < |rows| ==> !Qualifies(rows[i])
    decreases |rows|
  {
    if rows != [] {
      RecordsLength(rows[1..], baseUrl, urlJoin);
      if forall i :: 0 <= i < |rows[1..]| ==> !Qualifies(rows[1..][i]) {
        forall i | 0 <= i < |rows| && i > 0 ensures !Qualifies(rows[i]) {
          assert rows[i] == rows[1..][i - 1];
        }
      } else {
        var i :| 0 <= i < |rows[1..]| && Qualifies(rows[1..][i]);
        assert Qualifies(rows[i + 1]);
      }
    }
  }

  lemma {:induction false} RepeatOk(s: seq<JobRecord>, k: nat)
    ensures Repeat(Ok(s), k) == Ok(Power(s, k))
  {
    if k > 0 {
      RepeatOk(s, k - 1);
    }
  }

  lemma {:induction false} RepeatErr(e: ExtractError, k: nat)
    requires k > 0
    ensures Repeat(Err(e), k) == Err(e)
  {
    if k > 1 {
      RepeatErr(e, k - 1);
    }
  }

  /** The extractor's whole behaviour: a missing table faults; when the
      table has at least one child, any row with two to five cells faults;
      otherwise the output is the records of the qualifying rows, in row
      order, repeated once per child of the table. */
  lemma ExtractMeaning(doc: Document, baseUrl: string, urlJoin: (string, string) -> string)
    ensures Extract(doc, baseUrl, urlJoin) ==
      if doc.listing.None? then Err(TableNotFound)
      else if doc.listing.value.children > 0 && HasShortRow(doc.listing.value.rows) then Err(CellMissing)
      else Ok(Power(RowRecords(doc.listing.value.rows, baseUrl, urlJoin), doc.listing.value.children))
  {
    if doc.listing.Some? {
      var table := doc.listing.value;
      ScanMeaning(table.rows, baseUrl, urlJoin);
      if HasShortRow(table.rows) {
        if table.children > 0 {
          RepeatErr(CellMissing, table.children);
        }
      } else {
        RepeatOk(RowRecords(table.rows, baseUrl, urlJoin), table.children);
      }
    }
  }

  /** At most (children x rows) records come out, and none when no row
      qualifies. */
  lemma ExtractBound(doc: Document, baseUrl: string, urlJoin: (string, string) -> string)
    requires doc.listing.Some? && Extract(doc, baseUrl, urlJoin).Ok?
    ensures |Extract(doc, baseUrl, urlJoin).value| <= doc.listing.value.children * |doc.listing.value.rows|
    ensures (forall i :: 0 <= i < |doc.listing.value.rows| ==> !Qualifies(doc.listing.value.rows[i]))
      ==> Extract(doc, baseUrl, urlJoin).value == []
  {
    var table := doc.listing.value;
    var one := RowRecords(table.rows, baseUrl, urlJoin);
    ExtractMeaning(doc, baseUrl, urlJoin);
    RecordsLength(table.rows, baseUrl, urlJoin);
    PowerLength(one, table.children);
    assert table.children * |one| <= table.children * |table.rows| by {
      MulMonotone(table.children, |one|, |table.rows|);
    }
  }

  lemma MulMonotone(k: nat, a: nat, b: nat)
    requires a <= b
    ensures k * a <= k * b
  {
  }

  /** The extractor of one scraper: the site's base url and the url-joining
      function are fixed when it is built. */
  class WebScraper {
    const baseUrl: string
    const urlJoin: (string, string) -> string

    constructor (baseUrl: string, urlJoin: (string, string) -> string)
      ensures this.baseUrl == baseUrl && this.urlJoin == urlJoin
    {
      this.baseUrl := baseUrl;
      this.urlJoin := urlJoin;
    }

    /** Walks the table's children and, for each, every row of the table,
        appending one record per qualifying row; faults as described by
        `ExtractMeaning`. */
    method ExtractJobDetails(soup: Document) returns (r: Result<seq<JobRecord>, ExtractError>)
      ensures r == Extract(soup, baseUrl, urlJoin)
    {
      var jobDetails: seq<JobRecord> := [];
      if soup.listing.None? {
        return Err(TableNotFound);
      }
      var table := soup.listing.value;
      var rows := table.rows;
      ghost var pass := Scan(rows, baseUrl, urlJoin);
      var c := 0;
      while c < table.children
        invariant 0 <= c <= table.children
        invariant Repeat(pass, c) == Ok(jobDetails)
      {
        ghost var before := jobDetails;
        var i := 0;
        while i < |rows|
          invariant 0 <= i <= |rows|
          invariant Scan(rows[..i], baseUrl, urlJoin).Ok?
          invariant jobDetails == before + Scan(rows[..i], baseUrl, urlJoin).value
        {
          var tdTags := rows[i];
          assert rows[..i + 1][..i] == rows[..i];
          if |tdTags| >= 2 {
            if |tdTags| < 6 {
              ScanMeaning(rows, baseUrl, urlJoin);
              assert IsShort(rows[i]);
              RepeatErr(CellMissing, table.children);
              return Err(CellMissing);
            }
            var vacancyName := tdTags[1].text;
            var companyName := tdTags[3].text;
            var published := tdTags[4].text;
            var deadline := tdTags[5].text;
            var aTag := tdTags[1].link;
            if aTag.Anchor? && aTag.href.Some? {
              var jobUrl := urlJoin(baseUrl, aTag.href.value);
              jobDetails := jobDetails + [JobRecord(vacancyName, companyName, published, deadline, jobUrl)];
            }
          }
          i := i + 1;
        }
        assert rows[..|rows|] == rows;
        c := c + 1;
      }
      return Ok(jobDetails);
    }
  }
}
