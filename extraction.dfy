/** Turning the rendered job table into records (main.py lines 48-77).
    The HTML parser is not modelled: a page is what the parser found, a
    table with or without a body, whose rows are sequences of `td` cells. */
module Extraction {
  import opened Results
  import opened Text
  import opened Records
  import opened Positions

  /** An `a` element inside a cell, with its `href` attribute if it has one. */
  datatype Anchor = Anchor(href: Option<string>)

  /** A `td` element: its text with surrounding whitespace stripped, and the
      anchors it contains in document order. */
  datatype Cell = Cell(text: string, anchors: seq<Anchor>)

  type Row = seq<Cell>

  /** The table marked `tabindex="0"`, with its `tbody` rows if it has a body. */
  datatype Table = Table(body: Option<seq<Row>>)

  /** Why extraction can fail: without a table and a body, `jobs` is never
      bound and the loop over it raises. */
  datatype ExtractError = JobsUnbound

  const MinCells: nat := 5
  const Keyword: string := "data engineer"

  /** Anchor `i` is the first one carrying an href. */
  ghost predicate FirstWithHref(anchors: seq<Anchor>, i: int)
  {
    0 <= i < |anchors| && anchors[i].href.Some? &&
    forall k :: 0 <= k < i ==> anchors[k].href.None?
  }

  /** `cell.find("a", href=True)["href"]`: the href of the first anchor that
      has one, if any. */
  function FirstHref(anchors: seq<Anchor>): (h: Option<string>)
    ensures h.None? <==> forall i :: 0 <= i < |anchors| ==> anchors[i].href.None?
  {
    if anchors == [] then None
    else if anchors[0].href.Some? then anchors[0].href
    else FirstHref(anchors[1..])
  }

  /** When an href is found, it is that of the first anchor carrying one. */
  lemma {:induction false} FirstHrefIsFirst(anchors: seq<Anchor>)
    requires FirstHref(anchors).Some?
    ensures exists i :: FirstWithHref(anchors, i) && anchors[i].href == FirstHref(anchors)
  {
    if anchors[0].href.Some? {
      assert FirstWithHref(anchors, 0);
    } else {
      FirstHrefIsFirst(anchors[1..]);
      var i :| FirstWithHref(anchors[1..], i) && anchors[1..][i].href == FirstHref(anchors[1..]);
      assert FirstWithHref(anchors, i + 1);
    }
  }

  /** The link of a record: the first href in the cell, or "" without one. */
  function Link(cell: Cell): string
  {
    match FirstHref(cell.anchors)
    case Some(h) => h
    case None => ""
  }

  /** Whether a row becomes a record: at least five cells, and the position
      cell contains `keyword` once lower-cased. The handler always searches
      for `Keyword`; the properties below hold for any keyword. */
  predicate Eligible(row: Row, keyword: string)
  {
    |row| >= MinCells && Contains(Lower(row[1].text), keyword)
  }

  /** The record built from an eligible row. */
  function ToRecord(row: Row): JobRecord
    requires |row| >= MinCells
  {
    JobRecord(JobId(row[0].text, row[1].text, row[4].text),
              row[0].text, row[1].text, row[2].text, Link(row[3]), row[4].text)
  }

  /** The records a sequence of rows yields, in row order. */
  function Extracted(rows: seq<Row>, keyword: string): seq<JobRecord>
  {
    if rows == [] then []
    else
      var last := rows[|rows| - 1];
      Extracted(rows[..|rows| - 1], keyword) + (if Eligible(last, keyword) then [ToRecord(last)] else [])
  }

  /** The loop over the body rows (main.py lines 54-77). */
  method ExtractRows(rows: seq<Row>) returns (jobs: seq<JobRecord>)
    ensures jobs == Extracted(rows, Keyword)
  {
    jobs := [];
    for i := 0 to |rows|
      invariant jobs == Extracted(rows[..i], Keyword)
    {
      assert rows[..i + 1][..i] == rows[..i];
      var cells := rows[i];
      if |cells| >= MinCells {
        var company := cells[0].text;
        var position := cells[1].text;
        if !Contains(Lower(position), Keyword) {
          continue;
        }
        var location := cells[2].text;
        var link := match FirstHref(cells[3].anchors) case Some(h) => h case None => "";
        var date := cells[4].text;
        var jobId := company + "-" + position + "-" + date;
        jobs := jobs + [JobRecord(jobId, company, position, location, link, date)];
      }
    }
    assert rows[..|rows|] == rows;
  }

  /** The rows the handler iterates over, if the table and its body exist. */
  function BodyRows(page: Option<Table>): Option<seq<Row>>
  {
    if page.Some? && page.value.body.Some? then page.value.body else None
  }

  /** Lines 48-77 together: extraction fails exactly when the table or its
      body is missing, and otherwise yields the records of the body rows. */
  method ExtractJobs(page: Option<Table>) returns (r: Result<seq<JobRecord>, ExtractError>)
    ensures r.Failure? <==> BodyRows(page).None?
    ensures r.Success? ==> r.value == Extracted(BodyRows(page).value, Keyword)
  {
    if page.Some? {
      var table := page.value;
      if table.body.Some? {
        var jobs := ExtractRows(table.body.value);
        return Success(jobs);
      }
    }
    return Failure(JobsUnbound);
  }

  /** Extraction distributes over concatenation of row sequences. */
  lemma {:induction false} ExtractedAppend(a: seq<Row>, b: seq<Row>, keyword: string)
    ensures Extracted(a + b, keyword) == Extracted(a, keyword) + Extracted(b, keyword)
    decreases |b|
  {
    if b != [] {
      var init := b[..|b| - 1];
      assert (a + b)[..|a + b| - 1] == a + init;
      ExtractedAppend(a, init, keyword);
    } else {
      assert a + b == a;
    }
  }

  /** A row with fewer than five cells contributes nothing, wherever it
      stands. */
  lemma ShortRowIgnored(before: seq<Row>, row: Row, after: seq<Row>, keyword: string)
    requires |row| < MinCells
    ensures Extracted(before + [row] + after, keyword) == Extracted(before + after, keyword)
  {
    ExtractedAppend(before + [row], after, keyword);
    ExtractedAppend(before, [row], keyword);
    ExtractedAppend(before, after, keyword);
    assert [row][..0] == [];
  }

  /** For each row, whether it is eligible. */
  function EligibleFlags(rows: seq<Row>, keyword: string): seq<bool>
  {
    seq(|rows|, i requires 0 <= i < |rows| => Eligible(rows[i], keyword))
  }

  /** The positions of the eligible rows, in increasing order. */
  function EligibleIndices(rows: seq<Row>, keyword: string): seq<nat>
  {
    TrueIndices(EligibleFlags(rows, keyword))
  }

  /** The positions are increasing, in range, and are exactly those of the
      eligible rows. */
  lemma EligibleIndicesSpec(rows: seq<Row>, keyword: string)
    ensures StrictlyIncreasing(EligibleIndices(rows, keyword))
    ensures forall k :: 0 <= k < |EligibleIndices(rows, keyword)| ==> EligibleIndices(rows, keyword)[k] < |rows|
    ensures forall i :: 0 <= i < |rows| ==> (i in EligibleIndices(rows, keyword) <==> Eligible(rows[i], keyword))
  {
    TrueIndicesSpec(EligibleFlags(rows, keyword));
  }

  /** The eligible positions of a longer row sequence extend those of its
      prefix by at most the last row. */
  lemma EligibleIndicesSnoc(rows: seq<Row>, keyword: string)
    requires rows != []
    ensures EligibleIndices(rows, keyword) ==
      EligibleIndices(rows[..|rows| - 1], keyword) +
      (if Eligible(rows[|rows| - 1], keyword) then [|rows| - 1] else [])
  {
    var n := |rows|;
    assert EligibleFlags(rows, keyword)[..n - 1] == EligibleFlags(rows[..n - 1], keyword);
  }

  /** Record `k` of `jobs` is the record of row `idx[k]` of `rows`. */
  ghost predicate MapsRows(rows: seq<Row>, idx: seq<nat>, jobs: seq<JobRecord>)
  {
    && |jobs| == |idx|
    && forall k :: 0 <= k < |idx| ==>
         idx[k] < |rows| && |rows[idx[k]]| >= MinCells && jobs[k] == ToRecord(rows[idx[k]])
  }

  /** The extracted records are exactly the records of the eligible rows,
      in row order. */
  lemma {:induction false} ExtractedIsMappedSubsequence(rows: seq<Row>, keyword: string)
    ensures MapsRows(rows, EligibleIndices(rows, keyword), Extracted(rows, keyword))
  {
    if rows != [] {
      var n := |rows|;
      var init := rows[..n - 1];
      var before, jobs := EligibleIndices(init, keyword), Extracted(init, keyword);
      ExtractedIsMappedSubsequence(init, keyword);
      EligibleIndicesSnoc(rows, keyword);
      MapsRowsGrow(init, rows, before, jobs);
      if Eligible(rows[n - 1], keyword) {
        MapsRowsSnoc(rows, before, jobs, n - 1);
      }
    }
  }

  /** Adding rows after the mapped ones keeps the mapping. */
  lemma MapsRowsGrow(init: seq<Row>, rows: seq<Row>, idx: seq<nat>, jobs: seq<JobRecord>)
    requires init <= rows
    requires MapsRows(init, idx, jobs)
    ensures MapsRows(rows, idx, jobs)
  {
    forall k | 0 <= k < |idx|
      ensures rows[idx[k]] == init[idx[k]]
    {
    }
  }

  /** Mapping one more row appends its record. */
  lemma MapsRowsSnoc(rows: seq<Row>, idx: seq<nat>, jobs: seq<JobRecord>, i: nat)
    requires MapsRows(rows, idx, jobs)
    requires i < |rows| && |rows[i]| >= MinCells
    ensures MapsRows(rows, idx + [i], jobs + [ToRecord(rows[i])])
  {
  }

  /** Field mapping of the extracted records: cells 0, 1, 2 and 4 of the
      source row give company, position, location and date, cell 3 gives
      the link, and the key joins company, position and date. */
  lemma ExtractedFields(rows: seq<Row>, keyword: string, k: nat)
    requires k < |Extracted(rows, keyword)|
    ensures k < |EligibleIndices(rows, keyword)| && EligibleIndices(rows, keyword)[k] < |rows|
    ensures
      var row := rows[EligibleIndices(rows, keyword)[k]];
      var job := Extracted(rows, keyword)[k];
      && Eligible(row, keyword)
      && job.jobId == JobId(row[0].text, row[1].text, row[4].text)
      && job.company == row[0].text
      && job.position == row[1].text
      && job.location == row[2].text
      && job.link == Link(row[3])
      && job.date == row[4].text
  {
    ExtractedIsMappedSubsequence(rows, keyword);
    EligibleIndicesSpec(rows, keyword);
  }

  /** Every extracted record is keyed by its own company, position and date,
      and its position contains the keyword, case-insensitively. */
  lemma ExtractedRecordsMatch(rows: seq<Row>, keyword: string)
    ensures forall j :: j in Extracted(rows, keyword) ==>
      WellKeyed(j) && Contains(Lower(j.position), keyword)
  {
    forall j | j in Extracted(rows, keyword)
      ensures WellKeyed(j) && Contains(Lower(j.position), keyword)
    {
      var k :| 0 <= k < |Extracted(rows, keyword)| && Extracted(rows, keyword)[k] == j;
      ExtractedFields(rows, keyword, k);
    }
  }

  /** A row with at least five cells yields a record exactly when its
      position contains the keyword in some casing. */
  lemma EligibleIffKeyword(row: Row, keyword: string)
    requires |row| >= MinCells
    ensures Eligible(row, keyword) <==> exists i :: OccursAt(Lower(row[1].text), keyword, i)
  {
    ContainsIffOccurs(Lower(row[1].text), keyword);
  }
}
