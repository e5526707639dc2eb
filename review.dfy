/** One run of the duplicate-order review on an uploaded sheet (app.py): find the
    two columns, then either report that they are missing, report that no phone is
    shared, or produce the duplicate report and its summary. */
module Review {
  import opened Wrappers
  import opened Text
  import opened Seqs
  import opened Headers
  import opened Duplicates

  /** Which of the three endings the page reaches, with what it shows: the header
      list joined with ", " when a column is missing; otherwise, when some phone is
      shared, the number of shared phones, the report and the summary. */
  datatype Outcome =
    | ColumnsNotFound(columns: string)
    | NoDuplicates
    | DuplicatesFound(sharedPhones: nat, detail: seq<DetailRow>, summary: seq<SummaryRow>)

  /** The cleaned table after `drop_duplicates()`: no pair twice, and the same pairs
      as before. */
  function WorkingSet(raw: seq<RawPair>): (r: seq<Pair>)
    ensures Distinct(r)
    ensures forall p :: p in r <==> p in Clean(raw)
  {
    Dedup(Clean(raw))
  }

  /** The search for shared phones in the de-duplicated table `ws`. It never ends on
      the missing-columns error, and when it finds shared phones it shows at least
      one of them and at least two report rows. */
  function Search(ws: seq<Pair>): (r: Outcome)
    ensures !r.ColumnsNotFound?
    ensures r.DuplicatesFound? ==> r.sharedPhones >= 1 && |r.detail| >= 2
  {
    if DuplicatedPhones(ws) == {} then NoDuplicates
    else
      ReportSize(ws);
      var detail := Report(ws);
      DuplicatesFound(|DuplicatedPhones(ws)|, detail, Summarize(detail))
  }

  /** Everything after both columns are known: clean, drop repeated pairs, find the
      shared phones, and build the report and the summary. It says "no duplicates"
      exactly when no phone occurs twice among the distinct cleaned pairs. */
  function FindDuplicates(raw: seq<RawPair>): (r: Outcome)
    ensures !r.ColumnsNotFound?
    ensures r.NoDuplicates? <==> forall ph :: PhoneCount(WorkingSet(raw), ph) < 2
  {
    NoDuplicatesExactly(WorkingSet(raw));
    Search(WorkingSet(raw))
  }

  /** The whole review of one sheet, given its headers and its rows. The duplicate
      search is only reached when some header passes the order-code test and some
      header is taken as the phone column. */
  function ReviewSheet(headers: seq<string>, rows: seq<Row>): (r: Outcome)
    ensures !r.ColumnsNotFound? ==>
      (exists j :: 0 <= j < |headers| && IsCodeHeader(headers[j])) &&
      (exists j :: 0 <= j < |headers| && IsPhoneColumn(headers[j]))
  {
    var c := DetectColumns(headers);
    if c.code.None? || c.phone.None? then ColumnsNotFound(Join(headers))
    else FindDuplicates(Project(rows, c.code.value, c.phone.value))
  }

  // ---------------------------------------------------------------------------
  // Which ending is reached
  // ---------------------------------------------------------------------------

  /** The review stops with the full header list exactly when no header passes the
      order-code test, or no header is taken as the phone column; otherwise it runs
      the duplicate search on the two columns found. */
  lemma ColumnsNotFoundExactly(headers: seq<string>, rows: seq<Row>)
    ensures ReviewSheet(headers, rows).ColumnsNotFound? <==>
      (forall j :: 0 <= j < |headers| ==> !IsCodeHeader(headers[j])) ||
      (forall j :: 0 <= j < |headers| ==> !IsPhoneColumn(headers[j]))
  {
    CodeColumnIsLastMatch(headers);
    PhoneColumnIsLastMatch(headers);
  }

  /** The header list shown with the error gives back the headers, as long as no
      header itself holds the ", " separator. */
  lemma ColumnListing(headers: seq<string>, rows: seq<Row>)
    requires |headers| >= 1
    requires forall j :: 0 <= j < |headers| ==> !Contains(headers[j], Sep)
    ensures ReviewSheet(headers, rows).ColumnsNotFound? ==> Split(ReviewSheet(headers, rows).columns) == headers
  {
    SplitJoin(headers);
  }

  /** The page shows "no duplicates" exactly when no phone occurs twice in the
      de-duplicated table. */
  lemma NoDuplicatesExactly(ws: seq<Pair>)
    ensures Search(ws).NoDuplicates? <==> forall ph :: PhoneCount(ws, ph) < 2
  {
    if DuplicatedPhones(ws) != {} {
      var ph :| ph in DuplicatedPhones(ws);
      assert PhoneCount(ws, ph) >= 2;
    }
  }

  /** When some phone is shared, the count of shared phones on the page is the
      number of summary rows, and the count of duplicated codes, the number of report
      rows, is the total of the summary's counts and at least twice the number of
      shared phones. The search never ends on the missing-columns error. */
  lemma DuplicatesFoundCounts(ws: seq<Pair>)
    ensures !Search(ws).ColumnsNotFound?
    ensures Search(ws).DuplicatesFound? ==>
      var o := Search(ws);
      && o.sharedPhones == |o.summary| >= 1
      && |o.detail| == SumCounts(o.summary)
      && |o.detail| >= 2 * o.sharedPhones
  {
    var dup := DuplicatedPhones(ws);
    if dup != {} {
      var d := Report(ws);
      var r := Summarize(d);
      SummarySize(ws);
      SummaryRows(ws);
      forall k | 0 <= k < |r| ensures r[k].count >= 2 {
        SummarizedPhoneShared(ws, k);
      }
      SumCountsAtLeast(r, 2);
      var ph :| ph in dup;
      assert |dup| >= 1;
    }
  }
}
