/** The table transforms that find phone numbers shared by several orders
    (app.py, from `df[[code_col, phone_col]]` to the summary table). */
module Duplicates {
  import opened Wrappers
  import opened Text
  import opened Seqs

  /** A sheet row as pandas reads it with `dtype=str`: each cell a string or missing. */
  type Row = seq<Option<string>>

  /** A row projected to the order-code and phone columns, before cleaning. */
  datatype RawPair = RawPair(code: Option<string>, phone: Option<string>)

  /** An (order code, phone) row once both cells are known to be present. */
  datatype Pair = Pair(code: string, phone: string)

  /** A row of the downloadable report: the pair and how many codes share its phone. */
  datatype DetailRow = DetailRow(code: string, phone: string, count: nat)

  /** A row of the statistical summary: a phone, its number of codes, the codes joined. */
  datatype SummaryRow = SummaryRow(phone: string, count: nat, codes: string)

  // ---------------------------------------------------------------------------
  // Projection and cleaning
  // ---------------------------------------------------------------------------

  /** A cell of `row`; a row shorter than the header list is missing the rest. */
  function Cell(row: Row, col: nat): Option<string> {
    if col < |row| then row[col] else None
  }

  /** `df[[code_col, phone_col]]`: one pair per row, holding the row's cells at the
      two columns, and missing where the row is too short to have that column. */
  function Project(rows: seq<Row>, codeCol: nat, phoneCol: nat): (r: seq<RawPair>)
    ensures |r| == |rows|
    ensures forall i :: 0 <= i < |rows| ==>
      r[i].code == (if codeCol < |rows[i]| then rows[i][codeCol] else None)
    ensures forall i :: 0 <= i < |rows| ==>
      r[i].phone == (if phoneCol < |rows[i]| then rows[i][phoneCol] else None)
  {
    seq(|rows|, i requires 0 <= i < |rows| => RawPair(Cell(rows[i], codeCol), Cell(rows[i], phoneCol)))
  }

  predicate IsComplete(p: RawPair) {
    p.code.Some? && p.phone.Some?
  }

  /** `dropna(subset=[code_col, phone_col])`: a row survives, as often as it occurs,
      exactly when both of its cells are present. */
  function DropMissing(raw: seq<RawPair>): (r: seq<Pair>)
    ensures forall p :: multiset(r)[p] == multiset(raw)[RawPair(Some(p.code), Some(p.phone))]
  {
    if raw == [] then []
    else
      var n := |raw| - 1;
      assert raw == raw[..n] + [raw[n]];
      var rest := DropMissing(raw[..n]);
      if IsComplete(raw[n]) then rest + [Pair(raw[n].code.value, raw[n].phone.value)] else rest
  }

  /** The two `.astype(str).str.strip()` assignments: each cell loses the whitespace
      at both of its ends and nothing else. */
  function StripAll(s: seq<Pair>): (r: seq<Pair>)
    ensures |r| == |s|
    ensures forall i :: 0 <= i < |r| ==> IsTrimmed(r[i].code) && IsTrimmed(r[i].phone)
    ensures forall i :: 0 <= i < |r| ==> StrippedFrom(r[i].code, s[i].code) && StrippedFrom(r[i].phone, s[i].phone)
  {
    seq(|s|, i requires 0 <= i < |s| => Pair(Trim(s[i].code), Trim(s[i].phone)))
  }

  /** The cleaned table before duplicate pairs are dropped: no cell of it has
      whitespace at either end. */
  function Clean(raw: seq<RawPair>): (r: seq<Pair>)
    ensures forall i :: 0 <= i < |r| ==> IsTrimmed(r[i].code) && IsTrimmed(r[i].phone)
  {
    StripAll(DropMissing(raw))
  }

  /** Stripping cells that have no whitespace at either end changes nothing. */
  lemma StripAllTrimmed(s: seq<Pair>)
    requires forall i :: 0 <= i < |s| ==> IsTrimmed(s[i].code) && IsTrimmed(s[i].phone)
    ensures StripAll(s) == s
  {
    forall i | 0 <= i < |s| ensures StripAll(s)[i] == s[i] {
      TrimmedUnchanged(s[i].code);
      TrimmedUnchanged(s[i].phone);
    }
  }

  /** Stripping the cells a second time changes nothing. */
  lemma StripAllIdempotent(s: seq<Pair>)
    ensures StripAll(StripAll(s)) == StripAll(s)
  {
    StripAllTrimmed(StripAll(s));
  }

  /** Every cleaned row comes from a raw row with both cells present. */
  lemma CleanRowOrigin(raw: seq<RawPair>, k: nat)
    requires k < |Clean(raw)|
    ensures exists i :: 0 <= i < |raw| && IsComplete(raw[i]) && Clean(raw)[k] == Pair(Trim(raw[i].code.value), Trim(raw[i].phone.value))
  {
    var d := DropMissing(raw);
    var q := d[k];
    assert multiset(d)[q] > 0;
    var rq := RawPair(Some(q.code), Some(q.phone));
    assert rq in multiset(raw);
    var i :| 0 <= i < |raw| && raw[i] == rq;
    assert Clean(raw)[k] == Pair(Trim(q.code), Trim(q.phone));
  }

  /** Every raw row with both cells present gives a cleaned row. */
  lemma CompleteRowKept(raw: seq<RawPair>, i: nat)
    requires i < |raw| && IsComplete(raw[i])
    ensures Pair(Trim(raw[i].code.value), Trim(raw[i].phone.value)) in Clean(raw)
  {
    var d := DropMissing(raw);
    var q := Pair(raw[i].code.value, raw[i].phone.value);
    assert raw[i] == RawPair(Some(q.code), Some(q.phone));
    assert multiset(raw)[raw[i]] > 0;
    assert q in multiset(d);
    var k :| 0 <= k < |d| && d[k] == q;
    assert Clean(raw)[k] == Pair(Trim(q.code), Trim(q.phone));
  }

  /** A cleaned row is the stripped version of a raw row with both cells present,
      and every such raw row gives one. */
  lemma CleanRows(raw: seq<RawPair>)
    ensures forall p :: p in Clean(raw) <==>
      exists i :: 0 <= i < |raw| && IsComplete(raw[i]) && p == Pair(Trim(raw[i].code.value), Trim(raw[i].phone.value))
  {
    forall k | 0 <= k < |Clean(raw)| {
      CleanRowOrigin(raw, k);
    }
    forall i | 0 <= i < |raw| && IsComplete(raw[i]) {
      CompleteRowKept(raw, i);
    }
  }

  /** Rows are dropped for missing cells before the cells are stripped, so a cell
      holding only whitespace survives, as the empty string. */
  lemma BlankCellKept(raw: seq<RawPair>, i: nat)
    requires i < |raw| && IsComplete(raw[i])
    ensures AllSpace(raw[i].code.value) ==> Pair("", Trim(raw[i].phone.value)) in Clean(raw)
    ensures AllSpace(raw[i].phone.value) ==> Pair(Trim(raw[i].code.value), "") in Clean(raw)
  {
    CleanRows(raw);
    if AllSpace(raw[i].code.value) {
      AllSpaceTrimsToEmpty(raw[i].code.value);
    }
    if AllSpace(raw[i].phone.value) {
      AllSpaceTrimsToEmpty(raw[i].phone.value);
    }
  }

  // ---------------------------------------------------------------------------
  // Counting phones
  // ---------------------------------------------------------------------------

  /** The number of rows of `s` with phone `ph`: one entry of `value_counts()`. */
  function PhoneCount(s: seq<Pair>, ph: string): (n: nat)
    ensures n <= |s|
    ensures n > 0 <==> exists i :: 0 <= i < |s| && s[i].phone == ph
  {
    if s == [] then 0
    else
      var n := |s| - 1;
      assert forall i :: 0 <= i < n ==> s[..n][i] == s[i];
      PhoneCount(s[..n], ph) + (if s[n].phone == ph then 1 else 0)
  }

  lemma {:induction false} PhoneCountAppend(a: seq<Pair>, b: seq<Pair>, ph: string)
    ensures PhoneCount(a + b, ph) == PhoneCount(a, ph) + PhoneCount(b, ph)
    decreases |b|
  {
    if b == [] {
      assert a + b == a;
    } else {
      var n := |b| - 1;
      assert (a + b)[..|a + b| - 1] == a + b[..n];
      PhoneCountAppend(a, b[..n], ph);
    }
  }

  /** Taking out the row at `k` leaves the other rows and one count less for its phone. */
  lemma RemoveRow(b: seq<Pair>, k: nat, ph: string)
    requires k < |b|
    ensures multiset(b[..k] + b[k + 1..]) + multiset{b[k]} == multiset(b)
    ensures PhoneCount(b, ph) == PhoneCount(b[..k] + b[k + 1..], ph) + (if b[k].phone == ph then 1 else 0)
  {
    var x := b[k];
    assert b == b[..k] + [x] + b[k + 1..];
    PhoneCountAppend(b[..k], [x], ph);
    PhoneCountAppend(b[..k] + [x], b[k + 1..], ph);
    PhoneCountAppend(b[..k], b[k + 1..], ph);
    assert [x][..0] == [];
  }

  /** Phone counts do not depend on the order of the rows. */
  lemma {:induction false} PhoneCountPermutation(a: seq<Pair>, b: seq<Pair>, ph: string)
    requires multiset(a) == multiset(b)
    ensures PhoneCount(a, ph) == PhoneCount(b, ph)
    decreases |a|
  {
    if a != [] {
      var n := |a| - 1;
      var x := a[n];
      assert a == a[..n] + [x];
      assert x in multiset(b);
      var k :| 0 <= k < |b| && b[k] == x;
      RemoveRow(b, k, ph);
      var rest := b[..k] + b[k + 1..];
      MultisetCancel(multiset(rest), multiset(a[..n]), x);
      PhoneCountPermutation(a[..n], rest, ph);
    }
  }

  /** A phone counted twice is carried by two different rows. */
  lemma {:induction false} TwoRowsWithPhone(s: seq<Pair>, ph: string)
    requires PhoneCount(s, ph) >= 2
    ensures exists i, j :: 0 <= i < j < |s| && s[i].phone == ph && s[j].phone == ph
  {
    var n := |s| - 1;
    if s[n].phone == ph {
      var i :| 0 <= i < n && s[..n][i].phone == ph;
      assert s[i].phone == ph && s[n].phone == ph;
    } else {
      TwoRowsWithPhone(s[..n], ph);
      var i, j :| 0 <= i < j < n && s[..n][i].phone == ph && s[..n][j].phone == ph;
      assert s[i].phone == ph && s[j].phone == ph;
    }
  }

  /** `phone_counts[phone_counts > 1].index`: the phones of two rows or more. */
  function DuplicatedPhones(s: seq<Pair>): (d: set<string>)
    ensures forall ph :: ph in d <==> PhoneCount(s, ph) >= 2
  {
    var d := set p | p in s && PhoneCount(s, p.phone) >= 2 :: p.phone;
    assert forall ph :: PhoneCount(s, ph) >= 2 ==> ph in d by {
      forall ph | PhoneCount(s, ph) >= 2 ensures ph in d {
        var i :| 0 <= i < |s| && s[i].phone == ph;
        assert s[i] in s;
      }
    }
    d
  }

  /** Once repeated pairs are gone, a duplicated phone belongs to two different
      order codes. */
  lemma DuplicatedPhoneHasTwoCodes(s: seq<Pair>, ph: string)
    requires Distinct(s) && ph in DuplicatedPhones(s)
    ensures exists i, j :: 0 <= i < |s| && 0 <= j < |s| && s[i].phone == ph && s[j].phone == ph && s[i].code != s[j].code
  {
    TwoRowsWithPhone(s, ph);
    var i, j :| 0 <= i < j < |s| && s[i].phone == ph && s[j].phone == ph;
    assert s[i] != s[j];
  }

  /** `df_clean[df_clean[phone_col].isin(phones)]`: the rows whose phone is listed. */
  function SelectPhones(s: seq<Pair>, phones: set<string>): (r: seq<Pair>)
    ensures forall p :: multiset(r)[p] == if p.phone in phones then multiset(s)[p] else 0
    ensures forall ph :: PhoneCount(r, ph) == if ph in phones then PhoneCount(s, ph) else 0
    ensures |r| <= |s|
  {
    if s == [] then []
    else
      var n := |s| - 1;
      assert s == s[..n] + [s[n]];
      var rest := SelectPhones(s[..n], phones);
      if s[n].phone in phones then
        assert forall ph :: PhoneCount(rest + [s[n]], ph) == PhoneCount(rest, ph) + (if s[n].phone == ph then 1 else 0) by {
          assert (rest + [s[n]])[..|rest|] == rest;
        }
        rest + [s[n]]
      else
        rest
  }

  // ---------------------------------------------------------------------------
  // Sorting the report by phone
  // ---------------------------------------------------------------------------

  predicate SortedByPhone(s: seq<Pair>) {
    forall i, j :: 0 <= i < j < |s| ==> LexLe(s[i].phone, s[j].phone)
  }

  /** A row whose phone sorts no later than every phone of a sorted table can be put
      in front of it. */
  lemma SortedByPhoneCons(y: Pair, t: seq<Pair>)
    requires SortedByPhone(t)
    requires forall j :: 0 <= j < |t| ==> LexLe(y.phone, t[j].phone)
    ensures SortedByPhone([y] + t)
  {
    forall i, j | 0 <= i < j < |[y] + t| ensures LexLe(([y] + t)[i].phone, ([y] + t)[j].phone) {
      assert ([y] + t)[j] == t[j - 1];
      if i > 0 {
        assert ([y] + t)[i] == t[i - 1];
      }
    }
  }

  /** A lower bound on the phones of `u` and of `x` is one on the phones of any
      table with the rows of `u` and `x`. */
  lemma PhoneBoundKept(c: string, t: seq<Pair>, u: seq<Pair>, x: Pair)
    requires multiset(t) == multiset(u) + multiset{x}
    requires LexLe(c, x.phone)
    requires forall j :: 0 <= j < |u| ==> LexLe(c, u[j].phone)
    ensures forall j :: 0 <= j < |t| ==> LexLe(c, t[j].phone)
  {
    forall j | 0 <= j < |t| ensures LexLe(c, t[j].phone) {
      assert t[j] in multiset(t);
      if t[j] != x {
        assert t[j] in multiset(u);
        var k :| 0 <= k < |u| && u[k] == t[j];
      }
    }
  }

  function InsertByPhone(x: Pair, s: seq<Pair>): (r: seq<Pair>)
    requires SortedByPhone(s)
    ensures multiset(r) == multiset(s) + multiset{x}
    ensures SortedByPhone(r)
  {
    if s == [] then [x]
    else if LexLe(x.phone, s[0].phone) then
      assert forall j :: 0 <= j < |s| ==> LexLe(x.phone, s[j].phone) by {
        forall j | 0 <= j < |s| ensures LexLe(x.phone, s[j].phone) {
          if j > 0 {
            LexLeTransitive(x.phone, s[0].phone, s[j].phone);
          }
        }
      }
      SortedByPhoneCons(x, s);
      [x] + s
    else
      LexLeTotal(x.phone, s[0].phone);
      var t := InsertByPhone(x, s[1..]);
      assert s == [s[0]] + s[1..];
      assert forall j :: 0 <= j < |s[1..]| ==> LexLe(s[0].phone, s[1..][j].phone) by {
        forall j | 0 <= j < |s[1..]| ensures LexLe(s[0].phone, s[1..][j].phone) {
          assert s[1..][j] == s[j + 1];
        }
      }
      PhoneBoundKept(s[0].phone, t, s[1..], x);
      SortedByPhoneCons(s[0], t);
      [s[0]] + t
  }

  /** `sort_values(phone_col)`: the same rows, in nondecreasing phone order. */
  function SortByPhone(s: seq<Pair>): (r: seq<Pair>)
    ensures multiset(r) == multiset(s)
    ensures SortedByPhone(r)
  {
    if s == [] then []
    else
      assert s == [s[0]] + s[1..];
      InsertByPhone(s[0], SortByPhone(s[1..]))
  }

  // ---------------------------------------------------------------------------
  // The report and its summary
  // ---------------------------------------------------------------------------

  /** The count column, `groupby(phone_col)[phone_col].transform('count')`: every
      row counts at least itself and at most the whole table. */
  function Annotate(s: seq<Pair>): (r: seq<DetailRow>)
    ensures |r| == |s|
    ensures forall i :: 0 <= i < |r| ==> 1 <= r[i].count <= |s|
  {
    seq(|s|, i requires 0 <= i < |s| => DetailRow(s[i].code, s[i].phone, PhoneCount(s, s[i].phone)))
  }

  /** The code and phone columns of the report. */
  function PairsOf(d: seq<DetailRow>): seq<Pair> {
    seq(|d|, i requires 0 <= i < |d| => Pair(d[i].code, d[i].phone))
  }

  /** The downloadable report for a de-duplicated table: the rows whose phone is
      shared, sorted by phone, with the count column added. It is never longer than
      the table. */
  function Report(ws: seq<Pair>): (r: seq<DetailRow>)
    ensures |r| <= |ws|
  {
    Annotate(SortByPhone(SelectPhones(ws, DuplicatedPhones(ws))))
  }

  function PhonesOf(s: seq<Pair>): seq<string> {
    seq(|s|, i requires 0 <= i < |s| => s[i].phone)
  }

  /** The codes, in row order, of the rows whose phone is `ph`: one group of
      `groupby(phone_col)[code_col]`. */
  function CodesOf(s: seq<Pair>, ph: string): (r: seq<string>)
    ensures |r| == PhoneCount(s, ph)
    ensures forall c :: c in r <==> Pair(c, ph) in s
  {
    if s == [] then []
    else
      var n := |s| - 1;
      assert s == s[..n] + [s[n]];
      var rest := CodesOf(s[..n], ph);
      if s[n].phone == ph then rest + [s[n].code] else rest
  }

  /** One summary row: the `count` aggregate and the `', '.join` aggregate. */
  function GroupRow(s: seq<Pair>, ph: string): (r: SummaryRow)
    ensures r.phone == ph && r.count == PhoneCount(s, ph)
  {
    var codes := CodesOf(s, ph);
    SummaryRow(ph, |codes|, Join(codes))
  }

  /** The grouped table: one summary row per listed phone, in the listed order. */
  function GroupRows(s: seq<Pair>, phones: seq<string>): (r: seq<SummaryRow>)
    ensures |r| == |phones|
    ensures forall k :: 0 <= k < |phones| ==> r[k].phone == phones[k]
  {
    if phones == [] then [] else [GroupRow(s, phones[0])] + GroupRows(s, phones[1..])
  }

  lemma {:induction false} GroupRowsAt(s: seq<Pair>, phones: seq<string>)
    ensures |GroupRows(s, phones)| == |phones|
    ensures forall k :: 0 <= k < |phones| ==> GroupRows(s, phones)[k] == GroupRow(s, phones[k])
  {
    if phones != [] {
      GroupRowsAt(s, phones[1..]);
    }
  }

  function SumCounts(r: seq<SummaryRow>): nat {
    if r == [] then 0 else r[0].count + SumCounts(r[1..])
  }

  lemma {:induction false} SumCountsNoRows(phones: seq<string>)
    ensures SumCounts(GroupRows([], phones)) == 0
  {
    if phones != [] {
      SumCountsNoRows(phones[1..]);
    }
  }

  /** One more report row adds one to the total over a list of distinct phones that
      includes its phone, and nothing otherwise. */
  lemma {:induction false} SumCountsSnoc(s: seq<Pair>, x: Pair, phones: seq<string>)
    requires Distinct(phones)
    ensures SumCounts(GroupRows(s + [x], phones)) == SumCounts(GroupRows(s, phones)) + (if x.phone in phones then 1 else 0)
  {
    if phones != [] {
      assert (s + [x])[..|s|] == s;
      assert Distinct(phones[1..]);
      assert x.phone in phones[1..] <==> x.phone in phones && x.phone != phones[0];
      SumCountsSnoc(s, x, phones[1..]);
    }
  }

  /** Grouping over distinct phones that cover every row accounts for every row once. */
  lemma {:induction false} SumCountsCover(s: seq<Pair>, phones: seq<string>)
    requires Distinct(phones)
    requires forall i :: 0 <= i < |s| ==> s[i].phone in phones
    ensures SumCounts(GroupRows(s, phones)) == |s|
  {
    if s == [] {
      SumCountsNoRows(phones);
    } else {
      var n := |s| - 1;
      assert s == s[..n] + [s[n]];
      SumCountsCover(s[..n], phones);
      SumCountsSnoc(s[..n], s[n], phones);
    }
  }

  /** Rows that each count at least `m` codes count at least `m` codes per row. */
  lemma {:induction false} SumCountsAtLeast(r: seq<SummaryRow>, m: nat)
    requires forall k :: 0 <= k < |r| ==> r[k].count >= m
    ensures SumCounts(r) >= m * |r|
  {
    if r != [] {
      SumCountsAtLeast(r[1..], m);
    }
  }

  predicate SortedByCountDesc(r: seq<SummaryRow>) {
    forall i, j :: 0 <= i < j < |r| ==> r[i].count >= r[j].count
  }

  /** A summary row counting at least as much as every row of a sorted table can be
      put in front of it. */
  lemma SortedByCountCons(y: SummaryRow, t: seq<SummaryRow>)
    requires SortedByCountDesc(t)
    requires forall j :: 0 <= j < |t| ==> y.count >= t[j].count
    ensures SortedByCountDesc([y] + t)
  {
    forall i, j | 0 <= i < j < |[y] + t| ensures ([y] + t)[i].count >= ([y] + t)[j].count {
      assert ([y] + t)[j] == t[j - 1];
      if i > 0 {
        assert ([y] + t)[i] == t[i - 1];
      }
    }
  }

  /** An upper bound on the counts of `u` and of `x` is one on the counts of any
      table with the rows of `u` and `x`. */
  lemma CountBoundKept(c: nat, t: seq<SummaryRow>, u: seq<SummaryRow>, x: SummaryRow)
    requires multiset(t) == multiset(u) + multiset{x}
    requires c >= x.count
    requires forall j :: 0 <= j < |u| ==> c >= u[j].count
    ensures forall j :: 0 <= j < |t| ==> c >= t[j].count
  {
    forall j | 0 <= j < |t| ensures c >= t[j].count {
      assert t[j] in multiset(t);
      if t[j] != x {
        assert t[j] in multiset(u);
        var k :| 0 <= k < |u| && u[k] == t[j];
      }
    }
  }

  /** The rows after the first of a table sorted by count are sorted, and count no
      more than the first. */
  lemma SortedByCountTail(r: seq<SummaryRow>)
    requires r != [] && SortedByCountDesc(r)
    ensures SortedByCountDesc(r[1..])
    ensures forall j :: 0 <= j < |r[1..]| ==> r[0].count >= r[1..][j].count
  {
    forall j | 0 <= j < |r[1..]| ensures r[0].count >= r[1..][j].count {
      assert r[1..][j] == r[j + 1];
    }
  }

  function InsertByCount(x: SummaryRow, r: seq<SummaryRow>): (t: seq<SummaryRow>)
    requires SortedByCountDesc(r)
    ensures multiset(t) == multiset(r) + multiset{x}
    ensures SortedByCountDesc(t)
    ensures SumCounts(t) == x.count + SumCounts(r)
  {
    if r == [] then [x]
    else if x.count >= r[0].count then
      SortedByCountCons(x, r);
      [x] + r
    else
      SortedByCountTail(r);
      var t := InsertByCount(x, r[1..]);
      assert r == [r[0]] + r[1..];
      assert ([r[0]] + t)[1..] == t;
      CountBoundKept(r[0].count, t, r[1..], x);
      SortedByCountCons(r[0], t);
      [r[0]] + t
  }

  /** `sort_values('عدد الأكواد', ascending=False)`: the same rows, largest count
      first, with the same total. */
  function SortByCountDesc(r: seq<SummaryRow>): (t: seq<SummaryRow>)
    ensures multiset(t) == multiset(r)
    ensures SortedByCountDesc(t)
    ensures SumCounts(t) == SumCounts(r)
  {
    if r == [] then []
    else
      assert r == [r[0]] + r[1..];
      InsertByCount(r[0], SortByCountDesc(r[1..]))
  }

  /** The statistical summary of a report: one row per phone of the report, largest
      count first, the counts adding up to the number of report rows. */
  function Summarize(detail: seq<DetailRow>): (r: seq<SummaryRow>)
    ensures SortedByCountDesc(r)
    ensures SumCounts(r) == |detail|
  {
    var s := PairsOf(detail);
    var phones := Dedup(PhonesOf(s));
    assert forall i :: 0 <= i < |s| ==> s[i].phone in phones by {
      forall i | 0 <= i < |s| ensures s[i].phone in phones {
        assert PhonesOf(s)[i] == s[i].phone;
      }
    }
    SumCountsCover(s, phones);
    SortByCountDesc(GroupRows(s, phones))
  }

  /** Every summary row is the group of one phone of the report. */
  lemma SummaryRowIsGroup(detail: seq<DetailRow>, k: nat)
    requires k < |Summarize(detail)|
    ensures var s := PairsOf(detail);
      Summarize(detail)[k] == GroupRow(s, Summarize(detail)[k].phone) && Summarize(detail)[k].phone in PhonesOf(s)
  {
    var s := PairsOf(detail);
    var phones := Dedup(PhonesOf(s));
    var g := GroupRows(s, phones);
    var r := Summarize(detail);
    GroupRowsAt(s, phones);
    assert r[k] in multiset(g);
    var m :| 0 <= m < |g| && g[m] == r[k];
    assert phones[m] in PhonesOf(s);
  }

  /** Every phone of the report has a summary row. */
  lemma SummaryCoversPhones(detail: seq<DetailRow>, ph: string)
    requires ph in PhonesOf(PairsOf(detail))
    ensures exists k :: 0 <= k < |Summarize(detail)| && Summarize(detail)[k].phone == ph
  {
    var s := PairsOf(detail);
    var phones := Dedup(PhonesOf(s));
    var g := GroupRows(s, phones);
    var r := Summarize(detail);
    GroupRowsAt(s, phones);
    var i :| 0 <= i < |PhonesOf(s)| && PhonesOf(s)[i] == ph;
    var m :| 0 <= m < |phones| && phones[m] == ph;
    assert g[m].phone == ph;
    assert g[m] in multiset(r);
    var k :| 0 <= k < |r| && r[k] == g[m];
  }

  /** No phone has two summary rows. */
  lemma SummaryPhonesDistinct(detail: seq<DetailRow>)
    ensures forall k, l :: 0 <= k < l < |Summarize(detail)| ==> Summarize(detail)[k].phone != Summarize(detail)[l].phone
  {
    var s := PairsOf(detail);
    var phones := Dedup(PhonesOf(s));
    var g := GroupRows(s, phones);
    var r := Summarize(detail);
    GroupRowsAt(s, phones);
    assert Distinct(g) by {
      forall i, j | 0 <= i < j < |g| ensures g[i] != g[j] {
        assert g[i].phone == phones[i] && g[j].phone == phones[j];
      }
    }
    DistinctPermutation(g, r);
    forall k, l | 0 <= k < l < |r| ensures r[k].phone != r[l].phone {
      SummaryRowIsGroup(detail, k);
      SummaryRowIsGroup(detail, l);
    }
  }

  // ---------------------------------------------------------------------------
  // What the report and the summary hold
  // ---------------------------------------------------------------------------

  /** Adding the count column leaves the code and phone columns as they were. */
  lemma PairsOfAnnotate(s: seq<Pair>)
    ensures PairsOf(Annotate(s)) == s
  {
  }

  /** The report holds each row of the de-duplicated table whose phone is shared,
      once, and nothing else, in nondecreasing phone order. */
  lemma ReportRows(ws: seq<Pair>)
    requires Distinct(ws)
    ensures forall p :: multiset(PairsOf(Report(ws)))[p] == if p in ws && p.phone in DuplicatedPhones(ws) then 1 else 0
    ensures forall i, j :: 0 <= i < j < |Report(ws)| ==> LexLe(Report(ws)[i].phone, Report(ws)[j].phone)
  {
    var dup := DuplicatedPhones(ws);
    var sorted := SortByPhone(SelectPhones(ws, dup));
    PairsOfAnnotate(sorted);
    forall p
      ensures multiset(sorted)[p] == if p in ws && p.phone in dup then 1 else 0
    {
      DistinctMultiplicity(ws, p);
    }
  }

  /** The count of one report row is its phone's count in the de-duplicated table,
      which is at least two. */
  lemma ReportCountAt(ws: seq<Pair>, i: int)
    requires 0 <= i < |Report(ws)|
    ensures Report(ws)[i].count == PhoneCount(ws, Report(ws)[i].phone) >= 2
  {
    var dup := DuplicatedPhones(ws);
    var sel := SelectPhones(ws, dup);
    var sorted := SortByPhone(sel);
    var ph := sorted[i].phone;
    assert Report(ws)[i] == DetailRow(sorted[i].code, ph, PhoneCount(sorted, ph));
    assert multiset(sel)[sorted[i]] > 0;
    PhoneCountPermutation(sorted, sel, ph);
  }

  /** Every report row counts the report rows with its phone; that is also the number
      of rows with that phone in the de-duplicated table, so at least two. */
  lemma ReportCounts(ws: seq<Pair>)
    ensures forall i :: 0 <= i < |Report(ws)| ==>
      && Report(ws)[i].count == PhoneCount(PairsOf(Report(ws)), Report(ws)[i].phone)
      && Report(ws)[i].count == PhoneCount(ws, Report(ws)[i].phone)
      && Report(ws)[i].count >= 2
  {
    var sorted := SortByPhone(SelectPhones(ws, DuplicatedPhones(ws)));
    var d := Report(ws);
    assert d == Annotate(sorted);
    PairsOfAnnotate(sorted);
    assert PairsOf(d) == sorted;
    forall i | 0 <= i < |d|
      ensures d[i].count == PhoneCount(PairsOf(d), d[i].phone)
      ensures d[i].count == PhoneCount(ws, d[i].phone) >= 2
    {
      ReportCountAt(ws, i);
    }
  }

  /** A shared phone gives a report of at least two rows. */
  lemma ReportSize(ws: seq<Pair>)
    requires DuplicatedPhones(ws) != {}
    ensures |Report(ws)| >= 2
  {
    var dup := DuplicatedPhones(ws);
    var ph :| ph in dup;
    var sel := SelectPhones(ws, dup);
    var sorted := SortByPhone(sel);
    PhoneCountPermutation(sorted, sel, ph);
  }

  /** A row of the table whose phone is listed survives the filter and the sort. */
  lemma SelectedRowSorted(ws: seq<Pair>, phones: set<string>, p: Pair)
    requires p in ws && p.phone in phones
    ensures p in SortByPhone(SelectPhones(ws, phones))
  {
    var sel := SelectPhones(ws, phones);
    assert multiset(ws)[p] > 0;
    assert multiset(sel)[p] > 0;
    assert p in multiset(SortByPhone(sel));
  }

  lemma PhoneOfRow(s: seq<Pair>, p: Pair)
    requires p in s
    ensures p.phone in PhonesOf(s)
  {
    var m :| 0 <= m < |s| && s[m] == p;
    assert PhonesOf(s)[m] == p.phone;
  }

  /** A shared phone occurs in the report. */
  lemma SharedPhoneReported(ws: seq<Pair>, ph: string)
    requires ph in DuplicatedPhones(ws)
    ensures ph in PhonesOf(PairsOf(Report(ws)))
  {
    var dup := DuplicatedPhones(ws);
    var sorted := SortByPhone(SelectPhones(ws, dup));
    assert PhoneCount(ws, ph) > 0;
    var i :| 0 <= i < |ws| && ws[i].phone == ph;
    SelectedRowSorted(ws, dup, ws[i]);
    PhoneOfRow(sorted, ws[i]);
    PairsOfAnnotate(sorted);
  }

  /** A shared phone has a summary row. */
  lemma SharedPhoneSummarized(ws: seq<Pair>, ph: string)
    requires ph in DuplicatedPhones(ws)
    ensures exists k :: 0 <= k < |Summarize(Report(ws))| && Summarize(Report(ws))[k].phone == ph
  {
    SharedPhoneReported(ws, ph);
    SummaryCoversPhones(Report(ws), ph);
  }

  /** A summary row is about a shared phone. */
  lemma SummarizedPhoneShared(ws: seq<Pair>, k: nat)
    requires k < |Summarize(Report(ws))|
    ensures Summarize(Report(ws))[k].phone in DuplicatedPhones(ws)
  {
    var dup := DuplicatedPhones(ws);
    var sel := SelectPhones(ws, dup);
    var sorted := SortByPhone(sel);
    var d := Report(ws);
    var s := PairsOf(d);
    PairsOfAnnotate(sorted);
    SummaryRowIsGroup(d, k);
    var m :| 0 <= m < |s| && PhonesOf(s)[m] == Summarize(d)[k].phone;
    assert multiset(sel)[s[m]] > 0;
  }

  /** The summary of the report has one row for each shared phone and no other. */
  lemma SummaryPhones(ws: seq<Pair>)
    ensures forall ph :: ph in DuplicatedPhones(ws) <==>
      exists k :: 0 <= k < |Summarize(Report(ws))| && Summarize(Report(ws))[k].phone == ph
    ensures forall k, l :: 0 <= k < l < |Summarize(Report(ws))| ==>
      Summarize(Report(ws))[k].phone != Summarize(Report(ws))[l].phone
  {
    SummaryPhonesDistinct(Report(ws));
    forall ph | ph in DuplicatedPhones(ws) {
      SharedPhoneSummarized(ws, ph);
    }
    forall k | 0 <= k < |Summarize(Report(ws))| {
      SummarizedPhoneShared(ws, k);
    }
  }

  /** Rows with distinct phones that are exactly the phones of `phones` are as many
      as those phones. */
  lemma RowsPerPhone(r: seq<SummaryRow>, phones: set<string>)
    requires forall k, l :: 0 <= k < l < |r| ==> r[k].phone != r[l].phone
    requires forall k :: 0 <= k < |r| ==> r[k].phone in phones
    requires forall ph :: ph in phones ==> exists k :: 0 <= k < |r| && r[k].phone == ph
    ensures |r| == |phones|
  {
    var ps := seq(|r|, k requires 0 <= k < |r| => r[k].phone);
    DistinctCardinality(ps);
    assert (set x | x in ps) == phones by {
      forall ph | ph in phones ensures ph in ps {
        var k :| 0 <= k < |r| && r[k].phone == ph;
        assert ps[k] == ph;
      }
    }
  }

  /** The summary has as many rows as there are shared phones. */
  lemma SummarySize(ws: seq<Pair>)
    ensures |Summarize(Report(ws))| == |DuplicatedPhones(ws)|
  {
    var dup := DuplicatedPhones(ws);
    var r := Summarize(Report(ws));
    SummaryPhonesDistinct(Report(ws));
    forall ph | ph in dup ensures exists k :: 0 <= k < |r| && r[k].phone == ph {
      SharedPhoneSummarized(ws, ph);
    }
    forall k | 0 <= k < |r| ensures r[k].phone in dup {
      SummarizedPhoneShared(ws, k);
    }
    RowsPerPhone(r, dup);
  }

  /** A pair is in the report exactly when it is in the table and its phone is shared. */
  lemma ReportPair(ws: seq<Pair>, p: Pair)
    ensures p in PairsOf(Report(ws)) <==> p in ws && p.phone in DuplicatedPhones(ws)
  {
    var dup := DuplicatedPhones(ws);
    var sel := SelectPhones(ws, dup);
    var sorted := SortByPhone(sel);
    PairsOfAnnotate(sorted);
    assert p in sorted <==> multiset(sorted)[p] > 0;
    assert p in ws <==> multiset(ws)[p] > 0;
  }

  /** The summary row at `k` is the group of its phone and counts the rows with that
      phone in the de-duplicated table. */
  lemma SummaryRowCount(ws: seq<Pair>, k: nat)
    requires k < |Summarize(Report(ws))|
    ensures var r := Summarize(Report(ws));
      && r[k] == GroupRow(PairsOf(Report(ws)), r[k].phone)
      && r[k].count == PhoneCount(ws, r[k].phone)
  {
    var dup := DuplicatedPhones(ws);
    var sel := SelectPhones(ws, dup);
    var sorted := SortByPhone(sel);
    var d := Report(ws);
    var ph := Summarize(d)[k].phone;
    SummaryRowIsGroup(d, k);
    SummarizedPhoneShared(ws, k);
    PairsOfAnnotate(sorted);
    PhoneCountPermutation(sorted, sel, ph);
  }

  /** The codes of the summary row at `k` are exactly those paired with its phone in
      the de-duplicated table. */
  lemma SummaryRowCodes(ws: seq<Pair>, k: nat)
    requires k < |Summarize(Report(ws))|
    ensures var ph := Summarize(Report(ws))[k].phone;
      forall c :: c in CodesOf(PairsOf(Report(ws)), ph) <==> Pair(c, ph) in ws
  {
    var ph := Summarize(Report(ws))[k].phone;
    SummarizedPhoneShared(ws, k);
    forall c ensures Pair(c, ph) in PairsOf(Report(ws)) <==> Pair(c, ph) in ws {
      ReportPair(ws, Pair(c, ph));
    }
  }

  lemma SummaryRowAt(ws: seq<Pair>, k: nat)
    requires k < |Summarize(Report(ws))|
    ensures var ph := Summarize(Report(ws))[k].phone;
      var codes := CodesOf(PairsOf(Report(ws)), ph);
      && Summarize(Report(ws))[k].count == |codes|
      && Summarize(Report(ws))[k].count == PhoneCount(ws, ph)
      && Summarize(Report(ws))[k].codes == Join(codes)
      && forall c :: c in codes <==> Pair(c, ph) in ws
  {
    SummaryRowCount(ws, k);
    SummaryRowCodes(ws, k);
  }

  /** Each summary row gives the number of codes sharing its phone and those codes
      joined with ", "; the codes are exactly those paired with the phone in the
      de-duplicated table. */
  lemma SummaryRows(ws: seq<Pair>)
    ensures forall k :: 0 <= k < |Summarize(Report(ws))| ==>
      var ph := Summarize(Report(ws))[k].phone;
      var codes := CodesOf(PairsOf(Report(ws)), ph);
      && Summarize(Report(ws))[k].count == |codes|
      && Summarize(Report(ws))[k].count == PhoneCount(ws, ph)
      && Summarize(Report(ws))[k].codes == Join(codes)
      && forall c :: c in codes <==> Pair(c, ph) in ws
  {
    forall k | 0 <= k < |Summarize(Report(ws))| {
      SummaryRowAt(ws, k);
    }
  }
}
