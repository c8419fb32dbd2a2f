/**
 * The report materialiser: a dense, zero-filled table of the last thirty days
 * of the trend store, with the topics that have no activity in that window
 * dropped, rendered as CSV rows and as HTML table markup.
 */
module ReportGenerator {
  import opened Calendar
  import opened OrderedDict
  import TopicCounter
  import CleanerMemory

  /** The number of date columns of the report. */
  const WINDOW_DAYS: int := 30

  /** One topic's report row: date column to count. */
  type Row = map<Date, int>

  /** Topic to row, in the trend store's order; this is also the JSON report. */
  type Report = Dict<Row>

  /** A CSV or HTML table cell: the "Topic" label or a topic name, a date, or a count. */
  datatype Cell = Label(text: string) | Day(date: Date) | Count(n: int)

  /** The HTML table as the sequence of its row and cell elements. */
  datatype Markup = RowOpen | HeaderCell(cell: Cell) | DataCell(cell: Cell) | RowClose

  // ----- date columns (`_generate_date_range`) -----

  /** The `WINDOW_DAYS` consecutive days ending at `target`, oldest first. */
  method GenerateDateRange(target: Date) returns (dates: seq<Date>)
    ensures |dates| == WINDOW_DAYS
    ensures forall i :: 0 <= i < |dates| ==> dates[i] == target - (WINDOW_DAYS - 1) + i
  {
    var end := target;
    var start := end - (WINDOW_DAYS - 1);
    dates := [];
    var current := start;
    while current <= end
      invariant start <= current <= end + 1
      invariant |dates| == current - start
      invariant forall i :: 0 <= i < |dates| ==> dates[i] == start + i
    {
      dates := dates + [current];
      current := current + 1;
    }
  }

  /** The date columns of a report for `target`: consecutive days, ending at `target`. */
  ghost predicate IsDateRange(dates: seq<Date>, target: Date) {
    && |dates| == WINDOW_DAYS
    && forall i :: 0 <= i < |dates| ==> dates[i] == target - (WINDOW_DAYS - 1) + i
  }

  /** The columns run strictly upwards from `target - 29` to `target`, one day apart. */
  lemma DateRangeOrder(dates: seq<Date>, target: Date)
    requires IsDateRange(dates, target)
    ensures dates[0] == target - (WINDOW_DAYS - 1) && dates[|dates| - 1] == target
    ensures forall i, j :: 0 <= i < j < |dates| ==> dates[i] < dates[j]
    ensures forall d :: d in dates <==> target - (WINDOW_DAYS - 1) <= d <= target
  {
    forall d | target - (WINDOW_DAYS - 1) <= d <= target ensures d in dates {
      assert dates[d - (target - (WINDOW_DAYS - 1))] == d;
    }
  }

  // ----- dense fill and filter (`run`) -----

  /** `date_counts.get(d, 0)`. */
  function CountOn(counts: TopicCounter.Counts, d: Date): int {
    if d in counts then counts[d] else 0
  }

  /** `{d: date_counts.get(d, 0) for d in date_columns}`. */
  function DenseRow(counts: TopicCounter.Counts, dates: seq<Date>): (row: Row)
    ensures forall d :: d in row <==> d in dates
  {
    map d | d in dates :: CountOn(counts, d)
  }

  /** The unfiltered report: every topic of the store with its dense row. */
  function FullReport(trend: TopicCounter.TrendStore, dates: seq<Date>): (r: Report)
    ensures r.keys == trend.keys
    ensures forall t :: t in r.entries <==> t in trend.entries
  {
    Dict(trend.keys, map t | t in trend.entries :: DenseRow(trend.entries[t], dates))
  }

  /** `any(value > 0 for value in counts.values())`. */
  predicate HasActivity(row: Row) {
    exists d :: d in row && row[d] > 0
  }

  /** The keys, in order, whose rows have some positive value. */
  function ActiveKeys(keys: seq<string>, entries: map<string, Row>): (r: seq<string>)
    ensures forall t :: t in r ==> t in keys
    decreases |keys|
  {
    if keys == [] then []
    else
      var k := keys[0];
      (if k in entries && HasActivity(entries[k]) then [k] else []) + ActiveKeys(keys[1..], entries)
  }

  /** The dict comprehension that drops the topics whose values are all zero. */
  function Filtered(report: Report): Report {
    Dict(ActiveKeys(report.keys, report.entries),
         map t | t in report.entries && HasActivity(report.entries[t]) :: report.entries[t])
  }

  /** The JSON report `run` writes. */
  function TrendReport(trend: TopicCounter.TrendStore, dates: seq<Date>): Report {
    Filtered(FullReport(trend, dates))
  }

  /** The loop of `run` that builds the unfiltered report topic by topic. */
  method BuildFullReport(trend: TopicCounter.TrendStore, dates: seq<Date>) returns (full: Report)
    requires Valid(trend)
    ensures full == FullReport(trend, dates)
  {
    full := Dict([], map[]);
    var i := 0;
    while i < |trend.keys|
      invariant 0 <= i <= |trend.keys|
      invariant full.keys == trend.keys[..i]
      invariant forall t :: t in full.entries <==> t in trend.keys[..i]
      invariant forall t :: t in full.entries ==> full.entries[t] == DenseRow(trend.entries[t], dates)
    {
      var topic := trend.keys[i];
      assert trend.keys[..i + 1] == trend.keys[..i] + [topic];
      full := Put(full, topic, DenseRow(trend.entries[topic], dates));
      i := i + 1;
    }
    assert trend.keys[..i] == trend.keys;
    assert full.entries == FullReport(trend, dates).entries;
  }

  // ----- properties of the report -----

  /** On a row that covers exactly the date columns, activity means a positive count on some column. */
  lemma DenseActivity(counts: TopicCounter.Counts, dates: seq<Date>)
    ensures HasActivity(DenseRow(counts, dates)) <==> exists i :: 0 <= i < |dates| && CountOn(counts, dates[i]) > 0
  {
    var row := DenseRow(counts, dates);
    if HasActivity(row) {
      var d :| d in row && row[d] > 0;
      var i :| 0 <= i < |dates| && dates[i] == d;
      assert CountOn(counts, dates[i]) > 0;
    }
    if exists i :: 0 <= i < |dates| && CountOn(counts, dates[i]) > 0 {
      var i :| 0 <= i < |dates| && CountOn(counts, dates[i]) > 0;
      assert dates[i] in row && row[dates[i]] > 0;
    }
  }

  /**
   * The report holds exactly the store's topics with a positive count on one
   * of the date columns; each of its rows has exactly the date columns as
   * keys, holding the stored count or 0 when the date is absent.
   */
  lemma {:induction false} ReportContents(trend: TopicCounter.TrendStore, dates: seq<Date>)
    ensures var r := TrendReport(trend, dates);
      && (forall t :: t in r.entries <==>
            t in trend.entries && exists i :: 0 <= i < |dates| && CountOn(trend.entries[t], dates[i]) > 0)
      && (forall t, d :: t in r.entries ==> (d in r.entries[t] <==> d in dates))
      && (forall t, d :: t in r.entries && d in dates ==> r.entries[t][d] == CountOn(trend.entries[t], d))
  {
    var f := FullReport(trend, dates);
    ActiveKeysMembers(f.keys, f.entries);
    forall t | t in trend.entries {
      DenseActivity(trend.entries[t], dates);
    }
  }

  /** Stored counts outside the date columns make no difference to the report. */
  lemma {:induction false} OutsideWindowIgnored(trend1: TopicCounter.TrendStore, trend2: TopicCounter.TrendStore, dates: seq<Date>)
    requires trend1.keys == trend2.keys
    requires forall t :: t in trend1.entries <==> t in trend2.entries
    requires forall t, d :: t in trend1.entries && d in dates ==> CountOn(trend1.entries[t], d) == CountOn(trend2.entries[t], d)
    ensures TrendReport(trend1, dates) == TrendReport(trend2, dates)
  {
    FullReportsAgree(trend1, trend2, dates);
  }

  lemma FullReportsAgree(trend1: TopicCounter.TrendStore, trend2: TopicCounter.TrendStore, dates: seq<Date>)
    requires trend1.keys == trend2.keys
    requires forall t :: t in trend1.entries <==> t in trend2.entries
    requires forall t, d :: t in trend1.entries && d in dates ==> CountOn(trend1.entries[t], d) == CountOn(trend2.entries[t], d)
    ensures FullReport(trend1, dates) == FullReport(trend2, dates)
  {
    var f1 := FullReport(trend1, dates);
    var f2 := FullReport(trend2, dates);
    forall t | t in trend1.entries ensures f1.entries[t] == f2.entries[t] {
      DenseRowAgree(trend1.entries[t], trend2.entries[t], dates);
    }
    assert f1.entries == f2.entries;
  }

  lemma DenseRowAgree(c1: TopicCounter.Counts, c2: TopicCounter.Counts, dates: seq<Date>)
    requires forall d :: d in dates ==> CountOn(c1, d) == CountOn(c2, d)
    ensures DenseRow(c1, dates) == DenseRow(c2, dates)
  {
  }

  /** The filter keeps exactly the keys with an active entry. */
  lemma {:induction false} ActiveKeysMembers(keys: seq<string>, entries: map<string, Row>)
    ensures forall t :: t in ActiveKeys(keys, entries) <==> t in keys && t in entries && HasActivity(entries[t])
    decreases |keys|
  {
    if keys != [] {
      ActiveKeysMembers(keys[1..], entries);
      assert keys == [keys[0]] + keys[1..];
    }
  }

  /** `r` lists distinct keys of `keys`, in the order of their first occurrence there. */
  ghost predicate InKeyOrder(r: seq<string>, keys: seq<string>) {
    && (forall t :: t in r ==> t in keys)
    && Distinct(r)
    && forall i, j :: 0 <= i < j < |r| ==> FirstIndex(keys, r[i]) < FirstIndex(keys, r[j])
  }

  /** Order among the later keys carries over to the whole sequence, with or without the first key in front. */
  lemma InKeyOrderCons(keys: seq<string>, rest: seq<string>, keep: bool)
    requires Distinct(keys) && keys != []
    requires InKeyOrder(rest, keys[1..])
    ensures InKeyOrder((if keep then [keys[0]] else []) + rest, keys)
  {
    DistinctTail(keys);
    var r := (if keep then [keys[0]] else []) + rest;
    var o := if keep then 1 else 0;
    forall i, j | 0 <= i < j < |r| ensures r[i] != r[j] && FirstIndex(keys, r[i]) < FirstIndex(keys, r[j]) {
      assert r[j] == rest[j - o] && r[j] in keys[1..];
      if i >= o {
        assert r[i] == rest[i - o] && r[i] in keys[1..];
      }
    }
  }

  /** The filter keeps the keys' relative order. */
  lemma {:induction false} ActiveKeysOrder(keys: seq<string>, entries: map<string, Row>)
    requires Distinct(keys)
    ensures InKeyOrder(ActiveKeys(keys, entries), keys)
    decreases |keys|
  {
    if keys != [] {
      DistinctTail(keys);
      ActiveKeysOrder(keys[1..], entries);
      InKeyOrderCons(keys, ActiveKeys(keys[1..], entries), keys[0] in entries && HasActivity(entries[keys[0]]));
    }
  }

  /** The report lists its topics once each, in the trend store's order. */
  lemma ReportOrder(trend: TopicCounter.TrendStore, dates: seq<Date>)
    requires Valid(trend)
    ensures var r := TrendReport(trend, dates);
      && Valid(r)
      && forall i, j :: 0 <= i < j < |r.keys| ==> r.keys[i] in trend.keys && FirstIndex(trend.keys, r.keys[i]) < FirstIndex(trend.keys, r.keys[j])
  {
    var f := FullReport(trend, dates);
    ActiveKeysOrder(f.keys, f.entries);
    ActiveKeysMembers(f.keys, f.entries);
  }

  // ----- CSV and HTML rows (`_write_csv`, `_write_html`) -----

  /** Every topic of the report has a value for every date column (so `date_counts[d]` is defined). */
  ghost predicate Dense(report: Report, dates: seq<Date>) {
    forall t :: t in report.keys ==> t in report.entries && Covers(report.entries[t], dates)
  }

  /** The row has a value for each date column. */
  ghost predicate Covers(row: Row, dates: seq<Date>) {
    forall i :: 0 <= i < |dates| ==> dates[i] in row
  }

  /** `["Topic"] + dates`. */
  function HeaderRow(dates: seq<Date>): seq<Cell> {
    [Label("Topic")] + seq(|dates|, i requires 0 <= i < |dates| => Day(dates[i]))
  }

  /** `[topic] + [date_counts[d] for d in dates]`. */
  function DataRow(topic: string, row: Row, dates: seq<Date>): seq<Cell>
    requires Covers(row, dates)
  {
    [Label(topic)] + seq(|dates|, i requires 0 <= i < |dates| => Count(row[dates[i]]))
  }

  /** The header row followed by the data rows of `topics`, in order. */
  function Rows(report: Report, dates: seq<Date>, topics: seq<string>): seq<seq<Cell>>
    requires forall t :: t in topics ==> t in report.entries && Covers(report.entries[t], dates)
    decreases |topics|
  {
    if topics == [] then [HeaderRow(dates)]
    else
      var m := |topics| - 1;
      Rows(report, dates, topics[..m]) + [DataRow(topics[m], report.entries[topics[m]], dates)]
  }

  /** The table both writers emit: the header row, then one row per topic in report order. */
  function Table(report: Report, dates: seq<Date>): seq<seq<Cell>>
    requires Dense(report, dates)
  {
    Rows(report, dates, report.keys)
  }

  /** The header row lists "Topic" and then the dates, in column order. */
  lemma HeaderRowCells(dates: seq<Date>)
    ensures var h := HeaderRow(dates);
      && |h| == |dates| + 1 && h[0] == Label("Topic")
      && forall j :: 0 <= j < |dates| ==> h[j + 1] == Day(dates[j])
  {
  }

  /** A data row lists the topic and then its counts, in the same column order. */
  lemma DataRowCells(topic: string, row: Row, dates: seq<Date>)
    requires Covers(row, dates)
    ensures var r := DataRow(topic, row, dates);
      && |r| == |dates| + 1 && r[0] == Label(topic)
      && forall j :: 0 <= j < |dates| ==> r[j + 1] == Count(row[dates[j]])
  {
  }

  /** The table is the header row and then one data row per topic, in topic order. */
  lemma {:induction false} RowsShape(report: Report, dates: seq<Date>, topics: seq<string>)
    requires forall t :: t in topics ==> t in report.entries && Covers(report.entries[t], dates)
    ensures var rows := Rows(report, dates, topics);
      && |rows| == |topics| + 1
      && rows[0] == HeaderRow(dates)
      && forall i :: 0 <= i < |topics| ==> rows[i + 1] == DataRow(topics[i], report.entries[topics[i]], dates)
    decreases |topics|
  {
    if topics != [] {
      var m := |topics| - 1;
      RowsShape(report, dates, topics[..m]);
    }
  }

  /** `_write_csv`: the header row, then a row per report topic. */
  method CsvRows(report: Report, dates: seq<Date>) returns (rows: seq<seq<Cell>>)
    requires Dense(report, dates)
    ensures rows == Table(report, dates)
  {
    rows := [HeaderRow(dates)];
    var i := 0;
    while i < |report.keys|
      invariant 0 <= i <= |report.keys|
      invariant rows == Rows(report, dates, report.keys[..i])
    {
      var topic := report.keys[i];
      assert report.keys[..i + 1][..i] == report.keys[..i];
      rows := rows + [DataRow(topic, report.entries[topic], dates)];
      i := i + 1;
    }
    assert report.keys[..i] == report.keys;
  }

  /** `<th>` for a header cell, `<td>` for a data cell. */
  function CellMarkup(c: Cell, header: bool): Markup {
    if header then HeaderCell(c) else DataCell(c)
  }

  /** The cells of a row as HTML, in order. */
  function CellsMarkup(row: seq<Cell>, header: bool): (m: seq<Markup>)
    ensures |m| == |row|
    decreases |row|
  {
    if row == [] then []
    else CellsMarkup(row[..|row| - 1], header) + [CellMarkup(row[|row| - 1], header)]
  }

  /** A table row as HTML: `<tr>`, one `<th>` (header) or `<td>` (data) per cell, `</tr>`. */
  function RowMarkup(row: seq<Cell>, header: bool): seq<Markup> {
    [RowOpen] + CellsMarkup(row, header) + [RowClose]
  }

  /** Data rows as HTML, in order. */
  function DataMarkup(rows: seq<seq<Cell>>): seq<Markup>
    decreases |rows|
  {
    if rows == [] then []
    else DataMarkup(rows[..|rows| - 1]) + RowMarkup(rows[|rows| - 1], false)
  }

  /** A table as HTML: its first row as the header, the rest as data rows. */
  function Html(table: seq<seq<Cell>>): seq<Markup> {
    if table == [] then [] else RowMarkup(table[0], true) + DataMarkup(table[1..])
  }

  /** The header loop of `_write_html`: `<tr><th>Topic</th>`, a `<th>` per date, `</tr>`. */
  method HtmlHeader(dates: seq<Date>) returns (html: seq<Markup>)
    ensures html == RowMarkup(HeaderRow(dates), true)
  {
    ghost var h := HeaderRow(dates);
    assert h[..1] == [Label("Topic")];
    assert [Label("Topic")][..0] == [];
    html := [RowOpen, HeaderCell(Label("Topic"))];
    var j := 0;
    while j < |dates|
      invariant 0 <= j <= |dates|
      invariant html == [RowOpen] + CellsMarkup(h[..j + 1], true)
    {
      assert h[..j + 2][..j + 1] == h[..j + 1];
      html := html + [HeaderCell(Day(dates[j]))];
      j := j + 1;
    }
    assert h[..j + 1] == h;
    html := html + [RowClose];
  }

  /** One iteration of the row loop of `_write_html`: `<tr><td>topic</td>`, a `<td>` per date, `</tr>`. */
  method HtmlDataRow(topic: string, counts: Row, dates: seq<Date>) returns (html: seq<Markup>)
    requires Covers(counts, dates)
    ensures html == RowMarkup(DataRow(topic, counts, dates), false)
  {
    ghost var r := DataRow(topic, counts, dates);
    assert r[..1] == [Label(topic)];
    assert [Label(topic)][..0] == [];
    html := [RowOpen, DataCell(Label(topic))];
    var j := 0;
    while j < |dates|
      invariant 0 <= j <= |dates|
      invariant html == [RowOpen] + CellsMarkup(r[..j + 1], false)
    {
      assert r[..j + 2][..j + 1] == r[..j + 1];
      html := html + [DataCell(Count(counts[dates[j]]))];
      j := j + 1;
    }
    assert r[..j + 1] == r;
    html := html + [RowClose];
  }

  /** Appending a data row to a table appends its markup. */
  lemma HtmlSnoc(table: seq<seq<Cell>>, row: seq<Cell>)
    requires table != []
    ensures Html(table + [row]) == Html(table) + RowMarkup(row, false)
  {
    var t := table + [row];
    assert t[0] == table[0];
    assert t[1..] == table[1..] + [row];
    assert t[1..][..|t[1..]| - 1] == table[1..];
  }

  /** The markup of the first `i + 1` topics' table extends that of the first `i` by topic `i`'s row. */
  lemma HtmlStep(report: Report, dates: seq<Date>, i: nat)
    requires Dense(report, dates) && i < |report.keys|
    ensures var k := report.keys[i];
      Html(Rows(report, dates, report.keys[..i + 1]))
        == Html(Rows(report, dates, report.keys[..i])) + RowMarkup(DataRow(k, report.entries[k], dates), false)
  {
    var k := report.keys[i];
    assert report.keys[..i + 1][..i] == report.keys[..i];
    HtmlSnoc(Rows(report, dates, report.keys[..i]), DataRow(k, report.entries[k], dates));
  }

  /** `_write_html`'s table: the same rows as the CSV, as markup. */
  method HtmlRows(report: Report, dates: seq<Date>) returns (html: seq<Markup>)
    requires Dense(report, dates)
    ensures html == Html(Table(report, dates))
  {
    html := HtmlHeader(dates);
    assert [HeaderRow(dates)][1..] == [];
    var i := 0;
    while i < |report.keys|
      invariant 0 <= i <= |report.keys|
      invariant html == Html(Rows(report, dates, report.keys[..i]))
    {
      var topic := report.keys[i];
      var row := HtmlDataRow(topic, report.entries[topic], dates);
      HtmlStep(report, dates, i);
      html := html + row;
      i := i + 1;
    }
    assert report.keys[..i] == report.keys;
  }

  /**
   * `run`: the date columns for `target`, the dense report filtered to the
   * active topics (the JSON output), and the CSV and HTML tables of it.
   */
  method Run(trend: TopicCounter.TrendStore, target: Date)
    returns (report: Report, dates: seq<Date>, csv: seq<seq<Cell>>, html: seq<Markup>)
    requires Valid(trend)
    ensures IsDateRange(dates, target)
    ensures report == TrendReport(trend, dates)
    ensures Dense(report, dates) && csv == Table(report, dates) && html == Html(csv)
  {
    dates := GenerateDateRange(target);
    var full := BuildFullReport(trend, dates);
    report := Filtered(full);
    ReportOrder(trend, dates);
    ReportContents(trend, dates);
    csv := CsvRows(report, dates);
    html := HtmlRows(report, dates);
  }

  // ----- the report after a counting run -----

  /**
   * A topic that got reviews on the run for `target` appears in that day's
   * report, with its tally in the `target` column.
   */
  lemma ReportShowsTally(trend: TopicCounter.TrendStore, seen: set<string>, rs: seq<CleanerMemory.Review>,
                         topics: seq<string>, target: Date, hash: string -> string, t: string, dates: seq<Date>)
    requires IsDateRange(dates, target)
    requires t in topics
    ensures var after := TopicCounter.RunTrend(trend, seen, rs, topics, target, hash);
      var r := TrendReport(after, dates);
      var n := TopicCounter.Tally(seen, topics, rs, hash, t);
      && (n > 0 ==> t in r.entries)
      && (t in r.entries ==> target in r.entries[t] && r.entries[t][target] == n)
  {
    var after := TopicCounter.RunTrend(trend, seen, rs, topics, target, hash);
    TopicCounter.RunTopicEffect(trend, seen, rs, topics, target, hash, t);
    ReportContents(after, dates);
    DateRangeOrder(dates, target);
    assert dates[WINDOW_DAYS - 1] == target;
  }

  /**
   * Retention keeps one day more than the report shows: the count at
   * `target - 30` survives the counter's window but is in no report column.
   */
  lemma OldestRetainedDayNotReported(counts: TopicCounter.Counts, target: Date, dates: seq<Date>)
    requires IsDateRange(dates, target)
    requires target - TopicCounter.WINDOW_DAYS in counts
    ensures target - TopicCounter.WINDOW_DAYS in TopicCounter.Retain(counts, target)
    ensures target - TopicCounter.WINDOW_DAYS !in dates
  {
    DateRangeOrder(dates, target);
  }
}
