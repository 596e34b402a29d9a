/**
 * The sequential logic of the analyser's `NewsAnalyzerServer`: the record
 * store and `recordAnalysis`, the counts of `printLiveStatistics`, the CSV
 * export of `saveAndPrintAnalyzedItems`, and the port chosen by `main`.
 */
module NewsAnalyzerServer {
  import opened Wrappers
  import opened JavaString
  import opened AnalyzedNewsItem

  /** `DEFAULT_PORT`. */
  const DefaultPort := 9090
  const MinPort := 1
  const MaxPort := 65535

  /** The CSV header line, without its line separator. */
  const CsvHeader: string := "AnalysisTimestamp,Headline,Priority,AnalysisResult"

  /** The line separator `println` and `%n` write; Unix's is assumed. */
  const LineSeparator: string := "\n"

  /** The server object: the port it was built with and its store of records. */
  class Server {
    const port: int
    var store: seq<AnalyzedRecord>

    constructor (port: int)
      ensures this.port == port && store == []
    {
      this.port := port;
      store := [];
    }

    /** `recordAnalysis`: the store grows by one record; the earlier ones stay as they were. */
    method RecordAnalysis(item: Option<ReceivedItem>, result: AnalysisResult, now: Timestamp)
      modifies this
      ensures store == old(store) + [AnalyzedRecord(item, result, now)]
    {
      store := store + [AnalyzedRecord(item, result, now)];
    }

    /**
     * `saveAndPrintAnalyzedItems` on the CSV file whose content is `file`
     * (`None`: no such file). Returns the file afterwards and the number of
     * records saved. An empty store returns before the file is opened.
     * Opening in append mode creates a missing file, so a missing and an
     * empty file both get the header.
     */
    method SaveAnalyzedItems(file: Option<string>) returns (after: Option<string>, saved: nat)
      ensures store == [] ==> after == file && saved == 0
      ensures store != [] ==> saved == |store| && after == Some(Prologue(file) + Rows(store))
    {
      if |store| == 0 {
        return file, 0;
      }
      var content := file.GetOr("");
      var fileIsEmpty := |content| == 0;
      if fileIsEmpty {
        content := content + CsvHeader + LineSeparator;
      }
      assert content == Prologue(file) + Rows(store[..0]);
      for i := 0 to |store|
        invariant content == Prologue(file) + Rows(store[..i])
      {
        RowsStep(store, i);
        AppendAssoc(Prologue(file), Rows(store[..i]), Row(store[i]));
        content := content + Row(store[i]);
      }
      assert store[..|store|] == store;
      return Some(content), |store|;
    }
  }

  /** What stays in front of the rows: the earlier content, or the header when the file is empty. */
  function Prologue(file: Option<string>): string {
    var existing := file.GetOr("");
    if existing == [] then CsvHeader + LineSeparator else existing
  }

  // ------------------------------------------------------------ statistics

  /** How many records carry verdict `r`. */
  function Count(records: seq<AnalyzedRecord>, r: AnalysisResult): (n: nat)
    ensures n <= |records|
  {
    if records == [] then 0
    else Count(records[..|records| - 1], r) + (if records[|records| - 1].result == r then 1 else 0)
  }

  lemma {:induction false} CountsSum(records: seq<AnalyzedRecord>)
    ensures Count(records, Positive) + Count(records, Negative) + Count(records, Neutral) == |records|
  {
    if records != [] {
      CountsSum(records[..|records| - 1]);
    }
  }

  /** Appending a record raises the count of its verdict by one and leaves the others. */
  lemma CountAfterRecord(records: seq<AnalyzedRecord>, rec: AnalyzedRecord, r: AnalysisResult)
    ensures Count(records + [rec], r) == Count(records, r) + (if rec.result == r then 1 else 0)
  {
    assert (records + [rec])[..|records|] == records;
  }

  /** What one cycle of `printLiveStatistics` reports, without the percentages. */
  datatype Statistics = NoItemsYet | Totals(total: nat, positive: nat, negative: nat, neutral: nat)

  function LiveStatistics(store: seq<AnalyzedRecord>): (s: Statistics)
    ensures s.NoItemsYet? <==> store == []
    ensures s.Totals? ==> s.total == |store| && s.positive + s.negative + s.neutral == s.total
    ensures s.Totals? ==> s.positive == Count(store, Positive) && s.negative == Count(store, Negative)
                          && s.neutral == Count(store, Neutral)
  {
    if store == [] then NoItemsYet
    else
      CountsSum(store);
      Totals(|store|, Count(store, Positive), Count(store, Negative), Count(store, Neutral))
  }

  // ------------------------------------------------------------------- CSV

  /** The headline a record carries: empty for a null item or a null headline. */
  function HeadlineText(rec: AnalyzedRecord): string {
    if rec.originalItem.Some? && rec.originalItem.value.headline.Some?
    then rec.originalItem.value.headline.value
    else ""
  }

  /** The priority column: `-1` for a null item. */
  function PriorityField(rec: AnalyzedRecord): int {
    if rec.originalItem.Some? then rec.originalItem.value.priority else -1
  }

  /** One `"\"%s\",\"%s\",%d,%s%n"` line, the headline's quotes doubled. */
  function Row(rec: AnalyzedRecord): string {
    "\"" + rec.timestamp + "\",\"" + DoubleQuotes(HeadlineText(rec)) + "\"," + IntToString(PriorityField(rec))
    + "," + rec.result.Name() + LineSeparator
  }

  /** The line of each record, in store order. */
  function Lines(records: seq<AnalyzedRecord>): seq<string>
  {
    seq(|records|, i requires 0 <= i < |records| => Row(records[i]))
  }

  /** Lines written one after the other. */
  function Concat(lines: seq<string>): string {
    if lines == [] then "" else Concat(lines[..|lines| - 1]) + lines[|lines| - 1]
  }

  lemma {:induction false} ConcatCons(line: string, lines: seq<string>)
    ensures Concat([line] + lines) == line + Concat(lines)
    decreases |lines|
  {
    if lines == [] {
      assert ([line] + lines)[..0] == [];
    } else {
      var n := |lines|;
      assert ([line] + lines)[..n] == [line] + lines[..n - 1];
      ConcatCons(line, lines[..n - 1]);
    }
  }

  lemma RowsStep(records: seq<AnalyzedRecord>, i: nat)
    requires i < |records|
    ensures Rows(records[..i + 1]) == Rows(records[..i]) + Row(records[i])
  {
    assert Lines(records[..i + 1])[..i] == Lines(records[..i]);
  }

  lemma AppendAssoc(a: string, b: string, c: string)
    ensures (a + b) + c == a + (b + c)
  {
  }

  /** The text the rows of the records take up in the file. */
  function Rows(records: seq<AnalyzedRecord>): string {
    Concat(Lines(records))
  }

  // ------------------------------------------------- reading the CSV back

  /** The four columns of one line, as a reader of the file sees them. */
  datatype CsvRow = CsvRow(timestamp: string, headline: string, priority: int, result: string)

  /** What the line of a record says: the original headline, not its escaped form. */
  function Expected(rec: AnalyzedRecord): CsvRow {
    CsvRow(
      rec.timestamp,
      HeadlineText(rec),
      PriorityField(rec),
      rec.result.Name())
  }

  /** Reads a quoted field whose opening quote is already consumed: `""` stands for `"`, a lone `"` closes. */
  function ReadQuoted(s: string): (r: Option<(string, string)>)
    ensures r.Some? ==> |r.value.1| < |s|
    decreases |s|
  {
    if s == [] then None
    else if s[0] == '"' then
      if |s| >= 2 && s[1] == '"' then
        match ReadQuoted(s[2..])
        case None => None
        case Some(p) => Some(("\"" + p.0, p.1))
      else Some(("", s[1..]))
    else
      match ReadQuoted(s[1..])
      case None => None
      case Some(p) => Some(([s[0]] + p.0, p.1))
  }

  /** The characters before the first `c`, and what follows that `c`. */
  function ReadUntil(s: string, c: char): (r: Option<(string, string)>)
    ensures r.Some? ==> |r.value.1| < |s|
  {
    if s == [] then None
    else if s[0] == c then Some(("", s[1..]))
    else
      match ReadUntil(s[1..], c)
      case None => None
      case Some(p) => Some(([s[0]] + p.0, p.1))
  }

  /** Reads one line of the file. */
  function DecodeRow(s: string): (r: Option<(CsvRow, string)>)
    ensures r.Some? ==> |r.value.1| < |s|
  {
    if s == [] || s[0] != '"' then None
    else match ReadQuoted(s[1..])
      case None => None
      case Some(t) =>
        var (ts, r1) := t;
        if |r1| < 2 || r1[0] != ',' || r1[1] != '"' then None
        else match ReadQuoted(r1[2..])
          case None => None
          case Some(u) =>
            var (h, r2) := u;
            if r2 == [] || r2[0] != ',' then None
            else match ReadUntil(r2[1..], ',')
              case None => None
              case Some(v) =>
                var (digits, r3) := v;
                match ReadInt(digits)
                case None => None
                case Some(p) =>
                  match ReadUntil(r3, '\n')
                  case None => None
                  case Some(w) => Some((CsvRow(ts, h, p, w.0), w.1))
  }

  /** Reads lines until the text is used up. */
  function DecodeRows(s: string): Option<seq<CsvRow>>
    decreases |s|
  {
    if s == [] then Some([])
    else match DecodeRow(s)
      case None => None
      case Some(p) =>
        match DecodeRows(p.1)
        case None => None
        case Some(rows) => Some([p.0] + rows)
  }

  /** A field escaped by quote doubling and closed by a lone quote reads back as the original. */
  lemma {:induction false} ReadEscaped(h: string, rest: string)
    requires rest == [] || rest[0] != '"'
    ensures ReadQuoted(DoubleQuotes(h) + "\"" + rest) == Some((h, rest))
    decreases |h|
  {
    var s := DoubleQuotes(h) + "\"" + rest;
    if h == [] {
      assert s == "\"" + rest;
    } else {
      ReadEscaped(h[1..], rest);
      var tail := DoubleQuotes(h[1..]) + "\"" + rest;
      var first := if h[0] == '"' then "\"\"" else [h[0]];
      assert DoubleQuotes(h) == first + DoubleQuotes(h[1..]);
      AppendAssoc(first, DoubleQuotes(h[1..]) + "\"", rest);
      AppendAssoc(first, DoubleQuotes(h[1..]), "\"");
      assert s == first + tail;
      assert s[|first|..] == tail;
      assert [h[0]] + h[1..] == h;
    }
  }

  /** Reading up to a separator that the field does not contain. */
  lemma {:induction false} ReadUntilField(field: string, c: char, rest: string)
    requires forall i :: 0 <= i < |field| ==> field[i] != c
    ensures ReadUntil(field + [c] + rest, c) == Some((field, rest))
    decreases |field|
  {
    var s := field + [c] + rest;
    if field == [] {
      assert s == [c] + rest;
      assert s[1..] == rest;
    } else {
      assert s[1..] == field[1..] + [c] + rest;
      ReadUntilField(field[1..], c, rest);
      assert [field[0]] + field[1..] == field;
    }
  }

  lemma NameHasNoSeparator(r: AnalysisResult)
    ensures forall i :: 0 <= i < |r.Name()| ==> r.Name()[i] != '\n' && r.Name()[i] != ','
  {
  }

  lemma DigitsHaveNoComma(i: int)
    ensures forall k :: 0 <= k < |IntToString(i)| ==> IntToString(i)[k] != ','
  {
  }

  /** A timestamp the reader can take back: the ISO-8601 rendering never holds a quote. */
  predicate ReadableTimestamp(rec: AnalyzedRecord) {
    forall i :: 0 <= i < |rec.timestamp| ==> rec.timestamp[i] != '"'
  }

  /** One line in the layout `Row` writes, its four columns given. */
  lemma DecodeLine(ts: string, h: string, d: string, p: int, n: string, rest: string)
    requires forall i :: 0 <= i < |ts| ==> ts[i] != '"'
    requires forall i :: 0 <= i < |d| ==> d[i] != ','
    requires ReadInt(d) == Some(p)
    requires forall i :: 0 <= i < |n| ==> n[i] != '\n'
    ensures DecodeRow("\"" + ts + "\",\"" + DoubleQuotes(h) + "\"," + d + "," + n + "\n" + rest)
            == Some((CsvRow(ts, h, p, n), rest))
  {
    var eh := DoubleQuotes(h);
    var r4 := n + ['\n'] + rest;
    var r3 := d + [','] + r4;
    var r2 := "," + r3;
    var r1 := ",\"" + (eh + "\"" + r2);
    var s := "\"" + ts + "\",\"" + eh + "\"," + d + "," + n + "\n" + rest;
    LineLayout(ts, eh, d, n, rest);
    DoubleQuotesWithoutQuote(ts);
    ReadEscaped(ts, r1);
    ReadEscaped(h, r2);
    ReadUntilField(d, ',', r4);
    ReadUntilField(n, '\n', rest);
    DecodeRowSteps(s, ts, r1, h, r2, d, r4, p, n, rest);
  }

  /** The line regrouped from the right, the way the readers take it apart. */
  lemma LineLayout(ts: string, eh: string, d: string, n: string, rest: string)
    ensures var s := "\"" + ts + "\",\"" + eh + "\"," + d + "," + n + "\n" + rest;
      var r2 := "," + (d + [','] + (n + ['\n'] + rest));
      var r1 := ",\"" + (eh + "\"" + r2);
      && s[0] == '"' && s[1..] == ts + "\"" + r1
      && r1[..2] == ",\"" && r1[2..] == eh + "\"" + r2
      && r2[0] == ',' && r2[1..] == d + [','] + (n + ['\n'] + rest)
  {
    var r4 := n + ['\n'] + rest;
    var r3 := d + [','] + r4;
    var r2 := "," + r3;
    var r1 := ",\"" + (eh + "\"" + r2);
    var s := "\"" + ts + "\",\"" + eh + "\"," + d + "," + n + "\n" + rest;
    assert s == "\"" + (ts + "\"" + r1);
  }

  /** `DecodeRow` column by column: each reader takes what the previous one left. */
  lemma DecodeRowSteps(s: string, ts: string, r1: string, h: string, r2: string, d: string, r3: string, p: int, n: string, rest: string)
    requires s != [] && s[0] == '"'
    requires ReadQuoted(s[1..]) == Some((ts, r1))
    requires |r1| >= 2 && r1[0] == ',' && r1[1] == '"'
    requires ReadQuoted(r1[2..]) == Some((h, r2))
    requires r2 != [] && r2[0] == ','
    requires ReadUntil(r2[1..], ',') == Some((d, r3))
    requires ReadInt(d) == Some(p)
    requires ReadUntil(r3, '\n') == Some((n, rest))
    ensures DecodeRow(s) == Some((CsvRow(ts, h, p, n), rest))
  {
  }

  /** The line of a record, followed by anything, reads back as that record's columns. */
  lemma DecodeRowOfRow(rec: AnalyzedRecord, rest: string)
    requires ReadableTimestamp(rec)
    ensures DecodeRow(Row(rec) + rest) == Some((Expected(rec), rest))
  {
    DigitsHaveNoComma(PriorityField(rec));
    ReadIntOfIntToString(PriorityField(rec));
    NameHasNoSeparator(rec.result);
    DecodeLine(rec.timestamp, HeadlineText(rec), IntToString(PriorityField(rec)), PriorityField(rec), rec.result.Name(), rest);
  }

  /** The columns of each record, in store order. */
  function ExpectedRows(records: seq<AnalyzedRecord>): seq<CsvRow>
  {
    seq(|records|, i requires 0 <= i < |records| => Expected(records[i]))
  }

  /** Reading back the rows written for a store gives one row per record, in order, with the original headlines. */
  lemma {:induction false} DecodeRowsOfRows(records: seq<AnalyzedRecord>)
    requires forall i :: 0 <= i < |records| ==> ReadableTimestamp(records[i])
    ensures DecodeRows(Rows(records)) == Some(ExpectedRows(records))
    ensures |DecodeRows(Rows(records)).value| == |records|
    ensures forall i :: 0 <= i < |records| ==> DecodeRows(Rows(records)).value[i] == Expected(records[i])
    decreases |records|
  {
    if records == [] {
      assert Lines(records) == [];
    } else {
      DecodeRowsOfRows(records[1..]);
      DecodeRowsCons(records);
    }
  }

  /** The step of `DecodeRowsOfRows`: the first line reads back, then the others as before. */
  lemma DecodeRowsCons(records: seq<AnalyzedRecord>)
    requires records != []
    requires ReadableTimestamp(records[0])
    requires DecodeRows(Rows(records[1..])) == Some(ExpectedRows(records[1..]))
    ensures DecodeRows(Rows(records)) == Some(ExpectedRows(records))
  {
    var rec, more := records[0], records[1..];
    RowsCons(records);
    ExpectedRowsCons(records);
    DecodeRowOfRow(rec, Rows(more));
    DecodeRowsStep(Row(rec) + Rows(more), Expected(rec), Rows(more), ExpectedRows(more));
  }

  lemma RowsCons(records: seq<AnalyzedRecord>)
    requires records != []
    ensures Rows(records) == Row(records[0]) + Rows(records[1..])
  {
    assert Lines(records) == [Row(records[0])] + Lines(records[1..]);
    ConcatCons(Row(records[0]), Lines(records[1..]));
  }

  lemma ExpectedRowsCons(records: seq<AnalyzedRecord>)
    requires records != []
    ensures ExpectedRows(records) == [Expected(records[0])] + ExpectedRows(records[1..])
  {
  }

  lemma DecodeRowsStep(s: string, row: CsvRow, rest: string, rows: seq<CsvRow>)
    requires DecodeRow(s) == Some((row, rest))
    requires DecodeRows(rest) == Some(rows)
    ensures DecodeRows(s) == Some([row] + rows)
  {
  }

  /**
   * What a save leaves behind: the header line (for an empty or missing file)
   * or the earlier content untouched, and after it text that reads back as
   * exactly the stored records, in order.
   */
  lemma SavedFileReadsBack(file: Option<string>, store: seq<AnalyzedRecord>)
    requires forall i :: 0 <= i < |store| ==> ReadableTimestamp(store[i])
    ensures var saved := Prologue(file) + Rows(store);
      && (file.GetOr("") == [] ==> saved[..|CsvHeader + LineSeparator|] == CsvHeader + LineSeparator)
      && (file.GetOr("") != [] ==> saved[..|file.value|] == file.value)
      && DecodeRows(saved[|Prologue(file)|..]) == Some(ExpectedRows(store))
  {
    var pro, rows := Prologue(file), Rows(store);
    assert (pro + rows)[..|pro|] == pro;
    assert (pro + rows)[|pro|..] == rows;
    DecodeRowsOfRows(store);
  }

  // ------------------------------------------------------ port selection

  /** A port `ServerSocket` accepts. */
  predicate InPortRange(p: int) {
    MinPort <= p <= MaxPort
  }

  /**
   * The port `main` listens on: the first argument when `parseInt` reads it
   * as a number in range, the default otherwise (no argument, not a number,
   * or out of range).
   */
  function ChosenPort(args: seq<string>, parseInt: string -> Option<int>): (port: int)
    ensures InPortRange(port)
    ensures port != DefaultPort ==> args != [] && parseInt(args[0]) == Some(port)
  {
    if args == [] then DefaultPort
    else match parseInt(args[0])
      case None => DefaultPort
      case Some(v) => if InPortRange(v) then v else DefaultPort
  }

  /** The three ways of falling back to the default, and the one way of keeping the argument. */
  lemma ChosenPortCases(args: seq<string>, parseInt: string -> Option<int>)
    ensures args == [] ==> ChosenPort(args, parseInt) == DefaultPort
    ensures args != [] && parseInt(args[0]).None? ==> ChosenPort(args, parseInt) == DefaultPort
    ensures args != [] && parseInt(args[0]).Some? && !InPortRange(parseInt(args[0]).value)
            ==> ChosenPort(args, parseInt) == DefaultPort
    ensures args != [] && parseInt(args[0]).Some? && InPortRange(parseInt(args[0]).value)
            ==> ChosenPort(args, parseInt) == parseInt(args[0]).value
  {
  }

  /**
   * The port logic of `main`, as written: `portArg` starts at the default, is
   * overwritten by the parsed argument, and is put back when out of range. A
   * `NumberFormatException` happens before the assignment, so the default stays.
   */
  method PortFromArguments(args: seq<string>, parseInt: string -> Option<int>) returns (portArg: int)
    ensures portArg == ChosenPort(args, parseInt)
  {
    portArg := DefaultPort;
    if |args| > 0 {
      var parsed := parseInt(args[0]);
      if parsed.Some? {
        portArg := parsed.value;
        if portArg < MinPort || portArg > MaxPort {
          portArg := DefaultPort;
        }
      }
    }
  }
}
