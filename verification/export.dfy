/** The CSV download of the result list, and a reader for it. The reader
    follows the quoting rules of RFC 4180, section 2 (a quoted field may
    hold commas; a quote inside it is written twice) and reads one record
    per line. */
module Export {
  import opened Wrappers
  import opened Text
  import opened Decimal
  import opened Records

  /** The column titles of the download. */
  const Columns := ["NO", "BTT", "TANGGAL HISTORY", "KETERANGAN", "POSISI", "STATUS"]

  /** `NO,BTT,TANGGAL HISTORY,KETERANGAN,POSISI,STATUS`. */
  const HeaderRow := Join(Columns, ',')

  /** The five text columns of a record, in column order. */
  function TextFields(r: Record): seq<string> {
    [r.btt, r.tanggal, r.keterangan, r.posisi, r.status]
  }

  /** What goes between the quotes of one cell: the value itself as the
      download writes it, or with each `"` doubled when `escape` is set. */
  function Cell(f: string, escape: bool): string {
    if escape then ReplaceAll(f, '"', "\"\"") else f
  }

  /** `,"f1","f2",...` for the given values. */
  function QuotedCells(fs: seq<string>, escape: bool): string {
    if fs == [] then []
    else ",\"" + Cell(fs[0], escape) + "\"" + QuotedCells(fs[1..], escape)
  }

  /** One data row: the number unquoted, then the five text columns in
      double quotes, no line break. */
  function RowText(r: Record, escape: bool): string {
    ToDecimal(r.no) + QuotedCells(TextFields(r), escape)
  }

  /** The rows of the download, one per record, in order. */
  function RowLines(recs: seq<Record>, escape: bool): (r: seq<string>)
    ensures |r| == |recs|
  {
    if recs == [] then [] else [RowText(recs[0], escape)] + RowLines(recs[1..], escape)
  }

  /** Each line followed by `\n`. */
  function Terminated(lines: seq<string>): string {
    if lines == [] then [] else lines[0] + "\n" + Terminated(lines[1..])
  }

  /** The download text: nothing for an empty list (the code shows an
      alert instead), otherwise the header line and one line per record,
      each ended by `\n`. */
  function ExportText(recs: seq<Record>, escape: bool): (r: Option<string>)
    ensures r.None? <==> recs == []
    ensures r.Some? ==> StartsWith(r.value, HeaderRow + "\n")
  {
    if recs == [] then None
    else
      var out := Terminated([HeaderRow] + RowLines(recs, escape));
      assert ([HeaderRow] + RowLines(recs, escape))[1..] == RowLines(recs, escape);
      assert out[..|HeaderRow + "\n"|] == HeaderRow + "\n";
      Some(out)
  }

  /** `exportToCSV()` as written: each value is put between quotes as it
      is, with no escaping of quotes inside it. */
  function ExportCsv(recs: seq<Record>): Option<string> {
    ExportText(recs, false)
  }

  /** The download with RFC 4180 quote doubling, which the reader needs to
      get any value back. */
  function ExportCsvEscaped(recs: seq<Record>): Option<string> {
    ExportText(recs, true)
  }

  // ---------------------------------------------------------------- reader

  /** The index of the first comma, or the length when there is none. */
  function CommaEnd(s: string): (k: nat)
    ensures k <= |s|
    ensures ',' !in s[..k]
    ensures k < |s| ==> s[k] == ','
  {
    if s == [] then 0
    else if s[0] == ',' then 0
    else
      var k := CommaEnd(s[1..]);
      assert s[..k + 1] == [s[0]] + s[1..][..k];
      k + 1
  }

  /** The body of a quoted field, read after its opening quote: `""`
      stands for one quote, a lone `"` closes the field. Gives the value
      and what follows the closing quote; nothing if it never closes. */
  function ParseQuoted(s: string): (r: Option<(string, string)>)
    ensures r.Some? ==> |r.value.1| < |s|
  {
    if s == [] then None
    else if s[0] == '"' then
      if |s| >= 2 && s[1] == '"' then
        match ParseQuoted(s[2..])
        case None => None
        case Some((f, rest)) => Some(("\"" + f, rest))
      else Some(([], s[1..]))
    else
      match ParseQuoted(s[1..])
      case None => None
      case Some((f, rest)) => Some(([s[0]] + f, rest))
  }

  /** One field and what follows it, which must be the end of the line or
      a comma. An unquoted field may not hold a quote. */
  function ParseField(s: string): (r: Option<(string, string)>)
    ensures r.Some? ==> |r.value.1| <= |s|
    ensures r.Some? ==> r.value.1 == [] || r.value.1[0] == ','
  {
    if s != [] && s[0] == '"' then
      match ParseQuoted(s[1..])
      case None => None
      case Some((f, rest)) =>
        if rest == [] || rest[0] == ',' then Some((f, rest)) else None
    else
      var k := CommaEnd(s);
      if '"' in s[..k] then None else Some((s[..k], s[k..]))
  }

  /** The fields after the first, each introduced by a comma. */
  function ParseTail(s: string): Option<seq<string>>
    decreases |s|
  {
    if s == [] then Some([])
    else if s[0] != ',' then None
    else
      match ParseField(s[1..])
      case None => None
      case Some((f, rest)) =>
        match ParseTail(rest)
        case None => None
        case Some(fs) => Some([f] + fs)
  }

  /** All fields of one line. */
  function ParseRow(s: string): (r: Option<seq<string>>)
    ensures r.Some? ==> |r.value| >= 1
  {
    match ParseField(s)
    case None => None
    case Some((f, rest)) =>
      match ParseTail(rest)
      case None => None
      case Some(fs) => Some([f] + fs)
  }

  /** A record from one line: six fields, the first a decimal number. */
  function ParseRecord(line: string): (r: Option<Record>)
    ensures r.Some? ==> ParseRow(line).Some? && |ParseRow(line).value| == 6
    ensures r.Some? ==> TextFields(r.value) == ParseRow(line).value[1..]
  {
    match ParseRow(line)
    case None => None
    case Some(fs) =>
      if |fs| != 6 then None
      else
        match ParseDecimal(fs[0])
        case None => None
        case Some(n) => Some(Record(n, fs[1], fs[2], fs[3], fs[4], fs[5]))
  }

  /** Records from the data lines, failing if any line does not parse. */
  function ParseRecords(lines: seq<string>): (r: Option<seq<Record>>)
    ensures r.Some? ==> |r.value| == |lines|
  {
    if lines == [] then Some([])
    else
      match ParseRecord(lines[0])
      case None => None
      case Some(rec) =>
        match ParseRecords(lines[1..])
        case None => None
        case Some(recs) => Some([rec] + recs)
  }

  /** Reads a downloaded file back: the header line, one record per line
      and a final line break. */
  function ImportCsv(text: string): Option<seq<Record>> {
    var lines := Split(text, '\n');
    if |lines| < 2 || lines[0] != HeaderRow || lines[|lines| - 1] != [] then None
    else ParseRecords(lines[1..|lines| - 1])
  }

  // ---------------------------------------------------------------- lemmas

  /** No text column holds a line break. */
  predicate OneLine(r: Record) {
    forall k :: 0 <= k < |TextFields(r)| ==> '\n' !in TextFields(r)[k]
  }

  /** What the reader needs to get the values back between quotes: no
      quote in any text column, unless quotes are doubled. */
  predicate QuoteSafe(r: Record, escape: bool) {
    escape || forall k :: 0 <= k < |TextFields(r)| ==> '"' !in TextFields(r)[k]
  }

  /** A doubled quote reads as one quote of the value. */
  lemma ParseQuotedDoubled(tail: string, f: string, rest: string)
    requires ParseQuoted(tail) == Some((f, rest))
    ensures ParseQuoted("\"\"" + tail) == Some(("\"" + f, rest))
  {
    assert ("\"\"" + tail)[2..] == tail;
  }

  /** Any other character is part of the value. */
  lemma ParseQuotedChar(c: char, tail: string, f: string, rest: string)
    requires c != '"'
    requires ParseQuoted(tail) == Some((f, rest))
    ensures ParseQuoted([c] + tail) == Some(([c] + f, rest))
  {
    assert ([c] + tail)[1..] == tail;
  }

  lemma CellCons(f: string, escape: bool)
    requires f != []
    ensures Cell(f, escape) == (if escape && f[0] == '"' then "\"\"" else [f[0]]) + Cell(f[1..], escape)
  {
  }

  /** A cell's body followed by the closing quote reads back as its value,
      when what follows the closing quote does not begin with a quote. */
  lemma {:induction false} ParseQuotedCell(f: string, escape: bool, closing: string)
    requires escape || '"' !in f
    requires |closing| >= 1 && closing[0] == '"'
    requires |closing| == 1 || closing[1] != '"'
    ensures ParseQuoted(Cell(f, escape) + closing) == Some((f, closing[1..]))
    decreases |f|
  {
    if f == [] {
      assert Cell(f, escape) + closing == closing;
    } else {
      assert escape || '"' !in f[1..] by {
        assert forall x :: x in f[1..] ==> x in f;
      }
      ParseQuotedCell(f[1..], escape, closing);
      ParseQuotedCellStep(f, escape, closing);
    }
  }

  /** One character of a cell's body: the first character read on top of
      the rest of the body. */
  lemma ParseQuotedCellStep(f: string, escape: bool, closing: string)
    requires f != [] && closing != []
    requires escape || f[0] != '"'
    requires ParseQuoted(Cell(f[1..], escape) + closing) == Some((f[1..], closing[1..]))
    ensures ParseQuoted(Cell(f, escape) + closing) == Some((f, closing[1..]))
  {
    var tail := Cell(f[1..], escape) + closing;
    CellCons(f, escape);
    if escape && f[0] == '"' {
      PrefixAssoc("\"\"", Cell(f[1..], escape), closing);
      ParseQuotedDoubled(tail, f[1..], closing[1..]);
      assert "\"" + f[1..] == f;
    } else {
      PrefixAssoc([f[0]], Cell(f[1..], escape), closing);
      ParseQuotedChar(f[0], tail, f[1..], closing[1..]);
      assert [f[0]] + f[1..] == f;
    }
  }

  /** Regrouping a concatenation. Kept as a lemma so that the step above
      sees only this instance of it. */
  lemma PrefixAssoc(p: string, c: string, closing: string)
    ensures (p + c) + closing == p + (c + closing)
  {
  }

  /** A quoted cell followed by the end of the line or a comma reads as
      one field. */
  lemma ParseFieldQuoted(f: string, escape: bool, rest: string)
    requires escape || '"' !in f
    requires rest == [] || rest[0] == ','
    ensures ParseField("\"" + Cell(f, escape) + "\"" + rest) == Some((f, rest))
  {
    var s := "\"" + (Cell(f, escape) + ("\"" + rest));
    assert s == "\"" + Cell(f, escape) + "\"" + rest;
    assert s[0] == '"' && s[1..] == Cell(f, escape) + ("\"" + rest);
    ParseQuotedCell(f, escape, "\"" + rest);
  }

  /** The quoted cells of a row read back as their values. */
  lemma {:induction false} ParseQuotedCells(fs: seq<string>, escape: bool)
    requires forall k :: 0 <= k < |fs| ==> escape || '"' !in fs[k]
    ensures ParseTail(QuotedCells(fs, escape)) == Some(fs)
    decreases |fs|
  {
    if fs != [] {
      var rest := QuotedCells(fs[1..], escape);
      var s := ",\"" + Cell(fs[0], escape) + "\"" + rest;
      assert s == QuotedCells(fs, escape);
      DropComma(Cell(fs[0], escape), rest);
      ParseFieldQuoted(fs[0], escape, rest);
      ParseQuotedCells(fs[1..], escape);
      assert [fs[0]] + fs[1..] == fs;
    }
  }

  /** The comma in front of a quoted cell. Kept as a lemma so that the
      proof above sees only this instance of it. */
  lemma DropComma(c: string, rest: string)
    ensures var s := ",\"" + c + "\"" + rest;
      s != [] && s[0] == ',' && s[1..] == "\"" + c + "\"" + rest
  {
  }

  /** The first comma of `a + b` is the one starting `b`. */
  lemma {:induction false} CommaEndAppend(a: string, b: string)
    requires ',' !in a
    requires b == [] || b[0] == ','
    ensures CommaEnd(a + b) == |a|
    decreases |a|
  {
    if a != [] {
      assert (a + b)[1..] == a[1..] + b;
      assert ',' !in a[1..] by {
        assert forall x :: x in a[1..] ==> x in a;
      }
      CommaEndAppend(a[1..], b);
    }
  }

  /** The number column has no comma or quote, so it reads back whole. */
  lemma ParseNumberField(n: nat, rest: string)
    requires rest == [] || rest[0] == ','
    ensures ParseField(ToDecimal(n) + rest) == Some((ToDecimal(n), rest))
  {
    var d := ToDecimal(n);
    var s := d + rest;
    assert s[0] == d[0];
    assert ',' !in d by {
      forall i | 0 <= i < |d| ensures d[i] != ',' { assert IsDigit(d[i]); }
    }
    CommaEndAppend(d, rest);
    assert s[..|d|] == d && s[|d|..] == rest;
    assert '"' !in d by {
      forall i | 0 <= i < |d| ensures d[i] != '"' { assert IsDigit(d[i]); }
    }
  }

  /** Each row the download writes reads back as its record. */
  lemma ParseRowText(r: Record, escape: bool)
    requires QuoteSafe(r, escape)
    ensures ParseRecord(RowText(r, escape)) == Some(r)
  {
    var fs := TextFields(r);
    var cells := QuotedCells(fs, escape);
    assert cells == [] || cells[0] == ',';
    ParseNumberField(r.no, cells);
    ParseQuotedCells(fs, escape);
    assert ParseRow(RowText(r, escape)) == Some([ToDecimal(r.no)] + fs);
    DecimalRoundTrip(r.no);
  }

  /** A value without line breaks keeps none in its cell. */
  lemma {:induction false} CellNoNewline(f: string, escape: bool)
    requires '\n' !in f
    ensures '\n' !in Cell(f, escape)
    decreases |f|
  {
    if escape && f != [] {
      assert forall x :: x in f[1..] ==> x in f;
      CellNoNewline(f[1..], escape);
      assert Cell(f, escape) == (if f[0] == '"' then "\"\"" else [f[0]]) + Cell(f[1..], escape);
    }
  }

  lemma {:induction false} QuotedCellsNoNewline(fs: seq<string>, escape: bool)
    requires forall k :: 0 <= k < |fs| ==> '\n' !in fs[k]
    ensures '\n' !in QuotedCells(fs, escape)
    decreases |fs|
  {
    if fs != [] {
      CellNoNewline(fs[0], escape);
      QuotedCellsNoNewline(fs[1..], escape);
    }
  }

  /** A row is one line. */
  lemma RowNoNewline(r: Record, escape: bool)
    requires OneLine(r)
    ensures '\n' !in RowText(r, escape)
  {
    var fs := TextFields(r);
    QuotedCellsNoNewline(fs, escape);
    var d := ToDecimal(r.no);
    assert '\n' !in d by {
      forall i | 0 <= i < |d| ensures d[i] != '\n' { assert IsDigit(d[i]); }
    }
  }

  /** Splitting lines that hold no line break, each followed by `\n`,
      gives them back and the empty piece after the last break. */
  lemma {:induction false} SplitTerminated(lines: seq<string>)
    requires forall k :: 0 <= k < |lines| ==> '\n' !in lines[k]
    ensures Split(Terminated(lines), '\n') == lines + [[]]
  {
    TerminatedIsJoin(lines);
    var parts := lines + [[]];
    assert forall k :: 0 <= k < |parts| ==> '\n' !in parts[k] by {
      assert forall k :: 0 <= k < |lines| ==> parts[k] == lines[k];
    }
    SplitJoin(parts, '\n');
  }

  lemma {:induction false} TerminatedIsJoin(lines: seq<string>)
    ensures Terminated(lines) == Join(lines + [[]], '\n')
    decreases |lines|
  {
    if lines != [] {
      TerminatedIsJoin(lines[1..]);
      assert (lines + [[]])[1..] == lines[1..] + [[]];
    }
  }

  /** A join holds a character other than the separator only if a part
      does. */
  lemma {:induction false} JoinAvoids(parts: seq<string>, sep: char, c: char)
    requires c != sep
    requires forall k :: 0 <= k < |parts| ==> c !in parts[k]
    ensures c !in Join(parts, sep)
    decreases |parts|
  {
    if |parts| > 1 {
      JoinAvoids(parts[1..], sep, c);
    }
  }

  lemma {:induction false} RowLinesOneLine(recs: seq<Record>, escape: bool)
    requires forall k :: 0 <= k < |recs| ==> OneLine(recs[k])
    ensures forall k :: 0 <= k < |recs| ==> '\n' !in RowLines(recs, escape)[k]
    decreases |recs|
  {
    if recs != [] {
      RowNoNewline(recs[0], escape);
      RowLinesOneLine(recs[1..], escape);
      forall k | 1 <= k < |recs|
        ensures RowLines(recs, escape)[k] == RowLines(recs[1..], escape)[k - 1]
      {
      }
    }
  }

  lemma HeaderOneLine()
    ensures '\n' !in HeaderRow
  {
    JoinAvoids(Columns, ',', '\n');
  }

  /** The download's lines: the header, one row per record in order, and
      nothing after the final line break. */
  lemma {:induction false} ExportLines(recs: seq<Record>, escape: bool)
    requires recs != []
    requires forall k :: 0 <= k < |recs| ==> OneLine(recs[k])
    ensures Split(ExportText(recs, escape).value, '\n') == [HeaderRow] + RowLines(recs, escape) + [[]]
  {
    var rows := RowLines(recs, escape);
    var lines := [HeaderRow] + rows;
    assert ExportText(recs, escape).value == Terminated(lines);
    HeaderOneLine();
    RowLinesOneLine(recs, escape);
    assert forall k :: 0 <= k < |lines| ==> '\n' !in lines[k] by {
      assert lines[0] == HeaderRow;
      assert forall k :: 1 <= k < |lines| ==> lines[k] == rows[k - 1];
    }
    SplitTerminated(lines);
  }

  /** When no value holds a line break, the download has one line break
      per record plus the one after the header. */
  lemma {:induction false} ExportLineCount(recs: seq<Record>)
    requires recs != []
    requires forall k :: 0 <= k < |recs| ==> OneLine(recs[k])
    ensures CountChar(ExportCsv(recs).value, '\n') == |recs| + 1
  {
    ExportLines(recs, false);
    SplitLength(ExportCsv(recs).value, '\n');
  }

  lemma {:induction false} ParseRowLines(recs: seq<Record>, escape: bool)
    requires forall k :: 0 <= k < |recs| ==> QuoteSafe(recs[k], escape)
    ensures ParseRecords(RowLines(recs, escape)) == Some(recs)
  {
    var lines := RowLines(recs, escape);
    forall k | 0 <= k < |lines| ensures ParseRecord(lines[k]) == Some(recs[k]) {
      RowLinesAt(recs, escape, k);
      ParseRowText(recs[k], escape);
    }
    ParseRecordsAll(lines, recs);
  }

  /** Line `k` of the rows is the row of record `k`. */
  lemma {:induction false} RowLinesAt(recs: seq<Record>, escape: bool, k: nat)
    requires k < |recs|
    ensures RowLines(recs, escape)[k] == RowText(recs[k], escape)
    decreases k
  {
    if k > 0 {
      RowLinesAt(recs[1..], escape, k - 1);
    }
  }

  /** Lines that each read as a record read as the list of those records. */
  lemma {:induction false} ParseRecordsAll(lines: seq<string>, recs: seq<Record>)
    requires |lines| == |recs|
    requires forall k :: 0 <= k < |lines| ==> ParseRecord(lines[k]) == Some(recs[k])
    ensures ParseRecords(lines) == Some(recs)
    decreases |lines|
  {
    if lines != [] {
      assert ParseRecord(lines[0]) == Some(recs[0]);
      assert forall k :: 0 <= k < |lines| - 1 ==> lines[1..][k] == lines[k + 1] && recs[1..][k] == recs[k + 1];
      ParseRecordsAll(lines[1..], recs[1..]);
      assert [recs[0]] + recs[1..] == recs;
    }
  }

  /** Reading a download back gives the records it was made from. */
  lemma {:induction false} ExportTextRoundTrip(recs: seq<Record>, escape: bool)
    requires recs != []
    requires forall k :: 0 <= k < |recs| ==> OneLine(recs[k]) && QuoteSafe(recs[k], escape)
    ensures ImportCsv(ExportText(recs, escape).value) == Some(recs)
  {
    ExportLines(recs, escape);
    var lines := [HeaderRow] + RowLines(recs, escape) + [[]];
    assert lines[1..|lines| - 1] == RowLines(recs, escape);
    ParseRowLines(recs, escape);
  }

  /** The download as written reads back exactly when no value holds a
      quote (or a line break, which this line-based reader cannot take). */
  lemma {:induction false} ExportRoundTrip(recs: seq<Record>)
    requires recs != []
    requires forall k :: 0 <= k < |recs| ==> OneLine(recs[k]) && QuoteSafe(recs[k], false)
    ensures ImportCsv(ExportCsv(recs).value) == Some(recs)
  {
    ExportTextRoundTrip(recs, false);
  }

  /** With quotes doubled, every list without line breaks reads back,
      whatever quotes its values hold. */
  lemma {:induction false} ExportEscapedRoundTrip(recs: seq<Record>)
    requires recs != []
    requires forall k :: 0 <= k < |recs| ==> OneLine(recs[k])
    ensures ImportCsv(ExportCsvEscaped(recs).value) == Some(recs)
  {
    assert forall k :: 0 <= k < |recs| ==> QuoteSafe(recs[k], true);
    ExportTextRoundTrip(recs, true);
  }

  /** Without quotes in the values both downloads are the same text. */
  lemma {:induction false} EscapedAgreesWithoutQuotes(recs: seq<Record>)
    requires forall k :: 0 <= k < |recs| ==> QuoteSafe(recs[k], false)
    ensures ExportCsvEscaped(recs) == ExportCsv(recs)
  {
    RowLinesAgree(recs);
  }

  lemma {:induction false} RowLinesAgree(recs: seq<Record>)
    requires forall k :: 0 <= k < |recs| ==> QuoteSafe(recs[k], false)
    ensures RowLines(recs, true) == RowLines(recs, false)
    decreases |recs|
  {
    if recs != [] {
      var fs := TextFields(recs[0]);
      forall k | 0 <= k < |fs| ensures Cell(fs[k], true) == Cell(fs[k], false) {
        ReplaceAllAbsent(fs[k], '"', "\"\"");
      }
      QuotedCellsAgree(fs);
      RowLinesAgree(recs[1..]);
    }
  }

  lemma {:induction false} QuotedCellsAgree(fs: seq<string>)
    requires forall k :: 0 <= k < |fs| ==> Cell(fs[k], true) == Cell(fs[k], false)
    ensures QuotedCells(fs, true) == QuotedCells(fs, false)
    decreases |fs|
  {
    if fs != [] {
      QuotedCellsAgree(fs[1..]);
    }
  }

  /** A quote inside a value, followed by anything but a quote or a comma,
      closes the cell early and leaves text the reader cannot place. */
  lemma QuoteEndsCellEarly(f: string, g: string, rest: string)
    requires '"' !in f
    requires g != [] && g[0] != '"' && g[0] != ','
    ensures ParseField("\"" + Cell(f + "\"" + g, false) + "\"" + rest) == None
  {
    var s := "\"" + Cell(f + "\"" + g, false) + "\"" + rest;
    var after := g + "\"" + rest;
    ParseQuotedCell(f, false, "\"" + after);
    assert s[1..] == Cell(f, false) + ("\"" + after);
  }

  /** One broken cell spoils the whole row. */
  lemma {:induction false} BrokenCellSpoilsTail(fs: seq<string>, j: nat)
    requires j < |fs|
    requires forall k :: 0 <= k < j ==> '"' !in fs[k]
    requires forall rest :: ParseField("\"" + Cell(fs[j], false) + "\"" + rest) == None
    ensures ParseTail(QuotedCells(fs, false)) == None
    decreases j
  {
    var rest := QuotedCells(fs[1..], false);
    var s := ",\"" + Cell(fs[0], false) + "\"" + rest;
    assert s == QuotedCells(fs, false);
    assert s[1..] == "\"" + Cell(fs[0], false) + "\"" + rest;
    if j > 0 {
      ParseFieldQuoted(fs[0], false, rest);
      BrokenCellSpoilsTail(fs[1..], j - 1);
    }
  }

  /** A value that a quote inside it spoils when written as it is: before
      its first quote comes `f`, and right after that quote comes neither
      another quote nor a comma. */
  predicate StrayQuote(v: string, f: string, g: string) {
    v == f + "\"" + g && '"' !in f && g != [] && g[0] != '"' && g[0] != ','
  }

  /** The row written for a record does not read as a record when one of
      its text columns holds a stray quote and no column before it holds
      any quote. */
  lemma StrayQuoteRow(r: Record, j: nat, f: string, g: string)
    requires j < |TextFields(r)|
    requires forall k :: 0 <= k < j ==> '"' !in TextFields(r)[k]
    requires StrayQuote(TextFields(r)[j], f, g)
    ensures ParseRecord(RowText(r, false)) == None
  {
    var fs := TextFields(r);
    forall rest ensures ParseField("\"" + Cell(fs[j], false) + "\"" + rest) == None {
      QuoteEndsCellEarly(f, g, rest);
    }
    BrokenCellSpoilsTail(fs, j);
    ParseNumberField(r.no, QuotedCells(fs, false));
  }

  /** One line that does not parse spoils the whole file. */
  lemma {:induction false} ParseRecordsSpoiled(lines: seq<string>, n: nat)
    requires n < |lines| && ParseRecord(lines[n]) == None
    ensures ParseRecords(lines) == None
    decreases n
  {
    if n > 0 && ParseRecord(lines[0]).Some? {
      assert lines[1..][n - 1] == lines[n];
      ParseRecordsSpoiled(lines[1..], n - 1);
    }
  }

  /** The download as written of a list in which some record has a column
      with a stray quote, and no quote in the columns before it, does not
      read back as the list, or as any list. */
  lemma QuoteBreaksExport(recs: seq<Record>, n: nat, j: nat, f: string, g: string)
    requires forall k :: 0 <= k < |recs| ==> OneLine(recs[k])
    requires n < |recs| && j < |TextFields(recs[n])|
    requires forall k :: 0 <= k < j ==> '"' !in TextFields(recs[n])[k]
    requires StrayQuote(TextFields(recs[n])[j], f, g)
    ensures ImportCsv(ExportCsv(recs).value) == None
  {
    StrayQuoteRow(recs[n], j, f, g);
    RowLinesAt(recs, false, n);
    ParseRecordsSpoiled(RowLines(recs, false), n);
    ExportLines(recs, false);
    var lines := [HeaderRow] + RowLines(recs, false) + [[]];
    assert lines[1..|lines| - 1] == RowLines(recs, false);
  }

  /** A record whose description holds quotes, as a lookup may return. */
  const QuoteSample := Record(1, "AB12", "-", "say \"hi\"", "-", "-")

  /** The description `say "hi"` makes the download of its record as
      written unreadable. */
  lemma QuoteSampleBreaks()
    ensures ImportCsv(ExportCsv([QuoteSample]).value) == None
  {
    var fs := TextFields(QuoteSample);
    assert fs[2] == "say " + "\"" + "hi\"";
    assert '"' !in fs[0] && '"' !in fs[1];
    assert OneLine(QuoteSample);
    QuoteBreaksExport([QuoteSample], 0, 2, "say ", "hi\"");
  }
}
