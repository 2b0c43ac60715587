/**
 * The quote handler (`GET /api/quote`) once the spreadsheet text has been
 * fetched: the table builder, the selection chain and the two 404 exits.
 * The date string and the day-of-month and day-of-year numbers are inputs.
 */
module QuoteRoute {
  import opened Outcomes
  import opened Text
  import opened Csv
  import opened DailyHash

  /** An accepted spreadsheet row: its date key and its quote. */
  datatype Row = Row(key: string, quote: string)

  /** The JSON body of the handler's 200 response. */
  datatype QuoteResponse = QuoteResponse(
    quote: string,
    date: string,
    dayOfMonth: nat,
    totalQuotes: nat,
    matchedByDate: bool)

  const NO_QUOTES_FOUND: string := "No quotes found"
  const NO_QUOTE_FOR_TODAY: string := "No quote available for today"

  /** `q.startsWith('"') && q.endsWith('"')` */
  predicate WrappedInQuotes(q: string)
  {
    |q| >= 1 && q[0] == '"' && q[|q| - 1] == '"'
  }

  /**
   * Removes one pair of surrounding quotes (`q.slice(1, -1)`); a lone quote
   * character starts and ends the string at once and becomes empty.
   */
  function StripQuotes(q: string): (r: string)
    ensures |q| >= 2 && WrappedInQuotes(q) ==> q == "\"" + r + "\""
    ensures q == "\"" ==> r == ""
    ensures !WrappedInQuotes(q) ==> r == q
  {
    if WrappedInQuotes(q) then (if |q| >= 2 then q[1..|q| - 1] else "") else q
  }

  /**
   * What one line of the spreadsheet contributes: nothing when it is blank,
   * has fewer than two columns, or has an empty key or quote; otherwise
   * the trimmed key and the trimmed quote stripped of one pair of quotes.
   * Columns after the second are ignored.
   */
  function AcceptLine(raw: string): (r: Option<Row>)
    ensures r.Some? ==> r.value.key != "" && r.value.quote != "" && IsTrimmed(r.value.key)
    ensures r.Some? ==> Trim(raw) != "" && |Fields(Trim(raw))| >= 2
  {
    var line := Trim(raw);
    if line == "" then None
    else
      var columns := Fields(line);
      if |columns| >= 2 && columns[0] != "" && columns[1] != "" then
        var key := Trim(columns[0]);
        var quote := StripQuotes(Trim(columns[1]));
        if key != "" && quote != "" then Some(Row(key, quote)) else None
      else None
  }

  /** The accepted rows of the given lines, in line order. */
  function AcceptedRows(lines: seq<string>): (rows: seq<Row>)
    ensures |rows| <= |lines|
  {
    if lines == [] then []
    else
      var earlier := AcceptedRows(lines[..|lines| - 1]);
      match AcceptLine(lines[|lines| - 1])
      case Some(row) => earlier + [row]
      case None => earlier
  }

  /** Every accepted row has a non-empty key and a non-empty quote. */
  lemma {:induction false} AcceptedRowsKept(lines: seq<string>)
    ensures forall k :: 0 <= k < |AcceptedRows(lines)| ==>
      AcceptedRows(lines)[k].key != "" && AcceptedRows(lines)[k].quote != ""
  {
    if lines != [] {
      var rows, earlier := AcceptedRows(lines), AcceptedRows(lines[..|lines| - 1]);
      AcceptedRowsKept(lines[..|lines| - 1]);
      var accepted := AcceptLine(lines[|lines| - 1]);
      forall k | 0 <= k < |rows|
        ensures rows[k].key != "" && rows[k].quote != ""
      {
        if k < |earlier| {
          assert rows[k] == earlier[k];
        } else {
          assert rows[k] == accepted.value;
        }
      }
    }
  }

  /** `allQuotes`: every accepted quote in row order. */
  function QuotesOf(rows: seq<Row>): (r: seq<string>)
    ensures |r| == |rows|
    ensures forall k :: 0 <= k < |rows| ==> r[k] == rows[k].quote
  {
    if rows == [] then [] else QuotesOf(rows[..|rows| - 1]) + [rows[|rows| - 1].quote]
  }

  /** `quoteMap`: the rows entered in order with `set`, so a later row overwrites an earlier one. */
  function KeyMap(rows: seq<Row>): map<string, string>
  {
    if rows == [] then map[]
    else
      var last := rows[|rows| - 1];
      KeyMap(rows[..|rows| - 1])[last.key := last.quote]
  }

  /** A key is in the map exactly when some row carries it. */
  lemma {:induction false} KeyMapDomain(rows: seq<Row>, key: string)
    ensures key in KeyMap(rows) <==> exists j :: 0 <= j < |rows| && rows[j].key == key
  {
    if rows != [] {
      var earlier := rows[..|rows| - 1];
      KeyMapDomain(earlier, key);
      if exists j :: 0 <= j < |rows| && rows[j].key == key {
        var j :| 0 <= j < |rows| && rows[j].key == key;
        if j < |rows| - 1 { assert earlier[j].key == key; }
      }
      if exists j :: 0 <= j < |earlier| && earlier[j].key == key {
        var j :| 0 <= j < |earlier| && earlier[j].key == key;
        assert rows[j].key == key;
      }
    }
  }

  /** The last row with a given key wins. */
  lemma {:induction false} KeyMapLastWins(rows: seq<Row>, j: nat)
    requires j < |rows|
    requires forall i :: j < i < |rows| ==> rows[i].key != rows[j].key
    ensures rows[j].key in KeyMap(rows) && KeyMap(rows)[rows[j].key] == rows[j].quote
  {
    if j < |rows| - 1 {
      var earlier := rows[..|rows| - 1];
      KeyMapLastWins(earlier, j);
    }
  }

  /** Every value of the map is one of the listed quotes. */
  lemma {:induction false} KeyMapValuesListed(rows: seq<Row>)
    ensures forall key :: key in KeyMap(rows) ==> KeyMap(rows)[key] in QuotesOf(rows)
  {
    if rows != [] {
      var earlier := rows[..|rows| - 1];
      KeyMapValuesListed(earlier);
      forall key | key in KeyMap(rows)
        ensures KeyMap(rows)[key] in QuotesOf(rows)
      {
        if key != rows[|rows| - 1].key {
          var v := KeyMap(earlier)[key];
          var i :| 0 <= i < |QuotesOf(earlier)| && QuotesOf(earlier)[i] == v;
          assert QuotesOf(rows)[i] == v;
        } else {
          assert QuotesOf(rows)[|rows| - 1] == rows[|rows| - 1].quote;
        }
      }
    }
  }

  /** The map never has more entries than the list: `quoteMap.size <= allQuotes.length`. */
  lemma {:induction false} KeyMapSize(rows: seq<Row>)
    ensures |KeyMap(rows)| <= |QuotesOf(rows)|
  {
    if rows != [] {
      var earlier := rows[..|rows| - 1];
      KeyMapSize(earlier);
      var last := rows[|rows| - 1];
      var m := KeyMap(earlier);
      assert KeyMap(rows).Keys == m.Keys + {last.key};
      assert |m.Keys + {last.key}| <= |m.Keys| + 1;
    }
  }

  /** The map is empty exactly when the list is: both are empty exactly when no row was accepted. */
  lemma TableEmptyTogether(rows: seq<Row>)
    ensures |KeyMap(rows)| == 0 <==> rows == []
    ensures QuotesOf(rows) == [] <==> rows == []
  {
    if rows != [] {
      var last := rows[|rows| - 1];
      assert last.key in KeyMap(rows);
    }
  }

  /** The rows of one more line. */
  lemma AcceptedRowsStep(lines: seq<string>, i: nat)
    requires i < |lines|
    ensures AcceptLine(lines[i]).None? ==> AcceptedRows(lines[..i + 1]) == AcceptedRows(lines[..i])
    ensures AcceptLine(lines[i]).Some? ==>
      AcceptedRows(lines[..i + 1]) == AcceptedRows(lines[..i]) + [AcceptLine(lines[i]).value]
  {
    assert lines[..i + 1][..i] == lines[..i];
  }

  /** Adding one row to the table. */
  lemma TableStep(rows: seq<Row>, row: Row)
    ensures KeyMap(rows + [row]) == KeyMap(rows)[row.key := row.quote]
    ensures QuotesOf(rows + [row]) == QuotesOf(rows) + [row.quote]
  {
    assert (rows + [row])[..|rows|] == rows;
  }

  /**
   * The body of the table-building loop for one line: trim it, skip it when
   * blank, parse it, check the two columns, strip one pair of quotes from
   * the quote and check that key and quote are non-empty.
   */
  method ReadLine(raw: string) returns (accepted: Option<Row>)
    ensures accepted == AcceptLine(raw)
  {
    var line := Trim(raw);
    if line == "" {
      return None;
    }
    var columns := ParseCsvLine(line);
    if |columns| >= 2 && columns[0] != "" && columns[1] != "" {
      var dateKey := Trim(columns[0]);
      var quote := StripQuotes(Trim(columns[1]));
      if dateKey != "" && quote != "" {
        return Some(Row(dateKey, quote));
      }
    }
    return None;
  }

  /**
   * The handler's table-building loop: for each line of the text, on
   * acceptance `quoteMap.set` and `allQuotes.push`.
   */
  method BuildTable(csv: string) returns (quoteMap: map<string, string>, allQuotes: seq<string>)
    ensures quoteMap == KeyMap(AcceptedRows(Split(csv, '\n')))
    ensures allQuotes == QuotesOf(AcceptedRows(Split(csv, '\n')))
  {
    var lines := Split(csv, '\n');
    quoteMap := map[];
    allQuotes := [];
    for i := 0 to |lines|
      invariant quoteMap == KeyMap(AcceptedRows(lines[..i]))
      invariant allQuotes == QuotesOf(AcceptedRows(lines[..i]))
    {
      AcceptedRowsStep(lines, i);
      var accepted := ReadLine(lines[i]);
      if accepted.Some? {
        var row := accepted.value;
        TableStep(AcceptedRows(lines[..i]), row);
        quoteMap := quoteMap[row.key := row.quote];
        allQuotes := allQuotes + [row.quote];
      }
    }
    assert lines[..|lines|] == lines;
  }

  /**
   * What the table builder guarantees about its result: every listed quote
   * is non-empty and every mapped quote is listed.
   */
  predicate ValidTable(quoteMap: map<string, string>, allQuotes: seq<string>)
  {
    (forall k :: 0 <= k < |allQuotes| ==> allQuotes[k] != "") &&
    (forall key :: key in quoteMap ==> quoteMap[key] in allQuotes)
  }

  /** The table built from any rows is valid. */
  lemma BuiltTableValid(rows: seq<Row>)
    requires forall k :: 0 <= k < |rows| ==> rows[k].quote != ""
    ensures ValidTable(KeyMap(rows), QuotesOf(rows))
  {
    KeyMapValuesListed(rows);
  }

  /** The rows the handler accepts from the fetched spreadsheet text. */
  function SheetRows(csv: string): seq<Row>
  {
    AcceptedRows(Split(csv, '\n'))
  }

  /** `quoteMap.get(key)` */
  function Lookup(m: map<string, string>, key: string): (r: Option<string>)
    ensures r.Some? <==> key in m
    ensures r.Some? ==> r.value == m[key]
  {
    if key in m then Some(m[key]) else None
  }

  /** JavaScript truthiness of a looked-up string: `undefined` and "" are falsy. */
  predicate Truthy(o: Option<string>)
  {
    o.Some? && o.value != ""
  }

  /**
   * The selection chain: the quote keyed by the day of the month, else the
   * one keyed by the day of the year, else the hash pick from the list;
   * a falsy result ends in the second 404.
   */
  method SelectQuote(quoteMap: map<string, string>, allQuotes: seq<string>, date: string,
                     dayOfMonth: nat, dayOfYear: nat)
    returns (r: Response<QuoteResponse>)
    ensures r.Ok? ==>
      r.value.quote != "" && r.value.date == date && r.value.dayOfMonth == dayOfMonth &&
      r.value.totalQuotes == |allQuotes| &&
      r.value.matchedByDate == (DecimalString(dayOfMonth) in quoteMap)
    ensures r.Ok? ==> r.value.quote in quoteMap.Values || r.value.quote in allQuotes
    ensures r.NotFound? ==> r.error == NO_QUOTE_FOR_TODAY
    ensures var byMonth := Lookup(quoteMap, DecimalString(dayOfMonth));
      Truthy(byMonth) ==> r.Ok? && r.value.quote == byMonth.value
    ensures var byMonth := Lookup(quoteMap, DecimalString(dayOfMonth));
      var byYear := Lookup(quoteMap, DecimalString(dayOfYear));
      !Truthy(byMonth) && Truthy(byYear) ==> r.Ok? && r.value.quote == byYear.value
    ensures var byMonth := Lookup(quoteMap, DecimalString(dayOfMonth));
      var byYear := Lookup(quoteMap, DecimalString(dayOfYear));
      !Truthy(byMonth) && !Truthy(byYear) && |allQuotes| > 0 ==>
        var picked := allQuotes[DailyIndex(date, |allQuotes|)];
        (r.NotFound? <==> picked == "") && (r.Ok? ==> r.value.quote == picked)
    ensures var byMonth := Lookup(quoteMap, DecimalString(dayOfMonth));
      var byYear := Lookup(quoteMap, DecimalString(dayOfYear));
      !Truthy(byMonth) && !Truthy(byYear) && |allQuotes| == 0 ==> r == NotFound(NO_QUOTE_FOR_TODAY)
    // On a table the builder produced, falsy means absent:
    ensures ValidTable(quoteMap, allQuotes) ==> (r.Ok? <==> |allQuotes| > 0 || quoteMap != map[])
    ensures ValidTable(quoteMap, allQuotes) && r.Ok? ==> r.value.quote in allQuotes
    ensures var monthKey := DecimalString(dayOfMonth);
      ValidTable(quoteMap, allQuotes) && monthKey in quoteMap ==>
        r.Ok? && r.value.quote == quoteMap[monthKey]
    ensures var monthKey, yearKey := DecimalString(dayOfMonth), DecimalString(dayOfYear);
      ValidTable(quoteMap, allQuotes) && monthKey !in quoteMap && yearKey in quoteMap ==>
        r.Ok? && r.value.quote == quoteMap[yearKey]
    ensures var monthKey, yearKey := DecimalString(dayOfMonth), DecimalString(dayOfYear);
      ValidTable(quoteMap, allQuotes) && monthKey !in quoteMap && yearKey !in quoteMap && |allQuotes| > 0 ==>
        r.Ok? && r.value.quote == allQuotes[DailyIndex(date, |allQuotes|)]
  {
    var monthKey := DecimalString(dayOfMonth);
    var selectedQuote := Lookup(quoteMap, monthKey);
    if !Truthy(selectedQuote) {
      selectedQuote := Lookup(quoteMap, DecimalString(dayOfYear));
    }
    if !Truthy(selectedQuote) && |allQuotes| > 0 {
      var hash := ComputeHash(date);
      var selectedIndex := Abs(hash) % |allQuotes|;
      selectedQuote := Some(allQuotes[selectedIndex]);
    }
    if !Truthy(selectedQuote) {
      return NotFound(NO_QUOTE_FOR_TODAY);
    }
    r := Ok(QuoteResponse(selectedQuote.value, date, dayOfMonth, |allQuotes|, monthKey in quoteMap));
  }

  /**
   * `GET /api/quote` after the fetch: build the table, answer "No quotes
   * found" when it is empty, otherwise select. Every stored quote is
   * non-empty, so the selection always finds one and the second 404 is
   * never reached.
   */
  method HandleQuoteRequest(csv: string, date: string, dayOfMonth: nat, dayOfYear: nat)
    returns (r: Response<QuoteResponse>)
    ensures r.NotFound? <==> SheetRows(csv) == []
    ensures r.NotFound? ==> r.error == NO_QUOTES_FOUND
    ensures r.Ok? ==>
      var rows := SheetRows(csv);
      r.value.quote in QuotesOf(rows) && r.value.totalQuotes == |rows| &&
      r.value.date == date && r.value.dayOfMonth == dayOfMonth &&
      r.value.matchedByDate == (DecimalString(dayOfMonth) in KeyMap(rows))
    ensures var m := KeyMap(SheetRows(csv)); var monthKey := DecimalString(dayOfMonth);
      monthKey in m ==> r.Ok? && r.value.quote == m[monthKey]
    ensures var m := KeyMap(SheetRows(csv)); var monthKey := DecimalString(dayOfMonth);
      var yearKey := DecimalString(dayOfYear);
      monthKey !in m && yearKey in m ==> r.Ok? && r.value.quote == m[yearKey]
    ensures var rows := SheetRows(csv); var m := KeyMap(rows);
      DecimalString(dayOfMonth) !in m && DecimalString(dayOfYear) !in m && rows != [] ==>
        r.Ok? && r.value.quote == QuotesOf(rows)[DailyIndex(date, |rows|)]
  {
    ghost var rows := SheetRows(csv);
    var quoteMap, allQuotes := BuildTable(csv);
    TableEmptyTogether(rows);
    if |quoteMap| == 0 && |allQuotes| == 0 {
      return NotFound(NO_QUOTES_FOUND);
    }
    AcceptedRowsKept(Split(csv, '\n'));
    BuiltTableValid(rows);
    r := SelectQuote(quoteMap, allQuotes, date, dayOfMonth, dayOfYear);
  }

  // The partner of the table builder: writing rows out as a spreadsheet's
  // CSV export would, one line per row, quoting only the fields that need it.

  /** One row as a CSV line: its key, then its quote, each quoted only when it must be. */
  function ExportLine(row: Row): string
  {
    EncodeRow([row.key, row.quote], [!MayGoUnquoted(row.key), !MayGoUnquoted(row.quote)])
  }

  function ExportLines(rows: seq<Row>): (lines: seq<string>)
    ensures |lines| == |rows|
    ensures forall k :: 0 <= k < |rows| ==> lines[k] == ExportLine(rows[k])
  {
    if rows == [] then [] else ExportLines(rows[..|rows| - 1]) + [ExportLine(rows[|rows| - 1])]
  }

  /** The whole sheet: the lines joined by line breaks. */
  function ExportSheet(rows: seq<Row>): string
  {
    if rows == [] then "" else Join(ExportLines(rows), '\n')
  }

  /**
   * A row the export can carry and the builder reads back unchanged: key and
   * quote non-empty, trimmed and on one line, and the quote not itself
   * wrapped in quote characters (the builder would strip them).
   */
  predicate Exportable(row: Row)
  {
    row.key != "" && row.quote != "" && IsTrimmed(row.key) && IsTrimmed(row.quote) &&
    !WrappedInQuotes(row.quote) && '\n' !in row.key && '\n' !in row.quote
  }

  /**
   * A line holding a key, a quote and any further trimmed columns is accepted
   * as exactly that key and quote.
   */
  lemma AcceptEncodedRow(fs: seq<string>, quoted: seq<bool>)
    requires |fs| >= 2 && |quoted| == |fs|
    requires forall k :: 0 <= k < |fs| ==> quoted[k] || MayGoUnquoted(fs[k])
    requires forall k :: 0 <= k < |fs| ==> IsTrimmed(fs[k])
    requires fs[0] != "" && fs[1] != "" && !WrappedInQuotes(fs[1])
    ensures AcceptLine(EncodeRow(fs, quoted)) == Some(Row(fs[0], fs[1]))
  {
    var line := EncodeRow(fs, quoted);
    EncodedRowIsTrimmed(fs, quoted);
    ParseEncodedRow(fs, quoted);
    assert Trim(line) == line;
    assert line != "" by {
      assert |Fields(line)| >= 2;
    }
  }

  /** An exported row is accepted back as itself. */
  lemma AcceptExportLine(row: Row)
    requires Exportable(row)
    ensures AcceptLine(ExportLine(row)) == Some(row)
  {
    var fs, quoted := [row.key, row.quote], [!MayGoUnquoted(row.key), !MayGoUnquoted(row.quote)];
    assert forall k :: 0 <= k < 2 ==> IsTrimmed(fs[k]);
    assert forall k :: 0 <= k < 2 ==> quoted[k] || MayGoUnquoted(fs[k]);
    AcceptEncodedRow(fs, quoted);
  }

  /** Every exported row is accepted back as itself. */
  lemma {:induction false} AcceptExportedLines(rows: seq<Row>)
    requires forall k :: 0 <= k < |rows| ==> Exportable(rows[k])
    ensures AcceptedRows(ExportLines(rows)) == rows
  {
    if rows != [] {
      var n := |rows|;
      var row := rows[n - 1];
      var lines := ExportLines(rows);
      assert lines[..n - 1] == ExportLines(rows[..n - 1]);
      AcceptExportedLines(rows[..n - 1]);
      AcceptExportLine(row);
      assert AcceptLine(lines[n - 1]) == Some(row);
      assert AcceptedRows(lines) == AcceptedRows(lines[..n - 1]) + [row];
      FrontAndLast(rows);
    }
  }

  /**
   * Round trip: the rows of an exported sheet are the rows that were
   * exported, so the built table is `KeyMap(rows)` and `QuotesOf(rows)`.
   */
  lemma SheetRoundTrip(rows: seq<Row>)
    requires forall k :: 0 <= k < |rows| ==> Exportable(rows[k])
    ensures SheetRows(ExportSheet(rows)) == rows
  {
    if rows == [] {
      assert Split("", '\n') == [""];
      assert AcceptLine("") == None;
      assert [""][..0] == [];
    } else {
      var lines := ExportLines(rows);
      forall k | 0 <= k < |lines| ensures '\n' !in lines[k] {
        var row := rows[k];
        EncodedRowAvoids([row.key, row.quote], [!MayGoUnquoted(row.key), !MayGoUnquoted(row.quote)], '\n');
      }
      SplitJoin(lines, '\n');
      AcceptExportedLines(rows);
    }
  }
}
