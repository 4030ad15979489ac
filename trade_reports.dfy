/** The two trade reports, import (`/vitibrasil/importacao`) and export
    (`/vitibrasil/exportacao`). Their tables have no categories: a row with
    at least three cells is a country, a quantity and a value. A quantity or
    value that is not missing but does not parse is not caught row by row:
    the ValueError escapes to the handler's `except` and the whole request
    answers 500 with its message. */
module TradeReports {
  import opened Wrappers
  import opened Text
  import opened Gate
  import opened TableWalk
  import opened SubOptions
  import opened Upstream

  /** A trade record: Ano, Classificacao (None on the main-table path),
      País, Quantidade (Kg.) and Valor (US$). */
  datatype TradeRecord = TradeRecord(year: int, classification: Option<string>, country: string,
                                     quantity: Option<real>, value: Option<real>)

  /** The message of the ValueError `float()` raises on `text`. */
  function FloatErrorMessage(text: string): string {
    "could not convert string to float: '" + text + "'"
  }

  /** The strict reading of an amount: missing gives None, a parsed text its
      value, and an unparseable one the ValueError's message. */
  function StrictAmount(text: string, parse: FloatParser): (r: Result<Option<real>>)
    ensures r.Err? <==> !IsMissing(Normalize(text)) && parse(Normalize(text)).None?
    ensures r.Err? ==> r.message == FloatErrorMessage(Normalize(text))
    ensures IsMissing(Normalize(text)) ==> r == Ok(None)
    ensures r.Ok? && r.value.Some? ==> !IsMissing(Normalize(text)) && parse(Normalize(text)) == r.value
    ensures !IsMissing(Normalize(text)) && parse(Normalize(text)).Some? ==> r == Ok(parse(Normalize(text)))
  {
    var n := Normalize(text);
    if IsMissing(n) then Ok(None)
    else match parse(n)
      case None => Err(FloatErrorMessage(n))
      case Some(v) => Ok(Some(v))
  }

  /** A row that yields a record (if its amounts parse): at least three
      cells, and not a total row where totals are skipped. */
  predicate Counted(row: Row, skipTotals: bool) {
    |row| >= 3 && !(skipTotals && IsTotalLabel(row[0].text))
  }

  /** The record of a counted row whose amounts parse. */
  function RowRecord(row: Row, year: int, classification: Option<string>, parse: FloatParser): TradeRecord
    requires |row| >= 3
    requires StrictAmount(row[1].text, parse).Ok? && StrictAmount(row[2].text, parse).Ok?
  {
    TradeRecord(year, classification, row[0].text,
                StrictAmount(row[1].text, parse).value, StrictAmount(row[2].text, parse).value)
  }

  /** The failure of a counted row: the quantity is read before the value. */
  predicate Fails(row: Row, skipTotals: bool, parse: FloatParser) {
    Counted(row, skipTotals)
    && (StrictAmount(row[1].text, parse).Err? || StrictAmount(row[2].text, parse).Err?)
  }

  /** What one body row contributes. */
  function TradeRow(row: Row, year: int, classification: Option<string>, skipTotals: bool,
                    parse: FloatParser): Result<seq<TradeRecord>>
  {
    if !Counted(row, skipTotals) then Ok([])
    else
      match StrictAmount(row[1].text, parse)
      case Err(m) => Err(m)
      case Ok(q) =>
        match StrictAmount(row[2].text, parse)
        case Err(m) => Err(m)
        case Ok(v) => Ok([TradeRecord(year, classification, row[0].text, q, v)])
  }

  /** The reading of the first `n` body rows: the first unparseable amount
      ends it, otherwise the rows' records in row order. */
  function TradeRows(body: seq<Row>, n: nat, year: int, classification: Option<string>, skipTotals: bool,
                     parse: FloatParser): Result<seq<TradeRecord>>
    requires n <= |body|
  {
    if n == 0 then Ok([])
    else Then(TradeRows(body, n - 1, year, classification, skipTotals, parse),
              TradeRow(body[n - 1], year, classification, skipTotals, parse))
  }

  /** Once a row has failed, the rows after it change nothing. */
  lemma {:induction false} TradeRowsErrPersists(body: seq<Row>, i: nat, n: nat, year: int,
                                                classification: Option<string>, skipTotals: bool, parse: FloatParser)
    requires i <= n <= |body|
    requires TradeRows(body, i, year, classification, skipTotals, parse).Err?
    ensures TradeRows(body, n, year, classification, skipTotals, parse)
         == TradeRows(body, i, year, classification, skipTotals, parse)
    decreases n
  {
    if i < n {
      TradeRowsErrPersists(body, i, n - 1, year, classification, skipTotals, parse);
    }
  }

  /** The row loop of the trade reports: `rows[1:]`, rows of fewer than three
      cells skipped, total rows skipped when `skipTotals`, and a ValueError on
      an unparseable amount escaping as the error. */
  method ReadTradeTable(body: seq<Row>, year: int, classification: Option<string>, skipTotals: bool,
                        parse: FloatParser) returns (r: Result<seq<TradeRecord>>)
    ensures r == TradeRows(body, |body|, year, classification, skipTotals, parse)
  {
    var resultado: seq<TradeRecord> := [];
    for i := 0 to |body|
      invariant TradeRows(body, i, year, classification, skipTotals, parse) == Ok(resultado)
    {
      var row := ReadTradeRow(body[i], year, classification, skipTotals, parse);
      assert TradeRows(body, i + 1, year, classification, skipTotals, parse) == Then(Ok(resultado), row);
      if row.Err? {
        TradeRowsErrPersists(body, i + 1, |body|, year, classification, skipTotals, parse);
        return row;
      }
      resultado := resultado + row.value;
    }
    return Ok(resultado);
  }

  /** The body of the row loop for one row: skipped (no record) when it has
      fewer than three cells or is a skipped total row; otherwise the
      quantity, then the value, read strictly. */
  method ReadTradeRow(cols: Row, year: int, classification: Option<string>, skipTotals: bool,
                      parse: FloatParser) returns (r: Result<seq<TradeRecord>>)
    ensures r == TradeRow(cols, year, classification, skipTotals, parse)
  {
    if |cols| < 3 {
      return Ok([]);
    }
    var pais := cols[0].text;
    if skipTotals && IsTotalLabel(pais) {
      return Ok([]);
    }
    var quantidadeText := Normalize(cols[1].text);
    var valorText := Normalize(cols[2].text);
    var quantidade: Option<real> := None;
    if !IsMissing(quantidadeText) {
      quantidade := parse(quantidadeText);
      if quantidade.None? {
        return Err(FloatErrorMessage(quantidadeText));
      }
    }
    assert StrictAmount(cols[1].text, parse) == Ok(quantidade);
    var valor: Option<real> := None;
    if !IsMissing(valorText) {
      valor := parse(valorText);
      if valor.None? {
        return Err(FloatErrorMessage(valorText));
      }
    }
    assert StrictAmount(cols[2].text, parse) == Ok(valor);
    return Ok([TradeRecord(year, classification, pais, quantidade, valor)]);
  }

  /** The reading of a sub-option's table: records labelled with the
      sub-option's caption, total rows skipped. */
  function TradeReader(year: int, parse: FloatParser): TableReader<TradeRecord>
  {
    (sub: SubOption, body: seq<Row>) => TradeRows(body, |body|, year, Some(sub.caption), true, parse)
  }

  /** The `opcao` of the base page (where the buttons are found, and whose
      table is the fallback) and the `opcao` of the sub-option pages. */
  datatype TradeCodes = TradeCodes(discovery: string, data: string)

  /** Import reads everything from `opt_05`. */
  const ImportCodes := TradeCodes(ImportOption, ImportOption)

  /** Export discovers its sub-options on the `opt_05` page and reads the
      sub-option tables from `opt_06`. */
  const ExportCodes := TradeCodes(ImportOption, ExportOption)

  /** The answer of a trade report. Only a page with no `btn_sopt` button at
      all falls back to the main table; buttons none of which qualify give
      an empty list. */
  function TradeReply(ano: Option<string>, fetch: Fetcher, parse: FloatParser, codes: TradeCodes): Reply<TradeRecord>
  {
    match YearGate(ano)
    case None => Error(400, MissingYearMessage)
    case Some(year) => TradeYearReply(year, fetch, parse, codes)
  }

  /** The answer of a trade report once the year has passed the gate. */
  function TradeYearReply(year: int, fetch: Fetcher, parse: FloatParser, codes: TradeCodes): Reply<TradeRecord>
  {
    match fetch(Request(year, codes.discovery, None))
    case Raised(m) => Error(500, m)
    case Answer(status, page) =>
      if status != 200 then Error(500, UnreachableMessage)
      else if page.buttons != [] then
        match Harvest(Qualified(page.buttons), year, codes.data, fetch, TradeReader(year, parse))
        case Err(m) => Error(500, m)
        case Ok(records) => Records(records)
      else if page.table.None? then Error(404, TableMissingMessage)
      else
        var body := Body(page.table.value);
        match TradeRows(body, |body|, year, None, false, parse)
        case Err(m) => Error(500, m)
        case Ok(records) => Records(records)
  }

  /** The body shared by `vitibrasil_importacao` and `vitibrasil_exportacao`. */
  method TradeReport(ano: Option<string>, fetch: Fetcher, parse: FloatParser, codes: TradeCodes)
    returns (reply: Reply<TradeRecord>)
    ensures reply == TradeReply(ano, fetch, parse, codes)
  {
    var year := YearGate(ano);
    if year.None? {
      return Error(400, MissingYearMessage);
    }
    var response := fetch(Request(year.value, codes.discovery, None));
    if response.Raised? {
      return Error(500, response.message);
    }
    if response.status != 200 {
      return Error(500, UnreachableMessage);
    }
    if response.page.buttons != [] {
      var subs := DiscoverSubOptions(response.page.buttons);
      var resultado := ReadSubOptionTables(subs, year.value, codes.data, fetch, parse);
      if resultado.Err? {
        return Error(500, resultado.message);
      }
      return Records(resultado.value);
    }
    if response.page.table.None? {
      return Error(404, TableMissingMessage);
    }
    var resultado := ReadTradeTable(Body(response.page.table.value), year.value, None, false, parse);
    if resultado.Err? {
      return Error(500, resultado.message);
    }
    return Records(resultado.value);
  }

  /** The loop `for sub in subopcoes` of import and export: each sub-option's
      table read with its label and without total rows; a raised fetch or an
      unparseable amount escapes. */
  method ReadSubOptionTables(subs: seq<SubOption>, year: int, option: string, fetch: Fetcher, parse: FloatParser)
    returns (r: Result<seq<TradeRecord>>)
    ensures r == Harvest(subs, year, option, fetch, TradeReader(year, parse))
  {
    ghost var read := TradeReader(year, parse);
    var resultado: seq<TradeRecord> := [];
    for i := 0 to |subs|
      invariant Harvest(subs[..i], year, option, fetch, read) == Ok(resultado)
    {
      var sub := subs[i];
      HarvestNext(subs, i, year, option, fetch, read);
      assert resultado + [] == resultado;
      var resp := fetch(Request(year, option, Some(sub.value)));
      if resp.Raised? {
        HarvestStopsAtRaise(subs, i, year, option, fetch, read);
        return Err(resp.message);
      }
      if resp.status != 200 {
        continue;
      }
      if resp.page.table.None? {
        continue;
      }
      var records := ReadTradeTable(Body(resp.page.table.value), year, Some(sub.caption), true, parse);
      assert Contribution(sub, year, option, fetch, read) == records;
      if records.Err? {
        HarvestStopsAtRaise(subs, i, year, option, fetch, read);
        return Err(records.message);
      }
      resultado := resultado + records.value;
    }
    assert subs[..|subs|] == subs;
    return Ok(resultado);
  }

  /** `vitibrasil_importacao`. */
  method Import(ano: Option<string>, fetch: Fetcher, parse: FloatParser) returns (reply: Reply<TradeRecord>)
    ensures reply == TradeReply(ano, fetch, parse, ImportCodes)
  {
    reply := TradeReport(ano, fetch, parse, ImportCodes);
  }

  /** `vitibrasil_exportacao`. */
  method Export(ano: Option<string>, fetch: Fetcher, parse: FloatParser) returns (reply: Reply<TradeRecord>)
    ensures reply == TradeReply(ano, fetch, parse, ExportCodes)
  {
    reply := TradeReport(ano, fetch, parse, ExportCodes);
  }

  // ---------------------------------------------------------------------
  // Properties of the row reading

  /** Number of counted rows among the first `n` body rows. */
  function CountedRows(body: seq<Row>, n: nat, skipTotals: bool): (count: nat)
    requires n <= |body|
    ensures count <= n
  {
    if n == 0 then 0 else CountedRows(body, n - 1, skipTotals) + (if Counted(body[n - 1], skipTotals) then 1 else 0)
  }

  /** The reading fails exactly when some counted row has an amount that is
      not missing and does not parse. */
  lemma {:induction false} TradeRowsFailIffUnparseable(body: seq<Row>, n: nat, year: int,
                                                       classification: Option<string>, skipTotals: bool, parse: FloatParser)
    requires n <= |body|
    ensures TradeRows(body, n, year, classification, skipTotals, parse).Err?
        <==> exists j :: 0 <= j < n && Fails(body[j], skipTotals, parse)
  {
    if n > 0 {
      var prefix := TradeRows(body, n - 1, year, classification, skipTotals, parse);
      var last := TradeRow(body[n - 1], year, classification, skipTotals, parse);
      TradeRowsFailIffUnparseable(body, n - 1, year, classification, skipTotals, parse);
      TradeRowErrIffFails(body[n - 1], year, classification, skipTotals, parse);
      assert TradeRows(body, n, year, classification, skipTotals, parse) == Then(prefix, last);
      if exists j :: 0 <= j < n && Fails(body[j], skipTotals, parse) {
        var j :| 0 <= j < n && Fails(body[j], skipTotals, parse);
        assert j < n - 1 ==> prefix.Err?;
      }
      if prefix.Err? {
        var j :| 0 <= j < n - 1 && Fails(body[j], skipTotals, parse);
        assert 0 <= j < n;
      }
    }
  }

  /** One row fails exactly when it is counted and one of its amounts does not parse. */
  lemma TradeRowErrIffFails(row: Row, year: int, classification: Option<string>, skipTotals: bool,
                            parse: FloatParser)
    ensures TradeRow(row, year, classification, skipTotals, parse).Err? <==> Fails(row, skipTotals, parse)
  {
  }

  /** A successful reading has one record per counted row. */
  lemma {:induction false} TradeRowsLength(body: seq<Row>, n: nat, year: int,
                                           classification: Option<string>, skipTotals: bool, parse: FloatParser)
    requires n <= |body|
    requires TradeRows(body, n, year, classification, skipTotals, parse).Ok?
    ensures |TradeRows(body, n, year, classification, skipTotals, parse).value| == CountedRows(body, n, skipTotals)
  {
    if n > 0 {
      TradeRowsLength(body, n - 1, year, classification, skipTotals, parse);
    }
  }

  /** In a successful reading, the counted row `body[j]` yields the record at
      the position given by the counted rows before it: its country, its two
      amounts, the year and the classification. */
  lemma {:induction false} TradeRowsAt(body: seq<Row>, n: nat, year: int,
                                       classification: Option<string>, skipTotals: bool, parse: FloatParser, j: nat)
    requires j < n <= |body| && Counted(body[j], skipTotals)
    requires TradeRows(body, n, year, classification, skipTotals, parse).Ok?
    ensures StrictAmount(body[j][1].text, parse).Ok? && StrictAmount(body[j][2].text, parse).Ok?
    ensures CountedRows(body, j, skipTotals) < |TradeRows(body, n, year, classification, skipTotals, parse).value|
    ensures TradeRows(body, n, year, classification, skipTotals, parse).value[CountedRows(body, j, skipTotals)]
         == RowRecord(body[j], year, classification, parse)
    decreases n
  {
    var prefix := TradeRows(body, n - 1, year, classification, skipTotals, parse);
    var last := TradeRow(body[n - 1], year, classification, skipTotals, parse);
    assert TradeRows(body, n, year, classification, skipTotals, parse) == Then(prefix, last);
    assert prefix.Ok? && last.Ok?;
    if j == n - 1 {
      TradeRowsLength(body, n - 1, year, classification, skipTotals, parse);
      assert last.value == [RowRecord(body[j], year, classification, parse)];
    } else {
      TradeRowsAt(body, n - 1, year, classification, skipTotals, parse, j);
    }
  }

  lemma {:induction false} CountedRowsMonotone(body: seq<Row>, j: nat, n: nat, skipTotals: bool)
    requires j < n <= |body| && Counted(body[j], skipTotals)
    ensures CountedRows(body, j, skipTotals) < CountedRows(body, n, skipTotals)
  {
    if j + 1 < n {
      CountedRowsMonotone(body, j, n - 1, skipTotals);
    }
  }

  /** Every record of a successful reading comes from a counted row (so never
      from a total row where totals are skipped), with that row's country and
      amounts, the year and the classification. */
  lemma {:induction false} TradeRowsProvenance(body: seq<Row>, n: nat, year: int,
                                               classification: Option<string>, skipTotals: bool,
                                               parse: FloatParser, k: nat)
    requires n <= |body|
    requires TradeRows(body, n, year, classification, skipTotals, parse).Ok?
    requires k < |TradeRows(body, n, year, classification, skipTotals, parse).value|
    ensures exists j :: 0 <= j < n && Counted(body[j], skipTotals)
                        && StrictAmount(body[j][1].text, parse).Ok? && StrictAmount(body[j][2].text, parse).Ok?
                        && TradeRows(body, n, year, classification, skipTotals, parse).value[k]
                           == RowRecord(body[j], year, classification, parse)
  {
    var prefix := TradeRows(body, n - 1, year, classification, skipTotals, parse);
    var whole := TradeRows(body, n, year, classification, skipTotals, parse);
    assert prefix.Ok?;
    if k < |prefix.value| {
      TradeRowsProvenance(body, n - 1, year, classification, skipTotals, parse, k);
      var j :| 0 <= j < n - 1 && Counted(body[j], skipTotals)
               && StrictAmount(body[j][1].text, parse).Ok? && StrictAmount(body[j][2].text, parse).Ok?
               && prefix.value[k] == RowRecord(body[j], year, classification, parse);
      assert whole.value[k] == prefix.value[k];
    } else {
      assert whole.value[k] == TradeRow(body[n - 1], year, classification, skipTotals, parse).value[k - |prefix.value|];
      assert Counted(body[n - 1], skipTotals);
    }
  }

  /** A total row is dropped in a sub-option table and kept in the main
      table: `Classificacao` None, no total filter. */
  lemma TotalRowOnlyKeptInMainTable(row: Row, year: int, sub: SubOption, parse: FloatParser)
    requires |row| >= 3 && IsTotalLabel(row[0].text)
    requires StrictAmount(row[1].text, parse).Ok? && StrictAmount(row[2].text, parse).Ok?
    ensures TradeRow(row, year, Some(sub.caption), true, parse) == Ok([])
    ensures TradeRow(row, year, None, false, parse) == Ok([RowRecord(row, year, None, parse)])
  {
  }

  // ---------------------------------------------------------------------
  // Properties of the reports

  /** Every record of a sub-option walk carries the requested year and the
      label of one of the walked sub-options, and no record is a total row's. */
  lemma {:induction false} TradeRecordsLabelled(subs: seq<SubOption>, year: int, option: string,
                                                fetch: Fetcher, parse: FloatParser)
    requires Harvest(subs, year, option, fetch, TradeReader(year, parse)).Ok?
    ensures forall r: TradeRecord :: r in Harvest(subs, year, option, fetch, TradeReader(year, parse)).value
              ==> r.year == year && !IsTotalLabel(r.country)
                  && exists s: SubOption :: s in subs && r.classification == Some(s.caption)
  {
    if subs != [] {
      var read := TradeReader(year, parse);
      var init := subs[..|subs| - 1];
      var last := subs[|subs| - 1];
      TradeRecordsLabelled(init, year, option, fetch, parse);
      var response := fetch(Request(year, option, Some(last.value)));
      var whole := Harvest(subs, year, option, fetch, read).value;
      forall r: TradeRecord | r in whole
        ensures r.year == year && !IsTotalLabel(r.country)
                && exists s: SubOption :: s in subs && r.classification == Some(s.caption)
      {
        if r in Harvest(init, year, option, fetch, read).value {
          var s: SubOption :| s in init && r.classification == Some(s.caption);
          assert s in subs;
        } else {
          assert response.Answer? && response.status == 200 && response.page.table.Some?;
          var body := Body(response.page.table.value);
          var own := TradeRows(body, |body|, year, Some(last.caption), true, parse);
          assert r in own.value;
          var k :| 0 <= k < |own.value| && own.value[k] == r;
          TradeRowsProvenance(body, |body|, year, Some(last.caption), true, parse, k);
          assert last in subs;
        }
      }
    }
  }

  /** A year that fails the gate is answered with 400 before any fetch. */
  lemma TradeGateAnswersBeforeFetch(ano: Option<string>, fetch: Fetcher, parse: FloatParser, codes: TradeCodes)
    requires YearGate(ano).None?
    ensures TradeReply(ano, fetch, parse, codes) == Error(400, MissingYearMessage)
  {
  }

  /** A base page that answers other than 200 gives 500, whatever the
      sub-option pages would answer. */
  lemma TradeBasePageUnreachable(ano: Option<string>, fetch: Fetcher, parse: FloatParser, codes: TradeCodes)
    requires YearGate(ano).Some?
    requires var base := fetch(Request(YearGate(ano).value, codes.discovery, None));
             base.Answer? && base.status != 200
    ensures TradeReply(ano, fetch, parse, codes) == Error(500, UnreachableMessage)
  {
  }

  /** Buttons none of which qualify: an empty list, not the main table. */
  lemma TradeNoQualifyingButtons(ano: Option<string>, fetch: Fetcher, parse: FloatParser, codes: TradeCodes,
                                 year: int, page: Page)
    requires YearGate(ano) == Some(year)
    requires fetch(Request(year, codes.discovery, None)) == Answer(200, page)
    requires page.buttons != []
    requires forall i :: 0 <= i < |page.buttons| ==> !Qualifies(page.buttons[i])
    ensures TradeReply(ano, fetch, parse, codes) == Records([])
  {
    QualifiedMembers(page.buttons);
  }

  /** No buttons and no table on the base page: 404. No buttons and a table:
      the main table read with no classification and no total filter. */
  lemma TradeMainTableFallback(ano: Option<string>, fetch: Fetcher, parse: FloatParser, codes: TradeCodes)
    requires YearGate(ano).Some?
    requires var base := fetch(Request(YearGate(ano).value, codes.discovery, None));
             base.Answer? && base.status == 200 && base.page.buttons == []
    ensures var base := fetch(Request(YearGate(ano).value, codes.discovery, None));
            base.page.table.None? ==> TradeReply(ano, fetch, parse, codes) == Error(404, TableMissingMessage)
    ensures var base := fetch(Request(YearGate(ano).value, codes.discovery, None));
            var year := YearGate(ano).value;
            base.page.table.Some? ==>
              var rows := TradeRows(Body(base.page.table.value), |Body(base.page.table.value)|, year, None, false, parse);
              TradeReply(ano, fetch, parse, codes) == if rows.Ok? then Records(rows.value) else Error(500, rows.message)
  {
  }

  /** An unparseable amount in any counted row of the main table makes the
      whole request a 500. */
  lemma TradeUnparseableAborts(ano: Option<string>, fetch: Fetcher, parse: FloatParser, codes: TradeCodes)
    requires YearGate(ano).Some?
    requires var base := fetch(Request(YearGate(ano).value, codes.discovery, None));
             base.Answer? && base.status == 200 && base.page.buttons == [] && base.page.table.Some?
             && exists j :: 0 <= j < |Body(base.page.table.value)| && Fails(Body(base.page.table.value)[j], false, parse)
    ensures TradeReply(ano, fetch, parse, codes).Error?
    ensures TradeReply(ano, fetch, parse, codes).status == 500
  {
    var base := fetch(Request(YearGate(ano).value, codes.discovery, None));
    var body := Body(base.page.table.value);
    TradeRowsFailIffUnparseable(body, |body|, YearGate(ano).value, None, false, parse);
  }

  /** An unparseable amount in a counted row of any sub-option table that is
      read makes the whole request a 500: the ValueError is not caught per
      sub-option either. */
  lemma SubOptionUnparseableAborts(ano: Option<string>, fetch: Fetcher, parse: FloatParser, codes: TradeCodes,
                                   year: int, page: Page, i: nat, subPage: Page, j: nat)
    requires YearGate(ano) == Some(year)
    requires fetch(Request(year, codes.discovery, None)) == Answer(200, page)
    requires page.buttons != []
    requires i < |Qualified(page.buttons)|
    requires fetch(Request(year, codes.data, Some(Qualified(page.buttons)[i].value))) == Answer(200, subPage)
    requires subPage.table.Some? && j < |Body(subPage.table.value)|
    requires Fails(Body(subPage.table.value)[j], true, parse)
    ensures TradeReply(ano, fetch, parse, codes).Error?
    ensures TradeReply(ano, fetch, parse, codes).status == 500
  {
    var subs := Qualified(page.buttons);
    var read := TradeReader(year, parse);
    var body := Body(subPage.table.value);
    TradeRowsFailIffUnparseable(body, |body|, year, Some(subs[i].caption), true, parse);
    assert read(subs[i], body).Err?;
    assert Contribution(subs[i], year, codes.data, fetch, read).Err?;
    HarvestNext(subs, i, year, codes.data, fetch, read);
    HarvestStopsAtRaise(subs, i, year, codes.data, fetch, read);
    assert Harvest(subs, year, codes.data, fetch, read).Err?;
    assert TradeReply(ano, fetch, parse, codes) == TradeYearReply(year, fetch, parse, codes);
  }

  /** Export looks for its sub-options on the import page (`opt_05`); when
      that page has no buttons, or fails, export answers exactly what import
      answers. Only the sub-option tables come from the export page. */
  lemma ExportFallbackIsImport(ano: Option<string>, fetch: Fetcher, parse: FloatParser)
    requires YearGate(ano).Some?
    requires var base := fetch(Request(YearGate(ano).value, ImportOption, None));
             !(base.Answer? && base.status == 200 && base.page.buttons != [])
    ensures TradeReply(ano, fetch, parse, ExportCodes) == TradeReply(ano, fetch, parse, ImportCodes)
  {
    ExportFallbackYear(YearGate(ano).value, fetch, parse);
  }

  lemma ExportFallbackYear(year: int, fetch: Fetcher, parse: FloatParser)
    requires var base := fetch(Request(year, ImportOption, None));
             !(base.Answer? && base.status == 200 && base.page.buttons != [])
    ensures TradeYearReply(year, fetch, parse, ExportCodes) == TradeYearReply(year, fetch, parse, ImportCodes)
  {
    match fetch(Request(year, ImportOption, None))
    case Raised(m) =>
    case Answer(status, page) =>
      if status == 200 {
        assert page.buttons == [];
      }
  }
}
