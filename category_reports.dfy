/** The three reports whose tables group products under `tb_item` category
    rows: production (`/vitibrasil/producao`), commercialization
    (`/vitibrasil/comercializacao`) and processing
    (`/vitibrasil/processamento`). They share the row walk and differ in what
    a data row yields: production and commercialization drop a row whose
    quantity is missing or unparseable (production also repairs the product
    name), processing keeps every data row with a None quantity and walks one
    table per sub-option. */
module CategoryReports {
  import opened Wrappers
  import opened Text
  import opened Mojibake
  import opened Gate
  import opened TableWalk
  import opened SubOptions
  import opened Upstream

  /** A production or commercialization record: Tipo, Produto,
      Quantidade (L.) and Ano. */
  datatype ProductRecord = ProductRecord(tipo: Option<string>, product: string, quantity: real, year: int)

  /** A processing record: Ano, Classificacao, Cultivar, Quantidade (L.) and Tipo. */
  datatype ProcessingRecord = ProcessingRecord(year: int, classification: string, cultivar: string,
                                               quantity: Option<real>, tipo: Option<string>)

  /** The data row of production (`repairNames`) and commercialization: a
      missing quantity ("-" or empty once normalized) or an unparseable one
      drops the row. */
  function ProductEmitter(year: int, parse: FloatParser, repairNames: bool): Emitter<ProductRecord>
  {
    (name: string, quantityText: string, tipo: Option<string>) =>
      var q := Normalize(quantityText);
      if IsMissing(q) then []
      else match parse(q)
        case None => []
        case Some(v) => [ProductRecord(tipo, if repairNames then Repair(name) else name, v, year)]
  }

  /** Processing's reading of a quantity: None when missing or unparseable. */
  function LenientQuantity(text: string, parse: FloatParser): (q: Option<real>)
    ensures IsMissing(Normalize(text)) ==> q.None?
    ensures !IsMissing(Normalize(text)) ==> q == parse(Normalize(text))
  {
    var n := Normalize(text);
    if IsMissing(n) then None else parse(n)
  }

  /** The data row of processing: always one record, stamped with the
      sub-option's label. */
  function ProcessingEmitter(year: int, caption: string, parse: FloatParser): Emitter<ProcessingRecord>
  {
    (name: string, quantityText: string, tipo: Option<string>) =>
      [ProcessingRecord(year, caption, name, LenientQuantity(quantityText, parse), tipo)]
  }

  /** Processing's reading of one sub-option's table: it never raises. */
  function ProcessingReader(year: int, parse: FloatParser): TableReader<ProcessingRecord>
  {
    (sub: SubOption, body: seq<Row>) => Ok(Walked(body, |body|, ProcessingEmitter(year, sub.caption, parse)))
  }

  /** The answer of production (`ProductionOption`, names repaired) and
      commercialization (`CommercializationOption`). */
  function ProductReply(ano: Option<string>, fetch: Fetcher, parse: FloatParser,
                        option: string, repairNames: bool): Reply<ProductRecord>
  {
    match YearGate(ano)
    case None => Error(400, MissingYearPlainMessage)
    case Some(year) =>
      match fetch(Request(year, option, None))
      case Raised(m) => Error(500, m)
      case Answer(status, page) =>
        if status != 200 then Error(500, UnreachableMessage)
        else if page.table.None? then Error(404, TableMissingMessage)
        else
          var body := Body(page.table.value);
          Records(Walked(body, |body|, ProductEmitter(year, parse, repairNames)))
  }

  /** The answer of processing. */
  function ProcessingReply(ano: Option<string>, fetch: Fetcher, parse: FloatParser): Reply<ProcessingRecord>
  {
    match YearGate(ano)
    case None => Error(400, MissingYearMessage)
    case Some(year) =>
      match fetch(Request(year, ProcessingOption, None))
      case Raised(m) => Error(500, m)
      case Answer(status, page) =>
        if status != 200 then Error(500, UnreachableMessage)
        else
          var subs := Qualified(page.buttons);
          if subs == [] then Error(404, NoSubOptionMessage)
          else match Harvest(subs, year, ProcessingOption, fetch, ProcessingReader(year, parse))
            case Err(m) => Error(500, m)
            case Ok(records) => Records(records)
  }

  /** The body shared by `vitibrasil_dados` and `vitibrasil_comercializacao`:
      one fetch, one table, one walk. */
  method ProductReport(ano: Option<string>, fetch: Fetcher, parse: FloatParser, option: string, repairNames: bool)
    returns (reply: Reply<ProductRecord>)
    ensures reply == ProductReply(ano, fetch, parse, option, repairNames)
  {
    var year := YearGate(ano);
    if year.None? {
      return Error(400, MissingYearPlainMessage);
    }
    var response := fetch(Request(year.value, option, None));
    if response.Raised? {
      return Error(500, response.message);
    }
    if response.status != 200 {
      return Error(500, UnreachableMessage);
    }
    if response.page.table.None? {
      return Error(404, TableMissingMessage);
    }
    var data := WalkTable(Body(response.page.table.value), ProductEmitter(year.value, parse, repairNames));
    return Records(data);
  }

  /** `vitibrasil_dados`: the production report. */
  method Production(ano: Option<string>, fetch: Fetcher, parse: FloatParser) returns (reply: Reply<ProductRecord>)
    ensures reply == ProductReply(ano, fetch, parse, ProductionOption, true)
  {
    reply := ProductReport(ano, fetch, parse, ProductionOption, true);
  }

  /** `vitibrasil_comercializacao`: the commercialization report. */
  method Commercialization(ano: Option<string>, fetch: Fetcher, parse: FloatParser) returns (reply: Reply<ProductRecord>)
    ensures reply == ProductReply(ano, fetch, parse, CommercializationOption, false)
  {
    reply := ProductReport(ano, fetch, parse, CommercializationOption, false);
  }

  /** `vitibrasil_processamento`: discover the sub-options on the base page,
      then walk each sub-option's table. */
  method Processing(ano: Option<string>, fetch: Fetcher, parse: FloatParser) returns (reply: Reply<ProcessingRecord>)
    ensures reply == ProcessingReply(ano, fetch, parse)
  {
    var year := YearGate(ano);
    if year.None? {
      return Error(400, MissingYearMessage);
    }
    var response := fetch(Request(year.value, ProcessingOption, None));
    if response.Raised? {
      return Error(500, response.message);
    }
    if response.status != 200 {
      return Error(500, UnreachableMessage);
    }
    var subs := DiscoverSubOptions(response.page.buttons);
    if subs == [] {
      return Error(404, NoSubOptionMessage);
    }
    var resultado := ProcessSubOptions(subs, year.value, fetch, parse);
    if resultado.Err? {
      return Error(500, resultado.message);
    }
    return Records(resultado.value);
  }

  /** The loop `for sub in subopcoes` of processing: each sub-option's table
      is walked with a fresh running category; a raised fetch escapes. */
  method ProcessSubOptions(subs: seq<SubOption>, year: int, fetch: Fetcher, parse: FloatParser)
    returns (r: Result<seq<ProcessingRecord>>)
    ensures r == Harvest(subs, year, ProcessingOption, fetch, ProcessingReader(year, parse))
  {
    ghost var read := ProcessingReader(year, parse);
    var resultado: seq<ProcessingRecord> := [];
    for i := 0 to |subs|
      invariant Harvest(subs[..i], year, ProcessingOption, fetch, read) == Ok(resultado)
    {
      var sub := subs[i];
      HarvestNext(subs, i, year, ProcessingOption, fetch, read);
      assert resultado + [] == resultado;
      var resp := fetch(Request(year, ProcessingOption, Some(sub.value)));
      if resp.Raised? {
        HarvestStopsAtRaise(subs, i, year, ProcessingOption, fetch, read);
        return Err(resp.message);
      }
      if resp.status != 200 {
        continue;
      }
      if resp.page.table.None? {
        continue;
      }
      var records := WalkTable(Body(resp.page.table.value), ProcessingEmitter(year, sub.caption, parse));
      assert Contribution(sub, year, ProcessingOption, fetch, read) == Ok(records);
      resultado := resultado + records;
    }
    assert subs[..|subs|] == subs;
    return Ok(resultado);
  }

  // ---------------------------------------------------------------------
  // Properties of the reports

  /** A year that fails the gate is answered with 400 whatever the site would
      answer: no fetch happens. */
  lemma GateAnswersBeforeFetch(ano: Option<string>, fetch: Fetcher, parse: FloatParser, option: string, repairNames: bool)
    requires YearGate(ano).None?
    ensures ProductReply(ano, fetch, parse, option, repairNames) == Error(400, MissingYearPlainMessage)
    ensures ProcessingReply(ano, fetch, parse) == Error(400, MissingYearMessage)
  {
  }

  /** The processing answer is decided by the base page alone when that page
      fails (500) or names no usable sub-option (404): no sub-option page is
      consulted. */
  lemma ProcessingAnswersFromBasePage(ano: Option<string>, f1: Fetcher, f2: Fetcher, parse: FloatParser)
    requires YearGate(ano).Some?
    requires f1(Request(YearGate(ano).value, ProcessingOption, None)) == f2(Request(YearGate(ano).value, ProcessingOption, None))
    requires var base := f1(Request(YearGate(ano).value, ProcessingOption, None));
             base.Answer? && (base.status != 200 || Qualified(base.page.buttons) == [])
    ensures ProcessingReply(ano, f1, parse) == ProcessingReply(ano, f2, parse)
    ensures ProcessingReply(ano, f1, parse).Error?
    ensures ProcessingReply(ano, f1, parse).status == (if f1(Request(YearGate(ano).value, ProcessingOption, None)).status != 200 then 500 else 404)
  {
  }

  lemma ProcessingEmitterOnePerRow(year: int, caption: string, parse: FloatParser)
    ensures OnePerRow(ProcessingEmitter(year, caption, parse))
  {
  }

  /** Processing emits every data row: one record per `tb_subitem` row, the
      record of `body[j]` at the position given by the data rows before it,
      carrying that row's name, its lenient quantity and the category of the
      nearest `tb_item` row above it. */
  lemma ProcessingRecordOfRow(body: seq<Row>, n: nat, year: int, caption: string, parse: FloatParser, j: nat)
    requires j < n <= |body| && IsSubItem(body[j])
    ensures |Walked(body, n, ProcessingEmitter(year, caption, parse))| == SubItemCount(body, n)
    ensures SubItemCount(body, j) < SubItemCount(body, n)
    ensures Walked(body, n, ProcessingEmitter(year, caption, parse))[SubItemCount(body, j)]
         == ProcessingRecord(year, caption, body[j][0].text, LenientQuantity(body[j][1].text, parse), CategoryAt(body, j))
  {
    var emit := ProcessingEmitter(year, caption, parse);
    ProcessingEmitterOnePerRow(year, caption, parse);
    WalkedLength(body, n, emit);
    WalkedAt(body, n, emit, j);
  }

  /** Every production or commercialization record comes from a data row:
      its Tipo is the category in force at that row, its product is the
      row's name (repaired for production), and its quantity is what the
      parser read from the row's normalized quantity, which was not missing. */
  lemma ProductRecordOrigin(body: seq<Row>, n: nat, year: int, parse: FloatParser, repairNames: bool, k: nat)
    requires n <= |body| && k < |Walked(body, n, ProductEmitter(year, parse, repairNames))|
    ensures var r := Walked(body, n, ProductEmitter(year, parse, repairNames))[k];
            exists j :: 0 <= j < n && IsSubItem(body[j])
                        && r.tipo == CategoryAt(body, j)
                        && r.product == (if repairNames then Repair(body[j][0].text) else body[j][0].text)
                        && !IsMissing(Normalize(body[j][1].text))
                        && parse(Normalize(body[j][1].text)) == Some(r.quantity)
                        && r.year == year
  {
    var emit := ProductEmitter(year, parse, repairNames);
    WalkedProvenance(body, n, emit, k);
    var j :| 0 <= j < n && IsSubItem(body[j])
             && Walked(body, n, emit)[k] in emit(body[j][0].text, body[j][1].text, CategoryAt(body, j));
  }

  /** The processing records that carry a quantity. */
  function WithQuantity(records: seq<ProcessingRecord>): (kept: seq<ProductRecord>)
    ensures |kept| <= |records|
  {
    if records == [] then []
    else
      var init := WithQuantity(records[..|records| - 1]);
      var r := records[|records| - 1];
      if r.quantity.Some? then init + [ProductRecord(r.tipo, r.cultivar, r.quantity.value, r.year)] else init
  }

  lemma {:induction false} WithQuantityAppend(a: seq<ProcessingRecord>, b: seq<ProcessingRecord>)
    ensures WithQuantity(a + b) == WithQuantity(a) + WithQuantity(b)
    decreases |b|
  {
    if b == [] {
      assert a + b == a;
    } else {
      assert (a + b)[..|a + b| - 1] == a + b[..|b| - 1];
      assert (a + b)[|a + b| - 1] == b[|b| - 1];
      WithQuantityAppend(a, b[..|b| - 1]);
    }
  }

  /** One body row: commercialization's output for it is processing's output
      for it, kept when the quantity was read. */
  lemma RowWithQuantity(body: seq<Row>, j: nat, year: int, caption: string, parse: FloatParser)
    requires j < |body|
    ensures RowOutput(body, j, ProductEmitter(year, parse, false))
         == WithQuantity(RowOutput(body, j, ProcessingEmitter(year, caption, parse)))
  {
    if IsSubItem(body[j]) {
      var row := RowOutput(body, j, ProcessingEmitter(year, caption, parse));
      assert row == [ProcessingRecord(year, caption, body[j][0].text,
                                      LenientQuantity(body[j][1].text, parse), CategoryAt(body, j))];
      assert row[..0] == [];
    }
  }

  /** Commercialization is processing's walk with the rows lacking a numeric
      quantity dropped: the two policies differ in nothing else. */
  lemma {:induction false} CommercializationKeepsNumericProcessingRows(body: seq<Row>, n: nat, year: int,
                                                                      caption: string, parse: FloatParser)
    requires n <= |body|
    ensures Walked(body, n, ProductEmitter(year, parse, false))
         == WithQuantity(Walked(body, n, ProcessingEmitter(year, caption, parse)))
  {
    if n > 0 {
      var keep, drop := ProcessingEmitter(year, caption, parse), ProductEmitter(year, parse, false);
      CommercializationKeepsNumericProcessingRows(body, n - 1, year, caption, parse);
      WithQuantityAppend(Walked(body, n - 1, keep), RowOutput(body, n - 1, keep));
      RowWithQuantity(body, n - 1, year, caption, parse);
      assert Walked(body, n, drop) == Walked(body, n - 1, drop) + RowOutput(body, n - 1, drop);
      assert Walked(body, n, keep) == Walked(body, n - 1, keep) + RowOutput(body, n - 1, keep);
    }
  }

  /** The product names of a record list, repaired. */
  function RepairNames(records: seq<ProductRecord>): seq<ProductRecord>
  {
    seq(|records|, k requires 0 <= k < |records| => records[k].(product := Repair(records[k].product)))
  }

  /** Production differs from commercialization only by the repair of the
      product names. */
  lemma {:induction false} ProductionRepairsNames(body: seq<Row>, n: nat, year: int, parse: FloatParser)
    requires n <= |body|
    ensures Walked(body, n, ProductEmitter(year, parse, true))
         == RepairNames(Walked(body, n, ProductEmitter(year, parse, false)))
  {
    if n > 0 {
      ProductionRepairsNames(body, n - 1, year, parse);
      var plain := ProductEmitter(year, parse, false);
      assert RepairNames(Walked(body, n, plain))
          == RepairNames(Walked(body, n - 1, plain)) + RepairNames(RowOutput(body, n - 1, plain));
    }
  }

  /** All records of one processing table carry that sub-option's label and
      the requested year. */
  lemma ProcessingTableLabelled(body: seq<Row>, year: int, caption: string, parse: FloatParser)
    ensures forall r :: r in Walked(body, |body|, ProcessingEmitter(year, caption, parse))
                        ==> r.classification == caption && r.year == year
  {
    var emit := ProcessingEmitter(year, caption, parse);
    var out := Walked(body, |body|, emit);
    forall r | r in out ensures r.classification == caption && r.year == year {
      var k :| 0 <= k < |out| && out[k] == r;
      WalkedProvenance(body, |body|, emit, k);
    }
  }

  /** Every processing record carries the requested year and the label of one
      of the sub-options that were walked. */
  lemma {:induction false} ProcessingRecordsLabelled(subs: seq<SubOption>, year: int, fetch: Fetcher, parse: FloatParser)
    requires Harvest(subs, year, ProcessingOption, fetch, ProcessingReader(year, parse)).Ok?
    ensures forall r :: r in Harvest(subs, year, ProcessingOption, fetch, ProcessingReader(year, parse)).value
                        ==> r.year == year && exists s: SubOption :: s in subs && r.classification == s.caption
  {
    if subs != [] {
      var read := ProcessingReader(year, parse);
      var init := subs[..|subs| - 1];
      var last := subs[|subs| - 1];
      ProcessingRecordsLabelled(init, year, fetch, parse);
      var response := fetch(Request(year, ProcessingOption, Some(last.value)));
      if response.Answer? && response.status == 200 && response.page.table.Some? {
        ProcessingTableLabelled(Body(response.page.table.value), year, last.caption, parse);
      }
      forall r: ProcessingRecord | r in Harvest(subs, year, ProcessingOption, fetch, read).value
        ensures r.year == year && exists s: SubOption :: s in subs && r.classification == s.caption
      {
        if r in Harvest(init, year, ProcessingOption, fetch, read).value {
          var s: SubOption :| s in init && r.classification == s.caption;
          assert s in subs;
        } else {
          assert last in subs;
        }
      }
    }
  }
}
