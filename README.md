# VitiBrasil scraping API — a Dafny model of its core

`app.py` is a small Flask service. It answers five authenticated GET
endpoints (`/vitibrasil/producao`, `/processamento`, `/comercializacao`,
`/importacao` and `/exportacao`) by scraping the Embrapa VitiBrasil site
for the year given in the `ano` query parameter. Each handler turns the
site's HTML data table into a JSON list of records. This project models
the logic that sits between the fetch and the JSON:

- the year gate and the credential check of `verify_password`;
- the normalization of Brazilian-formatted quantities;
- the row walk of the production, processing and commercialization tables.
  A `tb_item` row sets the running category (`tipo_atual`). A `tb_subitem`
  row yields a record.
- the discovery of sub-options from `btn_sopt` buttons, and the loop over
  sub-option pages. That loop skips a page that fails and lets an
  exception escape.
- the import/export row reading. It skips total rows and aborts the whole
  request on an amount that does not parse.
- the Latin-1 → UTF-8 repair of production product names.

Two parts of the outside world become parameters:

- `requests.get` is a `Fetcher`, a function from a request (`ano`, `opcao`,
  optional `subopcao`) to either an answer (a status and the parsed page)
  or a raised exception with its message.
- Python's `float()` is a `FloatParser`, a function from a normalized text
  to a value, or None where `float()` raises ValueError.

A parsed page is its `btn_sopt` buttons and the rows of its
`tb_base tb_dados` table. Each row is a sequence of cells, and each cell is
a class list and a stripped text.

Each handler is a method with loops, written the way the source writes it.
Each is proved equal to a reply function (`ProductReply`, `ProcessingReply`
or `TradeReply`), and the lemmas state the handlers' promises about those
functions.

Files:

- `wrappers.dfy`: Option and Result.
- `text.dfy`: strip, the total test and normalization.
- `mojibake.dfy`: the name repair.
- `gate.dfy`: `int()`, the year gate and the credentials.
- `table_walk.dfy`: the category row walk.
- `sub_options.dfy`: button discovery.
- `upstream.dfy`: pages, fetches and the sub-option loop.
- `category_reports.dfy`: production, processing and commercialization.
- `trade_reports.dfy`: import and export.

## Model

| member | source | states |
|---|---|---|
| Gate.VerifyPassword | app.py:33-36 | the username is returned exactly when it is in the table and the password is its own; otherwise nothing |
| Gate.VerifyPasswordWithUsers | app.py:26-36 | with the credential table of app.py, exactly the pairs user1/password1 and user2/password2 are accepted |
| Gate.ParseIntUnwraps | app.py:58 | `int()` skips the whitespace around a text (Python's whitespace less U+001C-U+001F) and reads what it wraps; an all-whitespace text is refused |
| Gate.ParseIntBare | app.py:58 | a text with no such whitespace at either end is read as it stands |
| Gate.ParseIntRefusesSeparator | app.py:58 | an ASCII separator U+001C-U+001F anywhere in the text, around the digits included, makes `int()` raise ValueError |
| Gate.ParseSignedShape | app.py:58 | an accepted text is an optional sign followed by digits, with single underscores only between digits, and its value is the signed decimal value of those digits |
| Gate.ParseSignedRefusesNonDigit | app.py:58 | any character other than a digit or `_` refuses the text, unless it is the leading sign |
| Gate.ParseIntRefusesLetter | app.py:58 | `int("20a4")` raises ValueError |
| Gate.ParseIntRefusesPoint | app.py:58 | `int("2.024")` raises ValueError |
| Gate.ParseSignedReadsPlusSign | app.py:58 | a plus sign and a leading zero are read: `+07` is 7 |
| Gate.ParseSignedReadsUnderscores | app.py:58 | underscores between digits are skipped: `1_000` is 1000 |
| Gate.ParseIntReadsPlusSign | app.py:58 | `int("+07")` is 7 |
| Gate.ParseIntReadsUnderscores | app.py:58 | `int("1_000")` is 1000: the underscore is skipped |
| Gate.ParseSignedShowInt | app.py:58 | the signed digits `str(n)` writes read back as `n` |
| Gate.ParseShowInt | app.py:58 | `int(str(n)) == n` for every integer, negative ones included |
| Gate.YearGate | app.py:58-60 | a year is accepted only when `ano` is present, parses as an integer and is not 0; a refused `ano` is missing, unparseable or 0 |
| Gate.YearGateRefusesSeparator | app.py:58-60 | an `ano` holding U+001C-U+001F, even only around the digits, is refused, so the handler answers 400 |
| Gate.YearGateAcceptsWrittenYears | app.py:58-60 | every integer written in decimal passes the gate as itself, except 0 (CPython's digit limit aside, see Left out) |
| Text.Strip | app.py:301 | `strip()` leaves no whitespace at either end, and gives the empty text exactly when the input is all whitespace |
| Text.StripUnwraps | app.py:301 | stripping whitespace wrapped around a core that has no whitespace at either end gives back that core |
| Text.TotalLabelIgnoresCaseAndSpace | app.py:300-302 | any capitalisation of "total", with any surrounding whitespace, is recognised as a total row |
| Text.NormalizeCounts | app.py:91 | normalization leaves no `,`; its `.` count is the input's `,` count; its length is the input's minus its `.` count; every other character keeps its count |
| Text.NormalizeAppend | app.py:91 | normalization works character by character: it distributes over concatenation |
| Text.NormalizeEmptyIffOnlyPoints | app.py:91-93 | the normalized text is empty (so "missing") exactly when the cell held only `.` characters |
| Text.NormalizePlain | app.py:174 | a text with no `.` or `,` is left unchanged |
| Text.NormalizeThousands | app.py:237 | `.` thousands separators are removed, and the digit groups are concatenated |
| Text.NormalizeDecimalComma | app.py:303-304 | "1.234,5" reads as "1234.5": groups are joined and the decimal comma becomes a point |
| Mojibake.Latin1Encode | app.py:88 | `encode('latin1')` succeeds exactly when every character is below U+0100, mapping each to its code |
| Mojibake.DecodeEncode | app.py:88 | the UTF-8 decoder reads back every UTF-8 encoding |
| Mojibake.Latin1RoundTrip | app.py:64-88 | bytes read as Latin-1 text encode back to the same bytes |
| Mojibake.Repair | app.py:86-90 | when the name encodes to Latin-1 and those bytes decode as UTF-8, the result is that decoding; when either step fails, the name is kept; never longer |
| Mojibake.RepairRestoresMisreadName | app.py:64-90 | a name sent as UTF-8 and read as Latin-1 is restored to the original name |
| Mojibake.RepairKeepsAscii | app.py:86-90 | an ASCII name is left unchanged |
| Mojibake.DecodeFailsAt | app.py:88 | a byte 0xC0 or above that is last, or is followed by a byte outside 0x80-0xBF, makes the UTF-8 decoding fail |
| Mojibake.RepairKeepsLatin1Name | app.py:86-90 | a Latin-1 name holding a letter U+00C0 or above that is last or is followed by a character outside U+0080-U+00BF (every accented Portuguese name such as "Maçã") is kept as it was |
| TableWalk.Body | app.py:77 | `rows[1:]`: the header row is dropped, and the rest is kept in order |
| TableWalk.LastItemBefore | app.py:79-81 | finds the nearest `tb_item` row before a position; there is no other `tb_item` row between the two |
| TableWalk.CategoryAt | app.py:76-82 | the category in force at a row is None exactly when no `tb_item` row precedes it in the table; otherwise it is the text of the nearest preceding `tb_item` row |
| TableWalk.RowClassification | app.py:79-84 | a `tb_item` row emits nothing and replaces the category; a `tb_subitem` row with two or more cells emits with the current category and keeps it; any other row emits nothing and keeps it |
| TableWalk.WalkTable | app.py:76-104 | the row loop with its running `tipo_atual` produces exactly the row-by-row output of the body, in row order |
| TableWalk.WalkedLength | app.py:164-189 | with a one-record-per-row policy, the output has one record per data row |
| TableWalk.WalkedAt | app.py:164-189 | with that policy, data row j gives the record at position "data rows before j", built from its cells and its category |
| TableWalk.WalkedProvenance | app.py:76-104 | every output record comes from one data row, built from that row's cells and the category in force there |
| TableWalk.SubItemCountMonotone | app.py:165-189 | a data row is counted before every later position |
| SubOptions.Qualified | app.py:141-147 | never more sub-options than buttons; each kept one has a non-empty value and label |
| SubOptions.QualifiedMembers | app.py:141-147 | a sub-option is kept exactly when some qualifying button names it; the list is empty exactly when no button qualifies |
| SubOptions.QualifiedAppend | app.py:279-284 | discovery keeps page order: split buttons give the concatenated sub-options |
| SubOptions.DiscoverSubOptions | app.py:141-147 | the button loop builds exactly the qualifying sub-options in page order |
| Upstream.Then | app.py:154-189 | in sequencing, the first exception wins; otherwise the records are concatenated |
| Upstream.ThenAssociative | app.py:154-189 | sequencing is associative |
| Upstream.HarvestAppend | app.py:154-189 | the loop over two runs of sub-options is the loop over the first, then over the second: sub-option order is output order |
| Upstream.HarvestStopsAtRaise | app.py:154-163 | once a sub-option raises, the later sub-options do not change the outcome |
| Upstream.HarvestSkipsFailedSubOption | app.py:156-163 | a sub-option answered with a status other than 200, or lacking the data table, is skipped; the others decide the outcome |
| CategoryReports.LenientQuantity | app.py:174-182 | processing's quantity is None when the text is missing; when the text is present, it is exactly the parser's value (None where the parser fails) |
| CategoryReports.ProductReport | app.py:58-107 | the production/commercialization handler answers exactly `ProductReply` |
| CategoryReports.Production | app.py:44-107 | `vitibrasil_dados` is the product report on `opt_02`, with names repaired |
| CategoryReports.Commercialization | app.py:198-254 | `vitibrasil_comercializacao` is the product report on `opt_04`, without repair |
| CategoryReports.Processing | app.py:129-192 | `vitibrasil_processamento` answers exactly `ProcessingReply` |
| CategoryReports.ProcessSubOptions | app.py:152-189 | the sub-option loop, with a fresh `tipo_atual` per table, yields exactly the in-order concatenation of the tables read; a non-200 page or a missing table is skipped; a raised fetch escapes with its message |
| CategoryReports.GateAnswersBeforeFetch | app.py:58-60 | a refused year gives 400 with the report's own message, whatever the site would answer |
| CategoryReports.ProcessingAnswersFromBasePage | app.py:136-150 | a base page answered with a status other than 200 gives 500; no qualifying button gives 404; no sub-option page is consulted |
| CategoryReports.ProcessingRecordOfRow | app.py:164-189 | processing emits one record per data row, in row order, carrying its name, its lenient quantity, its category and the sub-option label |
| CategoryReports.ProductRecordOrigin | app.py:84-104 | every production/commercialization record comes from a data row whose quantity was present and parsed; it carries that row's category, its (repaired) name, the parsed value and the year |
| CategoryReports.CommercializationKeepsNumericProcessingRows | app.py:227-251 | commercialization's output is processing's walk with the records lacking a quantity dropped, and nothing else changed |
| CategoryReports.RowWithQuantity | app.py:235-251 | row by row, commercialization keeps what processing emits exactly when the quantity was read |
| CategoryReports.WithQuantityAppend | app.py:238-251 | dropping records without quantity distributes over concatenation |
| CategoryReports.ProductionRepairsNames | app.py:62-104 | production is commercialization's policy with the product names repaired |
| CategoryReports.ProcessingTableLabelled | app.py:183-189 | every record of one sub-option table carries that sub-option's label and the year |
| CategoryReports.ProcessingRecordsLabelled | app.py:154-189 | every processing record carries the year and the label of one of the walked sub-options |
| TradeReports.StrictAmount | app.py:305-306 | an amount is None exactly when the text is missing, the parsed value exactly when it is present and parses, and a ValueError (with its message) exactly when it is present and unparseable |
| TradeReports.TradeRowsErrPersists | app.py:305-306 | once a row has raised, later rows change nothing |
| TradeReports.ReadTradeTable | app.py:296-313 | the import/export row loop produces exactly `TradeRows`: rows of fewer than three cells are skipped, totals are skipped when asked, and an unparseable amount escapes |
| TradeReports.ReadTradeRow | app.py:297-313 | one pass of that loop: no record for a short row or a skipped total, otherwise the quantity then the value read strictly, giving `TradeRow` |
| TradeReports.ReadSubOptionTables | app.py:286-313 | the sub-option loop yields exactly the in-order concatenation of the labelled, total-free tables; a skipped page adds nothing; a raised fetch or an unparseable amount escapes |
| TradeReports.TradeReport | app.py:264-337 | the import/export handler answers exactly `TradeReply` |
| TradeReports.Import | app.py:260-337 | `vitibrasil_importacao` reads both the base and the sub-option pages from `opt_05` |
| TradeReports.Export | app.py:344-421 | `vitibrasil_exportacao` discovers on `opt_05` and reads the sub-option tables from `opt_06` |
| TradeReports.TradeRowErrIffFails | app.py:297-306 | one row raises exactly when it is counted and its quantity or value is present and unparseable |
| TradeReports.TradeRowsFailIffUnparseable | app.py:303-306 | reading fails exactly when some counted row has a quantity or value that is present and unparseable |
| TradeReports.TradeRowsLength | app.py:296-313 | a successful reading has one record per counted row |
| TradeReports.TradeRowsAt | app.py:296-313 | each counted row yields, at its position, the record with its country, both amounts, the year and the classification |
| TradeReports.CountedRowsMonotone | app.py:296-313 | a counted row is counted before every later position |
| TradeReports.TradeRowsProvenance | app.py:296-313 | every record comes from a counted row, so never from a skipped total row |
| TradeReports.TotalRowOnlyKeptInMainTable | app.py:298-334 | a total row is dropped in a sub-option table and kept, with no classification, in the main table |
| TradeReports.TradeRecordsLabelled | app.py:286-313 | every sub-option record carries the year and the label of a walked sub-option, and none is a total row |
| TradeReports.TradeGateAnswersBeforeFetch | app.py:264-266 | a refused year gives 400 before any fetch |
| TradeReports.TradeBasePageUnreachable | app.py:271-273 | a base page answered with a status other than 200 gives 500 |
| TradeReports.SubOptionUnparseableAborts | app.py:296-337 | a sub-option table with a present but unparseable amount makes the whole request answer 500 |
| TradeReports.TradeNoQualifyingButtons | app.py:278-284 | buttons none of which qualify give an empty list; the main table is not used |
| TradeReports.TradeMainTableFallback | app.py:314-334 | with no button at all, a missing table gives 404; otherwise the main table is read without classification and without the total filter |
| TradeReports.TradeUnparseableAborts | app.py:320-337 | an unparseable amount in the main table turns the whole request into a 500 |
| TradeReports.ExportFallbackYear | app.py:352-402 | for a year that passed the gate, with no buttons on the `opt_05` page (or that page failing), export's answer is import's |
| TradeReports.ExportFallbackIsImport | app.py:352-402 | export discovers on the import page, so when that page has no buttons (or fails) export answers exactly what import answers |

## Left out

- HTTP, Flask routing, `jsonify`, Swagger documentation and the `@auth.login_required` decorator are left out. The 401 answer belongs to the authentication library; only the credential lookup is modelled.
- `requests.get` is an arbitrary function from request to answer. Request headers, URLs, timeouts and `response.encoding` are not modelled. A raised exception is represented by its message, so the exact text of `str(e)` for network errors is not modelled.
- BeautifulSoup parsing is left out. A page is given as its buttons and its data table, already split into rows and cells with stripped text.
- `float()` is a parameter. Its grammar and IEEE-754 rounding are not modelled, and every property holds for every parser.
- StrictAmount: the ValueError message quotes the text with plain single quotes. Python writes it with `repr`, which escapes quotes and backslashes differently.
- ParseInt: only ASCII digits are accepted. Python's `int()` also accepts other Unicode decimal digits.
- ParseInt: CPython's limit on the number of digits (`sys.int_max_str_digits`, 4300 by default since 3.11 and the 3.7.14, 3.8.14, 3.9.14 and 3.10.7 security releases) is not modelled. `int()` raises ValueError beyond it, so app.py:59-60 answers 400 where YearGate accepts such a text.
- YearGate: a repeated `ano` parameter is not modelled. The gate sees one optional text.
- Text.IsTotalLabel: lowercasing is modelled on ASCII letters only. This decides the comparison with "total" exactly, because no other character lowercases into those letters.
- The `opcao` codes are configuration constants. Export's discovery on `opt_05` is modelled as written, and `ExportFallbackIsImport` states its consequence.
