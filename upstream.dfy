/** The upstream site as the handlers see it, and the loop over sub-options.
    `requests.get` is an oracle from request to answer; BeautifulSoup's view
    of a page is its `btn_sopt` buttons and its `tb_base tb_dados` table. */
module Upstream {
  import opened Wrappers
  import opened TableWalk
  import opened SubOptions

  /** A fetched page: its `btn_sopt` buttons in page order and the rows of
      its `table.tb_base.tb_dados`, header row first (None: no such table). */
  datatype Page = Page(buttons: seq<Button>, table: Option<seq<Row>>)

  /** The query of one fetch: `ano`, `opcao` and the optional `subopcao`. */
  datatype Request = Request(year: int, option: string, subOption: Option<string>)

  /** What `requests.get` does: answer with a status and a page, or raise
      with a message. */
  datatype FetchResult = Answer(status: int, page: Page) | Raised(message: string)

  type Fetcher = Request -> FetchResult

  /** Python's `float()` on a normalized quantity text: its value, or None
      where it raises ValueError. Left as a parameter, like the fetch. */
  type FloatParser = string -> Option<real>

  /** The `opcao` codes app.py requests. */
  const ProductionOption := "opt_02"
  const ProcessingOption := "opt_03"
  const CommercializationOption := "opt_04"
  const ImportOption := "opt_05"
  const ExportOption := "opt_06"

  /** A handler's answer: the JSON list of records (status 200), or
      `{"error": message}` with a status. */
  datatype Reply<R> = Records(records: seq<R>) | Error(status: int, message: string)

  /** The error texts of app.py. Production and commercialization spell the
      missing-year message without accents, the other three with them. */
  const MissingYearPlainMessage := "Parametro 'ano' obrigatorio"
  const MissingYearMessage := "Parâmetro 'ano' é obrigatório"
  const UnreachableMessage := "Não foi possível acessar a API"
  const TableMissingMessage := "Tabela não encontrada"
  const NoSubOptionMessage := "Nenhuma subopcao encontrada"

  /** How a report reads the body rows of one sub-option's table: its records,
      or the message of an exception that escapes the handler. */
  type TableReader<R> = (SubOption, seq<Row>) -> Result<seq<R>>

  /** One pass of `for sub in subopcoes`: a raised fetch escapes, a non-200
      answer or a page without the table adds nothing, otherwise the table
      body is read. */
  function Contribution<R>(sub: SubOption, year: int, option: string, fetch: Fetcher, read: TableReader<R>): Result<seq<R>>
  {
    match fetch(Request(year, option, Some(sub.value)))
    case Raised(m) => Err(m)
    case Answer(status, page) =>
      if status != 200 || page.table.None? then Ok([])
      else read(sub, Body(page.table.value))
  }

  /** Running one step after another: the first exception wins, otherwise
      the records are concatenated in order. */
  function Then<R>(first: Result<seq<R>>, next: Result<seq<R>>): (r: Result<seq<R>>)
    ensures first.Err? ==> r == first
    ensures first.Ok? && next.Err? ==> r == next
    ensures first.Ok? && next.Ok? ==> r == Ok(first.value + next.value)
  {
    match first
    case Err(_) => first
    case Ok(xs) =>
      match next
      case Err(_) => next
      case Ok(ys) => Ok(xs + ys)
  }

  lemma ThenAssociative<R>(a: Result<seq<R>>, b: Result<seq<R>>, c: Result<seq<R>>)
    ensures Then(Then(a, b), c) == Then(a, Then(b, c))
  {
    if a.Ok? && b.Ok? && c.Ok? {
      assert (a.value + b.value) + c.value == a.value + (b.value + c.value);
    }
  }

  /** The result of the loop over `subs`. */
  function Harvest<R>(subs: seq<SubOption>, year: int, option: string, fetch: Fetcher, read: TableReader<R>): Result<seq<R>>
  {
    if subs == [] then Ok([])
    else Then(Harvest(subs[..|subs| - 1], year, option, fetch, read),
              Contribution(subs[|subs| - 1], year, option, fetch, read))
  }

  /** One more pass of the loop. */
  lemma HarvestNext<R>(subs: seq<SubOption>, i: nat, year: int, option: string, fetch: Fetcher, read: TableReader<R>)
    requires i < |subs|
    ensures Harvest(subs[..i + 1], year, option, fetch, read)
         == Then(Harvest(subs[..i], year, option, fetch, read), Contribution(subs[i], year, option, fetch, read))
  {
    assert subs[..i + 1][..i] == subs[..i];
  }

  /** The loop over two runs of sub-options is the loop over the first, then
      the loop over the second: sub-option order is output order. */
  lemma {:induction false} HarvestAppend<R>(front: seq<SubOption>, back: seq<SubOption>, year: int, option: string,
                                            fetch: Fetcher, read: TableReader<R>)
    ensures Harvest(front + back, year, option, fetch, read)
         == Then(Harvest(front, year, option, fetch, read), Harvest(back, year, option, fetch, read))
    decreases |back|
  {
    if back == [] {
      assert front + back == front;
      var h := Harvest(front, year, option, fetch, read);
      if h.Ok? { assert h.value + [] == h.value; }
    } else {
      var whole := front + back;
      var init := back[..|back| - 1];
      var last := back[|back| - 1];
      assert whole[..|whole| - 1] == front + init;
      assert whole[|whole| - 1] == last;
      HarvestAppend(front, init, year, option, fetch, read);
      ThenAssociative(Harvest(front, year, option, fetch, read),
                      Harvest(init, year, option, fetch, read),
                      Contribution(last, year, option, fetch, read));
    }
  }

  /** A raised fetch ends the loop: nothing after it changes the outcome. */
  lemma HarvestStopsAtRaise<R>(subs: seq<SubOption>, i: nat, year: int, option: string, fetch: Fetcher, read: TableReader<R>)
    requires i < |subs|
    requires Harvest(subs[..i + 1], year, option, fetch, read).Err?
    ensures Harvest(subs, year, option, fetch, read) == Harvest(subs[..i + 1], year, option, fetch, read)
  {
    assert subs == subs[..i + 1] + subs[i + 1..];
    HarvestAppend(subs[..i + 1], subs[i + 1..], year, option, fetch, read);
  }

  /** A sub-option whose page answers with a status other than 200, or has no
      data table, is skipped: the outcome is that of the other sub-options. */
  lemma HarvestSkipsFailedSubOption<R>(subs: seq<SubOption>, i: nat, year: int, option: string,
                                       fetch: Fetcher, read: TableReader<R>)
    requires i < |subs|
    requires fetch(Request(year, option, Some(subs[i].value))).Answer?
    requires fetch(Request(year, option, Some(subs[i].value))).status != 200
          || fetch(Request(year, option, Some(subs[i].value))).page.table.None?
    ensures Harvest(subs, year, option, fetch, read) == Harvest(subs[..i] + subs[i + 1..], year, option, fetch, read)
  {
    var front, back := subs[..i], subs[i + 1..];
    assert subs == front + [subs[i]] + back;
    HarvestAppend(front + [subs[i]], back, year, option, fetch, read);
    HarvestAppend(front, [subs[i]], year, option, fetch, read);
    HarvestAppend(front, back, year, option, fetch, read);
    var single := Harvest([subs[i]], year, option, fetch, read);
    assert [subs[i]][..0] == [];
    assert Contribution(subs[i], year, option, fetch, read) == Ok([]);
    assert single == Ok([] + []);
    var h := Harvest(front, year, option, fetch, read);
    if h.Ok? { assert h.value + [] == h.value; }
  }
}
