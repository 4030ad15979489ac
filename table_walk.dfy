/** The row loop shared by the production, processing and commercialization
    handlers. A `tb_item` row sets the running category `tipo_atual`; a
    `tb_subitem` row with at least two cells yields a record stamped with the
    running category; every other row is skipped. What a `tb_subitem` row
    yields (nothing, or one record of some shape) is the report's emitter. */
module TableWalk {
  import opened Wrappers

  /** One `<td>`: its `class` attribute as a list and its stripped text. */
  datatype Cell = Cell(classes: seq<string>, text: string)

  /** The `<td>` cells of one `<tr>`, in order. */
  type Row = seq<Cell>

  /** `rows[1:]`: the rows after the header row. */
  function Body(rows: seq<Row>): (body: seq<Row>)
    ensures rows == [] ==> body == []
    ensures rows != [] ==> rows == [rows[0]] + body
  {
    if rows == [] then [] else rows[1..]
  }

  /** The first cell carries class `tb_item`: a category row. */
  predicate IsItem(row: Row) {
    |row| >= 1 && "tb_item" in row[0].classes
  }

  /** A data row: not a category row, at least two cells, and the first cell
      carries class `tb_subitem`. */
  predicate IsSubItem(row: Row) {
    !IsItem(row) && |row| >= 2 && "tb_subitem" in row[0].classes
  }

  /** Index of the nearest category row before `body[j]`, if any. */
  function LastItemBefore(body: seq<Row>, j: nat): (r: Option<nat>)
    requires j <= |body|
    ensures r.Some? ==> r.value < j && IsItem(body[r.value])
    ensures r.Some? ==> forall m :: r.value < m < j ==> !IsItem(body[m])
    ensures r.None? ==> forall m :: 0 <= m < j ==> !IsItem(body[m])
  {
    if j == 0 then None
    else if IsItem(body[j - 1]) then Some(j - 1)
    else LastItemBefore(body, j - 1)
  }

  /** The category in force when the walk reaches `body[j]`: the text of the
      nearest category row before it, or None when there is none. */
  function CategoryAt(body: seq<Row>, j: nat): (tipo: Option<string>)
    requires j <= |body|
    ensures tipo.None? <==> forall m :: 0 <= m < j ==> !IsItem(body[m])
    ensures tipo.Some? ==> exists i :: 0 <= i < j && IsItem(body[i]) && tipo.value == body[i][0].text
                                       && forall m :: i < m < j ==> !IsItem(body[m])
  {
    match LastItemBefore(body, j)
    case None => None
    case Some(i) => Some(body[i][0].text)
  }

  /** What a report makes of one data row, given its first cell's text, its
      second cell's text and the category in force. */
  type Emitter<R> = (string, string, Option<string>) -> seq<R>

  /** What `body[j]` contributes to the output. */
  function RowOutput<R>(body: seq<Row>, j: nat, emit: Emitter<R>): seq<R>
    requires j < |body|
  {
    if IsSubItem(body[j]) then emit(body[j][0].text, body[j][1].text, CategoryAt(body, j)) else []
  }

  /** The output of the first `n` body rows, in row order. */
  function Walked<R>(body: seq<Row>, n: nat, emit: Emitter<R>): seq<R>
    requires n <= |body|
  {
    if n == 0 then [] else Walked(body, n - 1, emit) + RowOutput(body, n - 1, emit)
  }

  /** The classification of one row: a category row emits nothing and
      replaces the category with its text; a data row emits what the report
      makes of it and keeps the category; any other row (no cells, a
      one-cell `tb_subitem` row, another class) emits nothing and keeps it. */
  lemma RowClassification<R>(body: seq<Row>, j: nat, emit: Emitter<R>)
    requires j < |body|
    ensures IsItem(body[j]) ==>
              !IsSubItem(body[j]) && RowOutput(body, j, emit) == [] && CategoryAt(body, j + 1) == Some(body[j][0].text)
    ensures IsSubItem(body[j]) ==>
              CategoryAt(body, j + 1) == CategoryAt(body, j)
              && RowOutput(body, j, emit) == emit(body[j][0].text, body[j][1].text, CategoryAt(body, j))
    ensures !IsItem(body[j]) && !IsSubItem(body[j]) ==>
              RowOutput(body, j, emit) == [] && CategoryAt(body, j + 1) == CategoryAt(body, j)
  {
  }

  /** The loop `for row in rows[1:]` of the three category reports, run on
      the body rows with the running category starting at None. */
  method WalkTable<R>(body: seq<Row>, emit: Emitter<R>) returns (out: seq<R>)
    ensures out == Walked(body, |body|, emit)
  {
    out := [];
    var tipo: Option<string> := None;
    for i := 0 to |body|
      invariant out == Walked(body, i, emit)
      invariant tipo == CategoryAt(body, i)
    {
      var cols := body[i];
      if |cols| >= 1 && "tb_item" in cols[0].classes {
        tipo := Some(cols[0].text);
        continue;
      }
      if |cols| >= 2 && "tb_subitem" in cols[0].classes {
        out := out + emit(cols[0].text, cols[1].text, tipo);
      }
    }
  }

  /** Number of data rows among the first `n` body rows. */
  function SubItemCount(body: seq<Row>, n: nat): (count: nat)
    requires n <= |body|
    ensures count <= n
  {
    if n == 0 then 0 else SubItemCount(body, n - 1) + (if IsSubItem(body[n - 1]) then 1 else 0)
  }

  lemma {:induction false} SubItemCountMonotone(body: seq<Row>, j: nat, n: nat)
    requires j < n <= |body| && IsSubItem(body[j])
    ensures SubItemCount(body, j) < SubItemCount(body, n)
  {
    if j + 1 < n {
      SubItemCountMonotone(body, j, n - 1);
    }
  }

  /** An emitter that turns every data row into exactly one record. */
  ghost predicate OnePerRow<R>(emit: Emitter<R>) {
    forall name, quantity, tipo :: |emit(name, quantity, tipo)| == 1
  }

  /** With a one-record emitter the output has one record per data row. */
  lemma {:induction false} WalkedLength<R>(body: seq<Row>, n: nat, emit: Emitter<R>)
    requires n <= |body| && OnePerRow(emit)
    ensures |Walked(body, n, emit)| == SubItemCount(body, n)
  {
    if n > 0 {
      WalkedLength(body, n - 1, emit);
    }
  }

  /** With a one-record emitter, the data row `body[j]` yields the record at
      position "number of data rows before j", built from that row's cells
      and the category of the nearest category row above it. */
  lemma {:induction false} WalkedAt<R>(body: seq<Row>, n: nat, emit: Emitter<R>, j: nat)
    requires j < n <= |body| && OnePerRow(emit) && IsSubItem(body[j])
    ensures SubItemCount(body, j) < |Walked(body, n, emit)|
    ensures Walked(body, n, emit)[SubItemCount(body, j)]
         == emit(body[j][0].text, body[j][1].text, CategoryAt(body, j))[0]
  {
    WalkedLength(body, n, emit);
    SubItemCountMonotone(body, j, n);
    if j == n - 1 {
      WalkedLength(body, n - 1, emit);
    } else {
      WalkedAt(body, n - 1, emit, j);
    }
  }

  /** Every record of the output comes from one data row above the end,
      built from that row's cells and the category in force at that row. */
  lemma {:induction false} WalkedProvenance<R>(body: seq<Row>, n: nat, emit: Emitter<R>, k: nat)
    requires n <= |body| && k < |Walked(body, n, emit)|
    ensures exists j :: 0 <= j < n && IsSubItem(body[j])
                        && Walked(body, n, emit)[k] in emit(body[j][0].text, body[j][1].text, CategoryAt(body, j))
  {
    var prefix := Walked(body, n - 1, emit);
    if k < |prefix| {
      WalkedProvenance(body, n - 1, emit, k);
      var j :| 0 <= j < n - 1 && IsSubItem(body[j])
               && prefix[k] in emit(body[j][0].text, body[j][1].text, CategoryAt(body, j));
      assert Walked(body, n, emit)[k] == prefix[k];
    } else {
      assert Walked(body, n, emit)[k] == RowOutput(body, n - 1, emit)[k - |prefix|];
    }
  }
}
