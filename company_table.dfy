/** The rows written to the output table (main.py, lines 41-66): the reply is
    cleaned of its code fence, parsed, and every parsed record that has all
    three keys becomes one row numbered by its 1-based position in the parsed
    list; the table is a fixed header followed by those rows.

    The JSON parser and Python's `str` of the founders value are parameters:
    `parse` yields `None` where `json.loads` raises `JSONDecodeError`, and
    `render` stands for `str`. */
module CompanyTable {
  import opened Options
  import opened JsonFence

  /** One parsed JSON object: its keys and their values. */
  type Record<V> = map<string, V>

  const NameKey: string := "company_name"
  const DateKey: string := "founding_date"
  const FoundersKey: string := "founders"

  /** The record has all three keys the table needs. */
  predicate Complete<V>(item: Record<V>) {
    NameKey in item && DateKey in item && FoundersKey in item
  }

  /** A data row: serial number, company name, founding date, founders as rendered text. */
  datatype Row<V> = Row(serial: int, name: V, date: V, foundedBy: string)

  /** The rows produced for `items`, built up one record at a time as the loop
      does: a record at 1-based position `n` contributes a row numbered `n`
      when it is complete and nothing otherwise. */
  function Rows<V>(items: seq<Record<V>>, render: V -> string): (rows: seq<Row<V>>)
    ensures forall k :: 0 <= k < |rows| ==> 1 <= rows[k].serial <= |items|
    decreases |items|
  {
    if items == [] then []
    else
      var n := |items|;
      var item := items[n - 1];
      Rows(items[..n - 1], render) +
        if Complete(item) then [Row(n, item[NameKey], item[DateKey], render(item[FoundersKey]))] else []
  }

  /** The loop over `enumerate(company_list, start=1)` that appends a row for
      each complete record. */
  method BuildRows<V>(items: seq<Record<V>>, render: V -> string) returns (rows: seq<Row<V>>)
    ensures rows == Rows(items, render)
  {
    rows := [];
    for i := 0 to |items|
      invariant rows == Rows(items[..i], render)
    {
      var item := items[i];
      assert items[..i + 1][..i] == items[..i];
      if Complete(item) {
        rows := rows + [Row(i + 1, item[NameKey], item[DateKey], render(item[FoundersKey]))];
      }
    }
    assert items[..|items|] == items;
  }

  /** Every row comes from the complete record at its serial's position, with
      name and date copied and founders rendered. */
  lemma {:induction false} RowsSound<V>(items: seq<Record<V>>, render: V -> string, k: int)
    requires 0 <= k < |Rows(items, render)|
    ensures var row := Rows(items, render)[k];
      1 <= row.serial <= |items| && Complete(items[row.serial - 1]) &&
      row.name == items[row.serial - 1][NameKey] &&
      row.date == items[row.serial - 1][DateKey] &&
      row.foundedBy == render(items[row.serial - 1][FoundersKey])
    decreases |items|
  {
    var n := |items|;
    var prefix := items[..n - 1];
    if k < |Rows(prefix, render)| {
      RowsSound(prefix, render, k);
    }
  }

  /** Some row carries serial `n`. */
  ghost predicate HasSerial<V>(rows: seq<Row<V>>, n: int) {
    exists k :: 0 <= k < |rows| && rows[k].serial == n
  }

  /** A complete record gets a row carrying its position as serial. */
  lemma {:induction false} CompleteGetsRow<V>(items: seq<Record<V>>, render: V -> string, i: int)
    requires 0 <= i < |items| && Complete(items[i])
    ensures HasSerial(Rows(items, render), i + 1)
    decreases |items|
  {
    var n := |items|;
    var prefix := items[..n - 1];
    var before := Rows(prefix, render);
    if i == n - 1 {
      assert Rows(items, render)[|before|].serial == i + 1;
    } else {
      CompleteGetsRow(prefix, render, i);
      var k :| 0 <= k < |before| && before[k].serial == i + 1;
      assert Rows(items, render)[k] == before[k];
    }
  }

  /** A record gets a row exactly when it has all three keys. */
  lemma RowEmittedIff<V>(items: seq<Record<V>>, render: V -> string, i: int)
    requires 0 <= i < |items|
    ensures HasSerial(Rows(items, render), i + 1) <==> Complete(items[i])
  {
    var rows := Rows(items, render);
    if HasSerial(rows, i + 1) {
      var k :| 0 <= k < |rows| && rows[k].serial == i + 1;
      RowsSound(items, render, k);
    }
    if Complete(items[i]) {
      CompleteGetsRow(items, render, i);
    }
  }

  /** Rows keep the order of the records: serials strictly increase. */
  lemma {:induction false} RowsIncreasing<V>(items: seq<Record<V>>, render: V -> string, k: int, l: int)
    requires 0 <= k < l < |Rows(items, render)|
    ensures Rows(items, render)[k].serial < Rows(items, render)[l].serial
    decreases |items|
  {
    var n := |items|;
    var prefix := items[..n - 1];
    RowsSound(prefix, render, k);
    if l < |Rows(prefix, render)| {
      RowsIncreasing(prefix, render, k, l);
    }
  }

  /** There are never more rows than records. */
  lemma {:induction false} RowsLength<V>(items: seq<Record<V>>, render: V -> string)
    ensures |Rows(items, render)| <= |items|
    decreases |items|
  {
    if items != [] {
      RowsLength(items[..|items| - 1], render);
    }
  }

  /** The serial is the record's position before filtering, so a dropped
      record leaves a gap: of three records the middle one lacking its
      founders, the rows are numbered 1 and 3. */
  lemma SerialsHaveGaps(render: string -> string)
    ensures var full := map[NameKey := "A", DateKey := "2001-01-01", FoundersKey := "x"];
      var partial := map[NameKey := "B", DateKey := "2002-01-01"];
      var rows := Rows([full, partial, full], render);
      |rows| == 2 && rows[0].serial == 1 && rows[1].serial == 3
  {
    var full := map[NameKey := "A", DateKey := "2001-01-01", FoundersKey := "x"];
    var partial := map[NameKey := "B", DateKey := "2002-01-01"];
    assert !Complete(partial) by {
      assert FoundersKey != NameKey && FoundersKey != DateKey;
    }
    var items := [full, partial, full];
    assert items[..2] == [full, partial] && items[..2][..1] == [full] && [full][..0] == [];
    var one := Row(1, "A", "2001-01-01", render("x"));
    assert Rows([full], render) == [one];
    assert Rows([full, partial], render) == [one];
    assert Rows(items, render) == [one, Row(3, "A", "2001-01-01", render("x"))];
  }

  // ---------------------------------------------------------------------
  // The table
  // ---------------------------------------------------------------------

  /** A cell of the written table. */
  datatype Cell<V> = Text(text: string) | Number(n: int) | Value(v: V)

  /** The fixed first line: one text title per column. */
  function Header<V>(): (h: seq<Cell<V>>)
    ensures |h| == 4 && forall k :: 0 <= k < |h| ==> h[k].Text?
  {
    [Text("S.N."), Text("Company Name"), Text("Founded in"), Text("Founded by")]
  }

  /** A data line has one cell per header column, the serial first. */
  function Line<V>(row: Row<V>): (line: seq<Cell<V>>)
    ensures |line| == |Header<V>()| && line[0] == Number(row.serial)
  {
    [Number(row.serial), Value(row.name), Value(row.date), Text(row.foundedBy)]
  }

  /** The header line followed by one line per row. */
  function Table<V>(rows: seq<Row<V>>): (lines: seq<seq<Cell<V>>>)
    ensures |lines| == 1 + |rows| && lines[0] == Header()
    ensures forall k :: 0 <= k < |rows| ==> lines[k + 1] == Line(rows[k])
  {
    [Header()] + seq(|rows|, k requires 0 <= k < |rows| => Line(rows[k]))
  }

  /** `company_list`: the parsed records of the cleaned reply, or none when it does not parse. */
  function Companies<V>(reply: string, parse: string -> Option<seq<Record<V>>>): seq<Record<V>> {
    match parse(ExtractJsonString(reply))
    case Some(list) => list
    case None => []
  }

  /** From the model's reply to the lines of the table: the header, then one
      line per complete parsed record; a reply that does not parse gives the
      header alone. */
  method CompanyTableOf<V>(reply: string, parse: string -> Option<seq<Record<V>>>, render: V -> string)
    returns (lines: seq<seq<Cell<V>>>)
    ensures lines == Table(Rows(Companies(reply, parse), render))
    ensures |lines| >= 1 && lines[0] == Header()
    ensures |lines| <= 1 + |Companies(reply, parse)|
    ensures parse(ExtractJsonString(reply)).None? ==> lines == [Header()]
  {
    var companyList := Companies(reply, parse);
    var rows := BuildRows(companyList, render);
    RowsLength(companyList, render);
    lines := Table(rows);
  }
}
