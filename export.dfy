/** exportToExcel (index.js:224-285): the rows handed to the spreadsheet writer.
    A header of two labels and one column per date, one row of "SÍ"/"NO" cells per
    catalog item, three separator rows, and one summary row per catalog item. The
    dates of the 30-day window are the column texts the locale formatter produced;
    they are an input here. */
module Export {
  import opened Common
  import opened Text
  import opened DateText
  import opened Catalog
  import opened Checklist

  const Yes: string := "SÍ"
  const No: string := "NO"
  const Late: string := "⚠️ ATRASADO"
  const OnTime: string := "✓ AL DÍA"
  const NoCopies: string := "Sin copias"

  /** `toUpperCase` on one character, for the ASCII letters. */
  function UpperChar(c: char): char
  {
    if 'a' <= c <= 'z' then (c as int - 32) as char else c
  }

  /** `s.charAt(0).toUpperCase() + s.slice(1)`. */
  function Capitalize(s: string): (r: string)
    ensures |r| == |s| && (s != [] ==> r[1..] == s[1..])
    ensures s != [] ==> (r[0] == s[0] <==> !('a' <= s[0] <= 'z'))
    ensures s != [] && 'a' <= s[0] <= 'z' ==> 'A' <= r[0] <= 'Z'
  {
    if s == [] then [] else [UpperChar(s[0])] + s[1..]
  }

  function Header(dates: seq<string>): seq<string>
  {
    ["Categoría", "Elemento"] + dates
  }

  /** `history.some(backup => backup.split(',')[0].trim() === date)`, scanning from the
      newest backup and stopping at the first match. */
  predicate HasBackupOn(history: seq<string>, date: string)
  {
    history != [] && (DayText(history[0]) == date || HasBackupOn(history[1..], date))
  }

  /** The scan finds a match exactly when some backup of the list is on that day. */
  lemma {:induction false} HasBackupOnSome(history: seq<string>, date: string)
    ensures HasBackupOn(history, date) <==> exists k :: 0 <= k < |history| && DayText(history[k]) == date
  {
    if history != [] {
      HasBackupOnSome(history[1..], date);
      if HasBackupOn(history[1..], date) {
        var k :| 0 <= k < |history| - 1 && DayText(history[1..][k]) == date;
        assert DayText(history[k + 1]) == date;
      }
      if exists k :: 0 <= k < |history| && DayText(history[k]) == date {
        var k :| 0 <= k < |history| && DayText(history[k]) == date;
        if k > 0 {
          assert DayText(history[1..][k - 1]) == date;
        }
      }
    }
  }

  function Cell(history: seq<string>, date: string): string
  {
    if HasBackupOn(history, date) then Yes else No
  }

  function Cells(history: seq<string>, dates: seq<string>): seq<string>
  {
    seq(|dates|, j requires 0 <= j < |dates| => Cell(history, dates[j]))
  }

  function MatrixRow(category: string, item: string, history: seq<string>, dates: seq<string>): seq<string>
  {
    [Capitalize(category), item] + Cells(history, dates)
  }

  function DaysText(daysSince: Option<nat>): string
  {
    match daysSince
    case None => NoCopies
    case Some(n) => NatToString(n) + " días"
  }

  function Status(daysSince: Option<nat>): string
  {
    if IsOverdue(daysSince) then Late else OnTime
  }

  function SummaryRow(category: string, item: string, history: seq<string>, ageOf: string -> nat): seq<string>
  {
    var daysSince := DaysSince(history, ageOf);
    [Capitalize(category), item, LastBackup(history), DaysText(daysSince), Status(daysSince)]
  }

  function MatrixRowOf(t: Table, dates: seq<string>): (string, string) -> seq<string>
  {
    (c, i) => MatrixRow(c, i, Lookup(t, c, i), dates)
  }

  function SummaryRowOf(t: Table, ageOf: string -> nat): (string, string) -> seq<string>
  {
    (c, i) => SummaryRow(c, i, Lookup(t, c, i), ageOf)
  }

  /** One row per item of `category`, in item order. */
  function ItemRows(category: string, rowOf: (string, string) -> seq<string>): seq<seq<string>>
  {
    var items := ItemsOf(category);
    seq(|items|, k requires 0 <= k < |items| => rowOf(category, items[k]))
  }

  /** The rows of the nested `forEach` over categories and their items. */
  function Rows(categories: seq<string>, rowOf: (string, string) -> seq<string>): seq<seq<string>>
  {
    if categories == [] then []
    else Rows(categories[..|categories| - 1], rowOf) + ItemRows(categories[|categories| - 1], rowOf)
  }

  /** Everything exportToExcel hands to the spreadsheet writer. */
  function Sheet(t: Table, dates: seq<string>, ageOf: string -> nat): seq<seq<string>>
  {
    [Header(dates)] + Rows(Categories, MatrixRowOf(t, dates))
    + [[], ["RESUMEN"], []] + Rows(Categories, SummaryRowOf(t, ageOf))
  }

  /** Walking the catalog category by category gives one row per catalog pair, in order. */
  lemma RowsOfCatalog(rowOf: (string, string) -> seq<string>)
    ensures |Rows(Categories, rowOf)| == |Pairs|
    ensures forall p :: 0 <= p < |Pairs| ==> Rows(Categories, rowOf)[p] == rowOf(Pairs[p].0, Pairs[p].1)
  {
    assert Categories[..1] == [Clasificados];
    assert Categories[..0] == [];
    var first := ItemRows(Clasificados, rowOf);
    var second := ItemRows(Suscripciones, rowOf);
    assert Rows([Clasificados], rowOf) == first;
    assert Rows(Categories, rowOf) == first + second;
  }

  /** The layout of the sheet: the header, a row per catalog item, the separator and
      title rows, and a summary row per catalog item. */
  lemma SheetLayout(t: Table, dates: seq<string>, ageOf: string -> nat)
    ensures var sheet := Sheet(t, dates, ageOf);
      && |sheet| == 1 + |Pairs| + 3 + |Pairs|
      && sheet[0] == ["Categoría", "Elemento"] + dates
      && sheet[1 + |Pairs|] == [] && sheet[2 + |Pairs|] == ["RESUMEN"] && sheet[3 + |Pairs|] == []
      && (forall p :: 0 <= p < |Pairs| ==>
            sheet[1 + p] == MatrixRow(Pairs[p].0, Pairs[p].1, Lookup(t, Pairs[p].0, Pairs[p].1), dates))
      && (forall p :: 0 <= p < |Pairs| ==>
            sheet[4 + |Pairs| + p] == SummaryRow(Pairs[p].0, Pairs[p].1, Lookup(t, Pairs[p].0, Pairs[p].1), ageOf))
  {
    RowsOfCatalog(MatrixRowOf(t, dates));
    RowsOfCatalog(SummaryRowOf(t, ageOf));
  }

  /** Every item row has one cell per date column, and a cell reads "SÍ" exactly when some
      backup of the item, cut at its first comma and trimmed, is that column's date;
      otherwise it reads "NO". */
  lemma MatrixCells(t: Table, dates: seq<string>, ageOf: string -> nat, p: nat, j: nat)
    requires p < |Pairs| && j < |dates|
    ensures var sheet := Sheet(t, dates, ageOf);
      var history := Lookup(t, Pairs[p].0, Pairs[p].1);
      && |sheet[0]| == |sheet[1 + p]| == 2 + |dates|
      && sheet[0][2 + j] == dates[j]
      && (sheet[1 + p][2 + j] == Yes <==> exists k :: 0 <= k < |history| && DayText(history[k]) == dates[j])
      && (sheet[1 + p][2 + j] == No <==> !exists k :: 0 <= k < |history| && DayText(history[k]) == dates[j])
  {
    SheetLayout(t, dates, ageOf);
    HasBackupOnSome(Lookup(t, Pairs[p].0, Pairs[p].1), dates[j]);
  }

  /** For backups that start with their "DD/MM/YYYY, " date (whatever the time after it
      looks like), the cell of a date column is "SÍ" exactly when one of them was taken on
      that day. */
  lemma MatrixCellsOfDated(history: seq<string>, date: string)
    requires forall k :: 0 <= k < |history| ==> StartsWithDate(history[k])
    ensures Cell(history, date) == Yes <==>
              exists k :: 0 <= k < |history| && |history[k]| >= 10 && history[k][..10] == date
  {
    HasBackupOnSome(history, date);
    forall k | 0 <= k < |history| ensures DayText(history[k]) == history[k][..10] {
      DayTextOfDated(history[k]);
    }
  }

  /** A summary row: the capitalised category, the item, the last backup ("Nunca" without
      one), "Sin copias" exactly for an item with no backup and otherwise the day count,
      and ATRASADO exactly for an overdue item. */
  lemma SummaryCells(category: string, item: string, history: seq<string>, ageOf: string -> nat)
    ensures var row := SummaryRow(category, item, history, ageOf);
      var daysSince := DaysSince(history, ageOf);
      && |row| == 5
      && row[0] == Capitalize(category) && row[1] == item
      && row[2] == LastBackup(history)
      && (row[3] == NoCopies <==> history == [])
      && (history != [] ==> row[3] == NatToString(daysSince.value) + " días")
      && (row[4] == Late <==> IsOverdue(daysSince))
      && (row[4] == OnTime <==> !IsOverdue(daysSince))
  {
    var daysSince := DaysSince(history, ageOf);
    if daysSince.Some? {
      assert IsDigit(DaysText(daysSince)[0]);
    }
  }

  /** One more item row of a category. */
  lemma ItemRowsStep(category: string, rowOf: (string, string) -> seq<string>, ii: nat)
    requires ii < |ItemsOf(category)|
    ensures ItemRows(category, rowOf)[..ii + 1]
         == ItemRows(category, rowOf)[..ii] + [rowOf(category, ItemsOf(category)[ii])]
  {
  }

  /** One more category of rows. */
  lemma RowsStep(rowOf: (string, string) -> seq<string>, ci: nat)
    requires ci < |Categories|
    ensures Rows(Categories[..ci + 1], rowOf)
         == Rows(Categories[..ci], rowOf) + ItemRows(Categories[ci], rowOf)
  {
    assert Categories[..ci + 1][..ci] == Categories[..ci];
  }

  /** One more date column of cells. */
  lemma CellsStep(history: seq<string>, dates: seq<string>, j: nat)
    requires j < |dates|
    ensures Cells(history, dates[..j + 1]) == Cells(history, dates[..j]) + [Cell(history, dates[j])]
  {
  }

  /** One item row: the capitalised category, the item, then the `dates.forEach` that
      pushes one "SÍ"/"NO" cell per date. */
  method MatrixLine(backups: Table, category: string, item: string, dates: seq<string>)
    returns (row: seq<string>)
    requires Holds(backups, category, item)
    ensures row == MatrixRowOf(backups, dates)(category, item)
  {
    var history := backups[category][item];
    var cells := [];
    for j := 0 to |dates|
      invariant cells == Cells(history, dates[..j])
    {
      var hasBackup := HasBackupOn(history, dates[j]);
      CellsStep(history, dates, j);
      cells := cells + [if hasBackup then Yes else No];
    }
    assert dates[..|dates|] == dates;
    row := [Capitalize(category), item] + cells;
  }

  /** The header: the two label columns, then one column per date. */
  method HeaderLine(dates: seq<string>) returns (header: seq<string>)
    ensures header == Header(dates)
  {
    header := ["Categoría", "Elemento"];
    for j := 0 to |dates|
      invariant header == ["Categoría", "Elemento"] + dates[..j]
    {
      header := header + [dates[j]];
    }
    assert dates[..|dates|] == dates;
  }

  /** The item rows: one per catalog item, categories in order, items in order. */
  method MatrixRows(backups: Table, dates: seq<string>) returns (rows: seq<seq<string>>)
    requires Shaped(backups)
    ensures rows == Rows(Categories, MatrixRowOf(backups, dates))
  {
    rows := [];
    ghost var matrix := MatrixRowOf(backups, dates);
    for ci := 0 to |Categories|
      invariant rows == Rows(Categories[..ci], matrix)
    {
      var category := Categories[ci];
      var items := ItemsOf(category);
      for ii := 0 to |items|
        invariant rows == Rows(Categories[..ci], matrix) + ItemRows(category, matrix)[..ii]
      {
        var item := items[ii];
        ShapedKeys(backups, category, item);
        var row := MatrixLine(backups, category, item, dates);
        ItemRowsStep(category, matrix, ii);
        rows := rows + [row];
      }
      assert ItemRows(category, matrix)[..|items|] == ItemRows(category, matrix);
      RowsStep(matrix, ci);
    }
    assert Categories[..|Categories|] == Categories;
  }

  /** One summary row: the item, its last backup, its day count and its status. */
  method SummaryLine(backups: Table, category: string, item: string, ageOf: string -> nat)
    returns (row: seq<string>)
    requires Holds(backups, category, item)
    ensures row == SummaryRowOf(backups, ageOf)(category, item)
    ensures var history := backups[category][item];
      && |row| == 5 && row[0] == Capitalize(category) && row[1] == item
      && row[2] == LastBackup(history)
      && (row[3] == NoCopies <==> history == [])
      && (row[4] == Late <==> IsOverdue(DaysSince(history, ageOf)))
  {
    var history := backups[category][item];
    var lastBackup := LastBackup(history);
    var daysSince := DaysSince(history, ageOf);
    var status := Status(daysSince);
    row := [Capitalize(category), item, lastBackup, DaysText(daysSince), status];
    SummaryCells(category, item, history, ageOf);
  }

  /** The summary rows: the last part of exportToExcel. */
  method SummaryRows(backups: Table, ageOf: string -> nat) returns (rows: seq<seq<string>>)
    requires Shaped(backups)
    ensures rows == Rows(Categories, SummaryRowOf(backups, ageOf))
  {
    rows := [];
    ghost var summary := SummaryRowOf(backups, ageOf);
    for ci := 0 to |Categories|
      invariant rows == Rows(Categories[..ci], summary)
    {
      var category := Categories[ci];
      var items := ItemsOf(category);
      for ii := 0 to |items|
        invariant rows == Rows(Categories[..ci], summary) + ItemRows(category, summary)[..ii]
      {
        var item := items[ii];
        ShapedKeys(backups, category, item);
        var row := SummaryLine(backups, category, item, ageOf);
        ItemRowsStep(category, summary, ii);
        rows := rows + [row];
      }
      assert ItemRows(category, summary)[..|items|] == ItemRows(category, summary);
      RowsStep(summary, ci);
    }
    assert Categories[..|Categories|] == Categories;
  }

  /** exportToExcel: the item matrix, a blank row, the "RESUMEN" title, a blank row and the
      summary, for the page's table (whose keys are the catalog's). */
  method ExportToExcel(backups: Table, dates: seq<string>, ageOf: string -> nat)
    returns (excelData: seq<seq<string>>)
    requires Shaped(backups)
    ensures excelData == Sheet(backups, dates, ageOf)
  {
    var header := HeaderLine(dates);
    excelData := [header];
    var rows := MatrixRows(backups, dates);
    excelData := excelData + rows;
    excelData := excelData + [[], ["RESUMEN"], []];
    var summary := SummaryRows(backups, ageOf);
    excelData := excelData + summary;
  }
}
