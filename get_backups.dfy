/** get_backups.php: the read endpoint. It fills the fixed catalog skeleton with the
    stored rows, in the order the query returns them (newest first), drops rows whose
    (categoria, item) pair is not in the catalog, and shows each date in display form. */
module GetBackups {
  import opened DateText
  import opened Catalog
  import opened SaveBackups

  /** Every fecha_copia is the text of a DATETIME value. */
  predicate StoredRows(rows: seq<Row>)
  {
    forall k :: 0 <= k < |rows| ==> IsStorageStamp(rows[k].fechaCopia)
  }

  predicate RowFor(r: Row, category: string, item: string)
  {
    r.categoria == category && r.item == item
  }

  /** The display dates of the rows for (category, item), in row order. */
  function Collect(rows: seq<Row>, category: string, item: string): (dates: seq<string>)
    requires StoredRows(rows)
    ensures |dates| <= |rows|
    ensures forall d :: d in dates ==> IsDisplayStamp(d)
  {
    if rows == [] then []
    else
      var last := rows[|rows| - 1];
      var earlier := Collect(rows[..|rows| - 1], category, item);
      if RowFor(last, category, item) then earlier + [FromStorage(last.fechaCopia)] else earlier
  }

  /** The rows are grouped into `data`: it has the catalog's keys, and each item's list is
      the display dates of that item's rows. */
  ghost predicate Grouped(data: Table, rows: seq<Row>)
    requires StoredRows(rows)
  {
    && Shaped(data)
    && forall c, i :: c in data && i in data[c] ==> data[c][i] == Collect(rows, c, i)
  }

  /** The response: the grouped table, or status 500 with the exception's message. */
  datatype Reply = Data(data: Table) | Failed(status: nat, message: string)

  /** What the query gives the loop: the fetched rows, or the message of the exception
      that connecting, preparing or executing threw. */
  datatype Fetch = Fetched(rows: seq<Row>) | FetchError(message: string)

  /** A prefix of stored rows is stored rows. */
  lemma StoredPrefix(rows: seq<Row>, n: nat)
    requires StoredRows(rows) && n <= |rows|
    ensures StoredRows(rows[..n])
  {
    forall k | 0 <= k < n ensures IsStorageStamp(rows[..n][k].fechaCopia) {
      assert rows[..n][k] == rows[k];
    }
  }

  /** A later row lands after every earlier row of its item. */
  lemma {:induction false} CollectConcat(a: seq<Row>, b: seq<Row>, category: string, item: string)
    requires StoredRows(a) && StoredRows(b) && StoredRows(a + b)
    ensures Collect(a + b, category, item) == Collect(a, category, item) + Collect(b, category, item)
    decreases |b|
  {
    if b != [] {
      var b' := b[..|b| - 1];
      assert (a + b)[..|a + b| - 1] == a + b';
      assert (a + b)[|a + b| - 1] == b[|b| - 1];
      StoredPrefix(b, |b| - 1);
      StoredPrefix(a + b, |a + b| - 1);
      CollectConcat(a, b', category, item);
    } else {
      assert a + b == a;
    }
  }

  /** A row saved from a complete entry with a display date and read back shows that
      date as the newest-so-far entry of its item: save and read round-trip. */
  lemma SavedThenRead(rows: seq<Row>, e: Entry)
    requires StoredRows(rows) && Complete(e) && IsDisplayStamp(e.fecha.value)
    ensures StoredRows(rows + [RowOf(e)])
    ensures Collect(rows + [RowOf(e)], e.categoria.value, e.item.value)
         == Collect(rows, e.categoria.value, e.item.value) + [e.fecha.value]
  {
    RowOfReadsBack(e);
    var all := rows + [RowOf(e)];
    assert all[..|all| - 1] == rows;
  }

  /** Rows outside the catalog leave every list empty. */
  lemma {:induction false} OutsideRowsIgnored(rows: seq<Row>, c: string, i: string)
    requires StoredRows(rows) && InCatalog(c, i)
    requires forall k :: 0 <= k < |rows| ==> !InCatalog(rows[k].categoria, rows[k].item)
    ensures Collect(rows, c, i) == []
  {
    if rows != [] {
      OutsideRowsIgnored(rows[..|rows| - 1], c, i);
    }
  }

  /** With no row in the catalog, and in particular with no rows at all, the reply is
      exactly the skeleton. */
  lemma GroupedSkeleton(data: Table, rows: seq<Row>)
    requires StoredRows(rows) && Grouped(data, rows)
    requires forall k :: 0 <= k < |rows| ==> !InCatalog(rows[k].categoria, rows[k].item)
    ensures data == Skeleton()
  {
    var s := Skeleton();
    assert data.Keys == s.Keys;
    forall c | c in data ensures data[c] == s[c] {
      assert data[c].Keys == s[c].Keys;
      forall i | i in data[c] ensures data[c][i] == s[c][i] {
        ShapedKeys(data, c, i);
        OutsideRowsIgnored(rows, c, i);
      }
    }
  }

  // ---------------------------------------------------------------------------
  // Counting: nothing kept beyond the catalog rows, nothing truncated

  /** How many rows are for (category, item). */
  function CountFor(rows: seq<Row>, category: string, item: string): (n: nat)
    ensures n <= |rows|
  {
    if rows == [] then 0
    else CountFor(rows[..|rows| - 1], category, item) + (if RowFor(rows[|rows| - 1], category, item) then 1 else 0)
  }

  /** How many rows have a catalog pair. */
  function InCatalogCount(rows: seq<Row>): (n: nat)
    ensures n <= |rows|
  {
    if rows == [] then 0
    else InCatalogCount(rows[..|rows| - 1]) + (if InCatalog(rows[|rows| - 1].categoria, rows[|rows| - 1].item) then 1 else 0)
  }

  /** The sum, over `pairs`, of the number of rows for each pair. */
  function SumCounts(rows: seq<Row>, pairs: seq<(string, string)>): nat
  {
    if pairs == [] then 0 else CountFor(rows, pairs[0].0, pairs[0].1) + SumCounts(rows, pairs[1..])
  }

  /** How many entries of `pairs` are `x`. */
  function Occurrences(pairs: seq<(string, string)>, x: (string, string)): nat
  {
    if pairs == [] then 0 else (if pairs[0] == x then 1 else 0) + Occurrences(pairs[1..], x)
  }

  predicate Distinct(pairs: seq<(string, string)>)
  {
    forall p, q :: 0 <= p < q < |pairs| ==> pairs[p] != pairs[q]
  }

  /** A list of distinct pairs holds each pair at most once. */
  lemma {:induction false} OccurrencesOfDistinct(pairs: seq<(string, string)>, x: (string, string))
    requires Distinct(pairs)
    ensures Occurrences(pairs, x) == if x in pairs then 1 else 0
  {
    if pairs != [] {
      assert Distinct(pairs[1..]) by {
        forall p, q | 0 <= p < q < |pairs| - 1 ensures pairs[1..][p] != pairs[1..][q] {
          assert pairs[1..][p] == pairs[p + 1] && pairs[1..][q] == pairs[q + 1];
        }
      }
      OccurrencesOfDistinct(pairs[1..], x);
      if pairs[0] == x {
        assert x !in pairs[1..] by {
          forall q | 0 <= q < |pairs| - 1 ensures pairs[1..][q] != x { assert pairs[1..][q] == pairs[q + 1]; }
        }
      }
      assert x in pairs <==> pairs[0] == x || x in pairs[1..];
    }
  }

  /** With no rows every count is zero. */
  lemma {:induction false} SumCountsNoRows(pairs: seq<(string, string)>)
    ensures SumCounts([], pairs) == 0
  {
    if pairs != [] {
      SumCountsNoRows(pairs[1..]);
    }
  }

  /** Adding one row adds one to the sum for every pair it matches. */
  lemma {:induction false} SumCountsLast(rows: seq<Row>, pairs: seq<(string, string)>)
    requires rows != []
    ensures var last := rows[|rows| - 1];
      SumCounts(rows, pairs) == SumCounts(rows[..|rows| - 1], pairs) + Occurrences(pairs, (last.categoria, last.item))
  {
    if pairs != [] {
      SumCountsLast(rows, pairs[1..]);
    }
  }

  /** The catalog pairs are distinct and are the catalog. */
  lemma CatalogOccurrences(x: (string, string))
    ensures Occurrences(Pairs, x) == if InCatalog(x.0, x.1) then 1 else 0
  {
    forall p, q | 0 <= p < q < |Pairs| ensures Pairs[p] != Pairs[q] {
      PairsDistinct(p, q);
    }
    OccurrencesOfDistinct(Pairs, x);
    PairsAreCatalog(x.0, x.1);
  }

  /** Summed over the catalog, the rows per item count the rows with a catalog pair. */
  lemma {:induction false} SumCountsCatalog(rows: seq<Row>)
    ensures SumCounts(rows, Pairs) == InCatalogCount(rows)
  {
    if rows != [] {
      var last := rows[|rows| - 1];
      SumCountsLast(rows, Pairs);
      SumCountsCatalog(rows[..|rows| - 1]);
      CatalogOccurrences((last.categoria, last.item));
    } else {
      SumCountsNoRows(Pairs);
    }
  }

  /** The total length of the lists of `pairs` in `data`. */
  function Total(data: Table, pairs: seq<(string, string)>): nat
  {
    if pairs == [] then 0 else |Lookup(data, pairs[0].0, pairs[0].1)| + Total(data, pairs[1..])
  }

  lemma {:induction false} TotalOfGrouped(data: Table, rows: seq<Row>, pairs: seq<(string, string)>)
    requires StoredRows(rows) && Grouped(data, rows)
    requires forall k :: 0 <= k < |pairs| ==> InCatalog(pairs[k].0, pairs[k].1)
    ensures Total(data, pairs) == SumCounts(rows, pairs)
  {
    if pairs != [] {
      ShapedKeys(data, pairs[0].0, pairs[0].1);
      CollectCounts(rows, pairs[0].0, pairs[0].1);
      TotalOfGrouped(data, rows, pairs[1..]);
    }
  }

  /** Every row with a catalog pair is kept and no other: the lists hold as many entries
      in all as there are catalog rows, which is at most the number of rows. */
  lemma GroupedTotal(data: Table, rows: seq<Row>)
    requires StoredRows(rows) && Grouped(data, rows)
    ensures Total(data, Pairs) == InCatalogCount(rows) <= |rows|
  {
    forall k | 0 <= k < |Pairs| ensures InCatalog(Pairs[k].0, Pairs[k].1) {
      PairsAreCatalog(Pairs[k].0, Pairs[k].1);
    }
    TotalOfGrouped(data, rows, Pairs);
    SumCountsCatalog(rows);
  }

  /** Each item keeps one entry per row of its own: no list is cut short. */
  lemma {:induction false} CollectCounts(rows: seq<Row>, c: string, i: string)
    requires StoredRows(rows)
    ensures |Collect(rows, c, i)| == CountFor(rows, c, i)
  {
    if rows != [] {
      CollectCounts(rows[..|rows| - 1], c, i);
    }
  }

  // ---------------------------------------------------------------------------
  // The endpoint

  /** `$backups[$categoria][$item][] = $d`: append to one present list. */
  function Append(data: Table, category: string, item: string, d: string): (next: Table)
    requires Holds(data, category, item)
    ensures next.Keys == data.Keys
    ensures forall c :: c in next ==> next[c].Keys == data[c].Keys
    ensures next[category][item] == data[category][item] + [d]
    ensures forall c, i :: c in next && i in next[c] && (c != category || i != item) ==> next[c][i] == data[c][i]
  {
    data[category := data[category][item := data[category][item] + [d]]]
  }

  /** The display dates after one more row. */
  lemma CollectStep(rows: seq<Row>, k: nat, c: string, i: string)
    requires StoredRows(rows) && k < |rows|
    ensures StoredRows(rows[..k]) && StoredRows(rows[..k + 1])
    ensures Collect(rows[..k + 1], c, i)
         == Collect(rows[..k], c, i) + (if RowFor(rows[k], c, i) then [FromStorage(rows[k].fechaCopia)] else [])
  {
    assert rows[..k + 1][..k] == rows[..k];
  }

  /** One pass of the loop for a row whose pair the table holds: its date is appended. */
  lemma GroupAppend(data: Table, rows: seq<Row>, k: nat)
    requires StoredRows(rows) && k < |rows|
    requires Grouped(data, rows[..k]) && Holds(data, rows[k].categoria, rows[k].item)
    ensures Grouped(Append(data, rows[k].categoria, rows[k].item, FromStorage(rows[k].fechaCopia)), rows[..k + 1])
  {
    var r := rows[k];
    var next := Append(data, r.categoria, r.item, FromStorage(r.fechaCopia));
    forall c, i | c in next && i in next[c] ensures next[c][i] == Collect(rows[..k + 1], c, i) {
      CollectStep(rows, k, c, i);
    }
  }

  /** One pass of the loop for a row whose pair the table lacks: nothing changes. */
  lemma GroupSkip(data: Table, rows: seq<Row>, k: nat)
    requires StoredRows(rows) && k < |rows|
    requires Grouped(data, rows[..k]) && !Holds(data, rows[k].categoria, rows[k].item)
    ensures Grouped(data, rows[..k + 1])
  {
    forall c, i | c in data && i in data[c] ensures data[c][i] == Collect(rows[..k + 1], c, i) {
      CollectStep(rows, k, c, i);
    }
  }

  method Get(fetch: Fetch) returns (reply: Reply)
    requires fetch.Fetched? ==> StoredRows(fetch.rows)
    ensures fetch.FetchError? ==> reply == Failed(500, "Error al obtener las copias: " + fetch.message)
    ensures fetch.Fetched? ==> reply.Data? && Grouped(reply.data, fetch.rows)
  {
    if fetch.FetchError? {
      return Failed(500, "Error al obtener las copias: " + fetch.message);
    }
    var results := fetch.rows;
    var backups := Skeleton();
    assert results[..0] == [];
    forall c, i | c in backups && i in backups[c] ensures backups[c][i] == Collect(results[..0], c, i) {
      ShapedKeys(backups, c, i);
    }
    for k := 0 to |results|
      invariant Grouped(backups, results[..k])
    {
      var row := results[k];
      if row.categoria in backups && row.item in backups[row.categoria] {
        GroupAppend(backups, results, k);
        backups := Append(backups, row.categoria, row.item, FromStorage(row.fechaCopia));
      } else {
        GroupSkip(backups, results, k);
      }
    }
    assert results[..|results|] == results;
    reply := Data(backups);
  }
}
