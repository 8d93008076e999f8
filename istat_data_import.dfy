/**
 * The ISTAT data import script: cleaning and validating one CSV record, the
 * per-record handler that queues valid rows, and the end handler that inserts
 * the queue in consecutive batches of at most `BatchSize` rows, one
 * multi-row `INSERT` each.
 */
module IstatDataImport {
  import opened Wrappers
  import opened Text
  import opened Seqs
  import opened Tables

  /** `this.batchSize`: 100 rows of 7 columns stay at 700 parameters. */
  const BatchSize: nat := 100

  /** The number of columns of `imprese` an `INSERT` fills. */
  const Columns: nat := 7

  // ---------------------------------------------------------------------------
  // One record
  // ---------------------------------------------------------------------------

  /** A CSV record under the seven given headers; `None` is a missing field. */
  datatype CsvRow = CsvRow(
    regione: Option<string>,
    provincia: Option<string>,
    settore: Option<string>,
    divisione: Option<string>,
    classe: Option<string>,
    sottocategoria: Option<string>,
    impreseAttive: Option<string>)

  /** `cleanRow`: the six text fields trimmed, the count parsed, with NaN read as 0. */
  function CleanRow(row: CsvRow): (r: Impresa)
    ensures Trimmed(r.regione) && Trimmed(r.provincia) && Trimmed(r.settore)
    ensures Trimmed(r.divisione) && Trimmed(r.classe) && Trimmed(r.sottocategoria)
    ensures row.regione.None? ==> r.regione == ""
    ensures row.provincia.None? ==> r.provincia == ""
    ensures row.settore.None? ==> r.settore == ""
    ensures row.divisione.None? ==> r.divisione == ""
    ensures row.classe.None? ==> r.classe == ""
    ensures row.sottocategoria.None? ==> r.sottocategoria == ""
    ensures row.regione.Some? ==> r.regione == Trim(row.regione.value)
    ensures row.provincia.Some? ==> r.provincia == Trim(row.provincia.value)
    ensures row.settore.Some? ==> r.settore == Trim(row.settore.value)
    ensures row.divisione.Some? ==> r.divisione == Trim(row.divisione.value)
    ensures row.classe.Some? ==> r.classe == Trim(row.classe.value)
    ensures row.sottocategoria.Some? ==> r.sottocategoria == Trim(row.sottocategoria.value)
    ensures ParseInt(row.impreseAttive.GetOr("")).None? ==> r.impreseAttive == 0
    ensures ParseInt(row.impreseAttive.GetOr("")).Some? ==> r.impreseAttive == ParseInt(row.impreseAttive.GetOr("")).value
    ensures row.impreseAttive.None? ==> r.impreseAttive == 0
  {
    Impresa(TrimOrEmpty(row.regione), TrimOrEmpty(row.provincia), TrimOrEmpty(row.settore),
            TrimOrEmpty(row.divisione), TrimOrEmpty(row.classe), TrimOrEmpty(row.sottocategoria),
            ParseIntOrZero(row.impreseAttive.GetOr("")))
  }

  /** `isValidRow`: every text field present and a positive count. */
  predicate IsValidRow(r: Impresa) {
    && r.regione != "" && r.provincia != "" && r.settore != ""
    && r.divisione != "" && r.classe != "" && r.sottocategoria != ""
    && r.impreseAttive > 0
  }

  function ValidTest(): Impresa -> bool {
    r => IsValidRow(r)
  }

  function InvalidTest(): Impresa -> bool {
    r => !IsValidRow(r)
  }

  /** The CSV record a row is written as, the partner of `CleanRow`. */
  function CsvOf(r: Impresa): CsvRow
    requires r.impreseAttive >= 0
  {
    CsvRow(Some(r.regione), Some(r.provincia), Some(r.settore), Some(r.divisione),
           Some(r.classe), Some(r.sottocategoria), Some(NatToString(r.impreseAttive)))
  }

  /** Cleaning the record of a row with trimmed text and a count of at least 0 gives the row back. */
  lemma CleanRowOfCsvOf(r: Impresa)
    requires Trimmed(r.regione) && Trimmed(r.provincia) && Trimmed(r.settore)
    requires Trimmed(r.divisione) && Trimmed(r.classe) && Trimmed(r.sottocategoria)
    requires r.impreseAttive >= 0
    ensures CleanRow(CsvOf(r)) == r
  {
    TrimIdempotent(r.regione);
    TrimIdempotent(r.provincia);
    TrimIdempotent(r.settore);
    TrimIdempotent(r.divisione);
    TrimIdempotent(r.classe);
    TrimIdempotent(r.sottocategoria);
    ParseIntOrZeroOfNatToString(r.impreseAttive);
  }

  /** A valid cleaned row is a fixed point of writing and cleaning. */
  lemma CleanRowRoundTrip(row: CsvRow)
    requires IsValidRow(CleanRow(row))
    ensures CleanRow(CsvOf(CleanRow(row))) == CleanRow(row)
  {
    CleanRowOfCsvOf(CleanRow(row));
  }

  /** Every record cleaned, in order. */
  function CleanAll(rows: seq<CsvRow>): (r: seq<Impresa>)
    ensures |r| == |rows| && forall k :: 0 <= k < |rows| ==> r[k] == CleanRow(rows[k])
  {
    seq(|rows|, k requires 0 <= k < |rows| => CleanRow(rows[k]))
  }

  // ---------------------------------------------------------------------------
  // Batches
  // ---------------------------------------------------------------------------

  /** `batch.slice(i, i + batchSize)` for `i = 0, batchSize, 2 * batchSize, ...`. */
  function Chunks<T>(s: seq<T>): seq<seq<T>>
    decreases |s|
  {
    if s == [] then []
    else if |s| <= BatchSize then [s]
    else [s[..BatchSize]] + Chunks(s[BatchSize..])
  }

  /**
   * The slices are non-empty and at most `BatchSize` long, there are
   * `ceil(|s| / BatchSize)` of them, and together they are `s` in order.
   */
  lemma {:induction false} ChunksShape<T>(s: seq<T>)
    ensures forall k :: 0 <= k < |Chunks(s)| ==> 0 < |Chunks(s)[k]| <= BatchSize
    ensures |Chunks(s)| == (|s| + BatchSize - 1) / BatchSize
    ensures Concat(Chunks(s)) == s
  {
    if s == [] {
    } else if |s| <= BatchSize {
      ConcatCons(s, []);
    } else {
      var rest := s[BatchSize..];
      ChunksShape(rest);
      ConcatCons(s[..BatchSize], Chunks(rest));
      assert s == s[..BatchSize] + rest;
      assert forall k :: 1 <= k < |Chunks(s)| ==> Chunks(s)[k] == Chunks(rest)[k - 1];
    }
  }

  /** The first f slices together are the first `f * BatchSize` rows (or all of them). */
  lemma {:induction false} ChunksPrefix<T>(s: seq<T>, f: nat)
    requires f <= |Chunks(s)|
    ensures f * BatchSize <= |s| ==> Concat(Chunks(s)[..f]) == s[..f * BatchSize]
    ensures f * BatchSize > |s| ==> Concat(Chunks(s)[..f]) == s
  {
    if f == 0 {
      assert Chunks(s)[..0] == [];
    } else if |s| <= BatchSize {
      assert Chunks(s)[..f] == [s];
      ConcatCons(s, []);
    } else {
      var rest := s[BatchSize..];
      ChunksPrefix(rest, f - 1);
      assert Chunks(s)[..f] == [s[..BatchSize]] + Chunks(rest)[..f - 1];
      ConcatCons(s[..BatchSize], Chunks(rest)[..f - 1]);
      if f * BatchSize <= |s| {
        assert s[..f * BatchSize] == s[..BatchSize] + rest[..(f - 1) * BatchSize];
      } else {
        assert s == s[..BatchSize] + rest;
      }
    }
  }

  /** The slices after the first: the slicing restarts `BatchSize` further on. */
  lemma ChunksAfterFirst<T>(s: seq<T>)
    requires s != []
    ensures var end := if BatchSize < |s| then BatchSize else |s|;
      && Chunks(s)[0] == s[..end]
      && Chunks(s)[1..] == Chunks(s[end..])
  {
    if |s| <= BatchSize {
      assert s[|s|..] == [];
    }
  }

  /** The number of chunks that commit: those before the first failing one. */
  function Committed(n: nat, failing: set<nat>): (c: nat)
    ensures c <= n
    ensures forall k :: 0 <= k < c ==> k !in failing
    ensures c < n ==> c in failing
  {
    if n == 0 then 0
    else
      var c := Committed(n - 1, failing);
      if c < n - 1 then c
      else if n - 1 in failing then n - 1
      else n
  }

  /** `Committed` is the only count with those three properties. */
  lemma {:induction false} CommittedUnique(n: nat, failing: set<nat>, c: nat)
    requires c <= n
    requires forall k :: 0 <= k < c ==> k !in failing
    requires c < n ==> c in failing
    ensures Committed(n, failing) == c
  {
  }

  // ---------------------------------------------------------------------------
  // The statement of one batch
  // ---------------------------------------------------------------------------

  /** One row's placeholder group, `(?, ?, ?, ?, ?, ?, ?)`. */
  const Group: string := "(?" + ", ?" + ", ?" + ", ?" + ", ?" + ", ?" + ", ?" + ")"

  /** The group has one `?` per column. */
  lemma GroupMarks()
    ensures CountChar(Group, '?') == Columns
  {
    var q := ", ?";
    assert CountChar(q, '?') == 1 by {
      assert q[1..] == " ?" && q[1..][1..] == "?" && q[1..][1..][1..] == [];
    }
    assert CountChar("(?", '?') == 1 by {
      assert "(?"[1..] == "?" && "?"[1..] == [];
    }
    assert CountChar(")", '?') == 0;
    var g := "(?";
    CountCharAppend(g, q, '?');
    CountCharAppend(g + q, q, '?');
    CountCharAppend(g + q + q, q, '?');
    CountCharAppend(g + q + q + q, q, '?');
    CountCharAppend(g + q + q + q + q, q, '?');
    CountCharAppend(g + q + q + q + q + q, q, '?');
    CountCharAppend(g + q + q + q + q + q + q, ")", '?');
  }

  /** `batch.map(() => '(?, ?, ?, ?, ?, ?, ?)').join(', ')` for a batch of n rows. */
  function Placeholders(n: nat): string {
    if n == 0 then ""
    else if n == 1 then Group
    else Placeholders(n - 1) + ", " + Group
  }

  /** The values one row contributes, in the column order of the `INSERT`. */
  function RowValues(r: Impresa): (vs: seq<Param>)
    ensures |vs| == Columns
  {
    [Text(r.regione), Text(r.provincia), Text(r.settore), Text(r.divisione),
     Text(r.classe), Text(r.sottocategoria), Number(r.impreseAttive)]
  }

  /** `batch.flatMap(row => [...])`. */
  function Values(b: seq<Impresa>): seq<Param> {
    if b == [] then [] else Values(b[..|b| - 1]) + RowValues(b[|b| - 1])
  }

  /** The row SQLite stores for one group of seven values bound in column order. */
  function RowOfValues(g: seq<Param>): Impresa
    requires |g| == Columns
  {
    Impresa(TextOf(g[0]), TextOf(g[1]), TextOf(g[2]), TextOf(g[3]), TextOf(g[4]), TextOf(g[5]), NumberOf(g[6]))
  }

  function TextOf(p: Param): string {
    if p.Text? then p.text else ""
  }

  function NumberOf(p: Param): int {
    if p.Number? then p.value else 0
  }

  /** The rows a `VALUES` list with its bound values inserts, one per group of seven. */
  function InsertedRows(vs: seq<Param>): seq<Impresa>
    decreases |vs|
  {
    if |vs| < Columns then []
    else InsertedRows(vs[..|vs| - Columns]) + [RowOfValues(vs[|vs| - Columns..])]
  }

  /** Seven values per row, and binding them inserts exactly the batch, in order. */
  lemma {:induction false} InsertedRowsOfValues(b: seq<Impresa>)
    ensures |Values(b)| == Columns * |b|
    ensures InsertedRows(Values(b)) == b
  {
    ValuesLength(b);
    if b != [] {
      var init, last := b[..|b| - 1], b[|b| - 1];
      InsertedRowsOfValues(init);
      var vi, vl := Values(init), RowValues(last);
      assert Values(b) == vi + vl;
      InsertedRowsSnoc(vi, vl);
      RowOfRowValues(last);
      InitLast(b);
    }
  }

  lemma {:induction false} ValuesLength(b: seq<Impresa>)
    ensures |Values(b)| == Columns * |b|
  {
    if b != [] {
      ValuesLength(b[..|b| - 1]);
    }
  }

  /** Seven more values bind one more row, after the others. */
  lemma InsertedRowsSnoc(vi: seq<Param>, vl: seq<Param>)
    requires |vl| == Columns
    ensures InsertedRows(vi + vl) == InsertedRows(vi) + [RowOfValues(vl)]
  {
    var vs := vi + vl;
    assert vs[..|vs| - Columns] == vi && vs[|vs| - Columns..] == vl;
  }

  /** The values of a row bind that row back. */
  lemma RowOfRowValues(r: Impresa)
    ensures RowOfValues(RowValues(r)) == r
  {
  }

  /** Each placeholder group holds seven `?`, so the statement binds seven per row. */
  lemma {:induction false} PlaceholdersCount(n: nat)
    ensures CountChar(Placeholders(n), '?') == Columns * n
  {
    GroupMarks();
    if n > 1 {
      PlaceholdersCount(n - 1);
      PlaceholdersStep(n);
    }
  }

  /** One more group adds its seven `?` and a separator without any. */
  lemma PlaceholdersStep(n: nat)
    requires n > 1
    ensures CountChar(Placeholders(n), '?') == CountChar(Placeholders(n - 1), '?') + Columns
  {
    var p := Placeholders(n - 1);
    GroupMarks();
    CountCharAppend(p, ", ", '?');
    CountCharAppend(p + ", ", Group, '?');
  }

  /** The placeholders match the values, and a full batch binds at most 700 of them. */
  lemma StatementBalanced(b: seq<Impresa>)
    ensures CountChar(Placeholders(|b|), '?') == |Values(b)|
    ensures |b| <= BatchSize ==> |Values(b)| <= 700
  {
    PlaceholdersCount(|b|);
    InsertedRowsOfValues(b);
  }

  // ---------------------------------------------------------------------------
  // The importer
  // ---------------------------------------------------------------------------

  /** `ISTATDataImporter`: the four counters and the rows of `imprese`. */
  /** One turn of the chunk loop: the slice it takes is the next chunk, and the rest are the chunks of what follows. */
  lemma ChunkStep<T>(batch: seq<T>, chunks: seq<seq<T>>, i: nat, c: nat)
    requires i < |batch| && c <= |chunks| && chunks[c..] == Chunks(batch[i..])
    ensures var end := if i + BatchSize < |batch| then i + BatchSize else |batch|;
      && c < |chunks| && chunks[c] == batch[i..end]
      && chunks[c + 1..] == Chunks(batch[end..])
      && (end == |batch| ==> c + 1 == |chunks|)
  {
    var end := if i + BatchSize < |batch| then i + BatchSize else |batch|;
    ChunksAfterFirst(batch[i..]);
    assert chunks[c + 1..] == chunks[c..][1..];
    assert batch[i..][end - i..] == batch[end..];
    if end == |batch| {
      assert batch[end..] == [];
    }
  }

  class IstatDataImporter {
    var totalRows: nat
    var importedRows: nat
    var skippedRows: nat
    var errors: nat
    /** The content of `imprese`, in insertion order. */
    var table: seq<Impresa>

    constructor (table0: seq<Impresa>)
      ensures totalRows == 0 && importedRows == 0 && skippedRows == 0 && errors == 0
      ensures table == table0
    {
      totalRows, importedRows, skippedRows, errors := 0, 0, 0, 0;
      table := table0;
    }

    /** `clearExistingData`: `DELETE FROM imprese`. */
    method ClearExistingData()
      modifies this
      ensures table == []
      ensures totalRows == old(totalRows) && importedRows == old(importedRows)
      ensures skippedRows == old(skippedRows) && errors == old(errors)
    {
      table := [];
    }

    /** The `data` handler: count the record, then skip it or queue its cleaned row. */
    method HandleRow(batch: seq<Impresa>, row: CsvRow) returns (batch': seq<Impresa>)
      modifies this
      ensures totalRows == old(totalRows) + 1
      ensures batch' == batch + Admitted(row)
      ensures skippedRows == old(skippedRows) + 1 - |Admitted(row)|
      ensures importedRows == old(importedRows) && errors == old(errors) && table == old(table)
    {
      totalRows := totalRows + 1;
      var cleanRow := CleanRow(row);
      if !IsValidRow(cleanRow) {
        skippedRows := skippedRows + 1;
        assert Admitted(row) == [] && batch + [] == batch;
        return batch;
      }
      assert Admitted(row) == [cleanRow];
      batch' := batch + [cleanRow];
    }

    /**
     * `processBatch`: one `INSERT` with a placeholder group and seven values
     * per row; when the store accepts it the batch is appended and counted,
     * otherwise (`ok` false, the rethrow) nothing changes.
     */
    method ProcessBatch(b: seq<Impresa>, chunkNumber: nat, storeFails: bool) returns (ok: bool)
      modifies this
      ensures ok == !storeFails
      ensures ok ==> table == old(table) + b && importedRows == old(importedRows) + |b|
      ensures !ok ==> table == old(table) && importedRows == old(importedRows)
      ensures totalRows == old(totalRows) && skippedRows == old(skippedRows) && errors == old(errors)
    {
      var placeholders := Placeholders(|b|);
      var values := Values(b);
      StatementBalanced(b);
      if storeFails {
        return false;
      }
      InsertedRowsOfValues(b);
      table := table + InsertedRows(values);
      importedRows := importedRows + |b|;
      ok := true;
    }

    /**
     * The `end` handler: the batches in order, stopping at the first one the
     * store rejects (`failing` holds the chunk numbers whose `INSERT`
     * throws). The committed batches stay in the table.
     */
    method InsertChunks(batch: seq<Impresa>, failing: set<nat>) returns (ok: bool)
      modifies this
      ensures var n := |Chunks(batch)|; var c := Committed(n, failing);
        && (ok <==> c == n)
        && table == old(table) + Concat(Chunks(batch)[..c])
        && importedRows == old(importedRows) + |Concat(Chunks(batch)[..c])|
      ensures totalRows == old(totalRows) && skippedRows == old(skippedRows) && errors == old(errors)
    {
      ghost var chunks := Chunks(batch);
      var i := 0;
      var currentChunk := 0;
      while i < |batch|
        invariant currentChunk <= |chunks|
        invariant i <= |batch| ==> chunks[currentChunk..] == Chunks(batch[i..])
        invariant i > |batch| ==> currentChunk == |chunks|
        invariant forall k :: 0 <= k < currentChunk ==> k !in failing
        invariant table == old(table) + Concat(chunks[..currentChunk])
        invariant importedRows == old(importedRows) + |Concat(chunks[..currentChunk])|
        invariant totalRows == old(totalRows) && skippedRows == old(skippedRows) && errors == old(errors)
        decreases |batch| - i
      {
        var end := if i + BatchSize < |batch| then i + BatchSize else |batch|;
        var currentBatch := batch[i..end];
        ChunkStep(batch, chunks, i, currentChunk);
        ConcatSnoc(chunks, currentChunk);
        ok := ProcessBatch(currentBatch, currentChunk, currentChunk in failing);
        if !ok {
          CommittedUnique(|chunks|, failing, currentChunk);
          return;
        }
        currentChunk := currentChunk + 1;
        i := i + BatchSize;
      }
      if i <= |batch| {
        assert batch[i..] == [];
      }
      CommittedUnique(|chunks|, failing, currentChunk);
      ok := true;
    }

    /**
     * `importInChunks`: the `data` handler over every record, then the `end`
     * handler over the queued rows. When every batch commits, exactly the
     * valid rows are imported, in arrival order.
     */
    method ImportInChunks(rows: seq<CsvRow>, failing: set<nat>) returns (ok: bool)
      modifies this
      ensures var n := |Chunks(Queue(rows))|; var c := Committed(n, failing);
        && (ok <==> c == n)
        && table == old(table) + Concat(Chunks(Queue(rows))[..c])
        && importedRows == old(importedRows) + |Concat(Chunks(Queue(rows))[..c])|
      ensures ok ==> table == old(table) + Queue(rows) && importedRows == old(importedRows) + |Queue(rows)|
      ensures totalRows == old(totalRows) + |rows|
      ensures skippedRows == old(skippedRows) + Skipped(rows)
      ensures errors == old(errors)
    {
      var batch := QueueRows(rows);
      ok := InsertChunks(batch, failing);
      ChunksShape(batch);
      assert Chunks(batch)[..|Chunks(batch)|] == Chunks(batch);
    }

    /** The `data` handler over every record: the queue is `Queue(rows)`. */
    method QueueRows(rows: seq<CsvRow>) returns (batch: seq<Impresa>)
      modifies this
      ensures batch == Queue(rows)
      ensures totalRows == old(totalRows) + |rows|
      ensures skippedRows == old(skippedRows) + Skipped(rows)
      ensures importedRows == old(importedRows) && errors == old(errors) && table == old(table)
    {
      batch := [];
      var i := 0;
      while i < |rows|
        invariant 0 <= i <= |rows|
        invariant batch == Queue(rows[..i])
        invariant totalRows == old(totalRows) + i
        invariant skippedRows == old(skippedRows) + Skipped(rows[..i])
        invariant importedRows == old(importedRows) && errors == old(errors) && table == old(table)
      {
        QueueSnoc(rows, i);
        batch := HandleRow(batch, rows[i]);
        i := i + 1;
      }
      assert rows[..i] == rows;
    }
  }

  /** What the `data` handler queues for one record: its cleaned row if that is valid. */
  function Admitted(row: CsvRow): seq<Impresa> {
    var r := CleanRow(row);
    if IsValidRow(r) then [r] else []
  }

  /** The rows the `data` handler queues: the cleaned records, in arrival order, that `isValidRow` accepts. */
  function Queue(rows: seq<CsvRow>): seq<Impresa> {
    if rows == [] then [] else Queue(rows[..|rows| - 1]) + Admitted(rows[|rows| - 1])
  }

  /** Every queued row is valid, so its count of active firms is positive. */
  lemma QueueValid(rows: seq<CsvRow>)
    ensures forall k :: 0 <= k < |Queue(rows)| ==> IsValidRow(Queue(rows)[k]) && Queue(rows)[k].impreseAttive > 0
  {
    QueueIsFilter(rows);
  }

  /** The records the `data` handler skips. */
  function Skipped(rows: seq<CsvRow>): nat {
    if rows == [] then 0 else Skipped(rows[..|rows| - 1]) + 1 - |Admitted(rows[|rows| - 1])|
  }

  /** Queue and skip count after one more record. */
  lemma QueueSnoc(rows: seq<CsvRow>, i: nat)
    requires i < |rows|
    ensures Queue(rows[..i + 1]) == Queue(rows[..i]) + Admitted(rows[i])
    ensures Skipped(rows[..i + 1]) == Skipped(rows[..i]) + 1 - |Admitted(rows[i])|
  {
    assert rows[..i + 1][..i] == rows[..i];
  }

  /** Every record is either queued or skipped. */
  lemma {:induction false} QueuedPlusSkipped(rows: seq<CsvRow>)
    ensures |Queue(rows)| + Skipped(rows) == |rows|
  {
    if rows != [] {
      QueuedPlusSkipped(rows[..|rows| - 1]);
    }
  }

  /** Cleaning one more record appends its cleaned row. */
  lemma CleanAllSnoc(rows: seq<CsvRow>)
    requires rows != []
    ensures CleanAll(rows) == CleanAll(rows[..|rows| - 1]) + [CleanRow(rows[|rows| - 1])]
  {
    var clean := (row: CsvRow) => CleanRow(row);
    ImageSnoc(rows, clean, CleanAll(rows), CleanAll(rows[..|rows| - 1]));
  }

  /**
   * The queue is the cleaned records filtered by `isValidRow`, and the skipped
   * ones are the cleaned records it rejects.
   */
  lemma {:induction false} QueueIsFilter(rows: seq<CsvRow>)
    ensures Queue(rows) == Filter(CleanAll(rows), ValidTest())
    ensures Skipped(rows) == |Filter(CleanAll(rows), InvalidTest())|
  {
    if rows != [] {
      var init, last := rows[..|rows| - 1], rows[|rows| - 1];
      QueueIsFilter(init);
      var cleaned, r := CleanAll(init), CleanRow(last);
      CleanAllSnoc(rows);
      FilterSnoc(cleaned, ValidTest(), r);
      FilterSnoc(cleaned, InvalidTest(), r);
      assert Admitted(last) == if ValidTest()(r) then [r] else [];
    }
  }

  /** A rejected batch stops the import: only the rows of the batches before it are in. */
  lemma FailureStops(batch: seq<Impresa>, failing: set<nat>, f: nat)
    requires f < |Chunks(batch)| && f in failing
    ensures Committed(|Chunks(batch)|, failing) <= f
    ensures Committed(|Chunks(batch)|, failing) * BatchSize < |batch|
    ensures var c := Committed(|Chunks(batch)|, failing);
      Concat(Chunks(batch)[..c]) == batch[..c * BatchSize]
  {
    var c := Committed(|Chunks(batch)|, failing);
    ChunksShape(batch);
    ChunksPrefix(batch, c);
    assert c < |Chunks(batch)|;
    assert c * BatchSize <= |batch|;
  }
}
