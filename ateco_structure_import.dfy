/**
 * The ATECO structure import script: reading one spreadsheet row into an
 * `ateco_codes` record, the validity test, the dot-based level and parent of
 * a code, and the loop that inserts the rows and keeps the four counters.
 */
module AtecoStructureImport {
  import opened Wrappers
  import opened Text
  import opened Seqs
  import opened Tables

  // ---------------------------------------------------------------------------
  // Reading a row
  // ---------------------------------------------------------------------------

  /** A spreadsheet cell as its `toString()` reads; `None` is an empty (undefined) cell. */
  type Cell = Option<string>

  /** `[Order, Code, ItalianTitle, EnglishTitle, Hierarchy, ParentCode, ParentHierarchy]`. */
  type SheetRow = seq<Cell>

  /** `row[i]`, undefined past the end. */
  function CellAt(row: SheetRow, i: nat): Cell {
    if i < |row| then row[i] else None
  }

  /**
   * `parseRow`: code, name and description are the trimmed cells, an empty
   * description falls back to the name, an empty parent cell becomes `null`,
   * and a level that does not parse becomes 0.
   */
  function ParseRow(row: SheetRow): (r: AtecoRow)
    ensures Trimmed(r.code) && Trimmed(r.name) && Trimmed(r.description)
    ensures r.description == "" ==> r.name == ""
    ensures r.parentCode.None? || (r.parentCode.value != "" && Trimmed(r.parentCode.value))
    ensures CellAt(row, 1).None? ==> r.code == ""
    ensures CellAt(row, 1).Some? ==> r.code == Trim(CellAt(row, 1).value)
    ensures CellAt(row, 2).None? ==> r.name == ""
    ensures CellAt(row, 2).Some? ==> r.name == Trim(CellAt(row, 2).value)
    ensures TrimOrEmpty(CellAt(row, 3)) == "" ==> r.description == r.name
    ensures TrimOrEmpty(CellAt(row, 3)) != "" ==> r.description == TrimOrEmpty(CellAt(row, 3))
    ensures r.parentCode.None? <==> TrimOrEmpty(CellAt(row, 5)) == ""
    ensures r.parentCode.Some? ==> r.parentCode.value == TrimOrEmpty(CellAt(row, 5))
    ensures ParseInt(CellAt(row, 4).GetOr("")).None? ==> r.level == 0
    ensures ParseInt(CellAt(row, 4).GetOr("")).Some? ==> r.level == ParseInt(CellAt(row, 4).GetOr("")).value
    ensures CellAt(row, 4).None? ==> r.level == 0
  {
    var code := TrimOrEmpty(CellAt(row, 1));
    var name := TrimOrEmpty(CellAt(row, 2));
    var level := ParseIntOrZero(CellAt(row, 4).GetOr(""));
    var parent := TrimOrEmpty(CellAt(row, 5));
    var description := TrimOrEmpty(CellAt(row, 3));
    AtecoRow(code, name, level, if parent == "" then None else Some(parent),
             if description == "" then name else description)
  }

  /** `isValidATECOData`: a code, a name and a positive level. */
  predicate IsValidAtecoData(d: AtecoRow) {
    d.code != "" && d.name != "" && d.level > 0
  }

  /** The spreadsheet row a record is written as, the partner of `ParseRow`. */
  function RowOf(d: AtecoRow): SheetRow
    requires d.level >= 0
  {
    [None, Some(d.code), Some(d.name), Some(d.description), Some(NatToString(d.level)), d.parentCode, None]
  }

  /** A record in the shape `ParseRow` produces. */
  predicate Normal(d: AtecoRow) {
    && Trimmed(d.code) && Trimmed(d.name) && Trimmed(d.description) && d.description != ""
    && d.level >= 0
    && (d.parentCode.None? || (d.parentCode.value != "" && Trimmed(d.parentCode.value)))
  }

  /** Reading back a written record gives the record. */
  lemma ParseRowOfRowOf(d: AtecoRow)
    requires Normal(d)
    ensures ParseRow(RowOf(d)) == d
  {
    var row := RowOf(d);
    assert CellAt(row, 1) == Some(d.code) && CellAt(row, 2) == Some(d.name);
    assert CellAt(row, 3) == Some(d.description) && CellAt(row, 5) == d.parentCode;
    var level := NatToString(d.level);
    assert CellAt(row, 4) == Some(level);
    TrimOrEmptyOf(d.code);
    TrimOrEmptyOf(d.name);
    TrimOrEmptyOf(d.description);
    if d.parentCode.Some? {
      TrimOrEmptyOf(d.parentCode.value);
    } else {
      TrimOrEmptyOf("");
    }
    ParseIntOrZeroOfNatToString(d.level);
  }

  lemma TrimOrEmptyOf(v: string)
    requires Trimmed(v)
    ensures TrimOrEmpty(Some(v)) == v && TrimOrEmpty(None) == ""
  {
    TrimIdempotent(v);
    TrimIdempotent("");
  }

  /** A valid record read from any row is written and read back unchanged. */
  lemma ParseRowRoundTrip(row: SheetRow)
    requires IsValidAtecoData(ParseRow(row))
    ensures ParseRow(RowOf(ParseRow(row))) == ParseRow(row)
  {
    ParseRowOfRowOf(ParseRow(row));
  }

  // ---------------------------------------------------------------------------
  // Level and parent from the dots
  // ---------------------------------------------------------------------------

  /** `determineLevel`: 0 for no code, one more than the number of dots up to five dots, else 0. */
  function DetermineLevel(code: string): (l: nat)
    ensures code == "" ==> l == 0
    ensures code != "" && CountChar(code, '.') <= 5 ==> l == CountChar(code, '.') + 1
    ensures CountChar(code, '.') > 5 ==> l == 0
    ensures l <= 6
  {
    if code == "" then 0
    else
      var dotCount := CountChar(code, '.');
      if dotCount == 0 then 1
      else if dotCount == 1 then 2
      else if dotCount == 2 then 3
      else if dotCount == 3 then 4
      else if dotCount == 4 then 5
      else if dotCount == 5 then 6
      else 0
  }

  /** `getParentCode`: `null` without a dot, otherwise the code with its last `.`-piece dropped. */
  function GetParentCode(code: string): Option<string> {
    if code == "" then None
    else if CountChar(code, '.') == 0 then None
    else
      var parts := Split(code, '.');
      Some(Join(parts[..|parts| - 1], '.'))
  }

  /**
   * A code has a parent iff it holds a dot; the parent followed by a dot and
   * the dot-free last piece is the code, and it has one dot fewer.
   */
  lemma GetParentCodeShape(code: string) returns (last: string)
    ensures GetParentCode(code).None? <==> '.' !in code
    ensures GetParentCode(code).Some? ==>
      && '.' !in last
      && GetParentCode(code).value + "." + last == code
      && CountChar(GetParentCode(code).value, '.') == CountChar(code, '.') - 1
  {
    last := "";
    if '.' in code {
      var parts := Split(code, '.');
      SplitShape(code, '.');
      JoinSplit(code, '.');
      var init := parts[..|parts| - 1];
      last := parts[|parts| - 1];
      assert |parts| >= 2;
      assert Join(parts, '.') == Join(init, '.') + "." + last;
      JoinCount(init, '.');
    }
  }

  /** Between one and five dots, a non-empty parent is exactly one level up. */
  lemma ParentLevel(code: string)
    requires 1 <= CountChar(code, '.') <= 5
    requires GetParentCode(code).Some? && GetParentCode(code).value != ""
    ensures DetermineLevel(GetParentCode(code).value) == DetermineLevel(code) - 1
  {
    var _ := GetParentCodeShape(code);
  }

  // ---------------------------------------------------------------------------
  // The import loop
  // ---------------------------------------------------------------------------

  /** `ateco_codes` and the three outcome counters. */
  datatype Outcome = Outcome(table: seq<AtecoRow>, imported: nat, skipped: nat, errors: nat)

  /** The outcome after the rows, in order, starting from `o`. */
  function Import(o: Outcome, rows: seq<AtecoRow>): Outcome {
    if rows == [] then o
    else Step(Import(o, rows[..|rows| - 1]), rows[|rows| - 1])
  }

  /**
   * One row of the loop: an invalid row is skipped, a valid one is inserted,
   * and an insert whose code is already in the table fails on `code UNIQUE`
   * and counts as an error.
   */
  function Step(o: Outcome, d: AtecoRow): Outcome {
    if !IsValidAtecoData(d) then o.(skipped := o.skipped + 1)
    else if d.code in Codes(o.table) then o.(errors := o.errors + 1)
    else o.(table := o.table + [d], imported := o.imported + 1)
  }

  /** The data rows of a sheet (all but the header row), each read by `ParseRow`. */
  function DataRows(data: seq<SheetRow>): (rows: seq<AtecoRow>)
    ensures |rows| == if |data| == 0 then 0 else |data| - 1
  {
    if |data| <= 1 then [] else seq(|data| - 1, k requires 0 <= k < |data| - 1 => ParseRow(data[k + 1]))
  }

  /**
   * Each row lands in exactly one counter, the table only grows at its end,
   * and it grows by the imported rows.
   */
  lemma {:induction false} ImportBalance(o: Outcome, rows: seq<AtecoRow>)
    ensures var r := Import(o, rows);
      && r.imported + r.skipped + r.errors == o.imported + o.skipped + o.errors + |rows|
      && r.imported >= o.imported && r.skipped >= o.skipped && r.errors >= o.errors
      && |r.table| == |o.table| + (r.imported - o.imported)
      && r.table[..|o.table|] == o.table
  {
    if rows != [] {
      ImportBalance(o, rows[..|rows| - 1]);
    }
  }

  /** The rows added to the table are valid rows of the input. */
  lemma {:induction false} ImportOnlyValid(o: Outcome, rows: seq<AtecoRow>)
    ensures var r := Import(o, rows);
      && |o.table| <= |r.table|
      && forall k :: |o.table| <= k < |r.table| ==> IsValidAtecoData(r.table[k]) && r.table[k] in rows
  {
    if rows != [] {
      ImportOnlyValid(o, rows[..|rows| - 1]);
    }
  }

  /** An import into a table with unique codes keeps them unique. */
  lemma {:induction false} ImportKeepsUnique(o: Outcome, rows: seq<AtecoRow>)
    requires UniqueCodes(o.table)
    ensures UniqueCodes(Import(o, rows).table)
  {
    if rows != [] {
      ImportKeepsUnique(o, rows[..|rows| - 1]);
      StepKeepsUnique(Import(o, rows[..|rows| - 1]), rows[|rows| - 1]);
    }
  }

  lemma StepKeepsUnique(o: Outcome, d: AtecoRow)
    requires UniqueCodes(o.table)
    ensures UniqueCodes(Step(o, d).table)
  {
    if IsValidAtecoData(d) && d.code !in Codes(o.table) {
      AppendKeepsUnique(o.table, d);
    }
  }

  /** Appending a row whose code is new keeps the codes unique. */
  lemma AppendKeepsUnique(t: seq<AtecoRow>, d: AtecoRow)
    requires UniqueCodes(t) && d.code !in Codes(t)
    ensures UniqueCodes(t + [d])
  {
    forall i | 0 <= i < |t| ensures t[i].code != d.code {
      assert Codes(t)[i] == t[i].code;
    }
  }

  /** The code of every valid row ends up in the table, inserted or already there. */
  lemma {:induction false} ImportComplete(o: Outcome, rows: seq<AtecoRow>, k: nat)
    requires k < |rows| && IsValidAtecoData(rows[k])
    ensures rows[k].code in Codes(Import(o, rows).table)
  {
    var init := rows[..|rows| - 1];
    var r := Import(o, init);
    if k < |rows| - 1 {
      assert init[k] == rows[k];
      ImportComplete(o, init, k);
      var i :| 0 <= i < |r.table| && Codes(r.table)[i] == rows[k].code;
      assert Codes(Import(o, rows).table)[i] == rows[k].code;
    } else if rows[k].code !in Codes(r.table) {
      var t := r.table + [rows[k]];
      assert Codes(t)[|t| - 1] == rows[k].code;
    }
  }

  /** Exactly the invalid rows are skipped. */
  lemma {:induction false} ImportSkipsInvalid(o: Outcome, rows: seq<AtecoRow>)
    ensures Import(o, rows).skipped == o.skipped + |Filter(rows, InvalidTest())|
  {
    if rows != [] {
      ImportSkipsInvalid(o, rows[..|rows| - 1]);
    }
  }

  function InvalidTest(): AtecoRow -> bool {
    d => !IsValidAtecoData(d)
  }

  /** One more row is one more `Step`. */
  lemma ImportSnoc(o: Outcome, rows: seq<AtecoRow>, i: nat)
    requires 1 <= i <= |rows|
    ensures Import(o, rows[..i]) == Step(Import(o, rows[..i - 1]), rows[i - 1])
  {
    assert rows[..i][..i - 1] == rows[..i - 1];
  }

  /** From zeroed counters, the counters add up to the number of data rows. */
  lemma CountersAddUp(table: seq<AtecoRow>, data: seq<SheetRow>)
    ensures var r := Import(Outcome(table, 0, 0, 0), DataRows(data));
      r.imported + r.skipped + r.errors == |DataRows(data)| == if data == [] then 0 else |data| - 1
  {
    ImportBalance(Outcome(table, 0, 0, 0), DataRows(data));
  }

  /** `ATECOStructureImporter`: the four counters and the rows of `ateco_codes`. */
  class AtecoStructureImporter {
    var totalRows: nat
    var importedRows: nat
    var skippedRows: nat
    var errors: nat
    /** The content of `ateco_codes`, in insertion order. */
    var table: seq<AtecoRow>

    /** The `code TEXT UNIQUE` constraint. */
    ghost predicate Valid()
      reads this
    {
      UniqueCodes(table)
    }

    constructor (table0: seq<AtecoRow>)
      requires UniqueCodes(table0)
      ensures Valid()
      ensures totalRows == 0 && importedRows == 0 && skippedRows == 0 && errors == 0
      ensures table == table0
    {
      totalRows, importedRows, skippedRows, errors := 0, 0, 0, 0;
      table := table0;
    }

    /** `clearExistingData`: `DELETE FROM ateco_codes`. */
    method ClearExistingData()
      modifies this
      ensures Valid()
      ensures table == []
      ensures totalRows == old(totalRows) && importedRows == old(importedRows)
      ensures skippedRows == old(skippedRows) && errors == old(errors)
    {
      table := [];
    }

    /** `insertATECORecord`: the `INSERT` fails (`ok` false) iff the code is already there. */
    method InsertAtecoRecord(d: AtecoRow) returns (ok: bool)
      requires Valid()
      modifies this
      ensures Valid()
      ensures ok <==> d.code !in Codes(old(table))
      ensures table == if ok then old(table) + [d] else old(table)
      ensures totalRows == old(totalRows) && importedRows == old(importedRows)
      ensures skippedRows == old(skippedRows) && errors == old(errors)
    {
      ok := d.code !in Codes(table);
      if ok {
        AppendKeepsUnique(table, d);
        table := table + [d];
      }
    }

    /** The table and the outcome counters. */
    ghost function Stats(): Outcome
      reads this
    {
      Outcome(table, importedRows, skippedRows, errors)
    }

    /**
     * `processExcelFile`: every row after the header counts once in
     * `totalRows` and once in exactly one of the other counters; only valid
     * rows are inserted.
     */
    method ProcessExcelFile(data: seq<SheetRow>)
      requires Valid()
      modifies this
      ensures Valid()
      ensures Stats() == Import(old(Stats()), DataRows(data))
      ensures totalRows == old(totalRows) + |DataRows(data)|
    {
      ghost var rows := DataRows(data);
      ghost var start := Stats();
      var i := 1;
      while i < |data|
        invariant 1 <= i <= |rows| + 1
        invariant Valid()
        invariant Stats() == Import(start, rows[..i - 1])
        invariant totalRows == old(totalRows) + (i - 1)
      {
        var atecoData := ParseRow(data[i]);
        assert rows[i - 1] == atecoData;
        ImportSnoc(start, rows, i);
        ProcessRow(atecoData);
        i := i + 1;
      }
      assert rows[..i - 1] == rows;
    }

    /** The loop body for one row: count it, then skip it, insert it or count the failed insert. */
    method ProcessRow(atecoData: AtecoRow)
      requires Valid()
      modifies this
      ensures Valid()
      ensures Stats() == Step(old(Stats()), atecoData)
      ensures totalRows == old(totalRows) + 1
    {
      totalRows := totalRows + 1;
      if !IsValidAtecoData(atecoData) {
        skippedRows := skippedRows + 1;
      } else {
        var ok := InsertAtecoRecord(atecoData);
        if ok {
          importedRows := importedRows + 1;
        } else {
          errors := errors + 1;
        }
      }
    }
  }
}
