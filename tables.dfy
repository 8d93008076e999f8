/**
 * The two tables of the SQLite store, as in-memory sequences of rows:
 * `ateco_codes` (the classification) and `imprese` (active-business counts).
 */
module Tables {
  import opened Wrappers

  /** A row of `ateco_codes`; `parentCode` is the nullable `parent_code` column. */
  datatype AtecoRow = AtecoRow(code: string, name: string, level: int, parentCode: Option<string>, description: string)

  /** A row of `imprese`: a province, four flat classification columns, and a count. */
  datatype Impresa = Impresa(
    regione: string,
    provincia: string,
    settore: string,
    divisione: string,
    classe: string,
    sottocategoria: string,
    impreseAttive: int)

  /** `code TEXT UNIQUE` on `ateco_codes`. */
  predicate UniqueCodes(rows: seq<AtecoRow>) {
    forall i, j :: 0 <= i < j < |rows| ==> rows[i].code != rows[j].code
  }

  function Codes(rows: seq<AtecoRow>): (r: seq<string>)
    ensures |r| == |rows| && forall k :: 0 <= k < |rows| ==> r[k] == rows[k].code
  {
    seq(|rows|, k requires 0 <= k < |rows| => rows[k].code)
  }

  /** A JavaScript truthiness test on a nullable string: neither null nor empty. */
  predicate Present(s: Option<string>) {
    s.Some? && s.value != ""
  }

  /** A value bound to a `?` placeholder. */
  datatype Param = Text(text: string) | Number(value: int)
}
