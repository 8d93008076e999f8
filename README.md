# ImpreSCAN core, modelled in Dafny

ImpreSCAN loads two data sets into SQLite and serves them over HTTP:

- the ATECO 2025 classification, one `ateco_codes` row per code with its parent;
- the ISTAT count of active companies (`imprese`), one row per
  region × province × sector × division × class × subcategory.

This project models four parts of its server:

- **`server/services/atecoService.js`**, in module `AtecoService`:
  - `buildATECOTree` with its `addDotsToCode`, and the parent–child linking;
  - `calculateCompanyCounts`, the per-node `SUM(imprese_attive)`;
  - `addCompanyCountsToTree`, the rollup of `totalCompanies` and `leafNodes`;
  - the tree endpoint in `server/routes/ateco.js`, which chains them.
- **`server/routes/imprese.js`**, in module `ImpreseRoutes`:
  - `getATECOCodesForFilter`. It resolves a selected ATECO code to the most specific codes under it. It falls back to the fact table when the taxonomy has nothing below the code, and adds the dot-free forms.
  - the `WHERE` builder of the list route;
  - the `orderBy`/`orderDir` whitelist.
- **`server/scripts/import-ateco-structure.js`**, in module `AtecoStructureImport`: `parseRow`, `isValidATECOData`, `determineLevel`, `getParentCode`, and the row loop of `processExcelFile` with its four counters.
- **`server/scripts/import-istat-data.js`**, in module `IstatDataImport`: `cleanRow`, `isValidRow`, the row handler and the batch loop of `importInChunks`, and `processBatch`.

Support modules:

| module | contents |
|---|---|
| `Wrappers` | `Option` |
| `Text` | prefix test, dot stripping, JavaScript `trim`, `parseInt` (decimal, and hexadecimal after `0x`), ASCII upper-casing, split/join |
| `Seqs` | count, filter, first-occurrence dedup (`new Set`), concatenation |
| `Sorting` | the lexicographic order and an insertion sort standing for `ORDER BY` |
| `Tables` | the `ateco_codes` and `imprese` row types |

## How the source is modelled

**Database state.** The database is a value:
- the `ateco_codes` rows, in insertion order;
- the `imprese` rows;
- a set of codes whose `SUM` query throws;
- a `storeFails` flag for the resolver's `try`/`catch`.

Each `SELECT` is a function over those rows:
- `LIKE 'x%'` is a prefix test;
- `ORDER BY code` is a sort by the lexicographic order;
- `SELECT DISTINCT` is a first-occurrence dedup.

**The importers are classes** whose fields are the object's `stats` counters and the target table (`ateco_codes` or `imprese`) as a `seq`. Their methods have the source's loops and `modifies this`. Each loop is proved against a function of its input:
- `ProcessExcelFile` ends in `Import(old(Stats()), DataRows(data))`;
- `ImportInChunks` commits exactly the chunks of `Queue(rows)` before the first failing `INSERT`.

**The tree builder and both tree walks are imperative.** The map of nodes becomes an arena: node `i` is `codes[i]` with dots added, and `children[i]` is a list of indices. `codeMap` is a `map<string, nat>`, and the last row with a key wins, as with `Map.set`.
- `BuildAtecoTree` has the two `forEach` loops. It returns exactly `BuiltForest(codes, rootCode)`. Lemmas prove what that forest is:
  - every row sits in exactly one place, under the row its raw `parent_code` names or among the roots;
  - children keep the input order;
  - from unique codes, every walk from a root ends.
- `ProcessCountNode` and `RollupNode` are the recursive `processNode` functions. They write `directCompanies`, `totalCompanies` and `leafNodes` into arrays indexed by node.
- `Materialize` turns the arena into the nested JSON value that the endpoint returns.

## Model

| member | source | states |
|---|---|---|
| AtecoService.AddDotsToCode | server/services/atecoService.js:126-146 | an empty code, a code that already has a dot, a one-character code and a code of seven or more characters come back unchanged; a dot-free code of two to six characters gets a dot |
| AtecoService.AddDotsToCodeLayout | server/services/atecoService.js:133-143 | a dot-free code gets dots exactly at its length's cut points (1; 2; 2,3; 2,3,4; 2,3,5); removing the dots gives the code back; the dot count and the length grow by the number of cuts |
| AtecoService.AddDotsToCodeIdempotent | server/services/atecoService.js:127-130 | adding dots twice is the same as adding them once |
| AtecoService.BuildAtecoTree | server/services/atecoService.js:121-178 | the built nodes, child lists and roots are exactly the reference forest over the rows |
| AtecoService.IndexRows | server/services/atecoService.js:149-159 | the code map sends each raw code to its last row; node i is row i with dotted code and parent; every child list starts empty |
| AtecoService.LinkRows | server/services/atecoService.js:162-175 | after linking every row, each child list and the root list are the reference lists |
| AtecoService.LinkRow | server/services/atecoService.js:163-174 | linking one more row appends it to its parent's children when its raw parent code is in the map, else to the roots when the root filter allows, and changes nothing else |
| AtecoService.KeyMapLast | server/services/atecoService.js:153 | a key is in the code map iff some row has that code, and it maps to the last such row |
| AtecoService.KeyMapOfUnique | server/services/atecoService.js:149-159 | with unique codes every row is found under its own code |
| AtecoService.ParentOf | server/services/atecoService.js:165-168 | the parent found is a row whose code is the child's raw parent code |
| AtecoService.NodeOf | server/services/atecoService.js:163 | the node looked up for a row has that row's code |
| AtecoService.BuiltForestWellFormed | server/services/atecoService.js:149-175 | every child and root index names a node of the forest |
| AtecoService.BuildPlacesEveryRowOnce | server/services/atecoService.js:162-175 | with unique codes each row occurs exactly once in its parent's children, never in another node's, and once among the roots iff it has no parent and passes the root filter |
| AtecoService.BuiltForestOrdered | server/services/atecoService.js:162-175 | child and root lists are in row order; a child's raw parent code is its parent's code; a root has no parent in the rows and, when a root code is given, has that code |
| AtecoService.ChildrenAfterOnce | server/services/atecoService.js:165-168 | after the first n rows a row occurs once in p's children iff it is among them and its parent is p |
| AtecoService.RootsAfterOnce | server/services/atecoService.js:169-173 | after the first n rows a row occurs once among the roots iff it is among them and is a root |
| AtecoService.BuiltForestBounded | server/services/atecoService.js:56-60 | from unique codes, no walk from a root is longer than the number of rows, so both recursive walks end |
| AtecoService.ParentlessBounded | server/services/atecoService.js:162-175 | from unique codes, every walk from a row without a parent in the rows, root or not, is no longer than the number of rows |
| AtecoService.FilteredSubtreeDisjoint | server/services/atecoService.js:169-173 | a parentless row that the root filter rejects shares no node with the subtree of any root |
| AtecoService.WalkFromRootDistinct | server/services/atecoService.js:162-175 | with unique codes, a walk down from a row without a parent never meets the same node twice |
| AtecoService.SumWherePositive | server/services/atecoService.js:20-49 | the `SUM` over non-negative counts is non-negative, and positive iff some matching row has a positive count |
| AtecoService.SumWhereNoMatch | server/services/atecoService.js:20-49 | when no row matches the column the sum is 0 (`result?.total \|\| 0`) |
| AtecoService.ProcessCountNode | server/services/atecoService.js:10-66 | every node the walk reaches gets the sum over the column chosen by its dot-free length, or 0 when its query throws; the walk stops below a failed node; no other node changes |
| AtecoService.CalculateCompanyCounts | server/services/atecoService.js:8-74 | after the walk from every root, each visited node holds its expected direct count and every other node is unchanged |
| AtecoService.RollupNode | server/services/atecoService.js:83-108 | every node below n gets total = sum of immediate children's direct counts and leaf count = sum of theirs; a leaf gets total 0 and leaf count 1 iff its direct count is positive; nothing else changes |
| AtecoService.AddCompanyCountsToTree | server/services/atecoService.js:82-116 | after the walk from every root, every reachable node satisfies the rollup rule and every other node is unchanged |
| AtecoService.LeafValueDepth | server/services/atecoService.js:89-107 | a subtree's leaf count does not depend on the depth bound used to compute it |
| AtecoService.Materialize | server/services/atecoService.js:153-158 | the serialised node carries the arena node and one serialised child per child index |
| AtecoService.LeafNodesCountPositiveLeaves | server/services/atecoService.js:89-107 | in a rolled-up tree, a node's leafNodes is the number of childless nodes with positive direct count in its subtree |
| AtecoService.LeafNodesCountAll | server/services/atecoService.js:93-97 | the children's summed leafNodes is the number of positive leaves over all their subtrees |
| AtecoService.MaterializeRolledUp | server/services/atecoService.js:82-116 | arrays obeying the rollup rule at every reachable node serialise to a tree obeying it at every node |
| AtecoService.MaterializeCounted | server/services/atecoService.js:8-74 | arrays holding the expected direct counts at every visited node serialise to a tree counted at every node |
| AtecoService.SerialiseCountedRolledUp | server/routes/ateco.js:103-110 | each returned root tree is counted and rolled up at every node |
| AtecoService.TreeQueryRows | server/routes/ateco.js:93-98 | the rows selected for the tree are ordered by code |
| AtecoService.TreeQueryRowsSelect | server/routes/ateco.js:93-96 | a row is selected iff it is in the table and its code starts with the root code (all rows when none is given) |
| AtecoService.TreeQueryRowsUnique | server/routes/ateco.js:93-98 | selecting and ordering keeps codes unique |
| AtecoService.GetAtecoTree | server/routes/ateco.js:93-110 | the endpoint returns one tree per root of the forest built from the selected rows, in root order; each tree has exactly the shape of its root's subtree, node for node and child for child, and is counted and rolled up at every node |
| AtecoService.MaterializeMirrors | server/services/atecoService.js:162-177 | the nested value built from the arena has, at every level, the node, the number of children and the children of the arena subtree |
| AtecoService.FilteredRowAbsent | server/services/atecoService.js:169-173 | every node of a returned tree lies in its root's subtree and outside the subtree of any parentless row the root filter rejects, so such a row and its descendants are absent |
| ImpreseRoutes.ExtensionCount | server/routes/imprese.js:42-46 | the `COUNT(*)` of longer codes starting with c is 0 iff no code extends c |
| ImpreseRoutes.GetAtecoCodesForFilter | server/routes/imprese.js:7-107 | the resolved list; empty for an empty code, a store error or a code not in `ateco_codes`; never holds a duplicate |
| ImpreseRoutes.KeepLeaves | server/routes/imprese.js:38-52 | the loop keeps, in order, exactly the candidates that no taxonomy code extends |
| ImpreseRoutes.KeepFactLeaves | server/routes/imprese.js:67-80 | the loop keeps, in order, exactly the fact-table subcategories that no fact row under the code places below them |
| ImpreseRoutes.TaxonomyLeavesAre | server/routes/imprese.js:30-52 | the taxonomy leaves are sorted, and c is one iff c is a code starting with the selected code that no other code extends |
| ImpreseRoutes.ExtensionWithinCandidates | server/routes/imprese.js:30-46 | for a candidate, being extended by some code is the same as being extended by some candidate |
| ImpreseRoutes.FallbackIffNoExtension | server/routes/imprese.js:54-56 | for an existing code with unique codes, the fallback runs iff no other code starts with the selected one |
| ImpreseRoutes.TaxonomyLeavesNoDup | server/routes/imprese.js:30-52 | with unique codes the taxonomy leaves hold no duplicate |
| ImpreseRoutes.FallbackCandidateMember | server/routes/imprese.js:59-64 | s is a fallback candidate iff some fact row under the selected code has subcategory s |
| ImpreseRoutes.FallbackLeavesAre | server/routes/imprese.js:59-80 | the fallback leaves are sorted, and s is one iff some fact row under the code has subcategory s and no fact row under the code places another subcategory below s |
| ImpreseRoutes.WithFlatFormsShape | server/routes/imprese.js:88-98 | the result has no duplicate; it begins with the leaves themselves; it holds exactly the leaves and their dot-free forms |
| ImpreseRoutes.FilterSorted | server/routes/imprese.js:38-52 | filtering a sorted list keeps it sorted |
| ImpreseRoutes.AdmitsAppend | server/routes/imprese.js:139-187 | appending a clause and its parameters keeps the `?` count equal to the parameter count; a row passes the new `WHERE` iff it passed the old one and the clause |
| ImpreseRoutes.AddEqualsIfGiven | server/routes/imprese.js:139-147 | a given value adds `column = ?` with that value; an empty one adds nothing; either way the row filter gains exactly that equality test |
| ImpreseRoutes.AddCodes | server/routes/imprese.js:152-161 | a non-empty code list adds `sottocategoria IN (?,…)` with one placeholder per code; an empty one adds `1=0`; the filter gains "the subcategory is one of the codes" |
| ImpreseRoutes.AddSettore | server/routes/imprese.js:149-162 | the sector filter resolves the codes and then admits a row iff its subcategory is among them; with no sector nothing changes |
| ImpreseRoutes.AddMinimum | server/routes/imprese.js:179-182 | only a positive minimum adds `imprese_attive >= ?` |
| ImpreseRoutes.AddMaximum | server/routes/imprese.js:184-187 | a given maximum adds `imprese_attive <= ?` |
| ImpreseRoutes.ListWhere | server/routes/imprese.js:139-187 | the placeholders match the parameters, and the built `WHERE` admits a row iff it meets every given filter, with the sector resolved to its codes |
| ImpreseRoutes.PlaceClauses | server/routes/imprese.js:139-162 | region, province and sector clauses admit a row iff it meets those three filters |
| ImpreseRoutes.ColumnClauses | server/routes/imprese.js:164-187 | the division, class, subcategory and count clauses admit a row iff it meets those filters too |
| ImpreseRoutes.SanitizeOrderBy | server/routes/imprese.js:190-191 | the sort column is always a whitelisted name; it is the request's column iff that is whitelisted |
| ImpreseRoutes.SanitizeOrderDir | server/routes/imprese.js:192 | the direction is ASC or DESC; ASC iff the upper-cased request is `ASC` |
| ImpreseRoutes.SanitizeOrderDirCaseInsensitive | server/routes/imprese.js:192 | every letter case of `asc` sorts ascending |
| AtecoStructureImport.ParseRow | server/scripts/import-ateco-structure.js:92-107 | code and name are the trimmed cells, or empty when the cell is missing; the description is the trimmed cell, or the name when that is empty or missing; the parent is absent exactly when its trimmed cell is empty or missing, and otherwise is that text; the level is the `parseInt` of its cell, or 0 when that is NaN or the cell is missing |
| AtecoStructureImport.ParseRowOfRowOf | server/scripts/import-ateco-structure.js:92-107 | reading back the sheet row written for a normal record gives the record |
| AtecoStructureImport.ParseRowRoundTrip | server/scripts/import-ateco-structure.js:92-107 | for a row that reads as a valid record, writing that record and reading it again gives the same record |
| AtecoStructureImport.DetermineLevel | server/scripts/import-ateco-structure.js:109-123 | an empty code is level 0; a code with up to five dots is one level deeper than its dot count; more dots give 0 |
| AtecoStructureImport.GetParentCodeShape | server/scripts/import-ateco-structure.js:125-136 | a code has a parent iff it has a dot; the parent plus a dot plus a dot-free last part is the code, with one dot fewer |
| AtecoStructureImport.ParentLevel | server/scripts/import-ateco-structure.js:109-136 | the parent of a code with one to five dots is one level up |
| AtecoStructureImport.ImportBalance | server/scripts/import-ateco-structure.js:66-89 | every row adds one to exactly one of imported, skipped and errors; counters never drop; the table is extended only by imported rows |
| AtecoStructureImport.ImportOnlyValid | server/scripts/import-ateco-structure.js:73-79 | every inserted record is a valid record from the input |
| AtecoStructureImport.ImportKeepsUnique | server/scripts/import-ateco-structure.js:78 | the `UNIQUE` code constraint survives the import |
| AtecoStructureImport.ImportComplete | server/scripts/import-ateco-structure.js:66-89 | every valid record's code ends up in the table |
| AtecoStructureImport.ImportSkipsInvalid | server/scripts/import-ateco-structure.js:73-76 | the skipped count grows by exactly the number of invalid records |
| AtecoStructureImport.CountersAddUp | server/scripts/import-ateco-structure.js:66-89 | from zero counters, imported + skipped + errors equals the number of rows after the header |
| AtecoStructureImport.AtecoStructureImporter.constructor | server/scripts/import-ateco-structure.js:7-15 | all four counters start at 0 |
| AtecoStructureImport.AtecoStructureImporter.ClearExistingData | server/scripts/import-ateco-structure.js:47-51 | the table is emptied and the counters are untouched |
| AtecoStructureImport.AtecoStructureImporter.InsertAtecoRecord | server/scripts/import-ateco-structure.js:144-149 | the insert succeeds iff the code is new, and then appends the record |
| AtecoStructureImport.AtecoStructureImporter.ProcessRow | server/scripts/import-ateco-structure.js:67-88 | one row moves the table and counters one import step and adds one to totalRows |
| AtecoStructureImport.AtecoStructureImporter.ProcessExcelFile | server/scripts/import-ateco-structure.js:53-90 | the table and counters end as the reference import of the data rows, and totalRows counts every row after the header |
| IstatDataImport.CleanRow | server/scripts/import-istat-data.js:108-118 | each of the six text columns is the trimmed field, or empty when the field is missing; `imprese_attive` is the `parseInt` of its field, or 0 when that is NaN or the field is missing |
| IstatDataImport.CleanRowOfCsvOf | server/scripts/import-istat-data.js:108-118 | cleaning the CSV line written for a trimmed record with a non-negative count gives the record back |
| IstatDataImport.CleanRowRoundTrip | server/scripts/import-istat-data.js:108-128 | a valid cleaned record survives being written and cleaned again |
| IstatDataImport.QueueIsFilter | server/scripts/import-istat-data.js:66-84 | the queued batch is the cleaned rows that pass `isValidRow`, and the skipped count is the number that fail it |
| IstatDataImport.QueueValid | server/scripts/import-istat-data.js:120-128 | every queued record has all six text columns and a positive count |
| IstatDataImport.QueuedPlusSkipped | server/scripts/import-istat-data.js:66-84 | each row is either queued or skipped |
| IstatDataImport.ChunksShape | server/scripts/import-istat-data.js:88-89 | the batch slices are non-empty, at most 100 long, ⌈n/100⌉ in number, and concatenate to the batch |
| IstatDataImport.ChunksPrefix | server/scripts/import-istat-data.js:88-91 | the first f slices are the first 100·f rows, or all of them |
| IstatDataImport.Committed | server/scripts/import-istat-data.js:85-103 | the committed chunk count is the index of the first failing chunk, or all chunks |
| IstatDataImport.CommittedUnique | server/scripts/import-istat-data.js:85-103 | any count with those properties is the committed count |
| IstatDataImport.FailureStops | server/scripts/import-istat-data.js:155-158 | a failing chunk stops the import; only the rows of the chunks before the first failure are inserted, and some rows are left out |
| IstatDataImport.InsertedRowsOfValues | server/scripts/import-istat-data.js:133-147 | the flat value list has seven values per record, and reading it seven at a time gives the batch back |
| IstatDataImport.PlaceholdersCount | server/scripts/import-istat-data.js:132 | n groups hold 7·n placeholders |
| IstatDataImport.StatementBalanced | server/scripts/import-istat-data.js:9 | the statement's placeholders match its values, and a batch of at most 100 needs at most 700 parameters |
| IstatDataImport.IstatDataImporter.constructor | server/scripts/import-istat-data.js:7-16 | all four counters start at 0 |
| IstatDataImport.IstatDataImporter.ClearExistingData | server/scripts/import-istat-data.js:48-52 | the table is emptied and the counters are untouched |
| IstatDataImport.IstatDataImporter.HandleRow | server/scripts/import-istat-data.js:66-84 | one row adds one to totalRows; it is queued cleaned when valid and otherwise adds one to skippedRows; nothing else changes |
| IstatDataImport.IstatDataImporter.QueueRows | server/scripts/import-istat-data.js:66-84 | after all rows the batch is the reference queue, and the counters count every row and every skipped row |
| IstatDataImport.IstatDataImporter.ProcessBatch | server/scripts/import-istat-data.js:130-159 | a successful insert appends the batch and adds its size to importedRows; a failed one changes nothing and is reported |
| IstatDataImport.IstatDataImporter.InsertChunks | server/scripts/import-istat-data.js:85-103 | the import succeeds iff no chunk fails; the table gains exactly the chunks before the first failure |
| IstatDataImport.IstatDataImporter.ImportInChunks | server/scripts/import-istat-data.js:54-106 | on success the table gains exactly the valid cleaned rows in order and importedRows grows by their number; on failure only the earlier chunks are in; totalRows and skippedRows count every row and every invalid one |
| Text.TrimIsMiddleSlice | server/scripts/import-istat-data.js:110-115 | a trimmed value is the middle of the input with only white space cut from both ends |
| Text.TrimIdempotent | server/scripts/import-ateco-structure.js:94-98 | a trimmed value has nothing left to trim, and trimming twice is trimming once |
| Text.ParseIntOfNatToString | server/scripts/import-istat-data.js:116 | `parseInt` reads back a written count |
| Text.ParseIntOfHex | server/scripts/import-istat-data.js:116 | after `0x`, `parseInt` reads the longest run of hexadecimal digits; `0x` with no digit after it is NaN |

## Left out

- All I/O is left out:
  - reading the XLSX and CSV files; each sheet row or CSV record is an input value;
  - logging and the progress lines (`i % 500`, `chunkNumber % 10`, `currentChunk % 100`);
  - `toLocaleString`, `showFinalStats`, `getDatabaseStats`;
  - the `importData`/`importStructure` drivers that open and close the database.
- Asynchrony is left out. The awaited queries run in sequence, as they do in the source. The CSV stream's `data` events are one ordered loop (`QueueRows`), followed by the `end` handler (`InsertChunks`).
- `IstatDataImporter.ImportInChunks`: the `batch` array lives in a closure in the source. Here it is a method local, so nothing outside the method can see it.
- `IstatDataImporter.HandleRow`: the `errors` counter stays unchanged. `cleanRow` and `isValidRow` cannot throw on the parser's string fields, so the handler's `catch` is not modelled.
- `IstatDataImporter.ProcessBatch` and `InsertChunks`: a failing `INSERT` is given as a set of failing chunk numbers. The reasons a store rejects a statement are not modelled.
- `AtecoStructureImporter.InsertAtecoRecord`: only the `code UNIQUE` violation makes an insert fail. No other store error is modelled.
- `AtecoStructureImport.DetermineLevel` and `GetParentCode` are modelled, but `processExcelFile` never calls them. The level and parent come from the sheet's own columns, as in the source.
- `ParseRow`: a cell is taken as the text `toString()` gives. The same holds for `cleanRow`'s `imprese_attive`. Numeric cells, hence `parseInt` on a number, and spreadsheet typing are not modelled.
- `Text.ParseInt`: the white space skipped before the number is the same ASCII set as `Text.Trim`'s, not JavaScript's Unicode white space. The value is an exact integer, not a double, so precision loss past 2^53 is not modelled.
- `Text.Trim` and `Text.ToUpperAscii`: white space is ASCII space, tab, newline, carriage return, vertical tab and form feed. Upper-casing is ASCII only. The Unicode white space and case mapping of JavaScript are not modelled.
- SQL `LIKE` is a case-sensitive prefix test. SQLite's case-insensitive ASCII matching, and the `_` and `%` wildcards inside a code, are not modelled. ATECO codes and ISTAT fields are upper case digits, dots and letters.
- SQL `ORDER BY` on text is the lexicographic order on characters. SQLite compares by byte, which agrees on ASCII.
- Query-string parsing of the list route is not modelled:
  - `minImprese` is taken as an integer, so the JavaScript comparison `minImprese > 0` on a string is not modelled;
  - `maxImprese` is `None` exactly when it is falsy; `parseInt` of a non-numeric value (`NaN`) is not modelled.
- The list route's `SELECT`, `LEFT JOIN`, `ORDER BY … LIMIT ? OFFSET ?` text and the count query are left out. Only the `WHERE` conditions, their parameters and the whitelisted sort column and direction are modelled.
- The other routes of `server/routes/imprese.js` are not part of this model: statistics, regions, provinces and map data.
- `AtecoService.CalculateCompanyCounts`: when a node's query throws, its children are never visited. In the source they keep `directCompanies` `undefined`, which the rollup then turns into `NaN`. Here the arrays start at 0, so such children read 0.
- `AtecoService.RollupNode`: sums are unbounded integers, whereas JavaScript uses floating-point numbers. A `SUM` of `NULL` (no matching row) becomes 0 as `|| 0` makes it.
- `AtecoService` in-place JSON update: the source mutates the nested node objects that `buildATECOTree` returns. Here the nodes live in an arena, the counts in arrays, and `Materialize` builds the nested value the endpoint returns. Object aliasing between parent and child lists is not modelled.
- `GetAtecoTree`: the `res.json` response envelope and the route's error handler are left out.
- `getATECOCodesForFilter`'s `try`/`catch` is one flag, `storeFails`. With it set, the result is `[]` whichever query throws.

## Behaviour of the code worth knowing

The model follows the code.
- `buildATECOTree` keys its map by the raw code and looks parents up by the raw `parent_code`. Lookups therefore work even when the dotted form differs.
- A failed count query sets the node's `directCompanies` to 0 and stops the walk below it. The error is not reported.
- `totalCompanies` is the sum of the immediate children's direct counts. It is not the total of the whole subtree. Only `leafNodes` accumulates through all levels, as `LeafNodesCountPositiveLeaves` states.
