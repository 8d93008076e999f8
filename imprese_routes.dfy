/**
 * The business-list routes: the leaf resolver `getATECOCodesForFilter`, the
 * `IN (...)` / `1=0` filter it feeds, the WHERE clause of the list query, and
 * the sort whitelist.
 */
module ImpreseRoutes {
  import opened Wrappers
  import opened Text
  import opened Seqs
  import opened Sorting
  import opened Tables

  // ---------------------------------------------------------------------------
  // Taxonomy leaves
  // ---------------------------------------------------------------------------

  /** `SELECT COUNT(*) FROM ateco_codes WHERE code LIKE '<c>%' AND code != c`. */
  function ExtensionCount(codes: seq<string>, c: string): (n: nat)
    ensures n == 0 <==> forall k :: 0 <= k < |codes| ==> !(StartsWith(codes[k], c) && codes[k] != c)
  {
    if codes == [] then 0
    else
      var last := codes[|codes| - 1];
      ExtensionCount(codes[..|codes| - 1], c) + (if StartsWith(last, c) && last != c then 1 else 0)
  }

  /** `code LIKE '<x>%'`. */
  function UnderTest(x: string): string -> bool {
    c => StartsWith(c, x)
  }

  /** No other code of `all` extends the code. */
  function LeafTest(all: seq<string>): string -> bool {
    c => ExtensionCount(all, c) == 0
  }

  /** `SELECT code FROM ateco_codes WHERE code LIKE '<x>%' ORDER BY code`. */
  function Candidates(table: seq<AtecoRow>, x: string): seq<string> {
    SortStrings(Filter(Codes(table), UnderTest(x)))
  }

  /** The candidates that no code of the whole table properly extends, in code order. */
  function TaxonomyLeaves(table: seq<AtecoRow>, x: string): seq<string> {
    Filter(Candidates(table, x), LeafTest(Codes(table)))
  }

  // ---------------------------------------------------------------------------
  // Fact-table fallback
  // ---------------------------------------------------------------------------

  /** `settore = x OR divisione LIKE 'x%' OR classe LIKE 'x%' OR sottocategoria LIKE 'x%'`. */
  predicate FactUnder(x: string, r: Impresa) {
    r.settore == x || StartsWith(r.divisione, x) || StartsWith(r.classe, x) || StartsWith(r.sottocategoria, x)
  }

  function FactUnderTest(x: string): Impresa -> bool {
    r => FactUnder(x, r)
  }

  function Sottocategorie(facts: seq<Impresa>): (r: seq<string>)
    ensures |r| == |facts| && forall k :: 0 <= k < |facts| ==> r[k] == facts[k].sottocategoria
  {
    seq(|facts|, k requires 0 <= k < |facts| => facts[k].sottocategoria)
  }

  /** `SELECT DISTINCT sottocategoria FROM imprese WHERE <FactUnder x> ORDER BY sottocategoria`. */
  function FallbackCandidates(facts: seq<Impresa>, x: string): seq<string> {
    SortStrings(Dedup(Sottocategorie(Filter(facts, FactUnderTest(x)))))
  }

  /** A fact row under x, with another `sottocategoria`, that one of its columns places below s. */
  predicate ExtendsInFacts(x: string, s: string, r: Impresa) {
    && FactUnder(x, r)
    && r.sottocategoria != s
    && (StartsWith(r.sottocategoria, s) || StartsWith(r.divisione, s) || StartsWith(r.classe, s))
  }

  /** The `COUNT(*)` of `hasChildrenInImprese`. */
  function FactExtensionCount(facts: seq<Impresa>, x: string, s: string): (n: nat)
    ensures n == 0 <==> forall k :: 0 <= k < |facts| ==> !ExtendsInFacts(x, s, facts[k])
  {
    if facts == [] then 0
    else FactExtensionCount(facts[..|facts| - 1], x, s) + (if ExtendsInFacts(x, s, facts[|facts| - 1]) then 1 else 0)
  }

  /** No fact row under x places another `sottocategoria` below the candidate. */
  function FactLeafTest(facts: seq<Impresa>, x: string): string -> bool {
    s => FactExtensionCount(facts, x, s) == 0
  }

  /** The fallback candidates no fact row places below them. */
  function FallbackLeaves(facts: seq<Impresa>, x: string): seq<string> {
    Filter(FallbackCandidates(facts, x), FactLeafTest(facts, x))
  }

  // ---------------------------------------------------------------------------
  // The resolver
  // ---------------------------------------------------------------------------

  /** The leaf list: the taxonomy leaves, replaced by the fallback when they are just `[x]`. */
  function Leaves(table: seq<AtecoRow>, facts: seq<Impresa>, x: string): seq<string> {
    var t := TaxonomyLeaves(table, x);
    if t == [x] then FallbackLeaves(facts, x) else t
  }

  /** The codes with their dots removed, in the same order. */
  function StripAll(codes: seq<string>): (r: seq<string>)
    ensures |r| == |codes| && forall k :: 0 <= k < |codes| ==> r[k] == StripDots(codes[k])
  {
    seq(|codes|, k requires 0 <= k < |codes| => StripDots(codes[k]))
  }

  /** `[...new Set([...leaves, ...leaves.map(stripDots)])]`. */
  function WithFlatForms(leaves: seq<string>): seq<string> {
    Dedup(leaves + StripAll(leaves))
  }

  /**
   * What `getATECOCodesForFilter(x)` resolves to. A falsy code, a code with
   * no exact row, and any failing query (the `catch`) all give `[]`.
   */
  function ResolvedCodes(table: seq<AtecoRow>, facts: seq<Impresa>, x: string, storeFails: bool): seq<string> {
    if x == "" || storeFails || x !in Codes(table) then []
    else WithFlatForms(Leaves(table, facts, x))
  }

  /**
   * `getATECOCodesForFilter`: collect the candidates, keep the leaves one by
   * one, possibly clear and refill them from the fact table, then add the flat
   * forms without duplicates.
   */
  method GetAtecoCodesForFilter(table: seq<AtecoRow>, facts: seq<Impresa>, atecoCode: string, storeFails: bool)
    returns (codes: seq<string>)
    ensures codes == ResolvedCodes(table, facts, atecoCode, storeFails)
    ensures atecoCode == "" || storeFails || atecoCode !in Codes(table) ==> codes == []
    ensures NoDup(codes)
  {
    if atecoCode == "" {
      return [];
    }
    if storeFails || atecoCode !in Codes(table) {
      return [];
    }
    var leafNodes := KeepLeaves(Candidates(table, atecoCode), Codes(table));
    if |leafNodes| == 1 && leafNodes[0] == atecoCode {
      assert leafNodes == [atecoCode];
      var filteredLeafNodes := KeepFactLeaves(FallbackCandidates(facts, atecoCode), facts, atecoCode);
      leafNodes := filteredLeafNodes;
    } else {
      assert leafNodes != [atecoCode];
    }
    assert leafNodes == Leaves(table, facts, atecoCode);
    var convertedCodes := StripAll(leafNodes);
    codes := Dedup(leafNodes + convertedCodes);
  }

  /** The `for` loop over `allChildren`: a candidate is pushed when its extension count is 0. */
  method KeepLeaves(allChildren: seq<string>, all: seq<string>) returns (leafNodes: seq<string>)
    ensures leafNodes == Filter(allChildren, LeafTest(all))
  {
    leafNodes := [];
    var i := 0;
    while i < |allChildren|
      invariant 0 <= i <= |allChildren|
      invariant leafNodes == Filter(allChildren[..i], LeafTest(all))
    {
      assert allChildren[..i + 1][..i] == allChildren[..i];
      if ExtensionCount(all, allChildren[i]) == 0 {
        leafNodes := leafNodes + [allChildren[i]];
      }
      i := i + 1;
    }
    assert allChildren[..i] == allChildren;
  }

  /** The `for` loop over `actualLeafNodes`: a candidate is pushed when no fact row extends it. */
  method KeepFactLeaves(actualLeafNodes: seq<string>, facts: seq<Impresa>, x: string) returns (filteredLeafNodes: seq<string>)
    ensures filteredLeafNodes == Filter(actualLeafNodes, FactLeafTest(facts, x))
  {
    filteredLeafNodes := [];
    var j := 0;
    while j < |actualLeafNodes|
      invariant 0 <= j <= |actualLeafNodes|
      invariant filteredLeafNodes == Filter(actualLeafNodes[..j], FactLeafTest(facts, x))
    {
      assert actualLeafNodes[..j + 1][..j] == actualLeafNodes[..j];
      if FactExtensionCount(facts, x, actualLeafNodes[j]) == 0 {
        filteredLeafNodes := filteredLeafNodes + [actualLeafNodes[j]];
      }
      j := j + 1;
    }
    assert actualLeafNodes[..j] == actualLeafNodes;
  }

  // ---------------------------------------------------------------------------
  // Properties of the resolver
  // ---------------------------------------------------------------------------

  /**
   * The extension check looks over the whole table, yet for a candidate of x it
   * could look at the candidates only: whatever extends a code that starts with
   * x starts with x too.
   */
  lemma ExtensionWithinCandidates(table: seq<AtecoRow>, x: string, c: string)
    requires StartsWith(c, x)
    ensures ExtensionCount(Codes(table), c) == 0 <==> ExtensionCount(Candidates(table, x), c) == 0
  {
    var all := Codes(table);
    var cand := Candidates(table, x);
    ExtensionCountZero(all, c);
    ExtensionCountZero(cand, c);
    forall y | StartsWith(y, c) && y != c ensures y in all <==> y in cand {
      StartsWithTransitive(y, c, x);
      FilterMember(all, UnderTest(x), y);
    }
  }

  /** The extension count is 0 iff no member of the list properly extends the code. */
  lemma ExtensionCountZero(cs: seq<string>, c: string)
    ensures ExtensionCount(cs, c) == 0 <==> forall y :: y in cs ==> !(StartsWith(y, c) && y != c)
  {
    if ExtensionCount(cs, c) != 0 {
      var k :| 0 <= k < |cs| && StartsWith(cs[k], c) && cs[k] != c;
      assert cs[k] in cs;
    }
  }

  /**
   * The taxonomy leaves are the table codes that start with x (x itself
   * included) and that no other table code starts with; they come in code order.
   */
  lemma TaxonomyLeavesAre(table: seq<AtecoRow>, x: string, c: string)
    ensures SortedBy(TaxonomyLeaves(table, x), Id)
    ensures c in TaxonomyLeaves(table, x) <==>
      && c in Codes(table) && StartsWith(c, x)
      && forall k :: 0 <= k < |table| ==> !(StartsWith(table[k].code, c) && table[k].code != c)
  {
    var all := Codes(table);
    var under := Filter(all, UnderTest(x));
    var cand := Candidates(table, x);
    FilterMember(cand, LeafTest(all), c);
    FilterMember(all, UnderTest(x), c);
    assert c in cand <==> c in under;
    TaxonomyLeavesSorted(table, x);
  }

  lemma TaxonomyLeavesSorted(table: seq<AtecoRow>, x: string)
    ensures SortedBy(TaxonomyLeaves(table, x), Id)
  {
    FilterSorted(Candidates(table, x), LeafTest(Codes(table)));
  }

  /** Filtering a sorted list keeps it sorted. */
  lemma {:induction false} FilterSorted(s: seq<string>, p: string -> bool)
    requires SortedBy(s, Id)
    ensures SortedBy(Filter(s, p), Id)
  {
    if s != [] {
      var init := s[..|s| - 1];
      var x := s[|s| - 1];
      assert SortedBy(init, Id);
      FilterSorted(init, p);
      var fi := Filter(init, p);
      assert s == init + [x];
      FilterSnoc(init, p, x);
      if !p(x) {
        assert Filter(s, p) == fi + [];
        assert fi + [] == fi;
      } else if fi == [] {
        assert Filter(s, p) == [] + [x];
        assert [] + [x] == [x];
      } else {
        FilteredBeforeLast(s, p);
        SortedSnoc(fi, x);
      }
    }
  }

  /** In a sorted list, what the filter keeps before the last element is no greater than it. */
  lemma FilteredBeforeLast(s: seq<string>, p: string -> bool)
    requires SortedBy(s, Id) && s != [] && Filter(s[..|s| - 1], p) != []
    ensures var fi := Filter(s[..|s| - 1], p); LexLeq(fi[|fi| - 1], s[|s| - 1])
  {
    var init := s[..|s| - 1];
    var fi := Filter(init, p);
    var y := fi[|fi| - 1];
    assert y in init;
    var j :| 0 <= j < |init| && init[j] == y;
    SortedUpTo(s, j, |s| - 1);
  }

  /** A sorted list stays sorted when an element no smaller than its last is appended. */
  lemma SortedSnoc(t: seq<string>, x: string)
    requires SortedBy(t, Id) && t != [] && LexLeq(t[|t| - 1], x)
    ensures SortedBy(t + [x], Id)
  {
    var u := t + [x];
    forall i | 0 < i < |u| ensures LexLeq(u[i - 1], u[i]) {
      if i < |t| {
        assert u[i - 1] == t[i - 1] && u[i] == t[i];
      }
    }
  }

  /** In a sorted list an earlier element is lexicographically at most a later one. */
  lemma {:induction false} SortedUpTo(s: seq<string>, i: nat, j: nat)
    requires SortedBy(s, Id) && i <= j < |s|
    ensures LexLeq(s[i], s[j])
    decreases j - i
  {
    if i == j {
      LexLeqTotal(s[i], s[j]);
    } else {
      SortedUpTo(s, i + 1, j);
      LexLeqTransitive(s[i], s[i + 1], s[j]);
    }
  }

  /**
   * With unique codes and x in the table, the fallback runs iff no other
   * table code starts with x; a single leaf other than x never triggers it.
   */
  lemma FallbackIffNoExtension(table: seq<AtecoRow>, x: string)
    requires UniqueCodes(table) && x in Codes(table)
    ensures TaxonomyLeaves(table, x) == [x] <==>
      forall k :: 0 <= k < |table| ==> !(StartsWith(table[k].code, x) && table[k].code != x)
  {
    var all := Codes(table);
    var leaves := TaxonomyLeaves(table, x);
    TaxonomyLeavesAre(table, x, x);
    if forall k :: 0 <= k < |table| ==> !(StartsWith(table[k].code, x) && table[k].code != x) {
      StartsWithTransitive(x, x, x);
      assert x in leaves;
      forall k | 0 <= k < |leaves| ensures leaves[k] == x {
        TaxonomyLeavesAre(table, x, leaves[k]);
        assert leaves[k] in leaves;
        var j :| 0 <= j < |table| && all[j] == leaves[k];
      }
      TaxonomyLeavesNoDup(table, x);
      SingleValued(leaves, x);
    }
  }

  /** A duplicate-free list whose every element is x, and that holds x, is `[x]`. */
  lemma SingleValued(s: seq<string>, x: string)
    requires NoDup(s) && x in s && forall k :: 0 <= k < |s| ==> s[k] == x
    ensures s == [x]
  {
    if |s| >= 2 {
      NoDupFirstTwo(s);
      assert false;
    }
  }

  lemma NoDupFirstTwo(s: seq<string>)
    requires NoDup(s) && |s| >= 2
    ensures s[0] != s[1]
  {
  }

  /** With unique codes, the leaves have no duplicates. */
  lemma TaxonomyLeavesNoDup(table: seq<AtecoRow>, x: string)
    requires UniqueCodes(table)
    ensures NoDup(TaxonomyLeaves(table, x))
  {
    var all := Codes(table);
    assert NoDup(all);
    FilterNoDup(all, UnderTest(x));
    SortStringsNoDup(Filter(all, UnderTest(x)));
    FilterNoDup(Candidates(table, x), LeafTest(all));
  }

  /**
   * The fallback keeps a `sottocategoria` s iff some fact row under x carries
   * it and no fact row under x with another `sottocategoria` is placed below s
   * by its `sottocategoria`, `divisione` or `classe`; the kept list is sorted
   * and may be empty.
   */
  lemma FallbackLeavesAre(facts: seq<Impresa>, x: string, s: string)
    ensures SortedBy(FallbackLeaves(facts, x), Id)
    ensures s in FallbackLeaves(facts, x) <==>
      && (exists k :: 0 <= k < |facts| && FactUnder(x, facts[k]) && facts[k].sottocategoria == s)
      && forall k :: 0 <= k < |facts| ==> !ExtendsInFacts(x, s, facts[k])
  {
    var cand := FallbackCandidates(facts, x);
    FilterMember(cand, FactLeafTest(facts, x), s);
    FallbackCandidateMember(facts, x, s);
    FilterSorted(cand, FactLeafTest(facts, x));
  }

  /** A fallback candidate is the `sottocategoria` of some fact row under x. */
  lemma FallbackCandidateMember(facts: seq<Impresa>, x: string, s: string)
    ensures s in FallbackCandidates(facts, x) <==> exists k :: 0 <= k < |facts| && FactUnder(x, facts[k]) && facts[k].sottocategoria == s
  {
    var subs := Sottocategorie(Filter(facts, FactUnderTest(x)));
    assert s in FallbackCandidates(facts, x) <==> s in Dedup(subs);
    assert s in Dedup(subs) <==> s in subs;
    SottocategoriaOfFiltered(facts, FactUnderTest(x), s);
  }

  /** The `sottocategoria` values of the rows that pass p are those of the rows of facts that pass p. */
  lemma SottocategoriaOfFiltered(facts: seq<Impresa>, p: Impresa -> bool, s: string)
    ensures s in Sottocategorie(Filter(facts, p)) <==> exists k :: 0 <= k < |facts| && p(facts[k]) && facts[k].sottocategoria == s
  {
    var under := Filter(facts, p);
    if s in Sottocategorie(under) {
      var j :| 0 <= j < |under| && Sottocategorie(under)[j] == s;
      var k :| 0 <= k < |facts| && facts[k] == under[j];
      assert p(facts[k]) && facts[k].sottocategoria == s;
    }
    if exists k :: 0 <= k < |facts| && p(facts[k]) && facts[k].sottocategoria == s {
      var k :| 0 <= k < |facts| && p(facts[k]) && facts[k].sottocategoria == s;
      var j :| 0 <= j < |under| && under[j] == facts[k];
      assert Sottocategorie(under)[j] == s;
    }
  }

  /**
   * The output holds no duplicates, starts with the leaves in their order
   * when they have none, and holds exactly the leaves and their flat forms.
   */
  lemma WithFlatFormsShape(leaves: seq<string>, c: string)
    ensures NoDup(WithFlatForms(leaves))
    ensures NoDup(leaves) ==> |leaves| <= |WithFlatForms(leaves)| && WithFlatForms(leaves)[..|leaves|] == leaves
    ensures c in WithFlatForms(leaves) <==> c in leaves || exists k :: 0 <= k < |leaves| && c == StripDots(leaves[k])
  {
    var all := leaves + StripAll(leaves);
    if NoDup(leaves) {
      DedupKeepsFirstPart(leaves, StripAll(leaves));
    }
    if c in WithFlatForms(leaves) {
      var i :| 0 <= i < |WithFlatForms(leaves)| && WithFlatForms(leaves)[i] == c;
      var j :| 0 <= j < |all| && all[j] == c;
      if j >= |leaves| {
        assert c == StripDots(leaves[j - |leaves|]);
      }
    }
    if c in leaves {
      var j :| 0 <= j < |leaves| && leaves[j] == c;
      assert all[j] == c;
    }
    if exists k :: 0 <= k < |leaves| && c == StripDots(leaves[k]) {
      var k :| 0 <= k < |leaves| && c == StripDots(leaves[k]);
      assert all[|leaves| + k] == c;
    }
  }

  // ---------------------------------------------------------------------------
  // The filter on `imprese`
  // ---------------------------------------------------------------------------

  /** The columns the list query filters on. */
  datatype Column = Regione | Provincia | Divisione | Classe | Sottocategoria

  function ColumnValue(r: Impresa, c: Column): string {
    match c
    case Regione => r.regione
    case Provincia => r.provincia
    case Divisione => r.divisione
    case Classe => r.classe
    case Sottocategoria => r.sottocategoria
  }

  /** One `AND ...` clause of the WHERE text. */
  datatype Clause =
    | Equals(column: Column)          // ` AND i.<column> = ?`
    | InList(column: Column, n: nat)  // ` AND i.<column> IN (?,...,?)` with n placeholders
    | Never                           // ` AND 1=0`
    | AtLeast                         // ` AND i.imprese_attive >= ?`
    | AtMost                          // ` AND i.imprese_attive <= ?`

  function Arity(c: Clause): nat {
    match c
    case Equals(_) => 1
    case InList(_, n) => n
    case Never => 0
    case AtLeast => 1
    case AtMost => 1
  }

  /** The placeholders of a clause list. */
  function PlaceholderCount(cs: seq<Clause>): nat {
    if cs == [] then 0 else PlaceholderCount(cs[..|cs| - 1]) + Arity(cs[|cs| - 1])
  }

  /** SQLite's reading of one clause against a row, given that clause's parameters. */
  predicate Holds(c: Clause, ps: seq<Param>, r: Impresa)
    requires |ps| == Arity(c)
  {
    match c
    case Equals(col) => ps[0] == Text(ColumnValue(r, col))
    case InList(col, _) => Text(ColumnValue(r, col)) in ps
    case Never => false
    case AtLeast => ps[0].Number? && r.impreseAttive >= ps[0].value
    case AtMost => ps[0].Number? && r.impreseAttive <= ps[0].value
  }

  /** `WHERE 1=1` followed by the clauses, each taking its parameters in turn. */
  predicate Admits(cs: seq<Clause>, ps: seq<Param>, r: Impresa) {
    if cs == [] then true
    else
      var n := Arity(cs[0]);
      n <= |ps| && Holds(cs[0], ps[..n], r) && Admits(cs[1..], ps[n..], r)
  }

  lemma {:induction false} PlaceholderCountCons(c: Clause, cs: seq<Clause>)
    ensures PlaceholderCount([c] + cs) == Arity(c) + PlaceholderCount(cs)
  {
    if cs != [] {
      assert ([c] + cs)[..|[c] + cs| - 1] == [c] + cs[..|cs| - 1];
      PlaceholderCountCons(c, cs[..|cs| - 1]);
    }
  }

  /** Appending a clause with its parameters adds that clause as a conjunct. */
  lemma {:induction false} AdmitsAppend(cs: seq<Clause>, ps: seq<Param>, c: Clause, qs: seq<Param>, r: Impresa)
    requires PlaceholderCount(cs) == |ps| && |qs| == Arity(c)
    ensures PlaceholderCount(cs + [c]) == |ps + qs|
    ensures Admits(cs + [c], ps + qs, r) == (Admits(cs, ps, r) && Holds(c, qs, r))
  {
    assert (cs + [c])[..|cs + [c]| - 1] == cs;
    if cs == [] {
      assert cs + [c] == [c] && ps == [] && ps + qs == qs;
      assert ([c] + [])[1..] == [];
      assert qs[Arity(c)..] == [];
      assert qs[..Arity(c)] == qs;
    } else {
      var n := Arity(cs[0]);
      PlaceholderCountCons(cs[0], cs[1..]);
      assert cs == [cs[0]] + cs[1..];
      assert (cs + [c])[0] == cs[0] && (cs + [c])[1..] == cs[1..] + [c];
      assert (ps + qs)[..n] == ps[..n];
      assert (ps + qs)[n..] == ps[n..] + qs;
      AdmitsAppend(cs[1..], ps[n..], c, qs, r);
    }
  }

  /** The query-string filters of the list route; the empty string is an absent filter. */
  datatype ListQuery = ListQuery(
    regione: string,
    provincia: string,
    settore: string,
    divisione: string,
    classe: string,
    sottocategoria: string,
    minImprese: int,
    maxImprese: Option<int>)

  /** The `settore` filter: the resolved codes as an `IN` set, or `1=0` when there are none. */
  predicate SettoreAdmits(codes: seq<string>, r: Impresa) {
    codes != [] && r.sottocategoria in codes
  }

  /** An optional equality filter: absent (empty) or equal. */
  predicate EqualsIfGiven(wanted: string, actual: string) {
    wanted == "" || actual == wanted
  }

  /** The rows the list query is meant to return, before ordering and paging. */
  predicate Wanted(q: ListQuery, codes: seq<string>, r: Impresa) {
    PlaceWanted(q, codes, r) && ColumnsWanted(q, r)
  }

  /** Region, province and the resolved `settore` codes. */
  predicate PlaceWanted(q: ListQuery, codes: seq<string>, r: Impresa) {
    && EqualsIfGiven(q.regione, r.regione)
    && EqualsIfGiven(q.provincia, r.provincia)
    && (q.settore == "" || SettoreAdmits(codes, r))
  }

  /** The remaining classification columns and the bounds on `imprese_attive`. */
  predicate ColumnsWanted(q: ListQuery, r: Impresa) {
    ClassWanted(q, r) && CountWanted(q, r)
  }

  /** `divisione`, `classe` and `sottocategoria`. */
  predicate ClassWanted(q: ListQuery, r: Impresa) {
    && EqualsIfGiven(q.divisione, r.divisione)
    && EqualsIfGiven(q.classe, r.classe)
    && EqualsIfGiven(q.sottocategoria, r.sottocategoria)
  }

  /** `min_imprese` (ignored unless positive) and `max_imprese`. */
  predicate CountWanted(q: ListQuery, r: Impresa) {
    && (q.minImprese <= 0 || r.impreseAttive >= q.minImprese)
    && (q.maxImprese.None? || r.impreseAttive <= q.maxImprese.value)
  }

  function Texts(ss: seq<string>): (r: seq<Param>)
    ensures |r| == |ss| && forall k :: 0 <= k < |ss| ==> r[k] == Text(ss[k])
  {
    seq(|ss|, k requires 0 <= k < |ss| => Text(ss[k]))
  }

  /** `sql += <clause>; params.push(...qs)`. */
  method AddClause(clauses: seq<Clause>, params: seq<Param>, c: Clause, qs: seq<Param>)
    returns (clauses': seq<Clause>, params': seq<Param>)
    requires PlaceholderCount(clauses) == |params| && |qs| == Arity(c)
    ensures clauses' == clauses + [c] && params' == params + qs
    ensures PlaceholderCount(clauses') == |params'|
    ensures forall r :: Admits(clauses', params', r) == (Admits(clauses, params, r) && Holds(c, qs, r))
  {
    forall r ensures Admits(clauses + [c], params + qs, r) == (Admits(clauses, params, r) && Holds(c, qs, r)) {
      AdmitsAppend(clauses, params, c, qs, r);
    }
    AdmitsAppend(clauses, params, c, qs, Impresa("", "", "", "", "", "", 0));
    clauses', params' := clauses + [c], params + qs;
  }

  /** `if (value) { sql += ' AND i.<column> = ?'; params.push(value); }`. */
  method AddEqualsIfGiven(clauses: seq<Clause>, params: seq<Param>, col: Column, wanted: string)
    returns (clauses': seq<Clause>, params': seq<Param>)
    requires PlaceholderCount(clauses) == |params|
    ensures wanted != "" ==> clauses' == clauses + [Equals(col)] && params' == params + [Text(wanted)]
    ensures wanted == "" ==> clauses' == clauses && params' == params
    ensures PlaceholderCount(clauses') == |params'|
    ensures forall r :: Admits(clauses', params', r) == (Admits(clauses, params, r) && EqualsIfGiven(wanted, ColumnValue(r, col)))
  {
    clauses', params' := clauses, params;
    if wanted != "" {
      clauses', params' := AddClause(clauses, params, Equals(col), [Text(wanted)]);
    }
  }

  /**
   * The `settore` step: the resolved codes as an `IN` list, or `1=0` when none
   * resolve; `codes` are the codes it resolved.
   */
  method AddSettore(clauses: seq<Clause>, params: seq<Param>, table: seq<AtecoRow>, facts: seq<Impresa>, settore: string, storeFails: bool)
    returns (clauses': seq<Clause>, params': seq<Param>, codes: seq<string>)
    requires PlaceholderCount(clauses) == |params|
    ensures codes == ResolvedCodes(table, facts, settore, storeFails)
    ensures settore == "" ==> clauses' == clauses && params' == params
    ensures PlaceholderCount(clauses') == |params'|
    ensures forall r :: Admits(clauses', params', r) == (Admits(clauses, params, r) && (settore == "" || SettoreAdmits(codes, r)))
  {
    clauses', params', codes := clauses, params, [];
    if settore != "" {
      codes := GetAtecoCodesForFilter(table, facts, settore, storeFails);
      clauses', params' := AddCodes(clauses, params, codes);
    }
  }

  /** `IN (?,...,?)` over the codes with one parameter each, or `1=0` when there are none. */
  method AddCodes(clauses: seq<Clause>, params: seq<Param>, codes: seq<string>)
    returns (clauses': seq<Clause>, params': seq<Param>)
    requires PlaceholderCount(clauses) == |params|
    ensures codes != [] ==> clauses' == clauses + [InList(Sottocategoria, |codes|)] && params' == params + Texts(codes)
    ensures codes == [] ==> clauses' == clauses + [Never] && params' == params
    ensures PlaceholderCount(clauses') == |params'|
    ensures forall r :: Admits(clauses', params', r) == (Admits(clauses, params, r) && SettoreAdmits(codes, r))
  {
    if |codes| > 0 {
      var qs := Texts(codes);
      assert forall r: Impresa :: Text(r.sottocategoria) in qs <==> r.sottocategoria in codes;
      clauses', params' := AddClause(clauses, params, InList(Sottocategoria, |codes|), qs);
    } else {
      clauses', params' := AddClause(clauses, params, Never, []);
      assert params + [] == params;
    }
  }

  /** `if (minImprese > 0) { sql += ' AND i.imprese_attive >= ?'; ... }`. */
  method AddMinimum(clauses: seq<Clause>, params: seq<Param>, minImprese: int)
    returns (clauses': seq<Clause>, params': seq<Param>)
    requires PlaceholderCount(clauses) == |params|
    ensures minImprese > 0 ==> clauses' == clauses + [AtLeast] && params' == params + [Number(minImprese)]
    ensures minImprese <= 0 ==> clauses' == clauses && params' == params
    ensures PlaceholderCount(clauses') == |params'|
    ensures forall r :: Admits(clauses', params', r) == (Admits(clauses, params, r) && (minImprese <= 0 || r.impreseAttive >= minImprese))
  {
    clauses', params' := clauses, params;
    if minImprese > 0 {
      clauses', params' := AddClause(clauses, params, AtLeast, [Number(minImprese)]);
    }
  }

  /** `if (maxImprese) { sql += ' AND i.imprese_attive <= ?'; ... }`. */
  method AddMaximum(clauses: seq<Clause>, params: seq<Param>, maxImprese: Option<int>)
    returns (clauses': seq<Clause>, params': seq<Param>)
    requires PlaceholderCount(clauses) == |params|
    ensures maxImprese.Some? ==> clauses' == clauses + [AtMost] && params' == params + [Number(maxImprese.value)]
    ensures maxImprese.None? ==> clauses' == clauses && params' == params
    ensures PlaceholderCount(clauses') == |params'|
    ensures forall r :: Admits(clauses', params', r) == (Admits(clauses, params, r) && (maxImprese.None? || r.impreseAttive <= maxImprese.value))
  {
    clauses', params' := clauses, params;
    if maxImprese.Some? {
      clauses', params' := AddClause(clauses, params, AtMost, [Number(maxImprese.value)]);
    }
  }

  /**
   * The WHERE part of the list query: each present filter appends its clause
   * and pushes its parameters, in the route's order. The placeholders balance
   * the parameters, and the query admits exactly the wanted rows.
   */
  method ListWhere(q: ListQuery, table: seq<AtecoRow>, facts: seq<Impresa>, storeFails: bool)
    returns (clauses: seq<Clause>, params: seq<Param>)
    ensures PlaceholderCount(clauses) == |params|
    ensures forall r :: Admits(clauses, params, r) == Wanted(q, ResolvedCodes(table, facts, q.settore, storeFails), r)
  {
    var c, p, codes := PlaceClauses(q, table, facts, storeFails);
    clauses, params := ColumnClauses(q, c, p);
  }

  /** The `regione`, `provincia` and `settore` steps, starting from `WHERE 1=1`. */
  method PlaceClauses(q: ListQuery, table: seq<AtecoRow>, facts: seq<Impresa>, storeFails: bool)
    returns (clauses: seq<Clause>, params: seq<Param>, codes: seq<string>)
    ensures codes == ResolvedCodes(table, facts, q.settore, storeFails)
    ensures PlaceholderCount(clauses) == |params|
    ensures forall r :: Admits(clauses, params, r) == PlaceWanted(q, codes, r)
  {
    var c1, p1 := AddEqualsIfGiven([], [], Regione, q.regione);
    var c2, p2 := AddEqualsIfGiven(c1, p1, Provincia, q.provincia);
    clauses, params, codes := AddSettore(c2, p2, table, facts, q.settore, storeFails);
    forall r ensures Admits(clauses, params, r) == PlaceWanted(q, codes, r) {
      var a1, a2, a3 := Admits(c1, p1, r), Admits(c2, p2, r), Admits(clauses, params, r);
      assert a1 == EqualsIfGiven(q.regione, r.regione);
      assert a2 == (a1 && EqualsIfGiven(q.provincia, r.provincia));
      assert a3 == (a2 && (q.settore == "" || SettoreAdmits(codes, r)));
    }
  }

  /** The `divisione`, `classe`, `sottocategoria` and bound steps, appended to what is there. */
  method ColumnClauses(q: ListQuery, clauses0: seq<Clause>, params0: seq<Param>)
    returns (clauses: seq<Clause>, params: seq<Param>)
    requires PlaceholderCount(clauses0) == |params0|
    ensures PlaceholderCount(clauses) == |params|
    ensures forall r :: Admits(clauses, params, r) == (Admits(clauses0, params0, r) && ColumnsWanted(q, r))
  {
    var c, p := ClassClauses(q, clauses0, params0);
    clauses, params := CountClauses(q, c, p);
  }

  method ClassClauses(q: ListQuery, clauses0: seq<Clause>, params0: seq<Param>)
    returns (clauses: seq<Clause>, params: seq<Param>)
    requires PlaceholderCount(clauses0) == |params0|
    ensures PlaceholderCount(clauses) == |params|
    ensures forall r :: Admits(clauses, params, r) == (Admits(clauses0, params0, r) && ClassWanted(q, r))
  {
    var c4, p4 := AddEqualsIfGiven(clauses0, params0, Divisione, q.divisione);
    var c5, p5 := AddEqualsIfGiven(c4, p4, Classe, q.classe);
    clauses, params := AddEqualsIfGiven(c5, p5, Sottocategoria, q.sottocategoria);
    forall r ensures Admits(clauses, params, r) == (Admits(clauses0, params0, r) && ClassWanted(q, r)) {
      var a3, a4, a5 := Admits(clauses0, params0, r), Admits(c4, p4, r), Admits(c5, p5, r);
      var a6 := Admits(clauses, params, r);
      assert a4 == (a3 && EqualsIfGiven(q.divisione, r.divisione));
      assert a5 == (a4 && EqualsIfGiven(q.classe, r.classe));
      assert a6 == (a5 && EqualsIfGiven(q.sottocategoria, r.sottocategoria));
    }
  }

  method CountClauses(q: ListQuery, clauses0: seq<Clause>, params0: seq<Param>)
    returns (clauses: seq<Clause>, params: seq<Param>)
    requires PlaceholderCount(clauses0) == |params0|
    ensures PlaceholderCount(clauses) == |params|
    ensures forall r :: Admits(clauses, params, r) == (Admits(clauses0, params0, r) && CountWanted(q, r))
  {
    var c7, p7 := AddMinimum(clauses0, params0, q.minImprese);
    clauses, params := AddMaximum(c7, p7, q.maxImprese);
    forall r ensures Admits(clauses, params, r) == (Admits(clauses0, params0, r) && CountWanted(q, r)) {
      var a6, a7, a8 := Admits(clauses0, params0, r), Admits(c7, p7, r), Admits(clauses, params, r);
      assert a7 == (a6 && (q.minImprese <= 0 || r.impreseAttive >= q.minImprese));
      assert a8 == (a7 && (q.maxImprese.None? || r.impreseAttive <= q.maxImprese.value));
    }
  }

  // ---------------------------------------------------------------------------
  // Sorting whitelist
  // ---------------------------------------------------------------------------

  const AllowedOrderBy: seq<string> :=
    ["imprese_attive", "regione", "provincia", "settore", "divisione", "classe", "sottocategoria"]

  /** The `ORDER BY` column: a whitelisted name, `imprese_attive` for anything else. */
  function SanitizeOrderBy(orderBy: string): (r: string)
    ensures r in AllowedOrderBy
    ensures r == orderBy <==> orderBy in AllowedOrderBy
  {
    if orderBy in AllowedOrderBy then orderBy else "imprese_attive"
  }

  /** The sort direction: `ASC` iff the upper-cased input is `ASC`, otherwise `DESC`. */
  function SanitizeOrderDir(orderDir: string): (r: string)
    ensures r == "ASC" || r == "DESC"
    ensures r == "ASC" <==> ToUpperAscii(orderDir) == "ASC"
  {
    if ToUpperAscii(orderDir) == "ASC" then "ASC" else "DESC"
  }

  /** Any letter case of `asc` sorts ascending. */
  lemma SanitizeOrderDirCaseInsensitive(a: char, s: char, c: char)
    requires a in "aA" && s in "sS" && c in "cC"
    ensures SanitizeOrderDir([a, s, c]) == "ASC"
  {
    var u := ToUpperAscii([a, s, c]);
    assert u[0] == 'A' && u[1] == 'S' && u[2] == 'C';
    assert u == "ASC";
  }
}
