/**
 * The classification tree engine of `ATECOService`: code normalisation
 * (`addDotsToCode`), forest construction (`buildATECOTree`), direct counts
 * (`calculateCompanyCounts`) and the rollup (`addCompanyCountsToTree`).
 */
module AtecoService {
  import opened Wrappers
  import opened Text
  import opened Seqs
  import opened Tables
  import opened Sorting

  // ---------------------------------------------------------------------------
  // addDotsToCode
  // ---------------------------------------------------------------------------

  /** The dotted form of a flat code, chosen by its length; anything else is returned unchanged. */
  function AddDotsToCode(code: string): (r: string)
    ensures code == "" || '.' in code || |code| == 1 || |code| >= 7 ==> r == code
    ensures 2 <= |code| <= 6 && '.' !in code ==> '.' in r
  {
    if code == "" then code
    else if '.' in code then code
    else if |code| == 2 then code[..1] + "." + code[1..]
    else if |code| == 3 then code[..2] + "." + code[2..]
    else if |code| == 4 then code[..2] + "." + code[2..3] + "." + code[3..]
    else if |code| == 5 then code[..2] + "." + code[2..3] + "." + code[3..4] + "." + code[4..]
    else if |code| == 6 then code[..2] + "." + code[2..3] + "." + code[3..5] + "." + code[5..]
    else code
  }

  /** For a flat code of length n, the numbers of leading characters after which a dot goes. */
  function DotCuts(n: nat): seq<nat> {
    if n == 2 then [1]
    else if n == 3 then [2]
    else if n == 4 then [2, 3]
    else if n == 5 then [2, 3, 4]
    else if n == 6 then [2, 3, 5]
    else []
  }

  /** The code with a dot after `c[..cuts[k]]` for every k (cuts ascending and inside the code). */
  function InsertDots(c: string, cuts: seq<nat>): string
    decreases |cuts|
  {
    if cuts == [] then c
    else
      var last := cuts[|cuts| - 1];
      if last <= |c| then InsertDots(c[..last], cuts[..|cuts| - 1]) + "." + c[last..] else c
  }

  /**
   * The dotted form is the flat code split at the cut points of its length and
   * joined with dots: removing the dots gives the flat code back, and the dots
   * stand exactly at the cut points.
   */
  lemma AddDotsToCodeLayout(c: string)
    requires '.' !in c
    ensures AddDotsToCode(c) == InsertDots(c, DotCuts(|c|))
    ensures StripDots(AddDotsToCode(c)) == c
    ensures CountChar(AddDotsToCode(c), '.') == |DotCuts(|c|)|
    ensures |AddDotsToCode(c)| == |c| + |DotCuts(|c|)|
  {
    AddDotsToCodeIsInsertDots(c);
    DottedLayout(c, AddDotsToCode(c));
  }

  lemma DottedLayout(c: string, d: string)
    requires '.' !in c && d == InsertDots(c, DotCuts(|c|))
    ensures StripDots(d) == c
    ensures CountChar(d, '.') == |DotCuts(|c|)|
    ensures |d| == |c| + |DotCuts(|c|)|
  {
    DotCutsWithin(|c|);
    SplitStrip(c, DotCuts(|c|));
  }

  lemma DotCutsWithin(n: nat)
    ensures CutsWithin(DotCuts(n), n)
  {
    if n == 4 {
      assert DotCuts(n) == [2, 3];
    } else if n == 5 {
      assert DotCuts(n) == [2, 3, 4];
    } else if n == 6 {
      assert DotCuts(n) == [2, 3, 5];
    }
  }

  lemma AddDotsToCodeIsInsertDots(c: string)
    requires '.' !in c
    ensures AddDotsToCode(c) == InsertDots(c, DotCuts(|c|))
  {
    var n := |c|;
    if n == 2 {
      assert InsertDots(c, [1]) == InsertDots(c[..1], []) + "." + c[1..];
    } else if n == 3 {
      assert InsertDots(c, [2]) == InsertDots(c[..2], []) + "." + c[2..];
    } else if n == 4 {
      DotsAt4(c);
    } else if n == 5 {
      DotsAt5(c);
    } else if n == 6 {
      DotsAt6(c);
    }
  }

  lemma DotsAt4(c: string)
    requires |c| == 4
    ensures InsertDots(c, [2, 3]) == c[..2] + "." + c[2..3] + "." + c[3..]
  {
    assert [2, 3][..1] == [2];
    assert c[..3][..2] == c[..2] && c[..3][2..] == c[2..3];
  }

  lemma DotsAt5(c: string)
    requires |c| == 5
    ensures InsertDots(c, [2, 3, 4]) == c[..2] + "." + c[2..3] + "." + c[3..4] + "." + c[4..]
  {
    assert [2, 3, 4][..2] == [2, 3] && [2, 3][..1] == [2];
    assert c[..4][..3] == c[..3] && c[..4][3..] == c[3..4];
    assert c[..3][..2] == c[..2] && c[..3][2..] == c[2..3];
  }

  lemma DotsAt6(c: string)
    requires |c| == 6
    ensures InsertDots(c, [2, 3, 5]) == c[..2] + "." + c[2..3] + "." + c[3..5] + "." + c[5..]
  {
    assert [2, 3, 5][..2] == [2, 3] && [2, 3][..1] == [2];
    assert c[..5][..3] == c[..3] && c[..5][3..] == c[3..5];
    assert c[..3][..2] == c[..2] && c[..3][2..] == c[2..3];
  }

  /** Cut points that are ascending and fall inside a string of length n. */
  predicate CutsWithin(cuts: seq<nat>, n: nat) {
    (forall k :: 0 <= k < |cuts| ==> cuts[k] <= n)
    && (forall i, j :: 0 <= i < j < |cuts| ==> cuts[i] <= cuts[j])
  }

  lemma CutsWithinInit(cuts: seq<nat>, n: nat)
    requires cuts != [] && CutsWithin(cuts, n)
    ensures CutsWithin(cuts[..|cuts| - 1], cuts[|cuts| - 1])
  {
  }

  /** Inserting dots at ascending cut points inside a dot-free code adds exactly those dots and nothing else. */
  lemma {:induction false} SplitStrip(c: string, cuts: seq<nat>)
    requires '.' !in c && CutsWithin(cuts, |c|)
    ensures StripDots(InsertDots(c, cuts)) == c
    ensures CountChar(InsertDots(c, cuts), '.') == |cuts|
    ensures |InsertDots(c, cuts)| == |c| + |cuts|
    decreases |cuts|
  {
    if cuts != [] {
      var last := cuts[|cuts| - 1];
      var init := cuts[..|cuts| - 1];
      assert last <= |c|;
      var head := c[..last];
      var tail := c[last..];
      NoDotInSlice(c, 0, last);
      NoDotInSlice(c, last, |c|);
      assert c[0..last] == head && c[last..|c|] == tail;
      CutsWithinInit(cuts, |c|);
      SplitStrip(head, init);
      var h := InsertDots(head, init);
      assert InsertDots(c, cuts) == h + "." + tail;
      SplitPieces(h, tail, head);
      assert head + tail == c;
    }
  }

  lemma SplitPieces(h: string, tail: string, head: string)
    requires StripDots(h) == head && '.' !in tail
    ensures StripDots(h + "." + tail) == head + tail
    ensures CountChar(h + "." + tail, '.') == CountChar(h, '.') + 1
  {
    var dot := ".";
    var hd := h + dot;
    StripDotsAppend(hd, tail);
    StripDotsAppend(h, dot);
    assert StripDots(dot) == [];
    assert StripDots(hd) == head;
    CountCharAppend(hd, tail, '.');
    CountCharAppend(h, dot, '.');
    assert CountChar(dot, '.') == 1;
    assert CountChar(tail, '.') == 0;
  }

  lemma NoDotInSlice(c: string, i: nat, j: nat)
    requires '.' !in c && i <= j <= |c|
    ensures '.' !in c[i..j]
  {
    assert forall k :: 0 <= k < j - i ==> c[i..j][k] == c[i + k];
  }

  /** Dotting is idempotent: a dotted result contains a dot, and codes with a dot are left alone. */
  lemma AddDotsToCodeIdempotent(code: string)
    ensures AddDotsToCode(AddDotsToCode(code)) == AddDotsToCode(code)
  {
  }

  // ---------------------------------------------------------------------------
  // buildATECOTree
  // ---------------------------------------------------------------------------

  /** The object `buildATECOTree` stores in its map for one row: the row with dotted codes. Its `children` are kept in `Forest.children`. */
  datatype AtecoNode = AtecoNode(code: string, name: string, level: int, parentCode: Option<string>, description: string)

  /**
   * The linked structure after `buildATECOTree`: node objects are named by their
   * index in `nodes` (one per input row), `children[p]` is the `children` array
   * of node p, and `roots` is the returned array.
   */
  datatype Forest = Forest(nodes: seq<AtecoNode>, children: seq<seq<nat>>, roots: seq<nat>)

  /** The node made for a row: `{...row, code: dotted, parent_code: dotted or null, children: []}`. */
  function NewNode(row: AtecoRow): AtecoNode {
    AtecoNode(
      AddDotsToCode(row.code),
      row.name,
      row.level,
      if Present(row.parentCode) then Some(AddDotsToCode(row.parentCode.value)) else None,
      row.description)
  }

  /**
   * `codeMap` after the first `forEach`: each raw code maps to the node of the
   * last row that carries it (`Map.set` overwrites earlier entries).
   */
  function KeyMap(rows: seq<AtecoRow>): map<string, nat> {
    if rows == [] then map[]
    else KeyMap(rows[..|rows| - 1])[rows[|rows| - 1].code := |rows| - 1]
  }

  /** Every row's code is a key, and a key maps to the last row carrying it. */
  lemma {:induction false} KeyMapLast(rows: seq<AtecoRow>, key: string)
    ensures key in KeyMap(rows) <==> exists i :: 0 <= i < |rows| && rows[i].code == key
    ensures key in KeyMap(rows) ==>
      var i := KeyMap(rows)[key];
      i < |rows| && rows[i].code == key && forall j :: i < j < |rows| ==> rows[j].code != key
  {
    if rows != [] {
      var init := rows[..|rows| - 1];
      KeyMapLast(init, key);
      if key != rows[|rows| - 1].code {
        if key in KeyMap(rows) {
          var i := KeyMap(init)[key];
          assert rows[i] == init[i];
        }
        if exists i :: 0 <= i < |rows| && rows[i].code == key {
          var i :| 0 <= i < |rows| && rows[i].code == key;
          assert init[i] == rows[i];
        }
      }
    }
  }

  lemma KeyMapHasRow(rows: seq<AtecoRow>, i: nat)
    requires i < |rows|
    ensures rows[i].code in KeyMap(rows)
  {
    KeyMapLast(rows, rows[i].code);
  }

  /** With unique codes, the map sends each row's code to that row. */
  lemma KeyMapOfUnique(rows: seq<AtecoRow>, i: nat)
    requires UniqueCodes(rows) && i < |rows|
    ensures rows[i].code in KeyMap(rows) && KeyMap(rows)[rows[i].code] == i
  {
    KeyMapLast(rows, rows[i].code);
  }

  /** Row i has a truthy `parent_code` that is a key of the map. */
  predicate HasParent(rows: seq<AtecoRow>, i: nat)
    requires i < |rows|
  {
    Present(rows[i].parentCode) && rows[i].parentCode.value in KeyMap(rows)
  }

  /** The node row i's parent lookup finds. */
  function ParentOf(rows: seq<AtecoRow>, i: nat): (p: nat)
    requires i < |rows| && HasParent(rows, i)
    ensures p < |rows| && rows[p].code == rows[i].parentCode.value
  {
    KeyMapLast(rows, rows[i].parentCode.value);
    KeyMap(rows)[rows[i].parentCode.value]
  }

  /** The node object row i stands for (`codeMap.get(code.code)`). */
  function NodeOf(rows: seq<AtecoRow>, i: nat): (n: nat)
    requires i < |rows|
    ensures n < |rows| && rows[n].code == rows[i].code
  {
    KeyMapLast(rows, rows[i].code);
    KeyMap(rows)[rows[i].code]
  }

  /** Row i becomes a root: it has no resolvable parent and passes the root filter. */
  predicate IsRoot(rows: seq<AtecoRow>, rootCode: string, i: nat)
    requires i < |rows|
  {
    !HasParent(rows, i) && (rootCode == "" || rows[i].code == rootCode)
  }

  /** `children` of node p after the first n rows of the second `forEach`. */
  function ChildrenAfter(rows: seq<AtecoRow>, p: nat, n: nat): (r: seq<nat>)
    requires n <= |rows|
    ensures forall k :: 0 <= k < |r| ==> r[k] < |rows|
  {
    if n == 0 then [] else
      ChildrenAfter(rows, p, n - 1)
      + (if HasParent(rows, n - 1) && ParentOf(rows, n - 1) == p then [NodeOf(rows, n - 1)] else [])
  }

  /** `roots` after the first n rows of the second `forEach`. */
  function RootsAfter(rows: seq<AtecoRow>, rootCode: string, n: nat): (r: seq<nat>)
    requires n <= |rows|
    ensures forall k :: 0 <= k < |r| ==> r[k] < |rows|
  {
    if n == 0 then []
    else RootsAfter(rows, rootCode, n - 1) + (if IsRoot(rows, rootCode, n - 1) then [NodeOf(rows, n - 1)] else [])
  }

  /** The structure `buildATECOTree(rows, rootCode)` leaves behind. */
  function BuiltForest(rows: seq<AtecoRow>, rootCode: string): Forest {
    Forest(
      seq(|rows|, i requires 0 <= i < |rows| => NewNode(rows[i])),
      seq(|rows|, p requires 0 <= p < |rows| => ChildrenAfter(rows, p, |rows|)),
      RootsAfter(rows, rootCode, |rows|))
  }

  /** Every child and root reference names a node, and there is one children list per node. */
  predicate WellFormed(f: Forest) {
    && |f.children| == |f.nodes|
    && (forall p, k :: 0 <= p < |f.children| && 0 <= k < |f.children[p]| ==> f.children[p][k] < |f.nodes|)
    && (forall k :: 0 <= k < |f.roots| ==> f.roots[k] < |f.nodes|)
  }

  lemma BuiltForestWellFormed(rows: seq<AtecoRow>, rootCode: string)
    ensures WellFormed(BuiltForest(rows, rootCode))
  {
  }

  /**
   * `buildATECOTree`: a first pass fills `codeMap` with a fresh node per row,
   * keyed by the raw code; a second pass appends each row's node to the
   * children of the node its raw `parent_code` names, or to `roots` when it has
   * no resolvable parent and `rootCode` is null or equal to its raw code.
   * The empty `rootCode` stands for null.
   */
  method BuildAtecoTree(codes: seq<AtecoRow>, rootCode: string) returns (f: Forest)
    ensures f == BuiltForest(codes, rootCode)
  {
    var codeMap, nodes, children := IndexRows(codes);
    var linked, roots := LinkRows(codes, rootCode, codeMap, children);
    f := Forest(nodes, linked, roots);
  }

  /** The first `forEach` of `buildATECOTree`: one fresh node per row, keyed by raw code. */
  method IndexRows(codes: seq<AtecoRow>)
    returns (codeMap: map<string, nat>, nodes: seq<AtecoNode>, children: seq<seq<nat>>)
    ensures codeMap == KeyMap(codes)
    ensures nodes == seq(|codes|, i requires 0 <= i < |codes| => NewNode(codes[i]))
    ensures children == seq(|codes|, i requires 0 <= i < |codes| => [])
  {
    codeMap := map[];
    nodes := [];
    children := [];
    var i := 0;
    while i < |codes|
      invariant 0 <= i <= |codes|
      invariant codeMap == KeyMap(codes[..i])
      invariant |nodes| == i && forall k :: 0 <= k < i ==> nodes[k] == NewNode(codes[k])
      invariant |children| == i && forall k :: 0 <= k < i ==> children[k] == []
    {
      assert codes[..i + 1][..i] == codes[..i];
      codeMap := codeMap[codes[i].code := i];
      nodes := nodes + [NewNode(codes[i])];
      children := children + [[]];
      i := i + 1;
    }
    assert codes[..|codes|] == codes;
  }

  /**
   * The second `forEach` of `buildATECOTree`: each row's node joins its parent's
   * children or, failing a resolvable parent, the roots when it passes the filter.
   */
  method LinkRows(codes: seq<AtecoRow>, rootCode: string, codeMap: map<string, nat>, empty: seq<seq<nat>>)
    returns (children: seq<seq<nat>>, roots: seq<nat>)
    requires codeMap == KeyMap(codes)
    requires |empty| == |codes| && forall p :: 0 <= p < |codes| ==> empty[p] == []
    ensures children == seq(|codes|, p requires 0 <= p < |codes| => ChildrenAfter(codes, p, |codes|))
    ensures roots == RootsAfter(codes, rootCode, |codes|)
  {
    children := empty;
    roots := [];
    var i := 0;
    while i < |codes|
      invariant 0 <= i <= |codes|
      invariant |children| == |codes|
      invariant forall p :: 0 <= p < |codes| ==> children[p] == ChildrenAfter(codes, p, i)
      invariant roots == RootsAfter(codes, rootCode, i)
    {
      children, roots := LinkRow(codes, rootCode, codeMap, children, roots, i);
      i := i + 1;
    }
  }

  /** One iteration of the second `forEach`: row i's node is linked into place. */
  method LinkRow(codes: seq<AtecoRow>, rootCode: string, codeMap: map<string, nat>,
                 children: seq<seq<nat>>, roots: seq<nat>, i: nat)
    returns (children': seq<seq<nat>>, roots': seq<nat>)
    requires codeMap == KeyMap(codes) && i < |codes|
    requires |children| == |codes| && forall p :: 0 <= p < |codes| ==> children[p] == ChildrenAfter(codes, p, i)
    requires roots == RootsAfter(codes, rootCode, i)
    ensures |children'| == |codes| && forall p :: 0 <= p < |codes| ==> children'[p] == ChildrenAfter(codes, p, i + 1)
    ensures roots' == RootsAfter(codes, rootCode, i + 1)
  {
    KeyMapHasRow(codes, i);
    var node := codeMap[codes[i].code];
    assert node == NodeOf(codes, i);
    var parentCode := codes[i].parentCode;
    if parentCode.Some? && parentCode.value != "" && parentCode.value in codeMap {
      assert HasParent(codes, i);
      var parent := codeMap[parentCode.value];
      assert parent == ParentOf(codes, i);
      children' := children[parent := children[parent] + [node]];
      forall p | 0 <= p < |codes| ensures children'[p] == ChildrenAfter(codes, p, i + 1) {
        assert ChildrenAfter(codes, p, i + 1) == ChildrenAfter(codes, p, i) + (if p == parent then [node] else []);
      }
      roots' := roots;
    } else {
      assert !HasParent(codes, i);
      children' := children;
      forall p | 0 <= p < |codes| ensures children'[p] == ChildrenAfter(codes, p, i + 1) {
        assert ChildrenAfter(codes, p, i + 1) == ChildrenAfter(codes, p, i);
      }
      if rootCode == "" || codes[i].code == rootCode {
        roots' := roots + [node];
      } else {
        roots' := roots;
      }
    }
  }

  // ---------------------------------------------------------------------------
  // Properties of the built forest
  // ---------------------------------------------------------------------------

  /** With unique codes, row j's node is node j. */
  lemma NodeOfUnique(rows: seq<AtecoRow>, j: nat)
    requires UniqueCodes(rows) && j < |rows|
    ensures NodeOf(rows, j) == j
  {
    KeyMapOfUnique(rows, j);
  }

  /** With unique codes, node j sits in node p's children once if row j names p as parent, and never otherwise. */
  lemma {:induction false} ChildrenAfterOnce(rows: seq<AtecoRow>, p: nat, n: nat, j: nat)
    requires UniqueCodes(rows) && n <= |rows| && j < |rows|
    ensures Count(ChildrenAfter(rows, p, n), j)
         == (if j < n && HasParent(rows, j) && ParentOf(rows, j) == p then 1 else 0)
  {
    if n > 0 {
      var m := n - 1;
      var linked := HasParent(rows, m) && ParentOf(rows, m) == p;
      NodeOfUnique(rows, m);
      var before := ChildrenAfter(rows, p, m);
      assert ChildrenAfter(rows, p, n) == before + (if linked then [NodeOf(rows, m)] else []);
      ChildrenAfterOnce(rows, p, m, j);
      CountSnoc(before, linked, NodeOf(rows, m), j);
      if j == m {
        assert Count(before, j) == 0;
      } else {
        assert (linked && m == j) == false;
      }
    } else {
      assert ChildrenAfter(rows, p, n) == [];
    }
  }

  /** With unique codes, node j is a root once if row j is a root row, and never otherwise. */
  lemma {:induction false} RootsAfterOnce(rows: seq<AtecoRow>, rootCode: string, n: nat, j: nat)
    requires UniqueCodes(rows) && n <= |rows| && j < |rows|
    ensures Count(RootsAfter(rows, rootCode, n), j) == (if j < n && IsRoot(rows, rootCode, j) then 1 else 0)
  {
    if n > 0 {
      var m := n - 1;
      var root := IsRoot(rows, rootCode, m);
      NodeOfUnique(rows, m);
      var before := RootsAfter(rows, rootCode, m);
      assert RootsAfter(rows, rootCode, n) == before + (if root then [NodeOf(rows, m)] else []);
      RootsAfterOnce(rows, rootCode, m, j);
      CountSnoc(before, root, NodeOf(rows, m), j);
      if j == m {
        assert Count(before, j) == 0;
      } else {
        assert (root && m == j) == false;
      }
    } else {
      assert RootsAfter(rows, rootCode, n) == [];
    }
  }

  /** With unique codes, children lists keep input order and hold only rows naming p as parent. */
  lemma {:induction false} ChildrenAfterOrdered(rows: seq<AtecoRow>, p: nat, n: nat)
    requires UniqueCodes(rows) && n <= |rows|
    ensures Increasing(ChildrenAfter(rows, p, n))
    ensures forall k :: 0 <= k < |ChildrenAfter(rows, p, n)| ==>
      var c := ChildrenAfter(rows, p, n)[k];
      c < n && HasParent(rows, c) && ParentOf(rows, c) == p
  {
    if n > 0 {
      NodeOfUnique(rows, n - 1);
      ChildrenAfterOrdered(rows, p, n - 1);
    }
  }

  /** With unique codes, roots keep input order and are exactly root rows. */
  lemma {:induction false} RootsAfterOrdered(rows: seq<AtecoRow>, rootCode: string, n: nat)
    requires UniqueCodes(rows) && n <= |rows|
    ensures Increasing(RootsAfter(rows, rootCode, n))
    ensures forall k :: 0 <= k < |RootsAfter(rows, rootCode, n)| ==>
      var c := RootsAfter(rows, rootCode, n)[k];
      c < n && IsRoot(rows, rootCode, c)
  {
    if n > 0 {
      NodeOfUnique(rows, n - 1);
      RootsAfterOrdered(rows, rootCode, n - 1);
    }
  }

  /**
   * With unique codes (the table's UNIQUE constraint), the built forest places
   * every row exactly once: under the row its `parent_code` names when that
   * code exists, otherwise among the roots if it passes the root filter (and
   * nowhere if it does not).
   */
  lemma BuildPlacesEveryRowOnce(rows: seq<AtecoRow>, rootCode: string, j: nat)
    requires UniqueCodes(rows) && j < |rows|
    ensures var f := BuiltForest(rows, rootCode);
      && (forall p :: 0 <= p < |rows| ==>
            Count(f.children[p], j) == (if HasParent(rows, j) && ParentOf(rows, j) == p then 1 else 0))
      && Count(f.roots, j) == (if IsRoot(rows, rootCode, j) then 1 else 0)
  {
    forall p | 0 <= p < |rows|
      ensures Count(BuiltForest(rows, rootCode).children[p], j)
           == (if HasParent(rows, j) && ParentOf(rows, j) == p then 1 else 0)
    {
      ChildrenAfterOnce(rows, p, |rows|, j);
    }
    RootsAfterOnce(rows, rootCode, |rows|, j);
  }

  /**
   * With unique codes, each child list and the root list keep input order, a
   * child's raw `parent_code` is its parent's raw code, and every root has no
   * resolvable parent and passes the root filter.
   */
  lemma BuiltForestOrdered(rows: seq<AtecoRow>, rootCode: string)
    requires UniqueCodes(rows)
    ensures var f := BuiltForest(rows, rootCode);
      && (forall p :: 0 <= p < |rows| ==> Increasing(f.children[p]))
      && (forall p, k :: 0 <= p < |rows| && 0 <= k < |f.children[p]| ==>
            Present(rows[f.children[p][k]].parentCode) && rows[f.children[p][k]].parentCode.value == rows[p].code)
      && Increasing(f.roots)
      && (forall k :: 0 <= k < |f.roots| ==>
            !HasParent(rows, f.roots[k]) && (rootCode == "" || rows[f.roots[k]].code == rootCode))
  {
    forall p | 0 <= p < |rows|
      ensures Increasing(ChildrenAfter(rows, p, |rows|))
      ensures forall k :: 0 <= k < |ChildrenAfter(rows, p, |rows|)| ==>
        Present(rows[ChildrenAfter(rows, p, |rows|)[k]].parentCode)
        && rows[ChildrenAfter(rows, p, |rows|)[k]].parentCode.value == rows[p].code
    {
      ChildrenAfterOrdered(rows, p, |rows|);
    }
    RootsAfterOrdered(rows, rootCode, |rows|);
  }

  // ---------------------------------------------------------------------------
  // Walking the forest
  // ---------------------------------------------------------------------------

  /**
   * Every walk from node n is shorter than d. The recursive walks of the
   * service terminate exactly on such nodes; a cycle would recurse forever.
   */
  predicate Bounded(f: Forest, n: nat, d: nat)
    decreases d
  {
    && |f.nodes| == |f.children|
    && n < |f.children|
    && d > 0
    && forall k :: 0 <= k < |f.children[n]| ==> Bounded(f, f.children[n][k], d - 1)
  }

  predicate BoundedAll(f: Forest, cs: seq<nat>, d: nat) {
    forall k :: 0 <= k < |cs| ==> Bounded(f, cs[k], d)
  }

  /** The query for `node.code` throws: only a non-empty clean code is queried at all. */
  predicate Fails(failed: set<string>, cleanCode: string) {
    cleanCode != "" && cleanCode in failed
  }

  /**
   * The nodes `processNode` of `calculateCompanyCounts` reaches from n: the
   * node itself and, unless its query throws, the nodes reached from its children.
   */
  ghost function Visited(f: Forest, failed: set<string>, n: nat, d: nat): set<nat>
    requires Bounded(f, n, d)
    decreases d, 0
  {
    {n} + (if Fails(failed, StripDots(f.nodes[n].code)) then {} else VisitedAll(f, failed, f.children[n], d - 1))
  }

  ghost function VisitedAll(f: Forest, failed: set<string>, cs: seq<nat>, d: nat): set<nat>
    requires BoundedAll(f, cs, d)
    decreases d, |cs|
  {
    if cs == [] then {} else VisitedAll(f, failed, cs[..|cs| - 1], d) + Visited(f, failed, cs[|cs| - 1], d)
  }

  /** The nodes of the subtree below n (a walk with no failing query). */
  ghost function Reach(f: Forest, n: nat, d: nat): set<nat>
    requires Bounded(f, n, d)
  {
    Visited(f, {}, n, d)
  }

  ghost function ReachAll(f: Forest, cs: seq<nat>, d: nat): set<nat>
    requires BoundedAll(f, cs, d)
  {
    VisitedAll(f, {}, cs, d)
  }

  // ---------------------------------------------------------------------------
  // calculateCompanyCounts
  // ---------------------------------------------------------------------------

  /** The `imprese` column a clean code of this length is compared with. */
  function ColumnFor(row: Impresa, len: nat): string {
    if len == 1 then row.settore
    else if len == 2 then row.divisione
    else if len == 3 then row.classe
    else row.sottocategoria
  }

  /** `SELECT SUM(imprese_attive) FROM imprese WHERE <column> = ?`, with `|| 0` for the NULL of no rows. */
  function SumWhere(facts: seq<Impresa>, len: nat, code: string): int {
    if facts == [] then 0
    else
      var last := facts[|facts| - 1];
      SumWhere(facts[..|facts| - 1], len, code) + (if ColumnFor(last, len) == code then last.impreseAttive else 0)
  }

  /** The direct count of a clean code: no query, hence 0, for the empty code. */
  function DirectCount(facts: seq<Impresa>, cleanCode: string): int {
    if cleanCode == "" then 0 else SumWhere(facts, |cleanCode|, cleanCode)
  }

  /** The `directCompanies` a visited node ends with. */
  function ExpectedDirect(f: Forest, facts: seq<Impresa>, failed: set<string>, n: nat): int
    requires n < |f.nodes|
  {
    var cleanCode := StripDots(f.nodes[n].code);
    if Fails(failed, cleanCode) then 0 else DirectCount(facts, cleanCode)
  }

  /** A sum over fact rows none of which matches is 0. */
  lemma {:induction false} SumWhereNoMatch(facts: seq<Impresa>, len: nat, code: string)
    requires forall k :: 0 <= k < |facts| ==> ColumnFor(facts[k], len) != code
    ensures SumWhere(facts, len, code) == 0
  {
    if facts != [] {
      SumWhereNoMatch(facts[..|facts| - 1], len, code);
    }
  }

  /** With non-negative counts, the sum is positive iff some matching row has a positive count. */
  lemma {:induction false} SumWherePositive(facts: seq<Impresa>, len: nat, code: string)
    requires forall k :: 0 <= k < |facts| ==> facts[k].impreseAttive >= 0
    ensures SumWhere(facts, len, code) >= 0
    ensures SumWhere(facts, len, code) > 0
        <==> exists k :: 0 <= k < |facts| && ColumnFor(facts[k], len) == code && facts[k].impreseAttive > 0
  {
    if facts != [] {
      var init := facts[..|facts| - 1];
      SumWherePositive(init, len, code);
      if exists k :: 0 <= k < |init| && ColumnFor(init[k], len) == code && init[k].impreseAttive > 0 {
        var k :| 0 <= k < |init| && ColumnFor(init[k], len) == code && init[k].impreseAttive > 0;
        assert facts[k] == init[k];
      }
      if exists k :: 0 <= k < |facts| && ColumnFor(facts[k], len) == code && facts[k].impreseAttive > 0 {
        var k :| 0 <= k < |facts| && ColumnFor(facts[k], len) == code && facts[k].impreseAttive > 0;
        if k < |init| {
          assert init[k] == facts[k];
        }
      }
    }
  }

  /**
   * `processNode` of `calculateCompanyCounts`: the node's `directCompanies` is
   * the sum for its clean code in the column chosen by length, or 0 when its
   * query throws (and then its children are not visited); then every child is
   * processed in turn. Nodes outside the walk keep their value.
   */
  method ProcessCountNode(f: Forest, facts: seq<Impresa>, failed: set<string>, direct: array<int>, n: nat, ghost d: nat)
    requires Bounded(f, n, d) && direct.Length == |f.nodes|
    modifies direct
    decreases d, 0
    ensures forall m :: 0 <= m < direct.Length ==>
      direct[m] == if m in Visited(f, failed, n, d) then ExpectedDirect(f, facts, failed, m) else old(direct[m])
  {
    var cleanCode := StripDots(f.nodes[n].code);
    if Fails(failed, cleanCode) {
      direct[n] := 0;
      return;
    }
    var directCompanies := 0;
    if |cleanCode| == 1 {
      directCompanies := SumWhere(facts, 1, cleanCode);
    } else if |cleanCode| == 2 {
      directCompanies := SumWhere(facts, 2, cleanCode);
    } else if |cleanCode| == 3 {
      directCompanies := SumWhere(facts, 3, cleanCode);
    } else if |cleanCode| >= 4 {
      directCompanies := SumWhere(facts, |cleanCode|, cleanCode);
    }
    direct[n] := directCompanies;
    var children := f.children[n];
    var k := 0;
    while k < |children|
      invariant 0 <= k <= |children|
      invariant forall m :: 0 <= m < direct.Length ==>
        direct[m] == if m == n || m in VisitedAll(f, failed, children[..k], d - 1)
                     then ExpectedDirect(f, facts, failed, m) else old(direct[m])
    {
      assert children[..k + 1][..k] == children[..k];
      ProcessCountNode(f, facts, failed, direct, children[k], d - 1);
      k := k + 1;
    }
    assert children[..k] == children;
  }

  /** `calculateCompanyCounts`: every root is processed in turn. */
  method CalculateCompanyCounts(f: Forest, facts: seq<Impresa>, failed: set<string>, direct: array<int>, ghost d: nat)
    requires BoundedAll(f, f.roots, d) && direct.Length == |f.nodes|
    modifies direct
    ensures forall m :: 0 <= m < direct.Length ==>
      direct[m] == if m in VisitedAll(f, failed, f.roots, d) then ExpectedDirect(f, facts, failed, m) else old(direct[m])
  {
    var k := 0;
    while k < |f.roots|
      invariant 0 <= k <= |f.roots|
      invariant forall m :: 0 <= m < direct.Length ==>
        direct[m] == if m in VisitedAll(f, failed, f.roots[..k], d)
                     then ExpectedDirect(f, facts, failed, m) else old(direct[m])
    {
      assert f.roots[..k + 1][..k] == f.roots[..k];
      ProcessCountNode(f, facts, failed, direct, f.roots[k], d);
      k := k + 1;
    }
    assert f.roots[..k] == f.roots;
  }

  // ---------------------------------------------------------------------------
  // addCompanyCountsToTree
  // ---------------------------------------------------------------------------

  /** Σ `directCompanies` over a list of nodes. */
  function DirectSum(direct: seq<int>, cs: seq<nat>): int
    requires forall k :: 0 <= k < |cs| ==> cs[k] < |direct|
  {
    if cs == [] then 0 else DirectSum(direct, cs[..|cs| - 1]) + direct[cs[|cs| - 1]]
  }

  /** The `totalCompanies` node n gets: its children's direct counts, never its own. */
  function TotalOf(f: Forest, direct: seq<int>, n: nat): int
    requires n < |f.children| && |direct| == |f.nodes|
    requires forall k :: 0 <= k < |f.children[n]| ==> f.children[n][k] < |f.nodes|
  {
    if f.children[n] == [] then 0 else DirectSum(direct, f.children[n])
  }

  /** The `leafNodes` node n gets: 1 for a childless node with a positive count, else the sum over its children. */
  function LeafValue(f: Forest, direct: seq<int>, n: nat, d: nat): nat
    requires Bounded(f, n, d) && |direct| == |f.nodes|
    decreases d, 0
  {
    if f.children[n] == [] then (if direct[n] > 0 then 1 else 0)
    else LeafSum(f, direct, f.children[n], d - 1)
  }

  function LeafSum(f: Forest, direct: seq<int>, cs: seq<nat>, d: nat): nat
    requires BoundedAll(f, cs, d) && |direct| == |f.nodes|
    decreases d, |cs|
  {
    if cs == [] then 0 else LeafSum(f, direct, cs[..|cs| - 1], d) + LeafValue(f, direct, cs[|cs| - 1], d)
  }

  /** The depth bound only serves termination: any two bounds give the same value. */
  lemma {:induction false} LeafValueDepth(f: Forest, direct: seq<int>, n: nat, d: nat, e: nat)
    requires Bounded(f, n, d) && Bounded(f, n, e) && |direct| == |f.nodes|
    ensures LeafValue(f, direct, n, d) == LeafValue(f, direct, n, e)
    decreases d, 0
  {
    if f.children[n] != [] {
      LeafSumDepth(f, direct, f.children[n], d - 1, e - 1);
    }
  }

  lemma {:induction false} LeafSumDepth(f: Forest, direct: seq<int>, cs: seq<nat>, d: nat, e: nat)
    requires BoundedAll(f, cs, d) && BoundedAll(f, cs, e) && |direct| == |f.nodes|
    ensures LeafSum(f, direct, cs, d) == LeafSum(f, direct, cs, e)
    decreases d, |cs|
  {
    if cs != [] {
      LeafSumDepth(f, direct, cs[..|cs| - 1], d, e);
      LeafValueDepth(f, direct, cs[|cs| - 1], d, e);
    }
  }

  /** Node m carries the rollup's values: `totalCompanies` and `leafNodes` as defined above. */
  ghost predicate RolledUpAt(f: Forest, direct: seq<int>, m: nat, total: int, leaves: int)
    requires |direct| == |f.nodes| == |f.children| && m < |f.nodes|
  {
    && (forall k :: 0 <= k < |f.children[m]| ==> f.children[m][k] < |f.nodes|)
    && total == TotalOf(f, direct, m)
    && forall e :: Bounded(f, m, e) ==> leaves == LeafValue(f, direct, m, e)
  }

  /**
   * `processNode` of `addCompanyCountsToTree`: both counters start at 0; a
   * node with children processes each child first and then takes the sum of
   * the children's `directCompanies` and of their `leafNodes`; a childless node
   * has total 0 and counts as one leaf when its direct count is positive.
   * `directCompanies` is only read, and nodes outside the subtree keep their values.
   */
  method RollupNode(f: Forest, direct: array<int>, total: array<int>, leaves: array<int>, n: nat, ghost d: nat)
    requires Bounded(f, n, d)
    requires direct.Length == total.Length == leaves.Length == |f.nodes|
    requires direct != total && direct != leaves && total != leaves
    modifies total, leaves
    decreases d, 0
    ensures forall m :: 0 <= m < |f.nodes| ==>
      if m in Reach(f, n, d) then RolledUpAt(f, direct[..], m, total[m], leaves[m])
      else total[m] == old(total[m]) && leaves[m] == old(leaves[m])
  {
    total[n] := 0;
    leaves[n] := 0;
    var children := f.children[n];
    assert Reach(f, n, d) == {n} + ReachAll(f, children, d - 1);
    if |children| > 0 {
      var childrenDirectTotal := 0;
      var childrenLeafNodes := 0;
      var k := 0;
      while k < |children|
        invariant 0 <= k <= |children|
        invariant childrenDirectTotal == DirectSum(direct[..], children[..k])
        invariant childrenLeafNodes == LeafSum(f, direct[..], children[..k], d - 1)
        invariant forall m :: 0 <= m < |f.nodes| ==>
          if m in ReachAll(f, children[..k], d - 1) then RolledUpAt(f, direct[..], m, total[m], leaves[m])
          else if m == n then total[m] == 0 && leaves[m] == 0
          else total[m] == old(total[m]) && leaves[m] == old(leaves[m])
      {
        var child := children[k];
        assert children[..k + 1][..k] == children[..k];
        RollupNode(f, direct, total, leaves, child, d - 1);
        childrenDirectTotal := childrenDirectTotal + direct[child];
        LeafValueDepth(f, direct[..], child, d - 1, d - 1);
        childrenLeafNodes := childrenLeafNodes + leaves[child];
        k := k + 1;
      }
      assert children[..k] == children;
      forall e: nat | Bounded(f, n, e) ensures childrenLeafNodes == LeafValue(f, direct[..], n, e) {
        LeafSumDepth(f, direct[..], children, d - 1, e - 1);
      }
      assert RolledUpAt(f, direct[..], n, childrenDirectTotal, childrenLeafNodes);
      total[n] := childrenDirectTotal;
      leaves[n] := childrenLeafNodes;
    } else {
      total[n] := 0;
      leaves[n] := if direct[n] > 0 then 1 else 0;
    }
  }

  /** `addCompanyCountsToTree`: every root is processed in turn. */
  method AddCompanyCountsToTree(f: Forest, direct: array<int>, total: array<int>, leaves: array<int>, ghost d: nat)
    requires BoundedAll(f, f.roots, d)
    requires direct.Length == total.Length == leaves.Length == |f.nodes|
    requires direct != total && direct != leaves && total != leaves
    modifies total, leaves
    ensures forall m :: 0 <= m < |f.nodes| ==>
      if m in ReachAll(f, f.roots, d) then RolledUpAt(f, direct[..], m, total[m], leaves[m])
      else total[m] == old(total[m]) && leaves[m] == old(leaves[m])
  {
    var k := 0;
    while k < |f.roots|
      invariant 0 <= k <= |f.roots|
      invariant forall m :: 0 <= m < |f.nodes| ==>
        if m in ReachAll(f, f.roots[..k], d) then RolledUpAt(f, direct[..], m, total[m], leaves[m])
        else total[m] == old(total[m]) && leaves[m] == old(leaves[m])
    {
      assert f.roots[..k + 1][..k] == f.roots[..k];
      RollupNode(f, direct, total, leaves, f.roots[k], d);
      k := k + 1;
    }
    assert f.roots[..k] == f.roots;
  }

  // ---------------------------------------------------------------------------
  // The built forest is finite
  // ---------------------------------------------------------------------------

  /** A downward walk: each node is a child of the one before. */
  predicate IsWalk(f: Forest, w: seq<nat>) {
    forall i :: 0 <= i < |w| - 1 ==> w[i] < |f.children| && w[i + 1] in f.children[w[i]]
  }

  /** A node that is not bounded by d starts a walk of d + 1 nodes. */
  lemma {:induction false} LongWalk(f: Forest, n: nat, d: nat) returns (w: seq<nat>)
    requires WellFormed(f) && n < |f.nodes| && !Bounded(f, n, d)
    ensures |w| == d + 1 && w[0] == n && IsWalk(f, w)
    decreases d
  {
    if d == 0 {
      w := [n];
    } else {
      var k :| 0 <= k < |f.children[n]| && !Bounded(f, f.children[n][k], d - 1);
      var rest := LongWalk(f, f.children[n][k], d - 1);
      w := [n] + rest;
      forall i | 0 <= i < |w| - 1 ensures w[i] < |f.children| && w[i + 1] in f.children[w[i]] {
        if i > 0 {
          assert w[i] == rest[i - 1] && w[i + 1] == rest[i];
        }
      }
    }
  }

  /** With unique codes, a child in the built forest is a row whose parent lookup finds its parent. */
  lemma ChildOfBuilt(rows: seq<AtecoRow>, rootCode: string, p: nat, c: nat)
    requires UniqueCodes(rows) && p < |rows| && c in BuiltForest(rows, rootCode).children[p]
    ensures c < |rows| && HasParent(rows, c) && ParentOf(rows, c) == p
  {
    ChildrenAfterOrdered(rows, p, |rows|);
  }

  /** With unique codes, a walk down from a row without a resolvable parent never repeats a node. */
  lemma {:induction false} WalkFromRootDistinct(rows: seq<AtecoRow>, rootCode: string, w: seq<nat>, a: nat, b: nat)
    requires UniqueCodes(rows) && IsWalk(BuiltForest(rows, rootCode), w)
    requires 0 < |w| && w[0] < |rows| && !HasParent(rows, w[0])
    requires a < b < |w|
    ensures w[a] != w[b]
    decreases a
  {
    var f := BuiltForest(rows, rootCode);
    assert w[b - 1] < |f.children| && w[b] in f.children[w[b - 1]];
    ChildOfBuilt(rows, rootCode, w[b - 1], w[b]);
    if a > 0 {
      assert w[a - 1] < |f.children| && w[a] in f.children[w[a - 1]];
      ChildOfBuilt(rows, rootCode, w[a - 1], w[a]);
      WalkFromRootDistinct(rows, rootCode, w, a - 1, b - 1);
    }
  }

  /**
   * With unique codes, every row without a resolvable parent is bounded by the
   * number of rows in the built forest: a longer walk would repeat a node, and
   * a repeat forces a cycle through that row, which has no parent.
   */
  lemma ParentlessBounded(rows: seq<AtecoRow>, rootCode: string, r: nat)
    requires UniqueCodes(rows) && r < |rows| && !HasParent(rows, r)
    ensures Bounded(BuiltForest(rows, rootCode), r, |rows|)
  {
    var f := BuiltForest(rows, rootCode);
    BuiltForestWellFormed(rows, rootCode);
    if !Bounded(f, r, |rows|) {
      var w := LongWalk(f, r, |rows|);
      forall a, b | 0 <= a < b < |w| ensures w[a] != w[b] {
        WalkFromRootDistinct(rows, rootCode, w, a, b);
      }
      forall i | 0 <= i < |w| ensures w[i] < |rows| {
        if i > 0 {
          assert w[i - 1] < |f.children| && w[i] in f.children[w[i - 1]];
        }
      }
      DistinctBelow(w, |rows|);
      assert false;
    }
  }

  /** With unique codes, both recursive walks end on every root of the built forest. */
  lemma BuiltForestBounded(rows: seq<AtecoRow>, rootCode: string)
    requires UniqueCodes(rows)
    ensures BoundedAll(BuiltForest(rows, rootCode), BuiltForest(rows, rootCode).roots, |rows|)
  {
    var f := BuiltForest(rows, rootCode);
    RootsAfterOrdered(rows, rootCode, |rows|);
    forall k | 0 <= k < |f.roots| ensures Bounded(f, f.roots[k], |rows|) {
      ParentlessBounded(rows, rootCode, f.roots[k]);
    }
  }

  /** A node of a subtree list lies in the subtree of one of its members. */
  lemma {:induction false} VisitedAllMember(f: Forest, failed: set<string>, cs: seq<nat>, d: nat, m: nat) returns (k: nat)
    requires BoundedAll(f, cs, d) && m in VisitedAll(f, failed, cs, d)
    ensures k < |cs| && m in Visited(f, failed, cs[k], d)
    decreases |cs|
  {
    if m in Visited(f, failed, cs[|cs| - 1], d) {
      k := |cs| - 1;
    } else {
      k := VisitedAllMember(f, failed, cs[..|cs| - 1], d, m);
    }
  }

  /** Every node of the subtree below n ends a downward walk from n. */
  lemma {:induction false} ReachWalk(f: Forest, n: nat, d: nat, m: nat) returns (w: seq<nat>)
    requires Bounded(f, n, d) && m in Reach(f, n, d)
    ensures 0 < |w| && w[0] == n && w[|w| - 1] == m && IsWalk(f, w)
    decreases d
  {
    if m == n {
      w := [n];
    } else {
      var k := VisitedAllMember(f, {}, f.children[n], d - 1, m);
      var v := ReachWalk(f, f.children[n][k], d - 1, m);
      w := [n] + v;
      forall i | 0 <= i < |w| - 1 ensures w[i] < |f.children| && w[i + 1] in f.children[w[i]] {
        if i > 0 {
          assert w[i] == v[i - 1] && w[i + 1] == v[i];
        }
      }
    }
  }

  /**
   * With unique codes, two downward walks in the built forest that start at
   * rows without a parent and end at the same node start at the same row:
   * each node has at most one parent, so the walks agree going back up.
   */
  lemma {:induction false} WalksMeet(rows: seq<AtecoRow>, rootCode: string, w: seq<nat>, v: seq<nat>)
    requires UniqueCodes(rows)
    requires IsWalk(BuiltForest(rows, rootCode), w) && IsWalk(BuiltForest(rows, rootCode), v)
    requires 0 < |w| && 0 < |v| && w[0] < |rows| && v[0] < |rows|
    requires !HasParent(rows, w[0]) && !HasParent(rows, v[0])
    requires w[|w| - 1] == v[|v| - 1]
    ensures w[0] == v[0]
    decreases |w| + |v|
  {
    var f := BuiltForest(rows, rootCode);
    if |w| == 1 && |v| == 1 {
    } else if |w| == 1 {
      assert v[|v| - 2] < |f.children| && v[|v| - 1] in f.children[v[|v| - 2]];
      ChildOfBuilt(rows, rootCode, v[|v| - 2], v[|v| - 1]);
      assert false;
    } else if |v| == 1 {
      assert w[|w| - 2] < |f.children| && w[|w| - 1] in f.children[w[|w| - 2]];
      ChildOfBuilt(rows, rootCode, w[|w| - 2], w[|w| - 1]);
      assert false;
    } else {
      assert w[|w| - 2] < |f.children| && w[|w| - 1] in f.children[w[|w| - 2]];
      assert v[|v| - 2] < |f.children| && v[|v| - 1] in f.children[v[|v| - 2]];
      ChildOfBuilt(rows, rootCode, w[|w| - 2], w[|w| - 1]);
      ChildOfBuilt(rows, rootCode, v[|v| - 2], v[|v| - 1]);
      var w', v' := w[..|w| - 1], v[..|v| - 1];
      assert IsWalk(f, w') by {
        forall i | 0 <= i < |w'| - 1 ensures w'[i] < |f.children| && w'[i + 1] in f.children[w'[i]] {
          assert w'[i] == w[i] && w'[i + 1] == w[i + 1];
        }
      }
      assert IsWalk(f, v') by {
        forall i | 0 <= i < |v'| - 1 ensures v'[i] < |f.children| && v'[i + 1] in f.children[v'[i]] {
          assert v'[i] == v[i] && v'[i + 1] == v[i + 1];
        }
      }
      WalksMeet(rows, rootCode, w', v');
    }
  }

  /**
   * A row without a parent that the root filter drops shares no node with any
   * returned root's subtree: nothing below it is reached from a root.
   */
  lemma FilteredSubtreeDisjoint(rows: seq<AtecoRow>, rootCode: string, j: nat, k: nat, m: nat)
    requires UniqueCodes(rows) && j < |rows| && !HasParent(rows, j) && !IsRoot(rows, rootCode, j)
    requires k < |BuiltForest(rows, rootCode).roots|
    ensures var f := BuiltForest(rows, rootCode);
      && Bounded(f, j, |rows|) && Bounded(f, f.roots[k], |rows|)
      && (m in Reach(f, f.roots[k], |rows|) ==> m !in Reach(f, j, |rows|))
  {
    var f := BuiltForest(rows, rootCode);
    ParentlessBounded(rows, rootCode, j);
    BuiltForestBounded(rows, rootCode);
    RootsAfterOrdered(rows, rootCode, |rows|);
    var r := f.roots[k];
    assert r < |rows| && IsRoot(rows, rootCode, r);
    if m in Reach(f, r, |rows|) && m in Reach(f, j, |rows|) {
      var w := ReachWalk(f, r, |rows|, m);
      var v := ReachWalk(f, j, |rows|, m);
      WalksMeet(rows, rootCode, w, v);
      assert false;
    }
  }

  // ---------------------------------------------------------------------------
  // The JSON tree and the tree endpoint
  // ---------------------------------------------------------------------------

  /** A node as serialised by the tree endpoint: the row fields, nested children and the three counters. */
  datatype TreeNode = TreeNode(
    node: AtecoNode,
    children: seq<TreeNode>,
    directCompanies: int,
    totalCompanies: int,
    leafNodes: int)

  /** The nested tree below node n, with the counters read from the three arrays. */
  function Materialize(f: Forest, direct: seq<int>, total: seq<int>, leaves: seq<int>, n: nat, d: nat): (t: TreeNode)
    requires Bounded(f, n, d) && |direct| == |total| == |leaves| == |f.nodes|
    ensures t.node == f.nodes[n] && |t.children| == |f.children[n]|
    decreases d
  {
    var cs := f.children[n];
    TreeNode(
      f.nodes[n],
      seq(|cs|, k requires 0 <= k < |cs| => Materialize(f, direct, total, leaves, cs[k], d - 1)),
      direct[n], total[n], leaves[n])
  }

  function SumDirectOf(ts: seq<TreeNode>): int {
    if ts == [] then 0 else SumDirectOf(ts[..|ts| - 1]) + ts[|ts| - 1].directCompanies
  }

  function SumLeafNodesOf(ts: seq<TreeNode>): int {
    if ts == [] then 0 else SumLeafNodesOf(ts[..|ts| - 1]) + ts[|ts| - 1].leafNodes
  }

  /**
   * The rollup rule on the serialised tree, at every node: a leaf has total 0
   * and counts itself when its direct count is positive; an inner node's total
   * is the sum of its children's direct counts and its leaf count the sum of
   * theirs.
   */
  ghost predicate TreeRolledUp(t: TreeNode)
    decreases t
  {
    && (if t.children == []
        then t.totalCompanies == 0 && t.leafNodes == (if t.directCompanies > 0 then 1 else 0)
        else t.totalCompanies == SumDirectOf(t.children) && t.leafNodes == SumLeafNodesOf(t.children))
    && forall k :: 0 <= k < |t.children| ==> TreeRolledUp(t.children[k])
  }

  /**
   * The direct counts on the serialised tree: each node reached carries the sum
   * for its clean code, or 0 when its query throws, in which case nothing is
   * said of the nodes below it.
   */
  ghost predicate TreeCounted(t: TreeNode, facts: seq<Impresa>, failed: set<string>)
    decreases t
  {
    var cleanCode := StripDots(t.node.code);
    if Fails(failed, cleanCode) then t.directCompanies == 0
    else
      && t.directCompanies == DirectCount(facts, cleanCode)
      && forall k :: 0 <= k < |t.children| ==> TreeCounted(t.children[k], facts, failed)
  }

  /** Every node of a tree, parents before children. */
  function Flatten(t: TreeNode): (r: seq<TreeNode>)
    decreases t, 1
  {
    [t] + FlattenAll(t.children)
  }

  function FlattenAll(ts: seq<TreeNode>): (r: seq<TreeNode>)
    decreases ts, 0
  {
    if ts == [] then [] else FlattenAll(ts[..|ts| - 1]) + Flatten(ts[|ts| - 1])
  }

  /** The number of childless nodes with a positive direct count. */
  function PositiveLeaves(ts: seq<TreeNode>): nat {
    if ts == [] then 0
    else PositiveLeaves(ts[..|ts| - 1]) + (if ts[|ts| - 1].children == [] && ts[|ts| - 1].directCompanies > 0 then 1 else 0)
  }

  lemma {:induction false} PositiveLeavesAppend(a: seq<TreeNode>, b: seq<TreeNode>)
    ensures PositiveLeaves(a + b) == PositiveLeaves(a) + PositiveLeaves(b)
  {
    if b != [] {
      assert (a + b)[..|a + b| - 1] == a + b[..|b| - 1];
      PositiveLeavesAppend(a, b[..|b| - 1]);
    } else {
      assert a + b == a;
    }
  }

  /**
   * On a rolled-up tree, `leafNodes` is the number of childless nodes in the
   * subtree, the node itself included, whose direct count is positive.
   */
  lemma {:induction false} LeafNodesCountPositiveLeaves(t: TreeNode)
    requires TreeRolledUp(t)
    ensures t.leafNodes == PositiveLeaves(Flatten(t))
    decreases t, 1
  {
    PositiveLeavesAppend([t], FlattenAll(t.children));
    assert PositiveLeaves([t]) == (if t.children == [] && t.directCompanies > 0 then 1 else 0) by {
      assert [t][..0] == [];
    }
    LeafNodesCountAll(t.children);
  }

  lemma {:induction false} LeafNodesCountAll(ts: seq<TreeNode>)
    requires forall k :: 0 <= k < |ts| ==> TreeRolledUp(ts[k])
    ensures SumLeafNodesOf(ts) == PositiveLeaves(FlattenAll(ts))
    decreases ts, 0
  {
    if ts != [] {
      LeafNodesCountAll(ts[..|ts| - 1]);
      LeafNodesCountPositiveLeaves(ts[|ts| - 1]);
      PositiveLeavesAppend(FlattenAll(ts[..|ts| - 1]), Flatten(ts[|ts| - 1]));
    }
  }

  lemma {:induction false} VisitedAllContains(f: Forest, failed: set<string>, cs: seq<nat>, d: nat, k: nat)
    requires BoundedAll(f, cs, d) && k < |cs|
    ensures Visited(f, failed, cs[k], d) <= VisitedAll(f, failed, cs, d)
  {
    if k < |cs| - 1 {
      VisitedAllContains(f, failed, cs[..|cs| - 1], d, k);
    }
  }

  lemma {:induction false} SumDirectPointwise(ts: seq<TreeNode>, direct: seq<int>, cs: seq<nat>)
    requires |ts| == |cs| && forall k :: 0 <= k < |cs| ==> cs[k] < |direct| && ts[k].directCompanies == direct[cs[k]]
    ensures SumDirectOf(ts) == DirectSum(direct, cs)
  {
    if ts != [] {
      SumDirectPointwise(ts[..|ts| - 1], direct, cs[..|cs| - 1]);
    }
  }

  lemma {:induction false} SumLeafNodesPointwise(ts: seq<TreeNode>, f: Forest, direct: seq<int>, cs: seq<nat>, d: nat)
    requires BoundedAll(f, cs, d) && |direct| == |f.nodes|
    requires |ts| == |cs| && forall k :: 0 <= k < |cs| ==> ts[k].leafNodes == LeafValue(f, direct, cs[k], d)
    ensures SumLeafNodesOf(ts) == LeafSum(f, direct, cs, d)
  {
    if ts != [] {
      SumLeafNodesPointwise(ts[..|ts| - 1], f, direct, cs[..|cs| - 1], d);
    }
  }

  /** Arrays that carry the rollup's values on a subtree serialise to a rolled-up tree. */
  lemma {:induction false} MaterializeRolledUp(f: Forest, direct: seq<int>, total: seq<int>, leaves: seq<int>, n: nat, d: nat)
    requires Bounded(f, n, d) && |direct| == |total| == |leaves| == |f.nodes|
    requires forall m :: 0 <= m < |f.nodes| && m in Reach(f, n, d) ==> RolledUpAt(f, direct, m, total[m], leaves[m])
    ensures TreeRolledUp(Materialize(f, direct, total, leaves, n, d))
    decreases d
  {
    var t := Materialize(f, direct, total, leaves, n, d);
    var cs := f.children[n];
    assert Reach(f, n, d) == {n} + ReachAll(f, cs, d - 1);
    forall k | 0 <= k < |cs|
      ensures TreeRolledUp(t.children[k])
      ensures t.children[k].directCompanies == direct[cs[k]]
      ensures t.children[k].leafNodes == LeafValue(f, direct, cs[k], d - 1)
    {
      VisitedAllContains(f, {}, cs, d - 1, k);
      assert cs[k] in Reach(f, cs[k], d - 1);
      MaterializeRolledUp(f, direct, total, leaves, cs[k], d - 1);
    }
    assert n in Reach(f, n, d);
    if cs != [] {
      SumDirectPointwise(t.children, direct, cs);
      SumLeafNodesPointwise(t.children, f, direct, cs, d - 1);
    }
  }

  /** Arrays that carry the direct counts on the visited nodes serialise to a counted tree. */
  lemma {:induction false} MaterializeCounted(f: Forest, direct: seq<int>, total: seq<int>, leaves: seq<int>,
                                              facts: seq<Impresa>, failed: set<string>, n: nat, d: nat)
    requires Bounded(f, n, d) && |direct| == |total| == |leaves| == |f.nodes|
    requires forall m :: 0 <= m < |f.nodes| && m in Visited(f, failed, n, d) ==> direct[m] == ExpectedDirect(f, facts, failed, m)
    ensures TreeCounted(Materialize(f, direct, total, leaves, n, d), facts, failed)
    decreases d
  {
    var t := Materialize(f, direct, total, leaves, n, d);
    var cs := f.children[n];
    assert n in Visited(f, failed, n, d);
    if !Fails(failed, StripDots(f.nodes[n].code)) {
      assert Visited(f, failed, n, d) == {n} + VisitedAll(f, failed, cs, d - 1);
      forall k | 0 <= k < |cs| ensures TreeCounted(t.children[k], facts, failed) {
        VisitedAllContains(f, failed, cs, d - 1, k);
        MaterializeCounted(f, direct, total, leaves, facts, failed, cs[k], d - 1);
      }
    }
  }

  /** `t` has the shape of the subtree of node n: the same node, and one child per child index, in order. */
  ghost predicate Mirrors(t: TreeNode, f: Forest, n: nat)
    decreases t
  {
    && n < |f.nodes| && n < |f.children|
    && t.node == f.nodes[n]
    && |t.children| == |f.children[n]|
    && forall k :: 0 <= k < |t.children| ==> Mirrors(t.children[k], f, f.children[n][k])
  }

  /** The serialised subtree of n has the shape of n's subtree, all the way down. */
  lemma {:induction false} MaterializeMirrors(f: Forest, direct: seq<int>, total: seq<int>, leaves: seq<int>, n: nat, d: nat)
    requires Bounded(f, n, d) && |direct| == |total| == |leaves| == |f.nodes|
    ensures Mirrors(Materialize(f, direct, total, leaves, n, d), f, n)
    decreases d
  {
    var t := Materialize(f, direct, total, leaves, n, d);
    forall k | 0 <= k < |t.children| ensures Mirrors(t.children[k], f, f.children[n][k]) {
      MaterializeMirrors(f, direct, total, leaves, f.children[n][k], d - 1);
    }
  }

  lemma {:induction false} FlattenAllMember(ts: seq<TreeNode>, u: TreeNode) returns (k: nat)
    requires u in FlattenAll(ts)
    ensures k < |ts| && u in Flatten(ts[k])
    decreases |ts|
  {
    if u in Flatten(ts[|ts| - 1]) {
      k := |ts| - 1;
    } else {
      k := FlattenAllMember(ts[..|ts| - 1], u);
    }
  }

  /** Every node of a tree with the shape of n's subtree is a node of that subtree. */
  lemma {:induction false} MirrorsNodes(t: TreeNode, f: Forest, n: nat, d: nat, u: TreeNode) returns (m: nat)
    requires Mirrors(t, f, n) && Bounded(f, n, d) && u in Flatten(t)
    ensures m < |f.nodes| && m in Reach(f, n, d) && u.node == f.nodes[m]
    decreases t
  {
    if u == t {
      m := n;
    } else {
      var k := FlattenAllMember(t.children, u);
      var c := f.children[n][k];
      m := MirrorsNodes(t.children[k], f, c, d - 1, u);
      VisitedAllContains(f, {}, f.children[n], d - 1, k);
    }
  }

  /**
   * A row without a parent that the root filter drops is absent from the
   * returned trees with its whole subtree: every node of a returned tree is
   * a node reached from that tree's root, and none of those lies below the
   * dropped row.
   */
  lemma FilteredRowAbsent(rows: seq<AtecoRow>, rootCode: string, tree: seq<TreeNode>, j: nat, k: nat, u: TreeNode)
    returns (m: nat)
    requires UniqueCodes(rows) && j < |rows| && !HasParent(rows, j) && !IsRoot(rows, rootCode, j)
    requires |tree| == |BuiltForest(rows, rootCode).roots| && k < |tree|
    requires Mirrors(tree[k], BuiltForest(rows, rootCode), BuiltForest(rows, rootCode).roots[k])
    requires u in Flatten(tree[k])
    ensures var f := BuiltForest(rows, rootCode);
      && Bounded(f, j, |rows|) && Bounded(f, f.roots[k], |rows|)
      && m < |rows| && u.node == f.nodes[m]
      && m in Reach(f, f.roots[k], |rows|) && m !in Reach(f, j, |rows|)
  {
    var f := BuiltForest(rows, rootCode);
    FilteredSubtreeDisjoint(rows, rootCode, j, k, 0);
    m := MirrorsNodes(tree[k], f, f.roots[k], |rows|, u);
    FilteredSubtreeDisjoint(rows, rootCode, j, k, m);
  }

  /** The sort key of `ORDER BY code`. */
  function CodeKey(row: AtecoRow): string {
    row.code
  }

  /** The row filter of the tree query: `code = ? OR code LIKE '<rootCode>%'`. */
  predicate InSubtreeQuery(rootCode: string, row: AtecoRow) {
    row.code == rootCode || StartsWith(row.code, rootCode)
  }

  /** The rows the tree endpoint selects: all of them, or those under `rootCode`, in code order. */
  function TreeQueryRows(table: seq<AtecoRow>, rootCode: string): (r: seq<AtecoRow>)
    ensures SortedBy(r, CodeKey)
  {
    var selected := if rootCode == "" then table else Filter(table, row => InSubtreeQuery(rootCode, row));
    SortByKey(selected, CodeKey)
  }

  /** The selected rows are exactly the table rows whose code starts with `rootCode`. */
  lemma TreeQueryRowsSelect(table: seq<AtecoRow>, rootCode: string, row: AtecoRow)
    ensures row in TreeQueryRows(table, rootCode) <==> row in table && StartsWith(row.code, rootCode)
  {
    var selected := if rootCode == "" then table else Filter(table, row => InSubtreeQuery(rootCode, row));
    var r := SortByKey(selected, CodeKey);
    assert row in r <==> row in multiset(selected);
    if rootCode != "" && row in selected {
      var k :| 0 <= k < |selected| && selected[k] == row;
      assert InSubtreeQuery(rootCode, row);
    }
    if row in table && StartsWith(row.code, rootCode) {
      var k :| 0 <= k < |table| && table[k] == row;
      assert row in selected;
    }
  }

  lemma {:induction false} FilterUnique(rows: seq<AtecoRow>, p: AtecoRow -> bool)
    requires UniqueCodes(rows)
    ensures UniqueCodes(Filter(rows, p))
  {
    if rows != [] {
      var init := rows[..|rows| - 1];
      FilterUnique(init, p);
      var fi := Filter(init, p);
      forall k | 0 <= k < |fi| ensures fi[k].code != rows[|rows| - 1].code {
        var j :| 0 <= j < |init| && init[j] == fi[k];
        assert rows[j] == fi[k];
      }
    }
  }

  lemma TreeQueryRowsUnique(table: seq<AtecoRow>, rootCode: string)
    requires UniqueCodes(table)
    ensures UniqueCodes(TreeQueryRows(table, rootCode))
  {
    var selected := if rootCode == "" then table else Filter(table, row => InSubtreeQuery(rootCode, row));
    if rootCode != "" {
      FilterUnique(table, row => InSubtreeQuery(rootCode, row));
    }
    assert DistinctKeys(selected, CodeKey);
    SortByKeyDistinct(selected, CodeKey);
  }

  /** The returned array: one serialised tree per root. */
  function Serialise(f: Forest, direct: seq<int>, total: seq<int>, leaves: seq<int>, d: nat): (r: seq<TreeNode>)
    requires BoundedAll(f, f.roots, d) && |direct| == |total| == |leaves| == |f.nodes|
    ensures |r| == |f.roots| && forall k :: 0 <= k < |r| ==> r[k].node == f.nodes[f.roots[k]]
  {
    seq(|f.roots|, k requires 0 <= k < |f.roots| => Materialize(f, direct, total, leaves, f.roots[k], d))
  }

  /** Counters that hold on the walked nodes hold on every node of the serialised trees. */
  lemma SerialiseCountedRolledUp(f: Forest, direct: seq<int>, total: seq<int>, leaves: seq<int>,
                                 facts: seq<Impresa>, failed: set<string>, d: nat)
    requires BoundedAll(f, f.roots, d) && |direct| == |total| == |leaves| == |f.nodes|
    requires forall m :: 0 <= m < |f.nodes| && m in VisitedAll(f, failed, f.roots, d) ==>
      direct[m] == ExpectedDirect(f, facts, failed, m)
    requires forall m :: 0 <= m < |f.nodes| && m in ReachAll(f, f.roots, d) ==>
      RolledUpAt(f, direct, m, total[m], leaves[m])
    ensures forall k :: 0 <= k < |f.roots| ==>
      TreeRolledUp(Serialise(f, direct, total, leaves, d)[k])
      && TreeCounted(Serialise(f, direct, total, leaves, d)[k], facts, failed)
  {
    forall k | 0 <= k < |f.roots|
      ensures TreeRolledUp(Serialise(f, direct, total, leaves, d)[k])
      ensures TreeCounted(Serialise(f, direct, total, leaves, d)[k], facts, failed)
    {
      VisitedAllContains(f, failed, f.roots, d, k);
      VisitedAllContains(f, {}, f.roots, d, k);
      MaterializeRolledUp(f, direct, total, leaves, f.roots[k], d);
      MaterializeCounted(f, direct, total, leaves, facts, failed, f.roots[k], d);
    }
  }

  /**
   * The tree endpoint: select and order the rows, build the forest, count the
   * direct companies, roll up, and serialise. Each returned tree is counted and
   * rolled up at every node, and there is one per root of the built forest.
   */
  method GetAtecoTree(table: seq<AtecoRow>, facts: seq<Impresa>, failed: set<string>, rootCode: string)
    returns (tree: seq<TreeNode>)
    requires UniqueCodes(table)
    ensures var f := BuiltForest(TreeQueryRows(table, rootCode), rootCode);
      && |tree| == |f.roots|
      && forall k :: 0 <= k < |tree| ==> tree[k].node == f.nodes[f.roots[k]] && Mirrors(tree[k], f, f.roots[k])
    ensures forall k :: 0 <= k < |tree| ==> TreeRolledUp(tree[k]) && TreeCounted(tree[k], facts, failed)
  {
    var rows := TreeQueryRows(table, rootCode);
    TreeQueryRowsUnique(table, rootCode);
    var f := BuildAtecoTree(rows, rootCode);
    BuiltForestBounded(rows, rootCode);
    var direct := new int[|f.nodes|](_ => 0);
    var total := new int[|f.nodes|](_ => 0);
    var leaves := new int[|f.nodes|](_ => 0);
    CalculateCompanyCounts(f, facts, failed, direct, |rows|);
    AddCompanyCountsToTree(f, direct, total, leaves, |rows|);
    var ds, ts, ls := direct[..], total[..], leaves[..];
    SerialiseCountedRolledUp(f, ds, ts, ls, facts, failed, |rows|);
    tree := Serialise(f, ds, ts, ls, |rows|);
    forall k | 0 <= k < |tree| ensures Mirrors(tree[k], f, f.roots[k]) {
      MaterializeMirrors(f, ds, ts, ls, f.roots[k], |rows|);
    }
  }
}
