/**
 * Building a CSP from a Futoshiki grid. A grid row holds the cells at its
 * even indices (0 = empty, otherwise a given value) and, between two cells,
 * '<', '>' or a spacer at the odd indices. One variable per cell; binary
 * inequality constraints for the marks; and either binary not-equal
 * constraints for every pair of cells in a row or column (model 1) or one
 * all-different constraint per row and per column (model 2).
 *
 * Satisfying tuples are generated in the order of a Cartesian product
 * (first component varying slowest) and filtered; variables are the indices
 * of the CSP's static domains, numbered row-major.
 */
module Futoshiki {
  import opened CspBase

  /** A grid entry: a cell value at an even index; a mark at an odd index. */
  datatype Entry = Num(n: int) | Mark(c: char)

  /** Every even index of every row holds a number. */
  predicate CellsAreNumbers(g: seq<seq<Entry>>)
  {
    forall r, j :: 0 <= r < |g| && 0 <= j < |g[r]| && j % 2 == 0 ==> g[r][j].Num?
  }

  /** The number of cells of a row: its even indices. */
  function Cells(row: seq<Entry>): nat
  {
    (|row| + 1) / 2
  }

  /** n rows, each with n cells and n - 1 marks. */
  predicate Square(g: seq<seq<Entry>>)
  {
    forall r :: 0 <= r < |g| ==> |g[r]| == 2 * |g| - 1
  }

  /** The value domain of a grid with n rows: 1, 2, ..., n. */
  function Values(n: nat): (r: seq<int>)
    ensures |r| == n
    ensures forall x :: x in r <==> 1 <= x <= n
    ensures forall i, j :: 0 <= i < j < n ==> r[i] < r[j]
  {
    var r := seq(n, i => i + 1);
    forall x | 1 <= x <= n ensures x in r {
      assert r[x - 1] == x;
    }
    r
  }

  // ---------------------------------------------------------------------------
  // Tuples: Cartesian products, filtered

  /** Every tuple of ts with x put in front. */
  function Prepend(x: int, ts: seq<seq<int>>): seq<seq<int>>
  {
    seq(|ts|, i requires 0 <= i < |ts| => [x] + ts[i])
  }

  function PrependEach(xs: seq<int>, rest: seq<seq<int>>): seq<seq<int>>
  {
    if xs == [] then [] else Prepend(xs[0], rest) + PrependEach(xs[1..], rest)
  }

  /** The Cartesian product of the domains ds, first component varying slowest. */
  function Product(ds: seq<seq<int>>): seq<seq<int>>
  {
    if ds == [] then [[]] else PrependEach(ds[0], Product(ds[1..]))
  }

  /** The tuples of ts that keep accepts, in their order in ts. */
  function Filter(ts: seq<seq<int>>, keep: seq<int> -> bool): seq<seq<int>>
  {
    if ts == [] then []
    else Filter(ts[..|ts| - 1], keep) + (if keep(ts[|ts| - 1]) then [ts[|ts| - 1]] else [])
  }

  lemma {:induction false} PrependEachMembers(xs: seq<int>, rest: seq<seq<int>>)
    ensures forall t :: t in PrependEach(xs, rest) <==> |t| > 0 && t[0] in xs && t[1..] in rest
  {
    if xs != [] {
      PrependEachMembers(xs[1..], rest);
      forall t ensures t in Prepend(xs[0], rest) <==> |t| > 0 && t[0] == xs[0] && t[1..] in rest {
        if |t| > 0 && t[0] == xs[0] && t[1..] in rest {
          var i :| 0 <= i < |rest| && rest[i] == t[1..];
          assert Prepend(xs[0], rest)[i] == t;
        }
      }
    }
  }

  /** A tuple is in the product exactly when it has one component per domain, each from its domain. */
  lemma {:induction false} ProductMembers(ds: seq<seq<int>>)
    ensures forall t :: t in Product(ds) <==> |t| == |ds| && forall i :: 0 <= i < |ds| ==> t[i] in ds[i]
  {
    if ds == [] {
      forall t | |t| == 0 ensures t in Product(ds) {
        assert t == [];
      }
    } else {
      ProductMembers(ds[1..]);
      PrependEachMembers(ds[0], Product(ds[1..]));
      forall t ensures t in Product(ds) <==> |t| == |ds| && forall i :: 0 <= i < |ds| ==> t[i] in ds[i] {
        if |t| == |ds| && forall i :: 0 <= i < |ds| ==> t[i] in ds[i] {
          assert forall i :: 0 <= i < |ds| - 1 ==> t[1..][i] == t[i + 1];
        }
        if t in Product(ds) {
          assert forall i :: 1 <= i < |ds| ==> t[i] == t[1..][i - 1];
        }
      }
    }
  }

  /** Filtering keeps exactly the accepted tuples. */
  lemma {:induction false} FilterMembers(ts: seq<seq<int>>, keep: seq<int> -> bool)
    ensures forall t :: t in Filter(ts, keep) <==> t in ts && keep(t)
  {
    if ts != [] {
      var init := ts[..|ts| - 1];
      FilterMembers(init, keep);
      assert ts == init + [ts[|ts| - 1]];
    }
  }

  /** The loop that walks a product and keeps the tuples that pass a test. */
  method KeepTuples(ts: seq<seq<int>>, keep: seq<int> -> bool) returns (kept: seq<seq<int>>)
    ensures kept == Filter(ts, keep)
  {
    kept := [];
    for k := 0 to |ts|
      invariant kept == Filter(ts[..k], keep)
    {
      assert ts[..k + 1][..k] == ts[..k];
      if keep(ts[k]) {
        kept := kept + [ts[k]];
      }
    }
    assert ts[..|ts|] == ts;
  }

  /** The test an inequality mark puts on a pair: '<' wants ascending, '>' descending, anything else nothing. */
  predicate IneqHolds(mark: Entry, t: seq<int>)
  {
    |t| == 2 && ((mark == Mark('<') && t[0] < t[1]) || (mark == Mark('>') && t[0] > t[1]))
  }

  predicate Differ(t: seq<int>)
  {
    |t| == 2 && t[0] != t[1]
  }

  /** No value occurs twice in t. */
  predicate AllDistinct(t: seq<int>)
  {
    forall i, j :: 0 <= i < j < |t| ==> t[i] != t[j]
  }

  /** The all-different test as the model builder writes it: the set of t's values is as large as t. */
  predicate SetKeepsAll(t: seq<int>)
  {
    |(set x | x in t)| == |t|
  }

  /** The set of a tuple's values is never larger than the tuple, and as large exactly when no value repeats. */
  lemma {:induction false} SetKeepsAllIffDistinct(t: seq<int>)
    ensures |(set x | x in t)| <= |t|
    ensures SetKeepsAll(t) <==> AllDistinct(t)
  {
    if t != [] {
      var rest := t[1..];
      SetKeepsAllIffDistinct(rest);
      var whole := set x | x in t;
      var tail := set x | x in rest;
      assert whole == tail + {t[0]};
      if t[0] in rest {
        assert whole == tail;
        var k :| 0 <= k < |rest| && rest[k] == t[0];
        assert t[k + 1] == t[0];
      } else {
        assert |whole| == |tail| + 1;
        if AllDistinct(rest) {
          forall i, j | 0 <= i < j < |t| ensures t[i] != t[j] {
            assert t[j] == rest[j - 1];
            if i > 0 {
              assert t[i] == rest[i - 1];
            }
          }
        }
        if AllDistinct(t) {
          forall i, j | 0 <= i < j < |rest| ensures rest[i] != rest[j] {
            assert rest[i] == t[i + 1] && rest[j] == t[j + 1];
          }
        }
      }
    }
  }

  function IneqTuples(dom: seq<int>, mark: Entry): seq<seq<int>>
  {
    Filter(Product([dom, dom]), t => IneqHolds(mark, t))
  }

  function NotEqualTuples(dom: seq<int>): seq<seq<int>>
  {
    Filter(Product([dom, dom]), Differ)
  }

  function AllDiffTuples(ds: seq<seq<int>>): seq<seq<int>>
  {
    Filter(Product(ds), SetKeepsAll)
  }

  /** The inequality tuples are exactly the ordered pairs over dom that the mark allows. */
  lemma IneqTuplesExact(dom: seq<int>, mark: Entry)
    ensures forall t :: t in IneqTuples(dom, mark) <==>
              && |t| == 2 && t[0] in dom && t[1] in dom
              && ((mark == Mark('<') && t[0] < t[1]) || (mark == Mark('>') && t[0] > t[1]))
  {
    ProductMembers([dom, dom]);
    FilterMembers(Product([dom, dom]), t => IneqHolds(mark, t));
  }

  /** The not-equal tuples are exactly the pairs over dom with distinct components. */
  lemma NotEqualTuplesExact(dom: seq<int>)
    ensures forall t :: t in NotEqualTuples(dom) <==> |t| == 2 && t[0] in dom && t[1] in dom && t[0] != t[1]
  {
    ProductMembers([dom, dom]);
    FilterMembers(Product([dom, dom]), Differ);
  }

  /** The all-different tuples pick one value per domain, no value twice. */
  lemma AllDiffTuplesExact(ds: seq<seq<int>>)
    ensures forall t :: t in AllDiffTuples(ds) <==>
              |t| == |ds| && (forall i :: 0 <= i < |ds| ==> t[i] in ds[i]) && AllDistinct(t)
  {
    ProductMembers(ds);
    FilterMembers(Product(ds), SetKeepsAll);
    forall t ensures SetKeepsAll(t) <==> AllDistinct(t) {
      SetKeepsAllIffDistinct(t);
    }
  }

  /** A variable whose domain is a single given value takes that value in every all-different tuple. */
  lemma GivenCellFixed(ds: seq<seq<int>>, k: nat, v: int)
    requires k < |ds| && ds[k] == [v]
    ensures forall t :: t in AllDiffTuples(ds) ==> |t| == |ds| && t[k] == v
  {
    AllDiffTuplesExact(ds);
  }

  // ---------------------------------------------------------------------------
  // Variables

  /** The static domain of a cell: just its value when given, the full domain when empty. */
  function CellDomain(e: Entry, dom: seq<int>): seq<int>
  {
    if e.Num? && e.n != 0 then [e.n] else dom
  }

  /** The number of cells in the rows before row x: the index of row x's first variable. */
  function RowStart(g: seq<seq<Entry>>, x: nat): nat
    requires x <= |g|
  {
    if x == 0 then 0 else RowStart(g, x - 1) + Cells(g[x - 1])
  }

  /**
   * The variables of one grid row, appended to those made so far: ids[y] is
   * the variable of the cell at index 2y, whose static domain is the cell's.
   */
  method CreateRowVars(row: seq<Entry>, dom: seq<int>, vars: seq<seq<int>>) returns (ids: seq<nat>, vars': seq<seq<int>>)
    requires forall j :: 0 <= j < |row| && j % 2 == 0 ==> row[j].Num?
    ensures |ids| == Cells(row) && |vars'| == |vars| + Cells(row)
    ensures vars'[..|vars|] == vars
    ensures RowLaidOut(row, ids, vars', |vars|, dom)
  {
    ids, vars' := [], vars;
    for y := 0 to Cells(row)
      invariant |ids| == y && |vars'| == |vars| + y
      invariant vars'[..|vars|] == vars
      invariant forall y' :: 0 <= y' < y ==> ids[y'] == |vars| + y' && vars'[ids[y']] == CellDomain(row[2 * y'], dom)
    {
      var tempDom := dom;
      if row[2 * y].n != 0 {
        tempDom := [row[2 * y].n];
      }
      vars' := vars' + [tempDom];
      ids := ids + [|vars'| - 1];
    }
  }

  /** Row `row` got the variables start, start + 1, ... in `ids`, each with its cell's static domain. */
  predicate RowLaidOut(row: seq<Entry>, ids: seq<nat>, vars: seq<seq<int>>, start: nat, dom: seq<int>)
  {
    && |ids| == Cells(row) && start + Cells(row) <= |vars|
    && forall y :: 0 <= y < Cells(row) ==> ids[y] == start + y && vars[ids[y]] == CellDomain(row[2 * y], dom)
  }

  lemma RowLaidOutExtends(row: seq<Entry>, ids: seq<nat>, vars: seq<seq<int>>, vars': seq<seq<int>>, start: nat, dom: seq<int>)
    requires RowLaidOut(row, ids, vars, start, dom)
    requires |vars| <= |vars'| && vars'[..|vars|] == vars
    ensures RowLaidOut(row, ids, vars', start, dom)
  {
    forall y | 0 <= y < Cells(row) ensures vars'[ids[y]] == vars[ids[y]] {
      assert vars'[..|vars|][ids[y]] == vars'[ids[y]];
    }
  }

  /** The first x rows of g are laid out in varGrid over vars, row after row. */
  predicate RowsLaidOut(g: seq<seq<Entry>>, varGrid: seq<seq<nat>>, vars: seq<seq<int>>, x: nat, dom: seq<int>)
    requires x <= |g| && x <= |varGrid|
  {
    forall x' :: 0 <= x' < x ==> RowLaidOut(g[x'], varGrid[x'], vars, RowStart(g, x'), dom)
  }

  lemma LayoutStep(g: seq<seq<Entry>>, varGrid: seq<seq<nat>>, vars: seq<seq<int>>, vars': seq<seq<int>>, row: seq<nat>, x: nat, dom: seq<int>)
    requires x < |g| && |varGrid| == x && |vars| == RowStart(g, x)
    requires RowsLaidOut(g, varGrid, vars, x, dom)
    requires |vars| <= |vars'| && vars'[..|vars|] == vars
    requires RowLaidOut(g[x], row, vars', RowStart(g, x), dom)
    ensures RowsLaidOut(g, varGrid + [row], vars', x + 1, dom)
  {
    var grid' := varGrid + [row];
    forall x' | 0 <= x' < x + 1 ensures RowLaidOut(g[x'], grid'[x'], vars', RowStart(g, x'), dom) {
      if x' < x {
        assert grid'[x'] == varGrid[x'];
        RowLaidOutExtends(g[x'], varGrid[x'], vars, vars', RowStart(g, x'), dom);
      }
    }
  }

  /**
   * One variable per cell, numbered row-major: varGrid[x][y] is the variable
   * of the cell at index 2y of row x, and vars holds the static domains in
   * variable order.
   */
  method CreateVarMatrix(g: seq<seq<Entry>>, dom: seq<int>) returns (varGrid: seq<seq<nat>>, vars: seq<seq<int>>)
    requires CellsAreNumbers(g)
    ensures |varGrid| == |g| && |vars| == RowStart(g, |g|)
    ensures forall x :: 0 <= x < |g| ==> RowLaidOut(g[x], varGrid[x], vars, RowStart(g, x), dom)
    ensures Concat(varGrid) == seq(|vars|, v => v)
  {
    varGrid, vars := [], [];
    for x := 0 to |g|
      invariant |varGrid| == x && |vars| == RowStart(g, x)
      invariant RowsLaidOut(g, varGrid, vars, x, dom)
    {
      ghost var before := vars;
      var row;
      row, vars := CreateRowVars(g[x], dom, vars);
      LayoutStep(g, varGrid, before, vars, row, x, dom);
      varGrid := varGrid + [row];
    }
    RowMajor(g, varGrid, vars, dom, |g|);
    assert varGrid[..|g|] == varGrid;
  }

  /** The rows of a matrix, one after another. */
  function Concat<T>(rows: seq<seq<T>>): seq<T>
  {
    if rows == [] then [] else Concat(rows[..|rows| - 1]) + rows[|rows| - 1]
  }

  /** Appending a row to the matrix appends it to the flattening. */
  lemma ConcatSnoc<T>(rows: seq<seq<T>>, r: seq<T>)
    ensures Concat(rows + [r]) == Concat(rows) + r
  {
    assert (rows + [r])[..|rows|] == rows;
  }

  /** An element of the flattening is exactly an element of one of the rows. */
  lemma {:induction false} ConcatMembers<T>(rows: seq<seq<T>>)
    ensures forall e :: e in Concat(rows) <==> exists i :: 0 <= i < |rows| && e in rows[i]
  {
    if rows != [] {
      var init := rows[..|rows| - 1];
      ConcatMembers(init);
      forall e ensures e in Concat(rows) <==> exists i :: 0 <= i < |rows| && e in rows[i] {
        if e in Concat(init) {
          var i :| 0 <= i < |init| && e in init[i];
          assert e in rows[i];
        }
        if exists i :: 0 <= i < |rows| && e in rows[i] {
          var i :| 0 <= i < |rows| && e in rows[i];
          if i < |init| {
            assert e in init[i];
          }
        }
      }
    }
  }

  /** The variables of the first x rows, read row by row, are 0, 1, ... up to the start of row x: vars is varGrid flattened. */
  lemma {:induction false} RowMajor(g: seq<seq<Entry>>, varGrid: seq<seq<nat>>, vars: seq<seq<int>>, dom: seq<int>, x: nat)
    requires x <= |g| && |varGrid| == |g|
    requires forall x' :: 0 <= x' < |g| ==> RowLaidOut(g[x'], varGrid[x'], vars, RowStart(g, x'), dom)
    ensures Concat(varGrid[..x]) == seq(RowStart(g, x), v => v)
  {
    if x > 0 {
      RowMajor(g, varGrid, vars, dom, x - 1);
      assert varGrid[..x][..x - 1] == varGrid[..x - 1];
      assert RowLaidOut(g[x - 1], varGrid[x - 1], vars, RowStart(g, x - 1), dom);
      CountOn(RowStart(g, x - 1), varGrid[x - 1]);
    }
  }

  /** Numbers start, start + 1, ... appended to 0 .. start - 1 count on to start + |ids| - 1. */
  lemma CountOn(start: nat, ids: seq<nat>)
    requires forall y :: 0 <= y < |ids| ==> ids[y] == start + y
    ensures seq(start, v => v) + ids == seq(start + |ids|, v => v)
  {
  }

  /** In a square grid of n rows, row x starts at variable x * n. */
  lemma {:induction false} RowStartSquare(g: seq<seq<Entry>>, x: nat)
    requires Square(g) && x <= |g|
    ensures RowStart(g, x) == x * |g|
  {
    if x > 0 {
      RowStartSquare(g, x - 1);
      assert Cells(g[x - 1]) == |g|;
    }
  }

  /** The layout of a square grid: varGrid[x][y] == x * n + y for n rows. */
  lemma SquareLayout(g: seq<seq<Entry>>, varGrid: seq<seq<nat>>, vars: seq<seq<int>>, dom: seq<int>)
    requires Square(g)
    requires |varGrid| == |g| && |vars| == RowStart(g, |g|)
    requires forall x :: 0 <= x < |g| ==> RowLaidOut(g[x], varGrid[x], vars, RowStart(g, x), dom)
    ensures |vars| == |g| * |g| && Layout(g, varGrid, |vars|)
    ensures forall x, y :: 0 <= x < |g| && 0 <= y < |g| ==>
              varGrid[x][y] == x * |g| + y && vars[varGrid[x][y]] == CellDomain(g[x][2 * y], dom)
  {
    var n := |g|;
    RowStartSquare(g, n);
    forall x, y | 0 <= x < n && 0 <= y < n
      ensures varGrid[x][y] == x * n + y < n * n && vars[varGrid[x][y]] == CellDomain(g[x][2 * y], dom)
    {
      RowStartSquare(g, x);
      assert Cells(g[x]) == n;
      assert RowLaidOut(g[x], varGrid[x], vars, RowStart(g, x), dom);
      CellIndexBound(x, y, n);
    }
  }

  lemma CellIndexBound(x: nat, y: nat, n: nat)
    requires x < n && y < n
    ensures x * n + y < n * n
  {
    assert (x + 1) * n == x * n + n;
    MulMonotone(x + 1, n, n);
  }

  lemma MulMonotone(a: nat, b: nat, n: nat)
    requires a <= b
    ensures a * n <= b * n
  {
  }

  // ---------------------------------------------------------------------------
  // Constraints

  /** The shape both models work on: n rows of n cells, a variable per cell. */
  predicate Shaped(g: seq<seq<Entry>>, varGrid: seq<seq<nat>>)
  {
    Square(g) && |varGrid| == |g| && forall x :: 0 <= x < |g| ==> |varGrid[x]| == |g|
  }

  /** A shaped grid whose variables are all below nVars. */
  predicate Layout(g: seq<seq<Entry>>, varGrid: seq<seq<nat>>, nVars: nat)
  {
    Shaped(g, varGrid) && forall x, y :: 0 <= x < |g| && 0 <= y < |g| ==> varGrid[x][y] < nVars
  }

  /** Whether the entry after cell index j of row i is an inequality mark. */
  predicate Marked(g: seq<seq<Entry>>, i: nat, j: nat)
    requires i < |g| && j < |g[i]|
  {
    j != |g[i]| - 1 && (g[i][j + 1] == Mark('>') || g[i][j + 1] == Mark('<'))
  }

  /** The constraint that the mark after cell jc of row i puts on that cell and the next. */
  function IneqCon(g: seq<seq<Entry>>, varGrid: seq<seq<nat>>, dom: seq<int>, i: nat, jc: nat): Constraint
    requires i < |g| && i < |varGrid| && jc + 1 < |varGrid[i]| && 2 * jc + 1 < |g[i]|
  {
    Constraint([varGrid[i][jc], varGrid[i][jc + 1]], IneqTuples(dom, g[i][2 * jc + 1]))
  }

  /** The inequality constraint after cell jc of row i, when there is a mark. */
  function IneqPart(g: seq<seq<Entry>>, varGrid: seq<seq<nat>>, dom: seq<int>, i: nat, jc: nat): seq<Constraint>
    requires Shaped(g, varGrid) && i < |g| && jc < |g|
  {
    if Marked(g, i, 2 * jc) then [IneqCon(g, varGrid, dom, i, jc)] else []
  }

  /** The not-equal constraint between cells jc and kc of row i. */
  function RowNeq(varGrid: seq<seq<nat>>, dom: seq<int>, i: nat, jc: nat, kc: nat): Constraint
    requires i < |varGrid| && jc < |varGrid[i]| && kc < |varGrid[i]|
  {
    Constraint([varGrid[i][jc], varGrid[i][kc]], NotEqualTuples(dom))
  }

  /** The not-equal constraint between cells i of rows jc and kc: two cells of column i. */
  function ColNeq(varGrid: seq<seq<nat>>, dom: seq<int>, i: nat, jc: nat, kc: nat): Constraint
    requires jc < |varGrid| && kc < |varGrid| && i < |varGrid[jc]| && i < |varGrid[kc]|
  {
    Constraint([varGrid[jc][i], varGrid[kc][i]], NotEqualTuples(dom))
  }

  /** Model 1's constraints for cell jc of row i, partner cells jc + 1 up to kEnd - 1: a row then a column constraint each. */
  function NeqPairs(g: seq<seq<Entry>>, varGrid: seq<seq<nat>>, dom: seq<int>, i: nat, jc: nat, kEnd: nat): seq<Constraint>
    requires Shaped(g, varGrid) && i < |g| && jc < |g| && kEnd <= |g|
  {
    if kEnd <= jc + 1 then []
    else NeqPairs(g, varGrid, dom, i, jc, kEnd - 1) + [RowNeq(varGrid, dom, i, jc, kEnd - 1), ColNeq(varGrid, dom, i, jc, kEnd - 1)]
  }

  /** Model 1's constraints for cells 0 to jEnd - 1 of row i. */
  function Row1(g: seq<seq<Entry>>, varGrid: seq<seq<nat>>, dom: seq<int>, i: nat, jEnd: nat): seq<Constraint>
    requires Shaped(g, varGrid) && i < |g| && jEnd <= |g|
  {
    if jEnd == 0 then []
    else Row1(g, varGrid, dom, i, jEnd - 1) + IneqPart(g, varGrid, dom, i, jEnd - 1) + NeqPairs(g, varGrid, dom, i, jEnd - 1, |g|)
  }

  /** Model 1's constraints for rows 0 to iEnd - 1, in the order they are added. */
  function Model1Cons(g: seq<seq<Entry>>, varGrid: seq<seq<nat>>, dom: seq<int>, iEnd: nat): seq<Constraint>
    requires Shaped(g, varGrid) && iEnd <= |g|
  {
    if iEnd == 0 then [] else Model1Cons(g, varGrid, dom, iEnd - 1) + Row1(g, varGrid, dom, iEnd - 1, |g|)
  }

  /** Every variable of every scope in cons is one of the first nVars. */
  predicate ScopesBelow(cons: seq<Constraint>, nVars: nat)
  {
    forall c :: c in cons ==> ScopeBelow(c, nVars)
  }

  predicate ScopeBelow(c: Constraint, nVars: nat)
  {
    forall k :: 0 <= k < |c.scope| ==> c.scope[k] < nVars
  }

  /** The inequality constraint for the mark after the cell at index j (even) of row i. */
  method CreateIneqCons(g: seq<seq<Entry>>, varGrid: seq<seq<nat>>, dom: seq<int>, i: nat, j: nat) returns (c: Constraint)
    requires i < |g| && i < |varGrid| && j % 2 == 0 && j + 1 < |g[i]| && j / 2 + 1 < |varGrid[i]|
    ensures c == IneqCon(g, varGrid, dom, i, j / 2)
  {
    var mark := g[i][j + 1];
    var tuples := KeepTuples(Product([dom, dom]), t => IneqHolds(mark, t));
    c := Constraint([varGrid[i][j / 2], varGrid[i][j / 2 + 1]], tuples);
  }

  /** Adds cons to a fresh CSP over the static domains vars, one by one. */
  method BuildCsp(vars: seq<seq<int>>, cons: seq<Constraint>) returns (csp: Csp)
    requires ScopesBelow(cons, |vars|)
    ensures fresh(csp) && csp.Valid()
    ensures csp.dom == vars && csp.cons == cons
    ensures forall v :: 0 <= v < |vars| ==> csp.cur[v] == (set x | x in vars[v]) && csp.asg[v] == None
  {
    csp := new Csp(vars);
    for k := 0 to |cons|
      invariant csp.Valid() && csp.dom == vars && csp.cons == cons[..k]
      invariant forall v :: 0 <= v < |vars| ==> csp.cur[v] == (set x | x in vars[v]) && csp.asg[v] == None
    {
      assert cons[k] in cons;
      csp.AddConstraint(cons[k]);
      assert cons[..k + 1] == cons[..k] + [cons[k]];
    }
    assert cons[..|cons|] == cons;
  }

  /** Model 1's not-equal constraints between cell jc of row i (column i) and each later cell, appended to cons. */
  method AddPairs1(g: seq<seq<Entry>>, varGrid: seq<seq<nat>>, dom: seq<int>, i: nat, jc: nat,
                   cons: seq<Constraint>) returns (cons': seq<Constraint>)
    requires Shaped(g, varGrid) && i < |g| && jc < |g|
    ensures cons' == cons + NeqPairs(g, varGrid, dom, i, jc, |g|)
  {
    cons' := cons;
    for kc := jc + 1 to |g|
      invariant cons' == cons + NeqPairs(g, varGrid, dom, i, jc, kc)
    {
      var tuples := KeepTuples(Product([dom, dom]), Differ);
      var row := Constraint([varGrid[i][jc], varGrid[i][kc]], tuples);
      var col := Constraint([varGrid[jc][i], varGrid[kc][i]], tuples);
      assert [row, col] == [RowNeq(varGrid, dom, i, jc, kc), ColNeq(varGrid, dom, i, jc, kc)];
      cons' := cons' + [row, col];
    }
  }

  /** Model 1's constraints for cell jc of row i, appended to cons: its inequality, then its row and column pairs. */
  method AddCellConstraints1(g: seq<seq<Entry>>, varGrid: seq<seq<nat>>, dom: seq<int>, i: nat, jc: nat,
                             cons: seq<Constraint>) returns (cons': seq<Constraint>)
    requires Shaped(g, varGrid) && i < |g| && jc < |g|
    ensures cons' == cons + IneqPart(g, varGrid, dom, i, jc) + NeqPairs(g, varGrid, dom, i, jc, |g|)
  {
    var j := 2 * jc;
    cons' := cons;
    if j != |g[i]| - 1 && (g[i][j + 1] == Mark('>') || g[i][j + 1] == Mark('<')) {
      var ineq := CreateIneqCons(g, varGrid, dom, i, j);
      cons' := cons' + [ineq];
    }
    cons' := AddPairs1(g, varGrid, dom, i, jc, cons');
  }

  /** Model 1's constraints for row i, cell after cell, appended to cons. */
  method AddRow1(g: seq<seq<Entry>>, varGrid: seq<seq<nat>>, dom: seq<int>, i: nat, cons: seq<Constraint>) returns (cons': seq<Constraint>)
    requires Shaped(g, varGrid) && i < |g|
    ensures cons' == cons + Row1(g, varGrid, dom, i, |g|)
  {
    cons' := cons;
    for jc := 0 to |g|
      invariant cons' == cons + Row1(g, varGrid, dom, i, jc)
    {
      cons' := AddCellConstraints1(g, varGrid, dom, i, jc, cons');
      Row1Step(g, varGrid, dom, i, jc, cons);
    }
  }

  /** Appending cell jc's constraints to row i's constraints for the earlier cells gives those up to cell jc. */
  lemma Row1Step(g: seq<seq<Entry>>, varGrid: seq<seq<nat>>, dom: seq<int>, i: nat, jc: nat, cons: seq<Constraint>)
    requires Shaped(g, varGrid) && i < |g| && jc < |g|
    ensures cons + Row1(g, varGrid, dom, i, jc) + IneqPart(g, varGrid, dom, i, jc) + NeqPairs(g, varGrid, dom, i, jc, |g|)
            == cons + Row1(g, varGrid, dom, i, jc + 1)
  {
    var r := Row1(g, varGrid, dom, i, jc);
    var p := IneqPart(g, varGrid, dom, i, jc);
    var q := NeqPairs(g, varGrid, dom, i, jc, |g|);
    assert Row1(g, varGrid, dom, i, jc + 1) == r + p + q;
    assert cons + r + p + q == cons + (r + p + q);
  }

  /** The loops of model 1 over rows and cells, collecting the constraints in order. */
  method Model1Constraints(g: seq<seq<Entry>>, varGrid: seq<seq<nat>>, dom: seq<int>) returns (cons: seq<Constraint>)
    requires Shaped(g, varGrid)
    ensures cons == Model1Cons(g, varGrid, dom, |g|)
  {
    cons := [];
    for i := 0 to |g|
      invariant cons == Model1Cons(g, varGrid, dom, i)
    {
      cons := AddRow1(g, varGrid, dom, i, cons);
    }
  }

  /**
   * Model 1: one variable per cell, an inequality constraint per mark and a
   * binary not-equal constraint for every pair of cells sharing a row or a
   * column.
   */
  method FutoshikiModel1(g: seq<seq<Entry>>) returns (csp: Csp, varGrid: seq<seq<nat>>)
    requires CellsAreNumbers(g) && Square(g)
    ensures fresh(csp) && csp.Valid() && CellVars(g, varGrid, csp.dom)
    ensures csp.cons == Model1Cons(g, varGrid, Values(|g|), |g|)
    ensures forall v :: 0 <= v < |csp.dom| ==> csp.cur[v] == (set x | x in csp.dom[v]) && csp.asg[v] == None
  {
    var dom := Values(|g|);
    var vars;
    varGrid, vars := CreateVarMatrix(g, dom);
    SquareLayout(g, varGrid, vars, dom);
    var cons := Model1Constraints(g, varGrid, dom);
    Model1Scopes(g, varGrid, dom, |vars|);
    csp := BuildCsp(vars, cons);
  }

  // ---------------------------------------------------------------------------
  // Which constraints model 1 makes

  /** c is one of the constraints model 1 makes for cell jc of row i. */
  predicate Model1ConAt(g: seq<seq<Entry>>, varGrid: seq<seq<nat>>, dom: seq<int>, c: Constraint, i: nat, jc: nat)
    requires Shaped(g, varGrid) && i < |g| && jc < |g|
  {
    || (Marked(g, i, 2 * jc) && jc + 1 < |g| && c == IneqCon(g, varGrid, dom, i, jc))
    || exists kc :: jc < kc < |g| && (c == RowNeq(varGrid, dom, i, jc, kc) || c == ColNeq(varGrid, dom, i, jc, kc))
  }

  lemma {:induction false} NeqPairsMembers(g: seq<seq<Entry>>, varGrid: seq<seq<nat>>, dom: seq<int>, i: nat, jc: nat, kEnd: nat)
    requires Shaped(g, varGrid) && i < |g| && jc < |g| && kEnd <= |g|
    ensures forall c :: c in NeqPairs(g, varGrid, dom, i, jc, kEnd) <==>
              exists kc :: jc < kc < kEnd && (c == RowNeq(varGrid, dom, i, jc, kc) || c == ColNeq(varGrid, dom, i, jc, kc))
    decreases kEnd
  {
    if kEnd > jc + 1 {
      NeqPairsMembers(g, varGrid, dom, i, jc, kEnd - 1);
    }
  }

  lemma {:induction false} Row1Members(g: seq<seq<Entry>>, varGrid: seq<seq<nat>>, dom: seq<int>, i: nat, jEnd: nat)
    requires Shaped(g, varGrid) && i < |g| && jEnd <= |g|
    ensures forall c :: c in Row1(g, varGrid, dom, i, jEnd) <==> exists jc :: 0 <= jc < jEnd && Model1ConAt(g, varGrid, dom, c, i, jc)
  {
    if jEnd > 0 {
      var jc := jEnd - 1;
      Row1Members(g, varGrid, dom, i, jc);
      NeqPairsMembers(g, varGrid, dom, i, jc, |g|);
      var cell := IneqPart(g, varGrid, dom, i, jc) + NeqPairs(g, varGrid, dom, i, jc, |g|);
      forall c ensures c in cell <==> Model1ConAt(g, varGrid, dom, c, i, jc) {
        if Marked(g, i, 2 * jc) {
          assert jc + 1 < |g|;
        }
      }
      forall c ensures c in Row1(g, varGrid, dom, i, jEnd) <==> exists jc' :: 0 <= jc' < jEnd && Model1ConAt(g, varGrid, dom, c, i, jc') {
        assert Row1(g, varGrid, dom, i, jEnd) == Row1(g, varGrid, dom, i, jc) + cell;
        if Model1ConAt(g, varGrid, dom, c, i, jc) {
          assert c in cell;
        }
        if exists jc' :: 0 <= jc' < jEnd && Model1ConAt(g, varGrid, dom, c, i, jc') {
          var jc' :| 0 <= jc' < jEnd && Model1ConAt(g, varGrid, dom, c, i, jc');
          if jc' == jc {
            assert c in cell;
          } else {
            assert c in Row1(g, varGrid, dom, i, jc);
          }
        }
      }
    }
  }

  /** A constraint is in model 1 exactly when it is the inequality of a marked pair or the not-equal of two cells sharing a row or a column. */
  lemma {:induction false} Model1Members(g: seq<seq<Entry>>, varGrid: seq<seq<nat>>, dom: seq<int>, iEnd: nat)
    requires Shaped(g, varGrid) && iEnd <= |g|
    ensures forall c :: c in Model1Cons(g, varGrid, dom, iEnd) <==>
              exists i, jc :: 0 <= i < iEnd && 0 <= jc < |g| && Model1ConAt(g, varGrid, dom, c, i, jc)
  {
    if iEnd > 0 {
      var i := iEnd - 1;
      Model1Members(g, varGrid, dom, i);
      Row1Members(g, varGrid, dom, i, |g|);
      var row := Row1(g, varGrid, dom, i, |g|);
      assert Model1Cons(g, varGrid, dom, iEnd) == Model1Cons(g, varGrid, dom, i) + row;
      forall c ensures c in Model1Cons(g, varGrid, dom, iEnd) <==>
                         exists i', jc :: 0 <= i' < iEnd && 0 <= jc < |g| && Model1ConAt(g, varGrid, dom, c, i', jc)
      {
        if c in row {
          var jc :| 0 <= jc < |g| && Model1ConAt(g, varGrid, dom, c, i, jc);
        }
        if exists i', jc :: 0 <= i' < iEnd && 0 <= jc < |g| && Model1ConAt(g, varGrid, dom, c, i', jc) {
          var i', jc :| 0 <= i' < iEnd && 0 <= jc < |g| && Model1ConAt(g, varGrid, dom, c, i', jc);
          if i' == i {
            assert c in row;
          } else {
            assert c in Model1Cons(g, varGrid, dom, i);
          }
        }
      }
    }
  }

  /** Every scope of model 1 ranges over the grid's variables. */
  lemma Model1Scopes(g: seq<seq<Entry>>, varGrid: seq<seq<nat>>, dom: seq<int>, nVars: nat)
    requires Layout(g, varGrid, nVars)
    ensures ScopesBelow(Model1Cons(g, varGrid, dom, |g|), nVars)
  {
    Model1Members(g, varGrid, dom, |g|);
  }

  // ---------------------------------------------------------------------------
  // Model 2

  /** The variables of column i, top to bottom. */
  function ColVars(varGrid: seq<seq<nat>>, i: nat): seq<nat>
    requires forall x :: 0 <= x < |varGrid| ==> i < |varGrid[x]|
  {
    seq(|varGrid|, x requires 0 <= x < |varGrid| => varGrid[x][i])
  }

  /** The static domains of the variables of a scope, in scope order. */
  function Doms(vars: seq<seq<int>>, scope: seq<nat>): seq<seq<int>>
    requires forall k :: 0 <= k < |scope| ==> scope[k] < |vars|
  {
    seq(|scope|, k requires 0 <= k < |scope| => vars[scope[k]])
  }

  /** The all-different constraint over scope: the distinct-valued tuples of its variables' static domains. */
  function AllDiffCon(vars: seq<seq<int>>, scope: seq<nat>): Constraint
    requires forall k :: 0 <= k < |scope| ==> scope[k] < |vars|
  {
    Constraint(scope, AllDiffTuples(Doms(vars, scope)))
  }

  /** The inequality constraints of cells 0 to jEnd - 1 of row i. */
  function Ineqs(g: seq<seq<Entry>>, varGrid: seq<seq<nat>>, dom: seq<int>, i: nat, jEnd: nat): seq<Constraint>
    requires Shaped(g, varGrid) && i < |g| && jEnd <= |g|
  {
    if jEnd == 0 then [] else Ineqs(g, varGrid, dom, i, jEnd - 1) + IneqPart(g, varGrid, dom, i, jEnd - 1)
  }

  /** Appending cell jc's inequality to row i's inequalities for the earlier cells gives those up to cell jc. */
  lemma IneqsStep(g: seq<seq<Entry>>, varGrid: seq<seq<nat>>, dom: seq<int>, i: nat, jc: nat, cons: seq<Constraint>)
    requires Shaped(g, varGrid) && i < |g| && jc < |g|
    ensures cons + Ineqs(g, varGrid, dom, i, jc) + IneqPart(g, varGrid, dom, i, jc) == cons + Ineqs(g, varGrid, dom, i, jc + 1)
  {
    var r := Ineqs(g, varGrid, dom, i, jc);
    var p := IneqPart(g, varGrid, dom, i, jc);
    assert Ineqs(g, varGrid, dom, i, jc + 1) == r + p;
    assert cons + r + p == cons + (r + p);
  }

  /** Model 2's constraints for row i: its inequalities, then all-different over row i and over column i. */
  function Row2(g: seq<seq<Entry>>, varGrid: seq<seq<nat>>, vars: seq<seq<int>>, dom: seq<int>, i: nat): seq<Constraint>
    requires Layout(g, varGrid, |vars|) && i < |g|
  {
    Ineqs(g, varGrid, dom, i, |g|) + [AllDiffCon(vars, varGrid[i]), AllDiffCon(vars, ColVars(varGrid, i))]
  }

  /** Model 2's constraint lists for rows 0 to iEnd - 1. */
  function Rows2(g: seq<seq<Entry>>, varGrid: seq<seq<nat>>, vars: seq<seq<int>>, dom: seq<int>, iEnd: nat): seq<seq<Constraint>>
    requires Layout(g, varGrid, |vars|) && iEnd <= |g|
  {
    seq(iEnd, i requires 0 <= i < iEnd => Row2(g, varGrid, vars, dom, i))
  }

  /** Model 2's constraints for rows 0 to iEnd - 1, in the order they are added. */
  function Model2Cons(g: seq<seq<Entry>>, varGrid: seq<seq<nat>>, vars: seq<seq<int>>, dom: seq<int>, iEnd: nat): seq<Constraint>
    requires Layout(g, varGrid, |vars|) && iEnd <= |g|
  {
    Concat(Rows2(g, varGrid, vars, dom, iEnd))
  }

  /** The all-different constraint over scope, its tuples filtered from the product of the static domains. */
  method CreateAllDiffCons(vars: seq<seq<int>>, scope: seq<nat>) returns (c: Constraint)
    requires forall k :: 0 <= k < |scope| ==> scope[k] < |vars|
    ensures c == AllDiffCon(vars, scope)
  {
    var combinations := Product(Doms(vars, scope));
    var tuples := KeepTuples(combinations, SetKeepsAll);
    c := Constraint(scope, tuples);
  }

  /** After jc cells of row i: cons' holds their inequalities after cons, and varRow and varCol the row's and column's first jc variables. */
  ghost predicate Row2Inv(g: seq<seq<Entry>>, varGrid: seq<seq<nat>>, dom: seq<int>, i: nat, jc: nat,
                          cons: seq<Constraint>, cons': seq<Constraint>, varRow: seq<nat>, varCol: seq<nat>)
    requires Shaped(g, varGrid) && i < |g| && jc <= |g|
  {
    cons' == cons + Ineqs(g, varGrid, dom, i, jc) && varRow == varGrid[i][..jc] && varCol == ColVars(varGrid, i)[..jc]
  }

  lemma Row2InvStep(g: seq<seq<Entry>>, varGrid: seq<seq<nat>>, dom: seq<int>, i: nat, jc: nat,
                    cons: seq<Constraint>, before: seq<Constraint>, cons': seq<Constraint>, varRow: seq<nat>, varCol: seq<nat>)
    requires Shaped(g, varGrid) && i < |g| && jc < |g|
    requires Row2Inv(g, varGrid, dom, i, jc, cons, before, varRow, varCol)
    requires cons' == before + IneqPart(g, varGrid, dom, i, jc)
    ensures Row2Inv(g, varGrid, dom, i, jc + 1, cons, cons', varRow + [varGrid[i][jc]], varCol + [varGrid[jc][i]])
  {
    IneqsStep(g, varGrid, dom, i, jc, cons);
    PrefixGrows(varGrid[i], jc);
    PrefixGrows(ColVars(varGrid, i), jc);
  }

  /** A prefix grows by the next element. */
  lemma PrefixGrows<T>(s: seq<T>, k: nat)
    requires k < |s|
    ensures s[..k] + [s[k]] == s[..k + 1]
  {
  }

  /** Model 2's constraints for row i appended to cons, collecting the row's and the column's variables on the way. */
  method AddRow2(g: seq<seq<Entry>>, varGrid: seq<seq<nat>>, vars: seq<seq<int>>, dom: seq<int>, i: nat,
                 cons: seq<Constraint>) returns (cons': seq<Constraint>)
    requires Layout(g, varGrid, |vars|) && i < |g|
    ensures cons' == cons + Row2(g, varGrid, vars, dom, i)
  {
    var varRow: seq<nat> := [];
    var varCol: seq<nat> := [];
    cons' := cons;
    for jc := 0 to |g|
      invariant Row2Inv(g, varGrid, dom, i, jc, cons, cons', varRow, varCol)
    {
      var j := 2 * jc;
      ghost var before := cons';
      if j != |g[i]| - 1 && (g[i][j + 1] == Mark('>') || g[i][j + 1] == Mark('<')) {
        assert j / 2 == jc;
        var ineq := CreateIneqCons(g, varGrid, dom, i, j);
        cons' := cons' + [ineq];
      }
      Row2InvStep(g, varGrid, dom, i, jc, cons, before, cons', varRow, varCol);
      varRow := varRow + [varGrid[i][jc]];
      varCol := varCol + [varGrid[jc][i]];
    }
    Row2Finish(g, varGrid, vars, dom, i, cons, cons', varRow, varCol);
    var rowCon := CreateAllDiffCons(vars, varRow);
    var colCon := CreateAllDiffCons(vars, varCol);
    cons' := cons' + [rowCon, colCon];
  }

  lemma Row2Finish(g: seq<seq<Entry>>, varGrid: seq<seq<nat>>, vars: seq<seq<int>>, dom: seq<int>, i: nat,
                   cons: seq<Constraint>, cons': seq<Constraint>, varRow: seq<nat>, varCol: seq<nat>)
    requires Layout(g, varGrid, |vars|) && i < |g|
    requires Row2Inv(g, varGrid, dom, i, |g|, cons, cons', varRow, varCol)
    ensures varRow == varGrid[i] && varCol == ColVars(varGrid, i)
    ensures cons' + [AllDiffCon(vars, varRow), AllDiffCon(vars, varCol)] == cons + Row2(g, varGrid, vars, dom, i)
  {
    assert varGrid[i][..|g|] == varGrid[i];
    assert ColVars(varGrid, i)[..|g|] == ColVars(varGrid, i);
    var r := Ineqs(g, varGrid, dom, i, |g|);
    var t := [AllDiffCon(vars, varRow), AllDiffCon(vars, varCol)];
    assert cons + r + t == cons + (r + t);
  }

  /** The loop of model 2 over rows, collecting the constraints in order. */
  method Model2Constraints(g: seq<seq<Entry>>, varGrid: seq<seq<nat>>, vars: seq<seq<int>>, dom: seq<int>) returns (cons: seq<Constraint>)
    requires Layout(g, varGrid, |vars|)
    ensures cons == Model2Cons(g, varGrid, vars, dom, |g|)
  {
    cons := [];
    for i := 0 to |g|
      invariant cons == Model2Cons(g, varGrid, vars, dom, i)
    {
      cons := AddRow2(g, varGrid, vars, dom, i, cons);
      Model2ConsStep(g, varGrid, vars, dom, i + 1);
    }
  }

  /**
   * Model 2: one variable per cell, an inequality constraint per mark and an
   * all-different constraint per row and per column.
   */
  method FutoshikiModel2(g: seq<seq<Entry>>) returns (csp: Csp, varGrid: seq<seq<nat>>)
    requires CellsAreNumbers(g) && Square(g)
    ensures fresh(csp) && csp.Valid() && CellVars(g, varGrid, csp.dom)
    ensures csp.cons == Model2Cons(g, varGrid, csp.dom, Values(|g|), |g|)
    ensures forall v :: 0 <= v < |csp.dom| ==> csp.cur[v] == (set x | x in csp.dom[v]) && csp.asg[v] == None
  {
    var dom := Values(|g|);
    var vars;
    varGrid, vars := CreateVarMatrix(g, dom);
    SquareLayout(g, varGrid, vars, dom);
    var cons := Model2Constraints(g, varGrid, vars, dom);
    Model2Scopes(g, varGrid, vars, dom);
    csp := BuildCsp(vars, cons);
  }

  /** c is one of the constraints model 2 makes for row i. */
  predicate Model2ConAt(g: seq<seq<Entry>>, varGrid: seq<seq<nat>>, vars: seq<seq<int>>, dom: seq<int>, c: Constraint, i: nat)
    requires Layout(g, varGrid, |vars|) && i < |g|
  {
    || (exists jc :: 0 <= jc && jc + 1 < |g| && Marked(g, i, 2 * jc) && c == IneqCon(g, varGrid, dom, i, jc))
    || c == AllDiffCon(vars, varGrid[i])
    || c == AllDiffCon(vars, ColVars(varGrid, i))
  }

  lemma {:induction false} IneqsMembers(g: seq<seq<Entry>>, varGrid: seq<seq<nat>>, dom: seq<int>, i: nat, jEnd: nat)
    requires Shaped(g, varGrid) && i < |g| && jEnd <= |g|
    ensures forall c :: c in Ineqs(g, varGrid, dom, i, jEnd) <==>
              exists jc :: 0 <= jc < jEnd && jc + 1 < |g| && Marked(g, i, 2 * jc) && c == IneqCon(g, varGrid, dom, i, jc)
  {
    if jEnd > 0 {
      IneqsMembers(g, varGrid, dom, i, jEnd - 1);
      if Marked(g, i, 2 * (jEnd - 1)) {
        assert jEnd < |g|;
      }
    }
  }

  lemma Row2Members(g: seq<seq<Entry>>, varGrid: seq<seq<nat>>, vars: seq<seq<int>>, dom: seq<int>, i: nat)
    requires Layout(g, varGrid, |vars|) && i < |g|
    ensures forall c :: c in Row2(g, varGrid, vars, dom, i) <==> Model2ConAt(g, varGrid, vars, dom, c, i)
  {
    IneqsMembers(g, varGrid, dom, i, |g|);
  }

  /** A constraint is in model 2 exactly when it is the inequality of a marked pair or the all-different of a row or a column. */
  lemma Model2Members(g: seq<seq<Entry>>, varGrid: seq<seq<nat>>, vars: seq<seq<int>>, dom: seq<int>, iEnd: nat)
    requires Layout(g, varGrid, |vars|) && iEnd <= |g|
    ensures forall c :: c in Model2Cons(g, varGrid, vars, dom, iEnd) <==>
              exists i :: 0 <= i < iEnd && Model2ConAt(g, varGrid, vars, dom, c, i)
  {
    var rows := Rows2(g, varGrid, vars, dom, iEnd);
    ConcatMembers(rows);
    forall c ensures c in Concat(rows) <==> exists i :: 0 <= i < iEnd && Model2ConAt(g, varGrid, vars, dom, c, i) {
      if c in Concat(rows) {
        var i :| 0 <= i < iEnd && c in rows[i];
        Row2Members(g, varGrid, vars, dom, i);
      }
      if exists i :: 0 <= i < iEnd && Model2ConAt(g, varGrid, vars, dom, c, i) {
        var i :| 0 <= i < iEnd && Model2ConAt(g, varGrid, vars, dom, c, i);
        Row2Members(g, varGrid, vars, dom, i);
        assert c in rows[i];
      }
    }
  }

  /** Model 2's constraints grow row by row. */
  lemma Model2ConsStep(g: seq<seq<Entry>>, varGrid: seq<seq<nat>>, vars: seq<seq<int>>, dom: seq<int>, iEnd: nat)
    requires Layout(g, varGrid, |vars|) && 0 < iEnd <= |g|
    ensures Model2Cons(g, varGrid, vars, dom, iEnd) == Model2Cons(g, varGrid, vars, dom, iEnd - 1) + Row2(g, varGrid, vars, dom, iEnd - 1)
  {
    var rows := Rows2(g, varGrid, vars, dom, iEnd - 1);
    assert Rows2(g, varGrid, vars, dom, iEnd) == rows + [Row2(g, varGrid, vars, dom, iEnd - 1)];
    ConcatSnoc(rows, Row2(g, varGrid, vars, dom, iEnd - 1));
  }

  /** Every scope of model 2 ranges over the grid's variables. */
  lemma Model2Scopes(g: seq<seq<Entry>>, varGrid: seq<seq<nat>>, vars: seq<seq<int>>, dom: seq<int>)
    requires Layout(g, varGrid, |vars|)
    ensures ScopesBelow(Model2Cons(g, varGrid, vars, dom, |g|), |vars|)
  {
    Model2Members(g, varGrid, vars, dom, |g|);
  }

  // ---------------------------------------------------------------------------
  // What the models mean: their solutions are the puzzle's solutions

  /** The values a full assignment sol gives to the variables of a scope, in scope order. */
  function ScopeTuple(scope: seq<nat>, sol: seq<int>): seq<int>
    requires forall k :: 0 <= k < |scope| ==> scope[k] < |sol|
  {
    seq(|scope|, k requires 0 <= k < |scope| => sol[scope[k]])
  }

  /** A full assignment satisfies a constraint when its values on the scope form one of the constraint's tuples. */
  predicate Satisfied(c: Constraint, sol: seq<int>)
  {
    ScopeBelow(c, |sol|) && Check(c, ScopeTuple(c.scope, sol))
  }

  /** Every variable takes a value of its static domain. */
  predicate InDomains(vars: seq<seq<int>>, sol: seq<int>)
  {
    |sol| == |vars| && forall v :: 0 <= v < |vars| ==> sol[v] in vars[v]
  }

  /** A solution of a CSP with static domains vars and constraints cons. */
  ghost predicate CspSolution(vars: seq<seq<int>>, cons: seq<Constraint>, sol: seq<int>)
  {
    InDomains(vars, sol) && forall c :: c in cons ==> Satisfied(c, sol)
  }

  /** The variables as both models create them for a square grid: row-major, each with its cell's static domain. */
  predicate CellVars(g: seq<seq<Entry>>, varGrid: seq<seq<nat>>, vars: seq<seq<int>>)
  {
    && |vars| == |g| * |g| && Layout(g, varGrid, |vars|)
    && forall x, y :: 0 <= x < |g| && 0 <= y < |g| ==>
         varGrid[x][y] == x * |g| + y && vars[varGrid[x][y]] == CellDomain(g[x][2 * y], Values(|g|))
  }

  /** Every given value of the grid is one of 1..n. */
  predicate GivensInRange(g: seq<seq<Entry>>)
  {
    forall x, j :: 0 <= x < |g| && 0 <= j < |g[x]| && j % 2 == 0 && g[x][j].Num? && g[x][j].n != 0 ==> 1 <= g[x][j].n <= |g|
  }

  predicate CellsInRange(g: seq<seq<Entry>>, varGrid: seq<seq<nat>>, sol: seq<int>)
    requires Layout(g, varGrid, |sol|)
  {
    forall x, y :: 0 <= x < |g| && 0 <= y < |g| ==> 1 <= sol[varGrid[x][y]] <= |g|
  }

  predicate GivensKept(g: seq<seq<Entry>>, varGrid: seq<seq<nat>>, sol: seq<int>)
    requires CellsAreNumbers(g) && Layout(g, varGrid, |sol|)
  {
    forall x, y :: 0 <= x < |g| && 0 <= y < |g| && g[x][2 * y].n != 0 ==> sol[varGrid[x][y]] == g[x][2 * y].n
  }

  predicate NoRepeats(g: seq<seq<Entry>>, varGrid: seq<seq<nat>>, sol: seq<int>)
    requires Layout(g, varGrid, |sol|)
  {
    && (forall x, y, y' :: 0 <= x < |g| && 0 <= y < y' < |g| ==> sol[varGrid[x][y]] != sol[varGrid[x][y']])
    && (forall x, x', y :: 0 <= x < x' < |g| && 0 <= y < |g| ==> sol[varGrid[x][y]] != sol[varGrid[x'][y]])
  }

  predicate MarksHold(g: seq<seq<Entry>>, varGrid: seq<seq<nat>>, sol: seq<int>)
    requires Layout(g, varGrid, |sol|)
  {
    forall x, y :: 0 <= x < |g| && 0 <= y && y + 1 < |g| ==>
      && (g[x][2 * y + 1] == Mark('<') ==> sol[varGrid[x][y]] < sol[varGrid[x][y + 1]])
      && (g[x][2 * y + 1] == Mark('>') ==> sol[varGrid[x][y]] > sol[varGrid[x][y + 1]])
  }

  /**
   * The puzzle's rules: every cell holds one of 1..n, given cells keep their
   * value, no value repeats in a row or a column, and every mark holds.
   */
  ghost predicate Solves(g: seq<seq<Entry>>, varGrid: seq<seq<nat>>, sol: seq<int>)
    requires CellsAreNumbers(g) && Layout(g, varGrid, |sol|)
  {
    CellsInRange(g, varGrid, sol) && GivensKept(g, varGrid, sol) && NoRepeats(g, varGrid, sol) && MarksHold(g, varGrid, sol)
  }

  /** Every variable below n * n is the variable of a cell. */
  lemma CellOfVar(v: nat, n: nat) returns (x: nat, y: nat)
    requires v < n * n
    ensures x < n && y < n && v == x * n + y
  {
    x, y := v / n, v % n;
    if x >= n {
      MulMonotone(n, x, n);
      assert false;
    }
  }

  /** Taking a value of its static domain is, for every cell, being in range and keeping a given value. */
  lemma {:induction false} DomainsAreCells(g: seq<seq<Entry>>, varGrid: seq<seq<nat>>, vars: seq<seq<int>>, sol: seq<int>)
    requires CellsAreNumbers(g) && CellVars(g, varGrid, vars) && GivensInRange(g) && |sol| == |vars|
    ensures InDomains(vars, sol) <==> CellsInRange(g, varGrid, sol) && GivensKept(g, varGrid, sol)
  {
    var n := |g|;
    if InDomains(vars, sol) {
      forall x, y | 0 <= x < n && 0 <= y < n ensures 1 <= sol[varGrid[x][y]] <= n {
        assert sol[varGrid[x][y]] in vars[varGrid[x][y]];
      }
    }
    if CellsInRange(g, varGrid, sol) && GivensKept(g, varGrid, sol) {
      forall v | 0 <= v < |vars| ensures sol[v] in vars[v] {
        var x, y := CellOfVar(v, n);
        assert varGrid[x][y] == v;
      }
    }
  }

  /** Every constraint of model 1 holding forces the row, column and mark rules. */
  lemma Model1Forward(g: seq<seq<Entry>>, varGrid: seq<seq<nat>>, sol: seq<int>)
    requires Layout(g, varGrid, |sol|)
    requires forall c :: c in Model1Cons(g, varGrid, Values(|g|), |g|) ==> Satisfied(c, sol)
    ensures NoRepeats(g, varGrid, sol) && MarksHold(g, varGrid, sol)
  {
    var n := |g|;
    var dom := Values(n);
    Model1Members(g, varGrid, dom, n);
    NotEqualTuplesExact(dom);
    forall x, y, y' | 0 <= x < n && 0 <= y < y' < n ensures sol[varGrid[x][y]] != sol[varGrid[x][y']] {
      var c := RowNeq(varGrid, dom, x, y, y');
      assert Model1ConAt(g, varGrid, dom, c, x, y);
      PairSatisfied(c, sol);
    }
    forall x, x', y | 0 <= x < x' < n && 0 <= y < n ensures sol[varGrid[x][y]] != sol[varGrid[x'][y]] {
      var c := ColNeq(varGrid, dom, y, x, x');
      assert Model1ConAt(g, varGrid, dom, c, y, x);
      PairSatisfied(c, sol);
    }
    forall x, y | 0 <= x < n && 0 <= y && y + 1 < n
      ensures && (g[x][2 * y + 1] == Mark('<') ==> sol[varGrid[x][y]] < sol[varGrid[x][y + 1]])
              && (g[x][2 * y + 1] == Mark('>') ==> sol[varGrid[x][y]] > sol[varGrid[x][y + 1]])
    {
      if g[x][2 * y + 1] == Mark('<') || g[x][2 * y + 1] == Mark('>') {
        IneqSatisfied(g, varGrid, dom, sol, x, y);
        assert Model1ConAt(g, varGrid, dom, IneqCon(g, varGrid, dom, x, y), x, y);
      }
    }
  }

  /** A binary constraint holds exactly when the pair of its variables' values is one of its tuples. */
  lemma PairSatisfied(c: Constraint, sol: seq<int>)
    requires |c.scope| == 2 && c.scope[0] < |sol| && c.scope[1] < |sol|
    ensures Satisfied(c, sol) <==> [sol[c.scope[0]], sol[c.scope[1]]] in c.tuples
  {
    assert ScopeTuple(c.scope, sol) == [sol[c.scope[0]], sol[c.scope[1]]];
  }

  /** The inequality constraint of a pair holds exactly when the pair's values are in dom and obey the mark. */
  lemma IneqSatisfied(g: seq<seq<Entry>>, varGrid: seq<seq<nat>>, dom: seq<int>, sol: seq<int>, x: nat, y: nat)
    requires Layout(g, varGrid, |sol|) && x < |g| && y + 1 < |g|
    ensures Marked(g, x, 2 * y) <==> g[x][2 * y + 1] == Mark('<') || g[x][2 * y + 1] == Mark('>')
    ensures Satisfied(IneqCon(g, varGrid, dom, x, y), sol) <==>
              && sol[varGrid[x][y]] in dom && sol[varGrid[x][y + 1]] in dom
              && (g[x][2 * y + 1] == Mark('<') ==> sol[varGrid[x][y]] < sol[varGrid[x][y + 1]])
              && (g[x][2 * y + 1] == Mark('>') ==> sol[varGrid[x][y]] > sol[varGrid[x][y + 1]])
              && (g[x][2 * y + 1] == Mark('<') || g[x][2 * y + 1] == Mark('>'))
  {
    var c := IneqCon(g, varGrid, dom, x, y);
    IneqTuplesExact(dom, g[x][2 * y + 1]);
    assert ScopeTuple(c.scope, sol) == [sol[varGrid[x][y]], sol[varGrid[x][y + 1]]];
  }

  /** The row, column and mark rules, with every cell in range, make every constraint of model 1 hold. */
  lemma Model1Backward(g: seq<seq<Entry>>, varGrid: seq<seq<nat>>, sol: seq<int>)
    requires Layout(g, varGrid, |sol|)
    requires CellsInRange(g, varGrid, sol) && NoRepeats(g, varGrid, sol) && MarksHold(g, varGrid, sol)
    ensures forall c :: c in Model1Cons(g, varGrid, Values(|g|), |g|) ==> Satisfied(c, sol)
  {
    var n := |g|;
    var dom := Values(n);
    Model1Members(g, varGrid, dom, n);
    forall c | c in Model1Cons(g, varGrid, dom, n) ensures Satisfied(c, sol) {
      var i, jc :| 0 <= i < n && 0 <= jc < n && Model1ConAt(g, varGrid, dom, c, i, jc);
      Model1ConSatisfied(g, varGrid, sol, c, i, jc);
    }
  }

  lemma Model1ConSatisfied(g: seq<seq<Entry>>, varGrid: seq<seq<nat>>, sol: seq<int>, c: Constraint, i: nat, jc: nat)
    requires Layout(g, varGrid, |sol|) && i < |g| && jc < |g|
    requires CellsInRange(g, varGrid, sol) && NoRepeats(g, varGrid, sol) && MarksHold(g, varGrid, sol)
    requires Model1ConAt(g, varGrid, Values(|g|), c, i, jc)
    ensures Satisfied(c, sol)
  {
    var n := |g|;
    var dom := Values(n);
    if Marked(g, i, 2 * jc) && jc + 1 < n && c == IneqCon(g, varGrid, dom, i, jc) {
      IneqSatisfied(g, varGrid, dom, sol, i, jc);
    } else {
      var kc :| jc < kc < n && (c == RowNeq(varGrid, dom, i, jc, kc) || c == ColNeq(varGrid, dom, i, jc, kc));
      if c == RowNeq(varGrid, dom, i, jc, kc) {
        NeqSatisfied(c, dom, sol, sol[varGrid[i][jc]], sol[varGrid[i][kc]]);
      } else {
        NeqSatisfied(c, dom, sol, sol[varGrid[jc][i]], sol[varGrid[kc][i]]);
      }
    }
  }

  /** A not-equal constraint holds when its two variables take distinct values of dom. */
  lemma NeqSatisfied(c: Constraint, dom: seq<int>, sol: seq<int>, a: int, b: int)
    requires |c.scope| == 2 && c.scope[0] < |sol| && c.scope[1] < |sol| && c.tuples == NotEqualTuples(dom)
    requires sol[c.scope[0]] == a && sol[c.scope[1]] == b && a != b && a in dom && b in dom
    ensures Satisfied(c, sol)
  {
    NotEqualTuplesExact(dom);
    assert [a, b] in NotEqualTuples(dom);
    PairSatisfied(c, sol);
  }

  /** A full assignment solves the CSP of model 1 exactly when it solves the puzzle. */
  lemma Model1Solutions(g: seq<seq<Entry>>, varGrid: seq<seq<nat>>, vars: seq<seq<int>>, sol: seq<int>)
    requires CellsAreNumbers(g) && CellVars(g, varGrid, vars) && GivensInRange(g) && |sol| == |vars|
    ensures CspSolution(vars, Model1Cons(g, varGrid, Values(|g|), |g|), sol) <==> Solves(g, varGrid, sol)
  {
    DomainsAreCells(g, varGrid, vars, sol);
    if CspSolution(vars, Model1Cons(g, varGrid, Values(|g|), |g|), sol) {
      Model1Forward(g, varGrid, sol);
    }
    if Solves(g, varGrid, sol) {
      Model1Backward(g, varGrid, sol);
    }
  }

  /** An all-different constraint holds when its variables' values are distinct, and, given values in their domains, only then. */
  lemma AllDiffSatisfied(vars: seq<seq<int>>, scope: seq<nat>, sol: seq<int>)
    requires |sol| == |vars| && forall k :: 0 <= k < |scope| ==> scope[k] < |vars|
    ensures Satisfied(AllDiffCon(vars, scope), sol) ==> AllDistinct(ScopeTuple(scope, sol))
    ensures InDomains(vars, sol) && AllDistinct(ScopeTuple(scope, sol)) ==> Satisfied(AllDiffCon(vars, scope), sol)
  {
    AllDiffTuplesExact(Doms(vars, scope));
  }

  /** Every constraint of model 2 holding forces the row, column and mark rules. */
  lemma Model2Forward(g: seq<seq<Entry>>, varGrid: seq<seq<nat>>, vars: seq<seq<int>>, sol: seq<int>)
    requires Layout(g, varGrid, |vars|) && |sol| == |vars|
    requires forall c :: c in Model2Cons(g, varGrid, vars, Values(|g|), |g|) ==> Satisfied(c, sol)
    ensures NoRepeats(g, varGrid, sol) && MarksHold(g, varGrid, sol)
  {
    var n := |g|;
    var dom := Values(n);
    Model2Members(g, varGrid, vars, dom, n);
    forall x, y, y' | 0 <= x < n && 0 <= y < y' < n ensures sol[varGrid[x][y]] != sol[varGrid[x][y']] {
      assert Model2ConAt(g, varGrid, vars, dom, AllDiffCon(vars, varGrid[x]), x);
      AllDiffSatisfied(vars, varGrid[x], sol);
      var t := ScopeTuple(varGrid[x], sol);
      assert t[y] == sol[varGrid[x][y]] && t[y'] == sol[varGrid[x][y']];
    }
    forall x, x', y | 0 <= x < x' < n && 0 <= y < n ensures sol[varGrid[x][y]] != sol[varGrid[x'][y]] {
      var col := ColVars(varGrid, y);
      assert Model2ConAt(g, varGrid, vars, dom, AllDiffCon(vars, col), y);
      AllDiffSatisfied(vars, col, sol);
      var t := ScopeTuple(col, sol);
      assert t[x] == sol[varGrid[x][y]] && t[x'] == sol[varGrid[x'][y]];
    }
    forall x, y | 0 <= x < n && 0 <= y && y + 1 < n
      ensures && (g[x][2 * y + 1] == Mark('<') ==> sol[varGrid[x][y]] < sol[varGrid[x][y + 1]])
              && (g[x][2 * y + 1] == Mark('>') ==> sol[varGrid[x][y]] > sol[varGrid[x][y + 1]])
    {
      if g[x][2 * y + 1] == Mark('<') || g[x][2 * y + 1] == Mark('>') {
        IneqSatisfied(g, varGrid, dom, sol, x, y);
        assert Model2ConAt(g, varGrid, vars, dom, IneqCon(g, varGrid, dom, x, y), x);
      }
    }
  }

  /** The rules, with every variable in its static domain and every cell in range, make every constraint of model 2 hold. */
  lemma Model2Backward(g: seq<seq<Entry>>, varGrid: seq<seq<nat>>, vars: seq<seq<int>>, sol: seq<int>)
    requires Layout(g, varGrid, |vars|) && InDomains(vars, sol)
    requires CellsInRange(g, varGrid, sol) && NoRepeats(g, varGrid, sol) && MarksHold(g, varGrid, sol)
    ensures forall c :: c in Model2Cons(g, varGrid, vars, Values(|g|), |g|) ==> Satisfied(c, sol)
  {
    var n := |g|;
    var dom := Values(n);
    Model2Members(g, varGrid, vars, dom, n);
    forall c | c in Model2Cons(g, varGrid, vars, dom, n) ensures Satisfied(c, sol) {
      var i :| 0 <= i < n && Model2ConAt(g, varGrid, vars, dom, c, i);
      Model2ConSatisfied(g, varGrid, vars, sol, c, i);
    }
  }

  lemma Model2ConSatisfied(g: seq<seq<Entry>>, varGrid: seq<seq<nat>>, vars: seq<seq<int>>, sol: seq<int>, c: Constraint, i: nat)
    requires Layout(g, varGrid, |vars|) && InDomains(vars, sol) && i < |g|
    requires CellsInRange(g, varGrid, sol) && NoRepeats(g, varGrid, sol) && MarksHold(g, varGrid, sol)
    requires Model2ConAt(g, varGrid, vars, Values(|g|), c, i)
    ensures Satisfied(c, sol)
  {
    var n := |g|;
    var dom := Values(n);
    if c == AllDiffCon(vars, varGrid[i]) {
      AllDiffSatisfied(vars, varGrid[i], sol);
      var t := ScopeTuple(varGrid[i], sol);
      forall y, y' | 0 <= y < y' < |t| ensures t[y] != t[y'] {
        assert t[y] == sol[varGrid[i][y]] && t[y'] == sol[varGrid[i][y']];
      }
    } else if c == AllDiffCon(vars, ColVars(varGrid, i)) {
      var col := ColVars(varGrid, i);
      AllDiffSatisfied(vars, col, sol);
      var t := ScopeTuple(col, sol);
      forall x, x' | 0 <= x < x' < |t| ensures t[x] != t[x'] {
        assert t[x] == sol[varGrid[x][i]] && t[x'] == sol[varGrid[x'][i]];
      }
    } else {
      var jc :| 0 <= jc && jc + 1 < n && Marked(g, i, 2 * jc) && c == IneqCon(g, varGrid, dom, i, jc);
      IneqSatisfied(g, varGrid, dom, sol, i, jc);
    }
  }

  /** A full assignment solves the CSP of model 2 exactly when it solves the puzzle. */
  lemma Model2Solutions(g: seq<seq<Entry>>, varGrid: seq<seq<nat>>, vars: seq<seq<int>>, sol: seq<int>)
    requires CellsAreNumbers(g) && CellVars(g, varGrid, vars) && GivensInRange(g) && |sol| == |vars|
    ensures CspSolution(vars, Model2Cons(g, varGrid, vars, Values(|g|), |g|), sol) <==> Solves(g, varGrid, sol)
  {
    DomainsAreCells(g, varGrid, vars, sol);
    if CspSolution(vars, Model2Cons(g, varGrid, vars, Values(|g|), |g|), sol) {
      Model2Forward(g, varGrid, vars, sol);
    }
    if Solves(g, varGrid, sol) {
      Model2Backward(g, varGrid, vars, sol);
    }
  }

  /** The two models accept the same full assignments. */
  lemma ModelsAgree(g: seq<seq<Entry>>, varGrid: seq<seq<nat>>, vars: seq<seq<int>>, sol: seq<int>)
    requires CellsAreNumbers(g) && CellVars(g, varGrid, vars) && GivensInRange(g) && |sol| == |vars|
    ensures CspSolution(vars, Model1Cons(g, varGrid, Values(|g|), |g|), sol)
        <==> CspSolution(vars, Model2Cons(g, varGrid, vars, Values(|g|), |g|), sol)
  {
    Model1Solutions(g, varGrid, vars, sol);
    Model2Solutions(g, varGrid, vars, sol);
  }
}
