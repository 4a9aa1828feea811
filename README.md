# Futoshiki as a constraint satisfaction problem

This project models the core of a Futoshiki solver written in Python. It proves
properties of that model with Dafny. The core has two parts.

- **Propagators** (`propagators.py`). Backtracking search calls one of three propagators after
  each trial assignment:
  - plain backtracking (`prop_BT`);
  - forward checking (`prop_FC`);
  - generalized arc consistency with a constraint queue (`prop_GAC`).

  It picks the next variable with the minimum-remaining-values heuristic (`ord_mrv`). Each
  propagator returns `(ok, pruned)`. `pruned` lists the (variable, value) pairs it removed from
  current domains, so that the search can put them back when it backtracks.
- **Model construction** (`futoshiki_csp.py`). A Futoshiki grid has its cells at the even
  indices of each row. 0 means an empty cell; any other number is a given value. The odd
  indices hold `'<'`, `'>'` or a spacer. From the grid the code builds:
  - one variable per cell. A given cell has the singleton domain of its value; an empty cell
    has `1..n`;
  - a binary inequality constraint per mark;
  - either binary not-equal constraints for every pair of cells in a row or a column
    (model 1), or one all-different constraint per row and per column (model 2).

The files:

- `csp.dfy`, module `CspBase`. The abstract CSP interface the core relies on.
  - Variables are indices. Each has a static domain (`dom`), a current domain (`cur`, a set
    of values) and an optional assigned value (`asg`).
  - A constraint is a scope plus a sequence of satisfying tuples, and `check` is membership.
  - `has_support(v, x)` holds when some satisfying tuple has `x` at a position of `v` and a
    still-possible value at every position of another variable. For an assigned variable
    the still-possible value is its assigned value; otherwise it is any value in its current
    domain.
  - The mutable part (current domains, assignment, constraint list) is the class `Csp`.
  - A pruning record `Record(before, after, pruned)` means three things:
    - `pruned` has no duplicates;
    - every pair in it was present before;
    - `after` is `before` minus exactly those pairs.
- `propagators.dfy`, module `Propagators`. The three propagators and MRV as imperative
  methods over a `Csp` object, each proved against this specification.
- `futoshiki.dfy`, module `Futoshiki`. The model builders as imperative methods. Each method's
  result equals a pure function that mirrors the source's loop order. The tuple sets are
  characterised exactly. Two theorems state that a full assignment solves model 1's CSP, or
  model 2's, exactly when it solves the puzzle.

## Model

| member | source | states |
|---|---|---|
| CspBase.Unassigned | propagators.py:106 | the unassigned variables of a scope are exactly the scope's variables with no value |
| CspBase.AllUnassigned | propagators.py:165 | the CSP's unassigned variables are listed exactly, in increasing variable order |
| CspBase.ConsWithVar | propagators.py:101 | the constraints on a variable are exactly those whose scope mentions it |
| CspBase.CurDomain | propagators.py:108 | a variable's current domain holds exactly the static-domain values not pruned |
| CspBase.RestoreUndoesRecord | propagators.py:118-120 | putting the recorded pairs back, last first, gives back exactly the domains from before the call |
| CspBase.RecordPrune | propagators.py:118-120 | pruning a value still present and recording it once keeps the record exact and duplicate-free |
| CspBase.TotalSizeShrinks | propagators.py:154-155 | every prune strictly lowers the total number of values left, the measure that bounds the GAC queue |
| CspBase.SupportFrame | propagators.py:151 | whether a value has support depends only on the current domains of the constraint's own variables |
| CspBase.SupportMonotone | propagators.py:151 | support found in smaller domains is still support in larger ones, so pruning never creates support |
| CspBase.Csp.constructor | futoshiki_csp.py:114 | a new CSP has every current domain full, nothing assigned and no constraints |
| CspBase.Csp.AddConstraint | futoshiki_csp.py:115-116 | adding a constraint appends it and changes nothing else |
| CspBase.Csp.PruneValue | propagators.py:120 | pruning removes exactly one value from one current domain |
| CspBase.Csp.Assign | propagators.py:109 | a trial assignment sets one variable's value and nothing else |
| CspBase.Csp.Unassign | propagators.py:122 | unassigning clears one variable's value and nothing else |
| Propagators.Triggered | propagators.py:96-101 | before search every constraint is examined, after assigning v exactly those whose scope contains v |
| Propagators.NoUnassignedIsFull | propagators.py:82 | a constraint has zero unassigned variables exactly when its scope is fully assigned |
| Propagators.ScopeValues | propagators.py:83-86 | the loop gathers each scope variable's assigned value, in scope order (the reference function `AssignedValues`) |
| Propagators.PropBT | propagators.py:75-89 | prunes nothing; succeeds before search; after assigning v it succeeds exactly when every fully assigned constraint on v holds |
| Propagators.TrialIsFull | propagators.py:106-109 | trying a value for the only unassigned variable makes the scope fully assigned, and undoing it restores the assignment |
| Propagators.ForwardCheck | propagators.py:106-122 | on the only unassigned variable u: prunes exactly the values that fail the constraint, keeps those that pass, touches no other domain, and leaves the assignment as it was |
| Propagators.PropFC | propagators.py:91-127 | leaves the assignment unchanged; `pruned` is an exact, duplicate-free record of what was removed; each pruned value fails a triggered constraint whose only open variable it belongs to; on success every triggered constraint with one open variable has a non-empty domain of passing values; on failure the only open variable of such a constraint has an empty domain |
| Propagators.ExtendReasons | propagators.py:117-121 | each newly pruned pair gets the constraint that caused its pruning as its reason |
| Propagators.PrunedHaveReasons | propagators.py:117-121 | every pruned pair has a triggering constraint that justifies it |
| Propagators.FcConsistentShrink | propagators.py:103-125 | pruning a variable keeps an already forward-checked constraint forward-checked, as long as the pruned domain stays non-empty |
| Propagators.GacFrame | propagators.py:154 | a constraint not on the pruned variable keeps its arc consistency |
| Propagators.PrunedStayUnsupported | propagators.py:150-155 | a value that had no support when it was pruned still has none in the final domains, since domains only shrink, and the constraint that showed it is a triggering one or one on a pruned variable |
| Propagators.Revise | propagators.py:150-155 | for one variable of a constraint that is triggering or on an earlier-pruned variable: every value it prunes lacks support in that constraint, both in the domains it was pruned from and in the final ones; every value left has support; only that variable's domain shrinks; every constraint on the variable is queued when it prunes |
| Propagators.ReviseConstraint | propagators.py:146-158 | for one dequeued constraint: without a wipe-out every open variable keeps a value and the constraint is left arc consistent or queued again; a wipe-out leaves one of its own open variables with an empty domain; every constraint newly queued lies on a pruned variable, and every constraint of a pruned variable is queued; the total size drops whenever something is pruned |
| Propagators.ReviseNext | propagators.py:146-158 | revising the next open variable keeps the loop's bookkeeping, and reports a wipe-out exactly when that variable's domain is now empty |
| Propagators.ReviseConsFinish | propagators.py:146-158 | once every open variable is revised without a wipe-out, each keeps a value and the constraint is arc consistent or queued again |
| Propagators.GacKeptOrQueued | propagators.py:154 | every constraint that was arc consistent or queued stays arc consistent or queued after one variable's revision |
| Propagators.NewPairsQueued | propagators.py:154 | after a revision, every constraint on a pruned variable is in the queue |
| Propagators.PropGAC | propagators.py:130-160 | terminates; `pruned` is an exact, duplicate-free record; each pruned value belongs to an unassigned variable and had no support in the domains as they stood when it was pruned (and still has none at the end) in a constraint on it that the queue held: a triggering one, or one on a variable pruned before it; on success every triggered constraint and every constraint on a pruned variable is arc consistent and keeps a value for each open variable; on failure one of those constraints has an open variable with an empty domain |
| Propagators.GacTurn | propagators.py:143-158 | one turn of the queue loop keeps the loop invariant, including that the queue holds only triggered constraints and constraints on pruned variables; either the total size drops or nothing changes and the queue gets shorter (the termination measure); a wipe-out is found in the popped constraint |
| Propagators.QueueFromExamined | propagators.py:142-155 | the queue only ever holds triggered constraints and constraints on a pruned variable, since `extend` adds only the constraints of a variable just pruned |
| Propagators.GacFinish | propagators.py:140-160 | with the queue empty, every triggered constraint and every constraint on a pruned variable is arc consistent and alive |
| Propagators.PrunedHaveWitnesses | propagators.py:151-153 | every pruned pair has a constraint on its variable in which it had no support when it was pruned, and that constraint is a triggering one or one on a variable pruned earlier |
| Propagators.OrdMrv | propagators.py:162-171 | returns nothing exactly when every variable is assigned; otherwise the first unassigned variable, in variable order, whose current domain is smallest |
| Futoshiki.Values | futoshiki_csp.py:70-71 | the domain is exactly the values 1..n, in increasing order |
| Futoshiki.ProductMembers | futoshiki_csp.py:57 | a tuple is in the product of domains exactly when it takes one value from each domain, in order |
| Futoshiki.FilterMembers | futoshiki_csp.py:57-60 | filtering keeps exactly the tuples that pass the test |
| Futoshiki.KeepTuples | futoshiki_csp.py:57-60 | the loop over the product appends the passing tuples in product order |
| Futoshiki.SetKeepsAllIffDistinct | futoshiki_csp.py:159-166 | a tuple's set of values is as large as the tuple exactly when no value repeats |
| Futoshiki.IneqTuplesExact | futoshiki_csp.py:57-60 | the inequality tuples are exactly the pairs over 1..n that are ascending for `<` and descending for `>` |
| Futoshiki.NotEqualTuplesExact | futoshiki_csp.py:98-102 | the not-equal tuples are exactly the pairs over 1..n with distinct components |
| Futoshiki.AllDiffTuplesExact | futoshiki_csp.py:153-166 | the all-different tuples take one value from each variable's static domain, with no value twice |
| Futoshiki.GivenCellFixed | futoshiki_csp.py:36-39 | a given cell takes its given value in every all-different tuple |
| Futoshiki.CreateRowVars | futoshiki_csp.py:33-44 | the variables of one row are numbered consecutively, one per cell, with the cell's static domain |
| Futoshiki.CreateVarMatrix | futoshiki_csp.py:29-47 | one row per grid row with one variable per even index; each variable has its cell's static domain; flattening the rows gives every variable once, in row-major order |
| Futoshiki.RowMajor | futoshiki_csp.py:43-46 | reading the variable matrix row by row gives the variables in creation order |
| Futoshiki.SquareLayout | futoshiki_csp.py:29-47 | in an n-row grid the cell (x, y) gets variable x * n + y, and there are n * n variables |
| Futoshiki.CreateIneqCons | futoshiki_csp.py:50-65 | the constraint's scope is the two adjacent cells; its tuples are the product pairs the mark allows |
| Futoshiki.BuildCsp | futoshiki_csp.py:114-116 | the CSP holds exactly the given variables and constraints, in order |
| Futoshiki.AddPairs1 | futoshiki_csp.py:87-110 | appends a row and a column not-equal constraint for each later cell |
| Futoshiki.AddCellConstraints1 | futoshiki_csp.py:79-110 | appends a cell's inequality constraint when there is a mark, then its pair constraints |
| Futoshiki.AddRow1 | futoshiki_csp.py:79-110 | appends every cell's constraints for one row, in cell order |
| Futoshiki.Model1Constraints | futoshiki_csp.py:76-110 | collects model 1's constraints, row after row |
| Futoshiki.FutoshikiModel1 | futoshiki_csp.py:68-118 | a fresh CSP over the cell variables with model 1's constraints, in the source's order |
| Futoshiki.NeqPairsMembers | futoshiki_csp.py:87-110 | the pair constraints of a cell are exactly the row and column not-equal constraints with each later cell |
| Futoshiki.Row1Members | futoshiki_csp.py:79-110 | a row's constraints are exactly the inequality and pair constraints of its cells |
| Futoshiki.Model1Members | futoshiki_csp.py:77-110 | a constraint is in model 1 exactly when it is a marked pair's inequality or the not-equal of two cells in one row or one column |
| Futoshiki.Model1Scopes | futoshiki_csp.py:114-116 | every scope of model 1 ranges over the grid's variables |
| Futoshiki.CreateAllDiffCons | futoshiki_csp.py:153-166 | the constraint's tuples are the product of the scope's static domains, filtered for no repeated value |
| Futoshiki.AddRow2 | futoshiki_csp.py:134-174 | appends row i's inequality constraints, then all-different over row i and over column i |
| Futoshiki.Model2Constraints | futoshiki_csp.py:131-174 | collects model 2's constraints, row after row |
| Futoshiki.FutoshikiModel2 | futoshiki_csp.py:121-180 | a fresh CSP over the cell variables with model 2's constraints, in the source's order |
| Futoshiki.IneqsMembers | futoshiki_csp.py:136-141 | a row's inequality constraints are exactly those of its marked pairs |
| Futoshiki.Model2Members | futoshiki_csp.py:132-174 | a constraint is in model 2 exactly when it is a marked pair's inequality or the all-different of a row or a column |
| Futoshiki.Model2Scopes | futoshiki_csp.py:176-178 | every scope of model 2 ranges over the grid's variables |
| Futoshiki.DomainsAreCells | futoshiki_csp.py:36-39 | every variable takes a value of its static domain exactly when every cell is in 1..n and keeps its given value |
| Futoshiki.PairSatisfied | futoshiki_csp.py:92-93 | a binary constraint holds exactly when its two variables' values form one of its tuples |
| Futoshiki.IneqSatisfied | futoshiki_csp.py:82-85 | a pair's inequality constraint exists exactly when a mark follows it, and holds exactly when the values are in 1..n and obey the mark |
| Futoshiki.Model1Forward | futoshiki_csp.py:77-110 | if every model 1 constraint holds, no row or column repeats a value and every mark holds |
| Futoshiki.Model1ConSatisfied | futoshiki_csp.py:77-110 | each kind of model 1 constraint holds for an assignment that obeys the rules |
| Futoshiki.Model1Backward | futoshiki_csp.py:77-110 | an assignment that obeys the rules, with cells in 1..n, satisfies every model 1 constraint |
| Futoshiki.Model1Solutions | futoshiki_csp.py:68-118 | a full assignment solves model 1's CSP exactly when it solves the puzzle |
| Futoshiki.AllDiffSatisfied | futoshiki_csp.py:153-166 | an all-different constraint holds when the values are distinct and lie in their static domains, and only when they are distinct |
| Futoshiki.Model2Forward | futoshiki_csp.py:132-174 | if every model 2 constraint holds, no row or column repeats a value and every mark holds |
| Futoshiki.Model2ConSatisfied | futoshiki_csp.py:132-174 | each kind of model 2 constraint holds for an assignment that obeys the rules |
| Futoshiki.Model2Backward | futoshiki_csp.py:132-174 | an assignment that obeys the rules and keeps every variable in its static domain satisfies every model 2 constraint |
| Futoshiki.Model2Solutions | futoshiki_csp.py:121-180 | a full assignment solves model 2's CSP exactly when it solves the puzzle |
| Futoshiki.ModelsAgree | futoshiki_csp.py:68-180 | the two models accept the same full assignments |

## Left out

- `cspbase` (the classes Variable, Constraint and CSP) is not part of this model. Its
  interface is modelled abstractly in `CspBase`, and `has_support` follows the definition above.
- Current domains are modelled as sets, listed in static-domain order (`CurDomain`) wherever the
  code iterates over one.
- The backtracking driver (`bt_search`) and its restoring of pruned values are outside the core.
  Only the property that reverse restoration undoes a call is stated (`RestoreUndoesRecord`).
- Variable and constraint names built with `format` are left out; they are labels only.
- `ord_mrv`'s `float('inf')` sentinel becomes an optional running minimum. No floating point
  is involved.
- The `(var, value) not in pruned` scans are membership tests. The GAC queue is a sequence that
  may hold duplicates; its cost is not modelled.
- Each value loop (`for value in var.cur_domain()`) walks a snapshot of the domain taken when the
  loop starts. The effect of pruning the list being iterated is not modelled.
- `itertools.product` is the pure function `Product`: first component slowest, as the library
  documents. Python tuples are sequences of integers.
- Grid entries are `Num(n)` or `Mark(c)`. The model builders require numbers at the even indices.
  They also require a square grid (n rows of 2n - 1 entries), the input format the builders are
  written for. `CreateVarMatrix` accepts any shape.
- FutoshikiModel1, FutoshikiModel2: not modelled on other shapes the source also runs on. Any
  grid whose row and column loops only index cells that exist runs. Among them are rows of 2n
  entries whose last entry is not `'<'` or `'>'` (both models), n rows of a single cell each
  (model 1 only), and staircase grids such as rows of 5, 3 and 1 entries (both models).
- Model1Solutions, Model2Solutions: stated for grids whose given values lie in 1..n. Take a given
  value outside 1..n. For n >= 2, model 1 has no solution, because its not-equal tuples range over
  1..n; the puzzle rules have none either. Model 2 builds its all-different tuples from the static
  domains, so it can accept such a value. For n = 1 the two models agree with each other, and both
  accept the value that the rules reject.
- Each value loop records what it pruned through ghost witness sequences. These are proof
  devices and do not appear in the source.
