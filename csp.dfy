/**
 * The constraint-graph layer the propagators work on: variables with a static
 * domain, a current (prunable) domain and an assignment slot; constraints with
 * an ordered scope and an explicit list of satisfying tuples.
 *
 * A variable is identified by its index. The pure functions below are the
 * views the propagators use (unassigned scope variables, constraints touching
 * a variable, support, current domain in static order); they take the state as
 * values so that lemmas can relate two states. The class Csp holds the state
 * that the search changes in place.
 */
module CspBase {

  datatype Option<T> = None | Some(value: T)

  /** A constraint: the variables it ranges over, in order, and its satisfying tuples. */
  datatype Constraint = Constraint(scope: seq<nat>, tuples: seq<seq<int>>)

  /** A (variable, value) pair removed from a current domain. */
  type Prune = (nat, int)

  predicate IsUnassigned(asg: seq<Option<int>>, w: nat)
  {
    w < |asg| && asg[w].None?
  }

  /** The unassigned variables of a scope, in scope order. */
  function Unassigned(scope: seq<nat>, asg: seq<Option<int>>): (r: seq<nat>)
    ensures forall w :: w in r <==> w in scope && IsUnassigned(asg, w)
    ensures |r| <= |scope|
  {
    if scope == [] then []
    else (if IsUnassigned(asg, scope[0]) then [scope[0]] else []) + Unassigned(scope[1..], asg)
  }

  /** The unassigned variables of the whole CSP, in variable order. */
  function AllUnassigned(asg: seq<Option<int>>): (r: seq<nat>)
    ensures forall w :: w in r <==> IsUnassigned(asg, w)
    ensures forall i :: 0 <= i < |r| ==> r[i] < |asg|
    ensures forall i, j :: 0 <= i < j < |r| ==> r[i] < r[j]
    decreases |asg|
  {
    if asg == [] then []
    else AllUnassigned(asg[..|asg| - 1]) + (if asg[|asg| - 1].None? then [|asg| - 1] else [])
  }

  /** The constraints whose scope mentions v, in the order the CSP holds them. */
  function ConsWithVar(cons: seq<Constraint>, v: nat): (r: seq<Constraint>)
    ensures forall c :: c in r <==> c in cons && v in c.scope
    ensures |r| <= |cons|
  {
    if cons == [] then []
    else (if v in cons[0].scope then [cons[0]] else []) + ConsWithVar(cons[1..], v)
  }

  predicate FullyAssigned(scope: seq<nat>, asg: seq<Option<int>>)
  {
    forall k :: 0 <= k < |scope| ==> scope[k] < |asg| && asg[scope[k]].Some?
  }

  /** The committed values of a fully assigned scope, in scope order. */
  function AssignedValues(scope: seq<nat>, asg: seq<Option<int>>): (r: seq<int>)
    requires FullyAssigned(scope, asg)
    ensures |r| == |scope|
    ensures forall k :: 0 <= k < |r| ==> asg[scope[k]] == Some(r[k])
  {
    seq(|scope|, k requires 0 <= k < |scope| => asg[scope[k]].value)
  }

  /** A constraint is satisfied by a full assignment to its scope iff the values form one of its tuples. */
  predicate Check(c: Constraint, vals: seq<int>)
  {
    vals in c.tuples
  }

  /** Whether y is a value variable w may still take: its assigned value, or a member of its current domain. */
  predicate InCurDomain(cur: seq<set<int>>, asg: seq<Option<int>>, w: nat, y: int)
  {
    w < |cur| && w < |asg| && (if asg[w].Some? then y == asg[w].value else y in cur[w])
  }

  /** Tuple t puts x at a position of v and a still-possible value at every position of another variable. */
  predicate Supports(c: Constraint, v: nat, x: int, t: seq<int>, cur: seq<set<int>>, asg: seq<Option<int>>)
  {
    && |t| == |c.scope|
    && (exists i :: 0 <= i < |t| && c.scope[i] == v && t[i] == x)
    && (forall j :: 0 <= j < |t| && c.scope[j] != v ==> InCurDomain(cur, asg, c.scope[j], t[j]))
  }

  predicate HasSupport(c: Constraint, v: nat, x: int, cur: seq<set<int>>, asg: seq<Option<int>>)
  {
    exists k :: 0 <= k < |c.tuples| && Supports(c, v, x, c.tuples[k], cur, asg)
  }

  /** The values of static domain d still present in s, in static-domain order. */
  function CurDomain(d: seq<int>, s: set<int>): (r: seq<int>)
    ensures forall x :: x in r <==> x in d && x in s
    ensures |r| <= |d|
  {
    if d == [] then []
    else (if d[0] in s then [d[0]] else []) + CurDomain(d[1..], s)
  }

  predicate NoDup(p: seq<Prune>)
  {
    forall i, j :: 0 <= i < j < |p| ==> p[i] != p[j]
  }

  /**
   * `after` is `before` with exactly the pairs of `pruned` removed: every pair
   * is recorded once and was present before, and nothing else changed.
   */
  ghost predicate Record(before: seq<set<int>>, after: seq<set<int>>, pruned: seq<Prune>)
  {
    && |after| == |before|
    && NoDup(pruned)
    && (forall p :: p in pruned ==> p.0 < |before| && p.1 in before[p.0])
    && (forall v, x :: 0 <= v < |before| ==> (x in after[v] <==> x in before[v] && (v, x) !in pruned))
  }

  /** The domains `before` with the pairs of `pruned` taken out: the domains as they stand once those pairs are pruned. */
  ghost function Removed(before: seq<set<int>>, pruned: seq<Prune>): (r: seq<set<int>>)
    ensures |r| == |before|
    ensures forall v, x :: 0 <= v < |before| ==> (x in r[v] <==> x in before[v] && (v, x) !in pruned)
  {
    seq(|before|, v requires 0 <= v < |before| => set x | x in before[v] && (v, x) !in pruned)
  }

  /** An exact record determines the domains after it. */
  lemma RecordIsRemoved(before: seq<set<int>>, after: seq<set<int>>, pruned: seq<Prune>)
    requires Record(before, after, pruned)
    ensures after == Removed(before, pruned)
  {
    var r := Removed(before, pruned);
    forall v | 0 <= v < |before| ensures after[v] == r[v] {
      assert forall x :: x in after[v] <==> x in r[v];
    }
  }

  /** The domains after a record lie within those left by any prefix of it. */
  lemma RecordShrinks(before: seq<set<int>>, after: seq<set<int>>, pruned: seq<Prune>, k: nat)
    requires Record(before, after, pruned) && k <= |pruned|
    ensures forall v :: 0 <= v < |after| ==> after[v] <= Removed(before, pruned[..k])[v]
  {
    forall v, x | 0 <= v < |after| && x in after[v] ensures x in Removed(before, pruned[..k])[v] {
      assert (v, x) !in pruned;
    }
  }

  /** Puts one pruned value back (the driver's restore of a single pair). */
  function Unprune(cur: seq<set<int>>, p: Prune): seq<set<int>>
  {
    if p.0 < |cur| then cur[p.0 := cur[p.0] + {p.1}] else cur
  }

  /** Restores the pairs of a pruning record, last pruned first. */
  function Restore(cur: seq<set<int>>, pruned: seq<Prune>): seq<set<int>>
    decreases |pruned|
  {
    if pruned == [] then cur
    else Restore(Unprune(cur, pruned[|pruned| - 1]), pruned[..|pruned| - 1])
  }

  /** The number of values left in all current domains; every prune lowers it. */
  function TotalSize(cur: seq<set<int>>): nat
  {
    if cur == [] then 0 else |cur[0]| + TotalSize(cur[1..])
  }

  /** Restoring a pruning record in reverse order gives back exactly the domains before the call. */
  lemma {:induction false} RestoreUndoesRecord(before: seq<set<int>>, after: seq<set<int>>, pruned: seq<Prune>)
    requires Record(before, after, pruned)
    ensures Restore(after, pruned) == before
    decreases |pruned|
  {
    if pruned == [] {
      forall v | 0 <= v < |before| ensures after[v] == before[v] {
        assert forall x :: x in after[v] <==> x in before[v];
      }
    } else {
      var last := pruned[|pruned| - 1];
      var rest := pruned[..|pruned| - 1];
      var mid := Unprune(after, last);
      assert last in pruned;
      forall p | p in rest ensures p in pruned { }
      assert NoDup(rest);
      forall v, x | 0 <= v < |before|
        ensures x in mid[v] <==> x in before[v] && (v, x) !in rest
      {
        assert (v, x) in pruned <==> (v, x) in rest || (v, x) == last;
        if (v, x) == last {
          assert last !in rest by {
            forall k | 0 <= k < |rest| ensures rest[k] != last {
              assert rest[k] == pruned[k];
            }
          }
        }
      }
      assert Record(before, mid, rest);
      RestoreUndoesRecord(before, mid, rest);
    }
  }

  /** Removing one more present value keeps the record exact. */
  lemma RecordPrune(before: seq<set<int>>, after: seq<set<int>>, pruned: seq<Prune>, v: nat, x: int)
    requires Record(before, after, pruned)
    requires v < |after| && x in after[v]
    ensures Record(before, after[v := after[v] - {x}], pruned + [(v, x)])
  {
    var p' := pruned + [(v, x)];
    assert (v, x) !in pruned;
    forall i, j | 0 <= i < j < |p'| ensures p'[i] != p'[j] {
      if j < |pruned| { assert p'[i] == pruned[i] && p'[j] == pruned[j]; }
      else { assert p'[i] in pruned; }
    }
  }

  /** Taking a value out of a domain that holds it lowers the total size. */
  lemma {:induction false} TotalSizeShrinks(cur: seq<set<int>>, v: nat, x: int)
    requires v < |cur| && x in cur[v]
    ensures TotalSize(cur[v := cur[v] - {x}]) < TotalSize(cur)
  {
    var cur' := cur[v := cur[v] - {x}];
    if v == 0 {
      assert cur'[1..] == cur[1..];
    } else {
      assert cur'[1..] == cur[1..][v - 1 := cur[v] - {x}];
      TotalSizeShrinks(cur[1..], v - 1, x);
    }
  }

  /** Support only depends on the current domains of the constraint's own variables. */
  lemma SupportFrame(c: Constraint, v: nat, x: int, cur: seq<set<int>>, cur': seq<set<int>>, asg: seq<Option<int>>)
    requires |cur'| == |cur|
    requires forall w :: w in c.scope && w < |cur| ==> cur'[w] == cur[w]
    ensures HasSupport(c, v, x, cur', asg) <==> HasSupport(c, v, x, cur, asg)
  {
    if HasSupport(c, v, x, cur, asg) {
      var k :| 0 <= k < |c.tuples| && Supports(c, v, x, c.tuples[k], cur, asg);
      assert Supports(c, v, x, c.tuples[k], cur', asg);
    }
    if HasSupport(c, v, x, cur', asg) {
      var k :| 0 <= k < |c.tuples| && Supports(c, v, x, c.tuples[k], cur', asg);
      assert Supports(c, v, x, c.tuples[k], cur, asg);
    }
  }

  /** Support for a value of v never reads v's own current domain. */
  lemma SupportIgnoresOwnDomain(c: Constraint, v: nat, x: int, cur: seq<set<int>>, cur': seq<set<int>>, asg: seq<Option<int>>)
    requires |cur'| == |cur|
    requires forall w :: 0 <= w < |cur| && w != v ==> cur'[w] == cur[w]
    ensures HasSupport(c, v, x, cur', asg) <==> HasSupport(c, v, x, cur, asg)
  {
    if HasSupport(c, v, x, cur, asg) {
      var k :| 0 <= k < |c.tuples| && Supports(c, v, x, c.tuples[k], cur, asg);
      assert Supports(c, v, x, c.tuples[k], cur', asg);
    }
    if HasSupport(c, v, x, cur', asg) {
      var k :| 0 <= k < |c.tuples| && Supports(c, v, x, c.tuples[k], cur', asg);
      assert Supports(c, v, x, c.tuples[k], cur, asg);
    }
  }

  /** Shrinking domains can only take support away: support in smaller domains is support in larger ones. */
  lemma SupportMonotone(c: Constraint, v: nat, x: int, small: seq<set<int>>, large: seq<set<int>>, asg: seq<Option<int>>)
    requires |small| == |large|
    requires forall w :: 0 <= w < |small| ==> small[w] <= large[w]
    requires HasSupport(c, v, x, small, asg)
    ensures HasSupport(c, v, x, large, asg)
  {
    var k :| 0 <= k < |c.tuples| && Supports(c, v, x, c.tuples[k], small, asg);
    assert Supports(c, v, x, c.tuples[k], large, asg);
  }

  /**
   * The mutable part of a CSP: current domains and assignment slots change
   * during search; the static domains are fixed; constraints are added while
   * the model is built.
   */
  class Csp {
    const dom: seq<seq<int>>
    var cons: seq<Constraint>
    var cur: seq<set<int>>
    var asg: seq<Option<int>>

    ghost predicate Valid()
      reads this
    {
      && |cur| == |dom|
      && |asg| == |dom|
      && (forall v, x :: 0 <= v < |cur| && x in cur[v] ==> x in dom[v])
      && (forall c :: c in cons ==> forall k :: 0 <= k < |c.scope| ==> c.scope[k] < |dom|)
    }

    /** A CSP over the given variables, every current domain full, nothing assigned, no constraints. */
    constructor (doms: seq<seq<int>>)
      ensures Valid()
      ensures dom == doms && cons == []
      ensures |cur| == |doms| && forall v :: 0 <= v < |doms| ==> cur[v] == set x | x in doms[v]
      ensures |asg| == |doms| && forall v :: 0 <= v < |doms| ==> asg[v] == None
    {
      dom := doms;
      cons := [];
      cur := seq(|doms|, v requires 0 <= v < |doms| => set x | x in doms[v]);
      asg := seq(|doms|, v => None);
    }

    method AddConstraint(c: Constraint)
      requires Valid()
      requires forall k :: 0 <= k < |c.scope| ==> c.scope[k] < |dom|
      modifies this`cons
      ensures Valid()
      ensures cons == old(cons) + [c]
    {
      cons := cons + [c];
    }

    method PruneValue(v: nat, x: int)
      requires Valid() && v < |dom|
      modifies this`cur
      ensures Valid()
      ensures cur == old(cur)[v := old(cur)[v] - {x}]
    {
      cur := cur[v := cur[v] - {x}];
    }

    method Assign(v: nat, x: int)
      requires Valid() && v < |dom|
      modifies this`asg
      ensures Valid()
      ensures asg == old(asg)[v := Some(x)]
    {
      asg := asg[v := Some(x)];
    }

    method Unassign(v: nat)
      requires Valid() && v < |dom|
      modifies this`asg
      ensures Valid()
      ensures asg == old(asg)[v := None]
    {
      asg := asg[v := None];
    }
  }
}
