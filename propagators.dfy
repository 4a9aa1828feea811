/**
 * The three propagators a backtracking search calls after each trial
 * assignment (plain backtracking, forward checking, generalized arc
 * consistency) and the minimum-remaining-values variable ordering.
 *
 * Each propagator returns (ok, pruned). `pruned` is the exact record of the
 * (variable, value) pairs it removed, in removal order, so that the search can
 * restore them in reverse order on backtrack (see CspBase.RestoreUndoesRecord).
 */
module Propagators {
  import opened CspBase

  /** The constraints a propagator starts from: all of them before search, else those touching the new variable. */
  function Triggered(cons: seq<Constraint>, newVar: Option<nat>): (r: seq<Constraint>)
    ensures forall c :: c in r ==> c in cons
    ensures newVar.Some? ==> forall c :: c in r <==> c in cons && newVar.value in c.scope
    ensures newVar.None? ==> r == cons
  {
    if newVar.None? then cons else ConsWithVar(cons, newVar.value)
  }

  /** Every fully assigned constraint on v is satisfied by the committed values. */
  predicate FullyAssignedHold(cons: seq<Constraint>, asg: seq<Option<int>>, v: nat)
  {
    forall c :: c in ConsWithVar(cons, v) && FullyAssigned(c.scope, asg) ==> Check(c, AssignedValues(c.scope, asg))
  }

  lemma NoUnassignedIsFull(scope: seq<nat>, asg: seq<Option<int>>)
    requires forall k :: 0 <= k < |scope| ==> scope[k] < |asg|
    ensures |Unassigned(scope, asg)| == 0 <==> FullyAssigned(scope, asg)
  {
    var u := Unassigned(scope, asg);
    if |u| != 0 {
      assert u[0] in u;
    } else {
      forall k | 0 <= k < |scope| ensures asg[scope[k]].Some? {
        assert scope[k] !in u;
      }
    }
  }

  /** The committed values of a constraint's scope, gathered variable by variable. */
  method ScopeValues(csp: Csp, c: Constraint) returns (vals: seq<int>)
    requires FullyAssigned(c.scope, csp.asg)
    ensures vals == AssignedValues(c.scope, csp.asg)
  {
    vals := [];
    for k := 0 to |c.scope|
      invariant FullyAssigned(c.scope[..k], csp.asg)
      invariant vals == AssignedValues(c.scope[..k], csp.asg)
    {
      vals := vals + [csp.asg[c.scope[k]].value];
    }
    assert c.scope[..|c.scope|] == c.scope;
  }

  /**
   * Plain backtracking: prunes nothing. Before search it succeeds at once;
   * after assigning v it fails iff some fully assigned constraint on v is violated.
   */
  method PropBT(csp: Csp, newVar: Option<nat>) returns (ok: bool, pruned: seq<Prune>)
    requires csp.Valid()
    ensures pruned == []
    ensures ok <==> newVar.None? || FullyAssignedHold(csp.cons, csp.asg, newVar.value)
  {
    if newVar.None? {
      return true, [];
    }
    var cs := ConsWithVar(csp.cons, newVar.value);
    for i := 0 to |cs|
      invariant forall k :: 0 <= k < i && FullyAssigned(cs[k].scope, csp.asg) ==>
                  Check(cs[k], AssignedValues(cs[k].scope, csp.asg))
    {
      var c := cs[i];
      assert c in csp.cons;
      NoUnassignedIsFull(c.scope, csp.asg);
      if |Unassigned(c.scope, csp.asg)| == 0 {
        var vals := ScopeValues(csp, c);
        if !Check(c, vals) {
          return false, [];
        }
      }
    }
    return true, [];
  }

  /** With u the only open variable of c, setting u to x (others as committed) satisfies c. */
  predicate TrialPasses(c: Constraint, asg: seq<Option<int>>, u: nat, x: int)
  {
    && u < |asg|
    && FullyAssigned(c.scope, asg[u := Some(x)])
    && Check(c, AssignedValues(c.scope, asg[u := Some(x)]))
  }

  /**
   * Forward-checking consistency of one constraint: if exactly one of its
   * variables is unassigned, that variable's current domain is not empty and
   * every value in it passes the constraint.
   */
  ghost predicate FcConsistent(c: Constraint, dom: seq<seq<int>>, cur: seq<set<int>>, asg: seq<Option<int>>)
  {
    |Unassigned(c.scope, asg)| == 1 ==>
      var u := Unassigned(c.scope, asg)[0];
      && u < |dom| && u < |cur|
      && CurDomain(dom[u], cur[u]) != []
      && forall x :: x in cur[u] ==> TrialPasses(c, asg, u, x)
  }

  /** Why forward checking may prune p: p's variable is the only open one of c and p's value fails c. */
  predicate FcPrunes(c: Constraint, asg: seq<Option<int>>, p: Prune)
  {
    Unassigned(c.scope, asg) == [p.0] && !TrialPasses(c, asg, p.0, p.1)
  }

  lemma TrialIsFull(c: Constraint, asg: seq<Option<int>>, u: nat, x: int)
    requires forall k :: 0 <= k < |c.scope| ==> c.scope[k] < |asg|
    requires Unassigned(c.scope, asg) == [u]
    ensures u < |asg| && asg[u] == None
    ensures FullyAssigned(c.scope, asg[u := Some(x)])
    ensures asg[u := Some(x)][u := None] == asg
  {
    assert u in Unassigned(c.scope, asg);
    forall k | 0 <= k < |c.scope| ensures asg[u := Some(x)][c.scope[k]].Some? {
      if c.scope[k] != u {
        assert c.scope[k] !in Unassigned(c.scope, asg);
      }
    }
  }

  /**
   * The value loop of forward checking for one constraint c whose only open
   * variable is u: every value of u's current domain (a snapshot taken at the
   * start) is tried by assigning it, and pruned when c fails, unless already
   * recorded.
   */
  method ForwardCheck(csp: Csp, c: Constraint, u: nat, pruned: seq<Prune>, ghost cur0: seq<set<int>>)
    returns (pruned': seq<Prune>)
    requires csp.Valid() && c in csp.cons && u < |csp.dom|
    requires Unassigned(c.scope, csp.asg) == [u]
    requires Record(cur0, csp.cur, pruned)
    modifies csp`cur, csp`asg
    ensures csp.Valid() && csp.asg == old(csp.asg)
    ensures Record(cur0, csp.cur, pruned')
    ensures |pruned| <= |pruned'| && pruned'[..|pruned|] == pruned
    ensures forall k :: |pruned| <= k < |pruned'| ==> FcPrunes(c, csp.asg, pruned'[k])
    ensures forall w :: 0 <= w < |csp.cur| && w != u ==> csp.cur[w] == old(csp.cur[w])
    ensures csp.cur[u] <= old(csp.cur[u])
    ensures forall x :: x in csp.cur[u] ==> TrialPasses(c, csp.asg, u, x)
  {
    pruned' := pruned;
    var snap := CurDomain(csp.dom[u], csp.cur[u]);
    for k := 0 to |snap|
      invariant csp.Valid() && csp.asg == old(csp.asg)
      invariant Record(cur0, csp.cur, pruned')
      invariant FcInv(c, u, old(csp.cur), csp.cur, csp.asg, pruned, pruned', snap, k)
    {
      var x := snap[k];
      TrialIsFull(c, csp.asg, u, x);
      ghost var asg0 := csp.asg;
      csp.Assign(u, x);
      var vals := ScopeValues(csp, c);
      if !Check(c, vals) && (u, x) !in pruned' {
        assert x in cur0[u];
        ghost var before, pBefore := csp.cur, pruned';
        RecordPrune(cur0, csp.cur, pruned', u, x);
        pruned' := pruned' + [(u, x)];
        csp.PruneValue(u, x);
        FcPruneStep(c, u, old(csp.cur), before, asg0, pruned, pBefore, snap, k);
      } else {
        FcKeepStep(c, u, old(csp.cur), csp.cur, asg0, pruned, pruned', snap, k);
      }
      csp.Unassign(u);
      assert csp.asg == asg0;
    }
    FcFinish(c, u, csp.dom, old(csp.cur), csp.cur, csp.asg, pruned, pruned', snap);
  }

  /**
   * What ForwardCheck has established after trying the first k values of
   * `snap`: only u's domain shrank, every new pair is a value of u that fails
   * c, and every tried value still present passes c.
   */
  ghost predicate FcInv(c: Constraint, u: nat, cStart: seq<set<int>>, cur: seq<set<int>>, asg: seq<Option<int>>,
                        pruned: seq<Prune>, pr: seq<Prune>, snap: seq<int>, k: nat)
  {
    && k <= |snap| && |cur| == |cStart| && u < |cur|
    && |pruned| <= |pr| && pr[..|pruned|] == pruned
    && (forall j :: |pruned| <= j < |pr| ==> FcPrunes(c, asg, pr[j]))
    && (forall w :: 0 <= w < |cur| && w != u ==> cur[w] == cStart[w])
    && cur[u] <= cStart[u]
    && (forall i :: 0 <= i < k && snap[i] in cur[u] ==> TrialPasses(c, asg, u, snap[i]))
  }

  /** Leaving a value alone keeps FcInv: it passes c, or it is gone already. */
  lemma FcKeepStep(c: Constraint, u: nat, cStart: seq<set<int>>, cur: seq<set<int>>, asg: seq<Option<int>>,
                   pruned: seq<Prune>, pr: seq<Prune>, snap: seq<int>, k: nat)
    requires FcInv(c, u, cStart, cur, asg, pruned, pr, snap, k) && k < |snap|
    requires TrialPasses(c, asg, u, snap[k]) || snap[k] !in cur[u]
    ensures FcInv(c, u, cStart, cur, asg, pruned, pr, snap, k + 1)
  {
  }

  /** Pruning a value of u that fails c, and recording it, keeps FcInv. */
  lemma FcPruneStep(c: Constraint, u: nat, cStart: seq<set<int>>, cur: seq<set<int>>, asg: seq<Option<int>>,
                    pruned: seq<Prune>, pr: seq<Prune>, snap: seq<int>, k: nat)
    requires FcInv(c, u, cStart, cur, asg, pruned, pr, snap, k) && k < |snap|
    requires Unassigned(c.scope, asg) == [u] && !TrialPasses(c, asg, u, snap[k])
    ensures FcInv(c, u, cStart, cur[u := cur[u] - {snap[k]}], asg, pruned, pr + [(u, snap[k])], snap, k + 1)
  {
    var pr' := pr + [(u, snap[k])];
    assert pr'[..|pruned|] == pr[..|pruned|];
    assert FcPrunes(c, asg, pr'[|pr|]);
  }

  /** Once every value of the snapshot was tried, every value left in u's domain passes c. */
  lemma FcFinish(c: Constraint, u: nat, dom: seq<seq<int>>, cStart: seq<set<int>>, cur: seq<set<int>>,
                 asg: seq<Option<int>>, pruned: seq<Prune>, pr: seq<Prune>, snap: seq<int>)
    requires u < |dom| && u < |cStart| && snap == CurDomain(dom[u], cStart[u])
    requires forall x :: x in cStart[u] ==> x in dom[u]
    requires FcInv(c, u, cStart, cur, asg, pruned, pr, snap, |snap|)
    ensures forall x :: x in cur[u] ==> TrialPasses(c, asg, u, x)
  {
    forall x | x in cur[u] ensures TrialPasses(c, asg, u, x) {
      var i :| 0 <= i < |snap| && snap[i] == x;
    }
  }

  /**
   * Forward checking: for every triggering constraint with exactly one open
   * variable, prune the values of that variable that fail it; fail as soon as
   * that variable's domain is empty.
   */
  method PropFC(csp: Csp, newVar: Option<nat>) returns (ok: bool, pruned: seq<Prune>)
    requires csp.Valid()
    modifies csp`cur, csp`asg
    ensures csp.Valid() && csp.asg == old(csp.asg)
    ensures Record(old(csp.cur), csp.cur, pruned)
    ensures forall p :: p in pruned ==> exists c :: c in Triggered(csp.cons, newVar) && FcPrunes(c, csp.asg, p)
    ensures ok ==> forall c :: c in Triggered(csp.cons, newVar) ==> FcConsistent(c, csp.dom, csp.cur, csp.asg)
    ensures !ok ==> exists c :: c in Triggered(csp.cons, newVar) && |Unassigned(c.scope, csp.asg)| == 1 &&
                               WipedOut(c, csp.dom, csp.cur, csp.asg)
  {
    pruned := [];
    var constraints := Triggered(csp.cons, newVar);
    ghost var cur0 := csp.cur;
    ghost var why: seq<nat> := [];
    for i := 0 to |constraints|
      invariant csp.Valid() && csp.asg == old(csp.asg)
      invariant Record(cur0, csp.cur, pruned)
      invariant HasReasons(constraints, csp.asg, pruned, why, i)
      invariant FcUpTo(constraints, i, csp.dom, csp.cur, csp.asg)
    {
      var c := constraints[i];
      var unasgn := Unassigned(c.scope, csp.asg);
      if |unasgn| == 1 {
        var u := unasgn[0];
        assert u in unasgn;
        ghost var before := csp.cur;
        ghost var pBefore := pruned;
        pruned := ForwardCheck(csp, c, u, pruned, cur0);
        why := ExtendReasons(constraints, csp.asg, pBefore, pruned, why, i);
        if |CurDomain(csp.dom[u], csp.cur[u])| == 0 {
          assert CurDomain(csp.dom[u], csp.cur[u]) == [];
          assert c in Triggered(csp.cons, newVar) && WipedOut(c, csp.dom, csp.cur, csp.asg);
          ok := false;
          PrunedHaveReasons(constraints, csp.asg, pruned, why, i + 1);
          return;
        }
        FcUpToShrink(constraints, i, csp.dom, before, csp.cur, csp.asg, u);
      }
      FcUpToNext(constraints, i, csp.dom, csp.cur, csp.asg);
    }
    ok := true;
    PrunedHaveReasons(constraints, csp.asg, pruned, why, |constraints|);
  }

  /** Pair k of `pruned` was pruned by forward checking constraint why[k], one of the first i constraints. */
  ghost predicate HasReasons(constraints: seq<Constraint>, asg: seq<Option<int>>, pruned: seq<Prune>, why: seq<nat>, i: nat)
  {
    && |why| == |pruned|
    && forall k :: 0 <= k < |pruned| ==> why[k] < i && why[k] < |constraints| && FcPrunes(constraints[why[k]], asg, pruned[k])
  }

  /** The first i constraints are forward-checked. */
  ghost predicate FcUpTo(constraints: seq<Constraint>, i: nat, dom: seq<seq<int>>, cur: seq<set<int>>, asg: seq<Option<int>>)
    requires i <= |constraints|
  {
    forall k :: 0 <= k < i ==> FcConsistent(constraints[k], dom, cur, asg)
  }

  /** A constraint left alone (more than one open variable) is forward-checked trivially. */
  lemma FcUpToNext(constraints: seq<Constraint>, i: nat, dom: seq<seq<int>>, cur: seq<set<int>>, asg: seq<Option<int>>)
    requires i < |constraints| && FcUpTo(constraints, i, dom, cur, asg)
    requires |Unassigned(constraints[i].scope, asg)| == 1 ==> FcConsistent(constraints[i], dom, cur, asg)
    ensures FcUpTo(constraints, i + 1, dom, cur, asg)
  {
  }

  /** Pruning u's domain, leaving it non-empty, keeps the first i constraints forward-checked. */
  lemma FcUpToShrink(constraints: seq<Constraint>, i: nat, dom: seq<seq<int>>, cur: seq<set<int>>, cur': seq<set<int>>,
                     asg: seq<Option<int>>, u: nat)
    requires i <= |constraints| && FcUpTo(constraints, i, dom, cur, asg)
    requires |cur'| == |cur| && u < |cur| && u < |dom|
    requires forall w :: 0 <= w < |cur| && w != u ==> cur'[w] == cur[w]
    requires cur'[u] <= cur[u] && CurDomain(dom[u], cur'[u]) != []
    ensures FcUpTo(constraints, i, dom, cur', asg)
  {
    forall k | 0 <= k < i ensures FcConsistent(constraints[k], dom, cur', asg) {
      FcConsistentShrink(constraints[k], dom, cur, cur', asg, u);
    }
  }

  /** Reasons for the pairs that forward checking constraint i appended. */
  lemma ExtendReasons(constraints: seq<Constraint>, asg: seq<Option<int>>, pruned: seq<Prune>, pruned': seq<Prune>,
                      why: seq<nat>, i: nat) returns (why': seq<nat>)
    requires i < |constraints| && HasReasons(constraints, asg, pruned, why, i)
    requires |pruned| <= |pruned'| && pruned'[..|pruned|] == pruned
    requires forall k :: |pruned| <= k < |pruned'| ==> FcPrunes(constraints[i], asg, pruned'[k])
    ensures HasReasons(constraints, asg, pruned', why', i + 1)
  {
    why' := why + seq(|pruned'| - |pruned|, _ => i);
    forall k | 0 <= k < |pruned'|
      ensures why'[k] < i + 1 && FcPrunes(constraints[why'[k]], asg, pruned'[k])
    {
      if k < |pruned| {
        assert pruned'[k] == pruned[k];
      }
    }
  }

  lemma PrunedHaveReasons(constraints: seq<Constraint>, asg: seq<Option<int>>, pruned: seq<Prune>, why: seq<nat>, i: nat)
    requires HasReasons(constraints, asg, pruned, why, i)
    ensures forall p :: p in pruned ==> exists c :: c in constraints && FcPrunes(c, asg, p)
  {
    forall p | p in pruned ensures exists c :: c in constraints && FcPrunes(c, asg, p) {
      var k :| 0 <= k < |pruned| && pruned[k] == p;
      assert constraints[why[k]] in constraints;
    }
  }

  /** Pruning u's domain keeps the forward-checking consistency of a constraint, as long as u stays non-empty. */
  lemma FcConsistentShrink(c: Constraint, dom: seq<seq<int>>, cur: seq<set<int>>, cur': seq<set<int>>,
                           asg: seq<Option<int>>, u: nat)
    requires FcConsistent(c, dom, cur, asg)
    requires |cur'| == |cur| && u < |cur| && u < |dom|
    requires forall w :: 0 <= w < |cur| && w != u ==> cur'[w] == cur[w]
    requires cur'[u] <= cur[u] && CurDomain(dom[u], cur'[u]) != []
    ensures FcConsistent(c, dom, cur', asg)
  {
  }

  /** Generalized arc consistency of one constraint: every value of every open variable has support. */
  ghost predicate Gac(c: Constraint, cur: seq<set<int>>, asg: seq<Option<int>>)
  {
    forall v, x :: v in Unassigned(c.scope, asg) && v < |cur| && x in cur[v] ==> HasSupport(c, v, x, cur, asg)
  }

  /** No open variable of c has lost its last value. */
  ghost predicate Alive(c: Constraint, cur: seq<set<int>>, asg: seq<Option<int>>)
  {
    forall v :: v in Unassigned(c.scope, asg) && v < |cur| ==> cur[v] != {}
  }

  /** Some open variable of c has an empty current domain: a domain wipe-out found while examining c. */
  ghost predicate WipedOut(c: Constraint, dom: seq<seq<int>>, cur: seq<set<int>>, asg: seq<Option<int>>)
  {
    exists v :: v in Unassigned(c.scope, asg) && v < |dom| && v < |cur| && CurDomain(dom[v], cur[v]) == []
  }

  /** d is a constraint on a variable that lost a value recorded in `pruned`. */
  ghost predicate OnPruned(cons: seq<Constraint>, pruned: seq<Prune>, d: Constraint)
  {
    exists p :: p in pruned && d in ConsWithVar(cons, p.0)
  }

  /** A constraint on a pruned variable stays one as the record grows. */
  lemma OnPrunedGrows(cons: seq<Constraint>, pruned: seq<Prune>, pruned': seq<Prune>, d: Constraint)
    requires |pruned| <= |pruned'| && pruned'[..|pruned|] == pruned
    requires OnPruned(cons, pruned, d)
    ensures OnPruned(cons, pruned', d)
  {
    var p :| p in pruned && d in ConsWithVar(cons, p.0);
    var k :| 0 <= k < |pruned| && pruned[k] == p;
    assert pruned'[k] == p;
  }

  /** d was reached by GAC: it is a triggering constraint, or a constraint on a variable that lost a value in `pruned`. */
  ghost predicate Reached(cons: seq<Constraint>, constraints: seq<Constraint>, pruned: seq<Prune>, d: Constraint)
  {
    d in constraints || OnPruned(cons, pruned, d)
  }

  lemma ReachedGrows(cons: seq<Constraint>, constraints: seq<Constraint>, pruned: seq<Prune>, pruned': seq<Prune>,
                     d: Constraint)
    requires |pruned| <= |pruned'| && pruned'[..|pruned|] == pruned
    requires Reached(cons, constraints, pruned, d)
    ensures Reached(cons, constraints, pruned', d)
  {
    if d !in constraints {
      OnPrunedGrows(cons, pruned, pruned', d);
    }
  }

  /** GAC of a constraint does not depend on the domain of a variable outside its scope. */
  lemma GacFrame(d: Constraint, cur: seq<set<int>>, cur': seq<set<int>>, asg: seq<Option<int>>, v: nat)
    requires |cur'| == |cur| && v !in d.scope
    requires forall w :: 0 <= w < |cur| && w != v ==> cur'[w] == cur[w]
    requires Gac(d, cur, asg)
    ensures Gac(d, cur', asg)
  {
    forall w, x | w in Unassigned(d.scope, asg) && w < |cur'| && x in cur'[w]
      ensures HasSupport(d, w, x, cur', asg)
    {
      SupportFrame(d, w, x, cur, cur', asg);
    }
  }

  /**
   * Every recorded pair was pruned for lack of support in a constraint on its
   * variable (ghost witnesses `why`) that the queue held, judged in the domains
   * as they stood when it was pruned: the starting domains cur0 less the pairs
   * pruned before it.
   */
  ghost predicate PrunedUnsupported(cons: seq<Constraint>, constraints: seq<Constraint>, pruned: seq<Prune>,
                                    why: seq<Constraint>, cur0: seq<set<int>>, asg: seq<Option<int>>)
  {
    && |why| == |pruned|
    && forall k :: 0 <= k < |pruned| ==>
         && why[k] in ConsWithVar(cons, pruned[k].0)
         && Reached(cons, constraints, pruned[..k], why[k])
         && IsUnassigned(asg, pruned[k].0)
         && !HasSupport(why[k], pruned[k].0, pruned[k].1, Removed(cur0, pruned[..k]), asg)
  }

  /** Recording one more pair, unsupported in c in the domains left by the earlier pairs, keeps PrunedUnsupported. */
  lemma PrunedUnsupportedAppend(cons: seq<Constraint>, constraints: seq<Constraint>, pruned: seq<Prune>,
                                why: seq<Constraint>, cur0: seq<set<int>>, asg: seq<Option<int>>, c: Constraint, p: Prune)
    requires PrunedUnsupported(cons, constraints, pruned, why, cur0, asg)
    requires c in ConsWithVar(cons, p.0) && IsUnassigned(asg, p.0) && Reached(cons, constraints, pruned, c)
    requires !HasSupport(c, p.0, p.1, Removed(cur0, pruned), asg)
    ensures PrunedUnsupported(cons, constraints, pruned + [p], why + [c], cur0, asg)
  {
    var p' := pruned + [p];
    var w' := why + [c];
    forall k | 0 <= k < |p'|
      ensures && w'[k] in ConsWithVar(cons, p'[k].0)
              && Reached(cons, constraints, p'[..k], w'[k])
              && IsUnassigned(asg, p'[k].0)
              && !HasSupport(w'[k], p'[k].0, p'[k].1, Removed(cur0, p'[..k]), asg)
    {
      if k < |pruned| {
        assert p'[..k] == pruned[..k];
      } else {
        assert p'[..k] == pruned;
      }
    }
  }

  /**
   * The value loop of GAC for one open variable v of constraint c: each value
   * of v's current domain (a snapshot) without support in c is pruned once,
   * and every constraint on v is put back on the queue.
   */
  method Revise(csp: Csp, c: Constraint, v: nat, pruned: seq<Prune>, queue: seq<Constraint>,
                ghost constraints: seq<Constraint>, ghost cur0: seq<set<int>>, ghost why: seq<Constraint>)
    returns (pruned': seq<Prune>, queue': seq<Constraint>, ghost why': seq<Constraint>)
    requires csp.Valid() && c in csp.cons && v in Unassigned(c.scope, csp.asg)
    requires Reached(csp.cons, constraints, pruned, c)
    requires Record(cur0, csp.cur, pruned)
    requires PrunedUnsupported(csp.cons, constraints, pruned, why, cur0, csp.asg)
    modifies csp`cur
    ensures csp.Valid()
    ensures Record(cur0, csp.cur, pruned')
    ensures PrunedUnsupported(csp.cons, constraints, pruned', why', cur0, csp.asg)
    ensures |pruned| <= |pruned'| && pruned'[..|pruned|] == pruned
    ensures forall k :: |pruned| <= k < |pruned'| ==> pruned'[k].0 == v
    ensures forall w :: 0 <= w < |csp.cur| && w != v ==> csp.cur[w] == old(csp.cur[w])
    ensures csp.cur[v] <= old(csp.cur[v])
    ensures queue <= queue' && forall d :: d in queue' ==> d in queue || d in csp.cons
    ensures forall d :: d in queue' ==> d in queue || OnPruned(csp.cons, pruned', d)
    ensures forall x :: x in csp.cur[v] ==> HasSupport(c, v, x, csp.cur, csp.asg)
    ensures forall k :: |pruned| <= k < |pruned'| ==> !HasSupport(c, v, pruned'[k].1, csp.cur, csp.asg)
    ensures |pruned'| == |pruned| ==> queue' == queue && csp.cur == old(csp.cur)
    ensures |pruned'| > |pruned| ==>
              && TotalSize(csp.cur) < TotalSize(old(csp.cur))
              && forall d :: d in ConsWithVar(csp.cons, v) ==> d in queue'
  {
    pruned', queue', why' := pruned, queue, why;
    var snap := CurDomain(csp.dom[v], csp.cur[v]);
    for k := 0 to |snap|
      invariant csp.Valid()
      invariant Record(cur0, csp.cur, pruned')
      invariant PrunedUnsupported(csp.cons, constraints, pruned', why', cur0, csp.asg)
      invariant ReviseInv(csp.cons, c, v, old(csp.cur), csp.cur, csp.asg, pruned, pruned', queue, queue', snap, k)
    {
      var x := snap[k];
      if !HasSupport(c, v, x, csp.cur, csp.asg) && (v, x) !in pruned' {
        assert x in cur0[v];
        ghost var before, pBefore, qBefore := csp.cur, pruned', queue';
        RecordPrune(cur0, csp.cur, pruned', v, x);
        RecordIsRemoved(cur0, csp.cur, pruned');
        assert c in ConsWithVar(csp.cons, v);
        ReachedGrows(csp.cons, constraints, pruned, pruned', c);
        PrunedUnsupportedAppend(csp.cons, constraints, pruned', why', cur0, csp.asg, c, (v, x));
        pruned' := pruned' + [(v, x)];
        why' := why' + [c];
        queue' := queue' + ConsWithVar(csp.cons, v);
        csp.PruneValue(v, x);
        RevisePruneStep(csp.cons, c, v, old(csp.cur), before, csp.asg, pruned, pBefore, queue, qBefore, snap, k);
      } else {
        ReviseKeepStep(csp.cons, c, v, old(csp.cur), csp.cur, csp.asg, pruned, pruned', queue, queue', snap, k);
      }
    }
    ReviseFinish(csp.cons, c, v, csp.dom, old(csp.cur), csp.cur, csp.asg, pruned, pruned', queue, queue', snap);
  }

  /** Once every value of the snapshot was tried, ReviseInv gives Revise's postcondition. */
  lemma ReviseFinish(cons: seq<Constraint>, c: Constraint, v: nat, dom: seq<seq<int>>, cStart: seq<set<int>>,
                     cur: seq<set<int>>, asg: seq<Option<int>>, pruned: seq<Prune>, pr: seq<Prune>,
                     queue: seq<Constraint>, q: seq<Constraint>, snap: seq<int>)
    requires v < |dom| && v < |cStart| && snap == CurDomain(dom[v], cStart[v])
    requires forall x :: x in cStart[v] ==> x in dom[v]
    requires ReviseInv(cons, c, v, cStart, cur, asg, pruned, pr, queue, q, snap, |snap|)
    ensures forall x :: x in cur[v] ==> HasSupport(c, v, x, cur, asg)
  {
    forall x | x in cur[v] ensures HasSupport(c, v, x, cur, asg) {
      var i :| 0 <= i < |snap| && snap[i] == x;
    }
  }

  /**
   * What Revise has established after trying the first k values of `snap`: only v's
   * domain shrank, the new pairs are all v's and lack support in c, every tried
   * value still present has support in c, and either nothing changed, or the
   * total size dropped and every constraint on v is queued.
   */
  ghost predicate ReviseInv(cons: seq<Constraint>, c: Constraint, v: nat, cStart: seq<set<int>>, cur: seq<set<int>>,
                            asg: seq<Option<int>>, pruned: seq<Prune>, pr: seq<Prune>,
                            queue: seq<Constraint>, q: seq<Constraint>, snap: seq<int>, k: nat)
  {
    && k <= |snap|
    && |cur| == |cStart| && v < |cur|
    && |pruned| <= |pr| && pr[..|pruned|] == pruned
    && (forall k :: |pruned| <= k < |pr| ==> pr[k].0 == v && !HasSupport(c, v, pr[k].1, cur, asg))
    && (forall w :: 0 <= w < |cur| && w != v ==> cur[w] == cStart[w])
    && cur[v] <= cStart[v]
    && queue <= q && (forall d :: d in q ==> d in queue || d in cons)
    && (forall d :: d in q ==> d in queue || OnPruned(cons, pr, d))
    && (forall i :: 0 <= i < k && snap[i] in cur[v] ==> HasSupport(c, v, snap[i], cur, asg))
    && (|pr| == |pruned| ==> q == queue && cur == cStart)
    && (|pr| > |pruned| ==>
          && TotalSize(cur) < TotalSize(cStart)
          && forall d :: d in ConsWithVar(cons, v) ==> d in q)
  }

  /** Leaving a value alone keeps ReviseInv: it has support, or it is gone already and so something was pruned. */
  lemma ReviseKeepStep(cons: seq<Constraint>, c: Constraint, v: nat, cStart: seq<set<int>>, cur: seq<set<int>>,
                       asg: seq<Option<int>>, pruned: seq<Prune>, pr: seq<Prune>,
                       queue: seq<Constraint>, q: seq<Constraint>, snap: seq<int>, k: nat)
    requires ReviseInv(cons, c, v, cStart, cur, asg, pruned, pr, queue, q, snap, k) && k < |snap|
    requires snap[k] in cStart[v] && (HasSupport(c, v, snap[k], cur, asg) || snap[k] !in cur[v])
    ensures ReviseInv(cons, c, v, cStart, cur, asg, pruned, pr, queue, q, snap, k + 1)
  {
  }

  /** Pruning an unsupported value x of v, recording it and queueing the constraints on v keeps ReviseInv. */
  lemma RevisePruneStep(cons: seq<Constraint>, c: Constraint, v: nat, cStart: seq<set<int>>, cur: seq<set<int>>,
                        asg: seq<Option<int>>, pruned: seq<Prune>, pr: seq<Prune>,
                        queue: seq<Constraint>, q: seq<Constraint>, snap: seq<int>, k: nat)
    requires ReviseInv(cons, c, v, cStart, cur, asg, pruned, pr, queue, q, snap, k) && k < |snap|
    requires snap[k] in cur[v] && !HasSupport(c, v, snap[k], cur, asg)
    ensures ReviseInv(cons, c, v, cStart, cur[v := cur[v] - {snap[k]}], asg, pruned, pr + [(v, snap[k])], queue,
                      q + ConsWithVar(cons, v), snap, k + 1)
  {
    var x := snap[k];
    var cur' := cur[v := cur[v] - {x}];
    var pr' := pr + [(v, x)];
    var q' := q + ConsWithVar(cons, v);
    TotalSizeShrinks(cur, v, x);
    assert pr'[..|pruned|] == pr[..|pruned|];
    forall i | 0 <= i < k + 1 && snap[i] in cur'[v] ensures HasSupport(c, v, snap[i], cur', asg) {
      SupportIgnoresOwnDomain(c, v, snap[i], cur, cur', asg);
    }
    forall j | |pruned| <= j < |pr'| ensures pr'[j].0 == v && !HasSupport(c, v, pr'[j].1, cur', asg) {
      SupportIgnoresOwnDomain(c, v, pr'[j].1, cur, cur', asg);
    }
    forall d | d in q' ensures d in queue || d in cons {
      if d !in q {
        assert d in ConsWithVar(cons, v);
      }
    }
    forall d | d in q' ensures d in queue || OnPruned(cons, pr', d) {
      if d in q {
        if d !in queue {
          OnPrunedGrows(cons, pr, pr', d);
        }
      } else {
        assert (v, x) in pr' && d in ConsWithVar(cons, v);
      }
    }
    forall d | d in ConsWithVar(cons, v) ensures d in q' {
      var j :| 0 <= j < |ConsWithVar(cons, v)| && ConsWithVar(cons, v)[j] == d;
      assert q'[|q| + j] == d;
    }
    if |pr| > |pruned| {
      assert TotalSize(cur) < TotalSize(cStart);
    }
  }

  /**
   * The body of the GAC queue loop for one popped constraint c: revise each
   * of its open variables in scope order; report a wipeout as soon as a
   * revised variable's domain is empty.
   */
  method ReviseConstraint(csp: Csp, c: Constraint, pruned: seq<Prune>, queue: seq<Constraint>,
                          ghost constraints: seq<Constraint>, ghost cur0: seq<set<int>>, ghost why: seq<Constraint>)
    returns (wiped: bool, pruned': seq<Prune>, queue': seq<Constraint>, ghost why': seq<Constraint>)
    requires csp.Valid() && c in csp.cons && Reached(csp.cons, constraints, pruned, c)
    requires Record(cur0, csp.cur, pruned)
    requires PrunedUnsupported(csp.cons, constraints, pruned, why, cur0, csp.asg)
    requires forall d :: d in queue ==> d in csp.cons
    modifies csp`cur
    ensures csp.Valid()
    ensures Record(cur0, csp.cur, pruned')
    ensures PrunedUnsupported(csp.cons, constraints, pruned', why', cur0, csp.asg)
    ensures |pruned| <= |pruned'| && pruned'[..|pruned|] == pruned
    ensures queue <= queue' && forall d :: d in queue' ==> d in csp.cons
    ensures forall d :: d in queue' ==> d in queue || OnPruned(csp.cons, pruned', d)
    ensures forall d :: d in csp.cons && (d in queue || Gac(d, old(csp.cur), csp.asg)) ==>
              d in queue' || Gac(d, csp.cur, csp.asg)
    ensures forall k, d :: |pruned| <= k < |pruned'| && d in ConsWithVar(csp.cons, pruned'[k].0) ==> d in queue'
    ensures |pruned'| == |pruned| ==> queue' == queue && csp.cur == old(csp.cur)
    ensures |pruned'| > |pruned| ==> TotalSize(csp.cur) < TotalSize(old(csp.cur))
    ensures !wiped ==> c in queue' || Gac(c, csp.cur, csp.asg)
    ensures !wiped ==> Alive(c, csp.cur, csp.asg)
    ensures forall w :: 0 <= w < |csp.cur| && w !in c.scope ==> csp.cur[w] == old(csp.cur[w])
    ensures wiped ==> WipedOut(c, csp.dom, csp.cur, csp.asg)
  {
    var vars := Unassigned(c.scope, csp.asg);
    pruned', queue', why' := pruned, queue, why;
    for i := 0 to |vars|
      invariant csp.Valid()
      invariant Record(cur0, csp.cur, pruned')
      invariant PrunedUnsupported(csp.cons, constraints, pruned', why', cur0, csp.asg)
      invariant ReviseConsInv(csp.cons, c, vars, i, old(csp.cur), csp.cur, csp.asg, pruned, pruned', queue, queue')
      invariant RevisedAlive(vars, i, csp.cur)
    {
      wiped, pruned', queue', why' := ReviseNext(csp, c, vars, i, old(csp.cur), pruned, pruned', queue, queue', constraints, cur0, why');
      if wiped {
        return;
      }
    }
    wiped := false;
    ReviseConsFinish(csp.cons, c, vars, old(csp.cur), csp.cur, csp.asg, pruned, pruned', queue, queue');
  }

  /** The first i variables of `vars` each still have a value. */
  ghost predicate RevisedAlive(vars: seq<nat>, i: nat, cur: seq<set<int>>)
  {
    forall i' :: 0 <= i' < i && i' < |vars| && vars[i'] < |cur| ==> cur[vars[i']] != {}
  }

  /**
   * One turn of ReviseConstraint's loop: revise vars[i], the next open
   * variable of c, and report whether its domain is now empty.
   */
  method ReviseNext(csp: Csp, c: Constraint, vars: seq<nat>, i: nat, ghost cStart: seq<set<int>>,
                    pruned: seq<Prune>, pr: seq<Prune>, queue: seq<Constraint>, q: seq<Constraint>,
                    ghost constraints: seq<Constraint>, ghost cur0: seq<set<int>>, ghost why: seq<Constraint>)
    returns (wiped: bool, pr': seq<Prune>, q': seq<Constraint>, ghost why': seq<Constraint>)
    requires csp.Valid() && c in csp.cons && vars == Unassigned(c.scope, csp.asg) && i < |vars|
    requires Reached(csp.cons, constraints, pruned, c)
    requires Record(cur0, csp.cur, pr)
    requires PrunedUnsupported(csp.cons, constraints, pr, why, cur0, csp.asg)
    requires ReviseConsInv(csp.cons, c, vars, i, cStart, csp.cur, csp.asg, pruned, pr, queue, q)
    requires RevisedAlive(vars, i, csp.cur)
    modifies csp`cur
    ensures csp.Valid()
    ensures Record(cur0, csp.cur, pr')
    ensures PrunedUnsupported(csp.cons, constraints, pr', why', cur0, csp.asg)
    ensures ReviseConsInv(csp.cons, c, vars, i + 1, cStart, csp.cur, csp.asg, pruned, pr', queue, q')
    ensures !wiped ==> RevisedAlive(vars, i + 1, csp.cur)
    ensures vars[i] < |csp.dom| && vars[i] < |csp.cur|
    ensures wiped <==> CurDomain(csp.dom[vars[i]], csp.cur[vars[i]]) == []
    ensures wiped ==> WipedOut(c, csp.dom, csp.cur, csp.asg)
  {
    var v := vars[i];
    assert v in vars;
    ghost var before := csp.cur;
    ReachedGrows(csp.cons, constraints, pruned, pr, c);
    pr', q', why' := Revise(csp, c, v, pr, q, constraints, cur0, why);
    ReviseConsStep(csp.cons, c, vars, i, cStart, before, csp.cur, csp.asg, pruned, pr, pr', queue, q, q');
    if |CurDomain(csp.dom[v], csp.cur[v])| == 0 {
      assert CurDomain(csp.dom[v], csp.cur[v]) == [];
      assert WipedOut(c, csp.dom, csp.cur, csp.asg);
      return true, pr', q', why';
    }
    wiped := false;
    assert CurDomain(csp.dom[v], csp.cur[v])[0] in csp.cur[v];
    NonEmptyStep(vars, i, before, csp.cur);
  }

  /** Revising vars[i] changes only its own domain, so the revised variables keep a value once vars[i] does. */
  lemma NonEmptyStep(vars: seq<nat>, i: nat, before: seq<set<int>>, cur: seq<set<int>>)
    requires i < |vars| && |cur| == |before|
    requires RevisedAlive(vars, i, before)
    requires forall w :: 0 <= w < |cur| && w != vars[i] ==> cur[w] == before[w]
    requires vars[i] < |cur| ==> cur[vars[i]] != {}
    ensures RevisedAlive(vars, i + 1, cur)
  {
  }

  /** Once every open variable of c is revised without a wipe-out, c is alive and either arc consistent or queued. */
  lemma ReviseConsFinish(cons: seq<Constraint>, c: Constraint, vars: seq<nat>, cStart: seq<set<int>>,
                         cur: seq<set<int>>, asg: seq<Option<int>>, pruned: seq<Prune>, pr: seq<Prune>,
                         queue: seq<Constraint>, q: seq<Constraint>)
    requires vars == Unassigned(c.scope, asg)
    requires ReviseConsInv(cons, c, vars, |vars|, cStart, cur, asg, pruned, pr, queue, q)
    requires RevisedAlive(vars, |vars|, cur)
    ensures Alive(c, cur, asg)
    ensures c in q || Gac(c, cur, asg)
  {
    forall w | w in Unassigned(c.scope, asg) && w < |cur| ensures cur[w] != {} {
      var i' :| 0 <= i' < |vars| && vars[i'] == w;
    }
    if |pr| == |pruned| {
      forall w, x | w in Unassigned(c.scope, asg) && w < |cur| && x in cur[w]
        ensures HasSupport(c, w, x, cur, asg)
      {
        var i' :| 0 <= i' < |vars| && vars[i'] == w;
      }
    }
  }

  /**
   * What ReviseConstraint has established after revising the first i open
   * variables `vars` of c: the new pairs extend `pruned`, the queue only grows,
   * GAC is kept or the constraint queued, the constraints on every pruned
   * variable are queued, and either nothing changed and the revised variables
   * are supported, or the total size dropped and c is queued again.
   */
  ghost predicate ReviseConsInv(cons: seq<Constraint>, c: Constraint, vars: seq<nat>, i: nat,
                                cStart: seq<set<int>>, cur: seq<set<int>>, asg: seq<Option<int>>,
                                pruned: seq<Prune>, pr: seq<Prune>, queue: seq<Constraint>, q: seq<Constraint>)
  {
    && i <= |vars|
    && |cur| == |cStart| && (forall w :: 0 <= w < |cur| && w !in c.scope ==> cur[w] == cStart[w])
    && |pruned| <= |pr| && pr[..|pruned|] == pruned
    && queue <= q && (forall d :: d in q ==> d in cons)
    && (forall d :: d in q ==> d in queue || OnPruned(cons, pr, d))
    && (forall d :: d in cons && (d in queue || Gac(d, cStart, asg)) ==> d in q || Gac(d, cur, asg))
    && (forall k, d :: |pruned| <= k < |pr| && d in ConsWithVar(cons, pr[k].0) ==> d in q)
    && (|pr| == |pruned| ==>
          && q == queue && cur == cStart
          && forall i', x :: 0 <= i' < i && vars[i'] < |cur| && x in cur[vars[i']] ==> HasSupport(c, vars[i'], x, cur, asg))
    && (|pr| > |pruned| ==> TotalSize(cur) < TotalSize(cStart) && c in q)
  }

  /** Revising open variable vars[i] (Revise's postcondition, from `before` to `cur`) keeps ReviseConsInv. */
  lemma ReviseConsStep(cons: seq<Constraint>, c: Constraint, vars: seq<nat>, i: nat,
                       cStart: seq<set<int>>, before: seq<set<int>>, cur: seq<set<int>>, asg: seq<Option<int>>,
                       pruned: seq<Prune>, pB: seq<Prune>, pr: seq<Prune>,
                       queue: seq<Constraint>, qB: seq<Constraint>, q: seq<Constraint>)
    requires i < |vars| && c in cons && vars[i] in c.scope
    requires ReviseConsInv(cons, c, vars, i, cStart, before, asg, pruned, pB, queue, qB)
    requires |pB| <= |pr| && pr[..|pB|] == pB
    requires forall k :: |pB| <= k < |pr| ==> pr[k].0 == vars[i]
    requires |cur| == |before| && forall w :: 0 <= w < |cur| && w != vars[i] ==> cur[w] == before[w]
    requires qB <= q && forall d :: d in q ==> d in qB || d in cons
    requires forall d :: d in q ==> d in qB || OnPruned(cons, pr, d)
    requires |pr| == |pB| ==>
               && q == qB && cur == before
               && vars[i] < |cur| && forall x :: x in cur[vars[i]] ==> HasSupport(c, vars[i], x, cur, asg)
    requires |pr| > |pB| ==>
               && TotalSize(cur) < TotalSize(before)
               && forall d :: d in ConsWithVar(cons, vars[i]) ==> d in q
    ensures ReviseConsInv(cons, c, vars, i + 1, cStart, cur, asg, pruned, pr, queue, q)
  {
    var v := vars[i];
    GacKeptOrQueued(cons, queue, cStart, qB, before, q, cur, asg, v);
    NewPairsQueued(cons, |pruned|, pB, pr, qB, q, v);
    assert pr[..|pruned|] == pr[..|pB|][..|pruned|];
    forall d | d in q ensures d in cons {
      if d in qB {
        assert d in cons;
      }
    }
    forall d | d in q ensures d in queue || OnPruned(cons, pr, d) {
      if d in qB && d !in queue && !OnPruned(cons, pr, d) {
        OnPrunedGrows(cons, pB, pr, d);
      }
    }
    if |pr| > |pB| {
      assert c in ConsWithVar(cons, v);
    }
    if |pr| > |pruned| && |pB| > |pruned| {
      assert c in qB;
      var j :| 0 <= j < |qB| && qB[j] == c;
      assert q[j] == c;
    }
    if |pr| == |pruned| {
      assert |pB| == |pruned| && cur == before;
      forall i', x | 0 <= i' < i + 1 && vars[i'] < |cur| && x in cur[vars[i']]
        ensures HasSupport(c, vars[i'], x, cur, asg)
      {
        if i' == i {
          assert x in cur[v];
        }
      }
    }
    if |pr| > |pruned| {
      assert TotalSize(cur) < TotalSize(cStart) by {
        if |pB| > |pruned| && |pr| > |pB| {
          assert TotalSize(cur) < TotalSize(before) < TotalSize(cStart);
        }
      }
    }
  }

  lemma GacKeptOrQueued(cons: seq<Constraint>, q0: seq<Constraint>, cur0: seq<set<int>>,
                        qB: seq<Constraint>, before: seq<set<int>>, q': seq<Constraint>, cur: seq<set<int>>,
                        asg: seq<Option<int>>, v: nat)
    requires forall d :: d in cons && (d in q0 || Gac(d, cur0, asg)) ==> d in qB || Gac(d, before, asg)
    requires qB <= q'
    requires |cur| == |before| && forall w :: 0 <= w < |cur| && w != v ==> cur[w] == before[w]
    requires cur != before ==> forall d :: d in ConsWithVar(cons, v) ==> d in q'
    ensures forall d :: d in cons && (d in q0 || Gac(d, cur0, asg)) ==> d in q' || Gac(d, cur, asg)
  {
    forall d | d in cons && (d in q0 || Gac(d, cur0, asg)) ensures d in q' || Gac(d, cur, asg) {
      if d in qB {
        var k :| 0 <= k < |qB| && qB[k] == d;
        assert q'[k] == d;
      } else if cur != before {
        if v in d.scope {
          assert d in ConsWithVar(cons, v);
        } else {
          GacFrame(d, before, cur, asg, v);
        }
      }
    }
  }

  lemma NewPairsQueued(cons: seq<Constraint>, n: nat, pB: seq<Prune>, p': seq<Prune>,
                       qB: seq<Constraint>, q': seq<Constraint>, v: nat)
    requires n <= |pB| <= |p'| && p'[..|pB|] == pB && qB <= q'
    requires forall k, d :: n <= k < |pB| && d in ConsWithVar(cons, pB[k].0) ==> d in qB
    requires forall k :: |pB| <= k < |p'| ==> p'[k].0 == v
    requires |p'| > |pB| ==> forall d :: d in ConsWithVar(cons, v) ==> d in q'
    ensures forall k, d :: n <= k < |p'| && d in ConsWithVar(cons, p'[k].0) ==> d in q'
  {
    forall k, d | n <= k < |p'| && d in ConsWithVar(cons, p'[k].0) ensures d in q' {
      if k < |pB| {
        assert p'[k] == p'[..|pB|][k] == pB[k];
        assert d in qB;
        var j :| 0 <= j < |qB| && qB[j] == d;
        assert q'[j] == d;
      }
    }
  }

  /**
   * GAC propagation: a queue of constraints, initially the triggering ones;
   * each popped constraint has its open variables revised, and the constraints
   * on a variable that lost a value are queued again. Fails as soon as a
   * revised variable's domain is empty.
   */
  method PropGAC(csp: Csp, newVar: Option<nat>) returns (ok: bool, pruned: seq<Prune>)
    requires csp.Valid()
    modifies csp`cur
    ensures csp.Valid()
    ensures Record(old(csp.cur), csp.cur, pruned)
    ensures PrunedWhenUnsupported(csp.cons, Triggered(csp.cons, newVar), pruned, old(csp.cur), csp.asg)
    ensures PrunedNowUnsupported(csp.cons, Triggered(csp.cons, newVar), pruned, csp.cur, csp.asg)
    ensures ok ==> forall c :: c in Triggered(csp.cons, newVar) ==> Gac(c, csp.cur, csp.asg) && Alive(c, csp.cur, csp.asg)
    ensures ok ==> forall p, c :: p in pruned && c in ConsWithVar(csp.cons, p.0) ==>
                    Gac(c, csp.cur, csp.asg) && Alive(c, csp.cur, csp.asg)
    ensures !ok ==> exists c :: (c in Triggered(csp.cons, newVar) || OnPruned(csp.cons, pruned, c)) &&
                               WipedOut(c, csp.dom, csp.cur, csp.asg)
  {
    var constraints := Triggered(csp.cons, newVar);
    pruned := [];
    var queue := constraints;
    ghost var why: seq<Constraint> := [];
    ghost var done: set<Constraint> := {};
    ok := true;
    while ok && queue != []
      invariant csp.Valid()
      invariant Record(old(csp.cur), csp.cur, pruned)
      invariant PrunedUnsupported(csp.cons, constraints, pruned, why, old(csp.cur), csp.asg)
      invariant ok ==> forall d :: d in queue ==> d in csp.cons
      invariant ok ==> forall d :: d in done ==> d in csp.cons
      invariant ok ==> Settled(done, queue, csp.cur, csp.asg)
      invariant ok ==> AliveDone(done, csp.cur, csp.asg)
      invariant ok ==> Covered(csp.cons, constraints, pruned, queue, done)
      invariant ok ==> forall d :: d in queue ==> d in constraints || OnPruned(csp.cons, pruned, d)
      invariant !ok ==> exists c :: (c in constraints || OnPruned(csp.cons, pruned, c)) &&
                                   WipedOut(c, csp.dom, csp.cur, csp.asg)
      decreases ok, TotalSize(csp.cur), |queue|
    {
      ghost var c := queue[0];
      var wiped;
      wiped, pruned, queue, why := GacTurn(csp, constraints, queue, pruned, old(csp.cur), why, done);
      ok := !wiped;
      done := done + {c};
    }
    if ok {
      GacFinish(csp.cons, constraints, pruned, done, csp.cur, csp.asg);
    }
    PrunedHaveWitnesses(csp.cons, constraints, pruned, why, old(csp.cur), csp.asg);
    PrunedStayUnsupported(csp.cons, constraints, pruned, why, old(csp.cur), csp.cur, csp.asg);
  }

  /**
   * One turn of the GAC queue loop: pop the first constraint and revise it.
   * Unless a domain was wiped out, the popped constraint joins the processed
   * ones, and either the total size dropped or nothing changed and the queue
   * got shorter.
   */
  method GacTurn(csp: Csp, constraints: seq<Constraint>, queue: seq<Constraint>, pruned: seq<Prune>,
                 ghost cur0: seq<set<int>>, ghost why: seq<Constraint>, ghost done: set<Constraint>)
    returns (wiped: bool, pruned': seq<Prune>, queue': seq<Constraint>, ghost why': seq<Constraint>)
    requires csp.Valid() && queue != []
    requires Record(cur0, csp.cur, pruned)
    requires PrunedUnsupported(csp.cons, constraints, pruned, why, cur0, csp.asg)
    requires forall d :: d in queue ==> d in csp.cons
    requires forall d :: d in done ==> d in csp.cons
    requires Settled(done, queue, csp.cur, csp.asg)
    requires AliveDone(done, csp.cur, csp.asg)
    requires Covered(csp.cons, constraints, pruned, queue, done)
    requires forall d :: d in queue ==> d in constraints || OnPruned(csp.cons, pruned, d)
    modifies csp`cur
    ensures csp.Valid()
    ensures Record(cur0, csp.cur, pruned')
    ensures PrunedUnsupported(csp.cons, constraints, pruned', why', cur0, csp.asg)
    ensures !wiped ==>
              && (forall d :: d in queue' ==> d in csp.cons)
              && Settled(done + {queue[0]}, queue', csp.cur, csp.asg)
              && AliveDone(done + {queue[0]}, csp.cur, csp.asg)
              && Covered(csp.cons, constraints, pruned', queue', done + {queue[0]})
              && (TotalSize(csp.cur) < TotalSize(old(csp.cur)) || (csp.cur == old(csp.cur) && |queue'| < |queue|))
              && (forall d :: d in queue' ==> d in constraints || OnPruned(csp.cons, pruned', d))
    ensures wiped ==> (queue[0] in constraints || OnPruned(csp.cons, pruned', queue[0])) &&
                      WipedOut(queue[0], csp.dom, csp.cur, csp.asg)
  {
    var c := queue[0];
    ghost var curC := csp.cur;
    wiped, pruned', queue', why' := ReviseConstraint(csp, c, pruned, queue[1..], constraints, cur0, why);
    QueueFromExamined(csp.cons, constraints, queue, queue', pruned, pruned');
    if !wiped {
      GacQueueStep(csp.cons, constraints, queue, queue', done, pruned, pruned', curC, csp.cur, csp.asg);
      AliveStep(done, c, curC, csp.cur, csp.asg);
    }
  }

  /**
   * The queue after a turn still holds only triggered constraints and
   * constraints on pruned variables, and so does the constraint just popped.
   */
  lemma QueueFromExamined(cons: seq<Constraint>, constraints: seq<Constraint>, queue: seq<Constraint>,
                          queue': seq<Constraint>, pruned: seq<Prune>, pruned': seq<Prune>)
    requires queue != [] && |pruned| <= |pruned'| && pruned'[..|pruned|] == pruned
    requires forall d :: d in queue ==> d in constraints || OnPruned(cons, pruned, d)
    requires forall d :: d in queue' ==> d in queue[1..] || OnPruned(cons, pruned', d)
    ensures forall d :: d in queue' ==> d in constraints || OnPruned(cons, pruned', d)
    ensures queue[0] in constraints || OnPruned(cons, pruned', queue[0])
  {
    forall d | d in queue && !(d in constraints) ensures OnPruned(cons, pruned', d) {
      OnPrunedGrows(cons, pruned, pruned', d);
    }
    forall d | d in queue[1..] ensures d in queue {
      var k :| 0 <= k < |queue[1..]| && queue[1..][k] == d;
      assert queue[k + 1] == d;
    }
  }

  /** With the queue empty, every triggered constraint and every constraint on a pruned variable is processed, so arc consistent and alive. */
  lemma GacFinish(cons: seq<Constraint>, constraints: seq<Constraint>, pruned: seq<Prune>, done: set<Constraint>,
                  cur: seq<set<int>>, asg: seq<Option<int>>)
    requires Settled(done, [], cur, asg) && AliveDone(done, cur, asg)
    requires Covered(cons, constraints, pruned, [], done)
    ensures forall c :: c in constraints ==> Gac(c, cur, asg) && Alive(c, cur, asg)
    ensures forall p, c :: p in pruned && c in ConsWithVar(cons, p.0) ==> Gac(c, cur, asg) && Alive(c, cur, asg)
  {
  }

  /** Every constraint already processed is queued again or arc consistent. */
  ghost predicate Settled(done: set<Constraint>, queue: seq<Constraint>, cur: seq<set<int>>, asg: seq<Option<int>>)
  {
    forall d :: d in done ==> d in queue || Gac(d, cur, asg)
  }

  /** Every processed constraint still has a value left for each open variable. */
  ghost predicate AliveDone(done: set<Constraint>, cur: seq<set<int>>, asg: seq<Option<int>>)
  {
    forall d :: d in done ==> Alive(d, cur, asg)
  }

  /** Revising c, which changes only the domains of c's variables and leaves c alive, keeps the processed constraints alive. */
  lemma AliveStep(done: set<Constraint>, c: Constraint, before: seq<set<int>>, cur: seq<set<int>>, asg: seq<Option<int>>)
    requires AliveDone(done, before, asg) && Alive(c, cur, asg)
    requires |cur| == |before| && forall w :: 0 <= w < |cur| && w !in c.scope ==> cur[w] == before[w]
    ensures AliveDone(done + {c}, cur, asg)
  {
    forall d, v | d in done && v in Unassigned(d.scope, asg) && v < |cur| ensures cur[v] != {} {
      if v in c.scope {
        assert v in Unassigned(c.scope, asg);
      }
    }
  }

  /** The triggering constraints and the constraints on every pruned variable are queued or processed. */
  ghost predicate Covered(cons: seq<Constraint>, constraints: seq<Constraint>, pruned: seq<Prune>,
                          queue: seq<Constraint>, done: set<Constraint>)
  {
    && (forall d :: d in constraints ==> d in queue || d in done)
    && (forall p, d :: p in pruned && d in ConsWithVar(cons, p.0) ==> d in queue || d in done)
  }

  /** One turn of the GAC queue loop keeps Settled and Covered once the popped constraint joins the processed ones. */
  lemma GacQueueStep(cons: seq<Constraint>, constraints: seq<Constraint>, qAll: seq<Constraint>, queue: seq<Constraint>,
                     done: set<Constraint>, pC: seq<Prune>, pruned: seq<Prune>,
                     curC: seq<set<int>>, cur: seq<set<int>>, asg: seq<Option<int>>)
    requires qAll != [] && forall d :: d in done ==> d in cons
    requires Settled(done, qAll, curC, asg) && Covered(cons, constraints, pC, qAll, done)
    requires qAll[1..] <= queue
    requires forall d :: d in cons && (d in qAll[1..] || Gac(d, curC, asg)) ==> d in queue || Gac(d, cur, asg)
    requires |pC| <= |pruned| && pruned[..|pC|] == pC
    requires forall k, d :: |pC| <= k < |pruned| && d in ConsWithVar(cons, pruned[k].0) ==> d in queue
    requires qAll[0] in queue || Gac(qAll[0], cur, asg)
    ensures Settled(done + {qAll[0]}, queue, cur, asg)
    ensures Covered(cons, constraints, pruned, queue, done + {qAll[0]})
  {
    var c := qAll[0];
    forall d | d in qAll[1..] ensures d in queue {
      var k :| 0 <= k < |qAll[1..]| && qAll[1..][k] == d;
      assert queue[k] == d;
    }
    forall d | d in done ensures d in queue || d == c || Gac(d, cur, asg) {
      assert d in qAll ==> d == c || d in qAll[1..];
    }
    forall p, d | p in pruned && d in ConsWithVar(cons, p.0) ensures d in queue || d in done || d == c {
      var k :| 0 <= k < |pruned| && pruned[k] == p;
      if k < |pC| {
        assert pruned[..|pC|][k] == p;
        assert p in pC;
        assert d in qAll ==> d == c || d in qAll[1..];
      }
    }
    forall d | d in constraints ensures d in queue || d in done || d == c {
      assert d in qAll ==> d == c || d in qAll[1..];
    }
  }

  /**
   * Every pair of `pruned` belongs to an unassigned variable and has no
   * support in some constraint on that variable, judged in the domains as they
   * stood when it was pruned: the starting domains cur0 less the earlier pairs.
   * That constraint was reached by then: a triggering one, or one on a variable
   * pruned earlier.
   */
  ghost predicate PrunedWhenUnsupported(cons: seq<Constraint>, constraints: seq<Constraint>, pruned: seq<Prune>,
                                        cur0: seq<set<int>>, asg: seq<Option<int>>)
  {
    forall k :: 0 <= k < |pruned| ==>
      && IsUnassigned(asg, pruned[k].0)
      && exists c :: && c in ConsWithVar(cons, pruned[k].0)
                     && Reached(cons, constraints, pruned[..k], c)
                     && !HasSupport(c, pruned[k].0, pruned[k].1, Removed(cur0, pruned[..k]), asg)
  }

  /** Every pruned pair lacks support in a constraint on its variable, in the domains it was pruned from. */
  lemma PrunedHaveWitnesses(cons: seq<Constraint>, constraints: seq<Constraint>, pruned: seq<Prune>,
                            why: seq<Constraint>, cur0: seq<set<int>>, asg: seq<Option<int>>)
    requires PrunedUnsupported(cons, constraints, pruned, why, cur0, asg)
    ensures PrunedWhenUnsupported(cons, constraints, pruned, cur0, asg)
  {
    forall k | 0 <= k < |pruned|
      ensures && IsUnassigned(asg, pruned[k].0)
              && exists c :: && c in ConsWithVar(cons, pruned[k].0)
                             && Reached(cons, constraints, pruned[..k], c)
                             && !HasSupport(c, pruned[k].0, pruned[k].1, Removed(cur0, pruned[..k]), asg)
    {
      assert why[k] in ConsWithVar(cons, pruned[k].0);
    }
    assert PrunedWhenUnsupported(cons, constraints, pruned, cur0, asg);
  }

  /** A pair that lacked support when it was pruned still lacks it in the final domains. */
  lemma PrunedStayUnsupported(cons: seq<Constraint>, constraints: seq<Constraint>, pruned: seq<Prune>,
                              why: seq<Constraint>, cur0: seq<set<int>>, cur: seq<set<int>>, asg: seq<Option<int>>)
    requires PrunedUnsupported(cons, constraints, pruned, why, cur0, asg) && Record(cur0, cur, pruned)
    ensures PrunedNowUnsupported(cons, constraints, pruned, cur, asg)
  {
    forall p | p in pruned
      ensures && IsUnassigned(asg, p.0)
              && exists c :: && c in ConsWithVar(cons, p.0)
                             && (c in constraints || OnPruned(cons, pruned, c))
                             && !HasSupport(c, p.0, p.1, cur, asg)
    {
      var k :| 0 <= k < |pruned| && pruned[k] == p;
      RecordShrinks(cur0, cur, pruned, k);
      if HasSupport(why[k], p.0, p.1, cur, asg) {
        SupportMonotone(why[k], p.0, p.1, cur, Removed(cur0, pruned[..k]), asg);
      }
      ReachedGrows(cons, constraints, pruned[..k], pruned, why[k]);
      assert why[k] in ConsWithVar(cons, p.0);
    }
    assert PrunedNowUnsupported(cons, constraints, pruned, cur, asg);
  }

  /**
   * Every pair of `pruned` belongs to an unassigned variable and still has no
   * support, in the domains cur, in some reached constraint on that variable:
   * a triggering one or one on a pruned variable.
   */
  ghost predicate PrunedNowUnsupported(cons: seq<Constraint>, constraints: seq<Constraint>, pruned: seq<Prune>,
                                       cur: seq<set<int>>, asg: seq<Option<int>>)
  {
    forall p :: p in pruned ==>
      && IsUnassigned(asg, p.0)
      && exists c :: && c in ConsWithVar(cons, p.0)
                     && (c in constraints || OnPruned(cons, pruned, c))
                     && !HasSupport(c, p.0, p.1, cur, asg)
  }

  /** The size of v's current domain. */
  function DomainSize(dom: seq<seq<int>>, cur: seq<set<int>>, v: nat): nat
    requires v < |dom| && v < |cur|
  {
    |CurDomain(dom[v], cur[v])|
  }

  /**
   * v is the MRV choice: an unassigned variable whose current domain is no
   * larger than any other unassigned variable's, and strictly smaller than
   * that of every unassigned variable before it.
   */
  ghost predicate IsMrv(dom: seq<seq<int>>, cur: seq<set<int>>, asg: seq<Option<int>>, v: nat)
    requires |cur| == |dom|
  {
    && v < |dom| && IsUnassigned(asg, v)
    && (forall w :: 0 <= w < |dom| && IsUnassigned(asg, w) ==> DomainSize(dom, cur, v) <= DomainSize(dom, cur, w))
    && (forall w :: 0 <= w < v && IsUnassigned(asg, w) ==> DomainSize(dom, cur, v) < DomainSize(dom, cur, w))
  }

  /** Minimum remaining values: the first unassigned variable with the smallest current domain, or None when all are assigned. */
  method OrdMrv(csp: Csp) returns (r: Option<nat>)
    requires csp.Valid()
    ensures r.None? <==> forall w :: !IsUnassigned(csp.asg, w)
    ensures r.Some? ==> IsMrv(csp.dom, csp.cur, csp.asg, r.value)
  {
    var vars := AllUnassigned(csp.asg);
    var minimum: Option<(nat, nat)> := None;
    ghost var at := 0;
    for i := 0 to |vars|
      invariant minimum.None? <==> i == 0
      invariant minimum.Some? ==>
                  && at < i && vars[at] == minimum.value.1
                  && minimum.value.0 == DomainSize(csp.dom, csp.cur, vars[at])
                  && (forall k :: 0 <= k < i ==> minimum.value.0 <= DomainSize(csp.dom, csp.cur, vars[k]))
                  && (forall k :: 0 <= k < at ==> minimum.value.0 < DomainSize(csp.dom, csp.cur, vars[k]))
    {
      var size := DomainSize(csp.dom, csp.cur, vars[i]);
      if minimum.None? || minimum.value.0 > size {
        minimum := Some((size, vars[i]));
        at := i;
      }
    }
    if minimum.None? {
      r := None;
      forall w ensures !IsUnassigned(csp.asg, w) {
        assert w !in vars;
      }
    } else {
      r := Some(minimum.value.1);
      assert vars[at] in vars;
      forall w | 0 <= w < |csp.dom| && IsUnassigned(csp.asg, w)
        ensures DomainSize(csp.dom, csp.cur, r.value) <= DomainSize(csp.dom, csp.cur, w)
      {
        var k :| 0 <= k < |vars| && vars[k] == w;
      }
      forall w | 0 <= w < r.value && IsUnassigned(csp.asg, w)
        ensures DomainSize(csp.dom, csp.cur, r.value) < DomainSize(csp.dom, csp.cur, w)
      {
        var k :| 0 <= k < |vars| && vars[k] == w;
      }
    }
  }
}
