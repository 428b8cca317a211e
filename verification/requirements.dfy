/** Requirement generation: for every subset of a perspective's variables,
    every combination of those variables' levels that no exclusion rejects.
    These partial rows are what the covering array must cover. */
module Requirements {
  import opened Types
  import opened Combinations
  import opened Exclusions

  /** The flattened schema: each factor path with its level list. */
  type Domain = map<Path, seq<Level>>

  /** The levels of `p`; a path the schema does not define has none (the
      source's loop over an undefined level list runs zero times). */
  function LevelsOf(dom: Domain, p: Path): seq<Level> {
    if p in dom then dom[p] else []
  }

  /** The rows the depth-first expansion pushes when it starts from `base`
      at variable v: every way of giving vars[v..] levels, the last variable
      varying fastest, with excluded rows dropped at the leaves, so
      none of them is excluded. */
  function Expansion(base: Row, dom: Domain, vars: seq<Path>, v: nat, ex: seq<Exclusion>): (r: seq<Row>)
    requires v <= |vars|
    ensures forall q :: 0 <= q < |r| ==> !IsExcluded(r[q], ex)
    decreases |vars| - v, 1
  {
    if v == |vars| then (if IsExcluded(base, ex) then [] else [base])
    else ExpandLevels(base, dom, vars, v, ex, |LevelsOf(dom, vars[v])|)
  }

  /** The rows pushed for the first n levels of vars[v]. */
  function ExpandLevels(base: Row, dom: Domain, vars: seq<Path>, v: nat, ex: seq<Exclusion>, n: nat): (r: seq<Row>)
    requires v < |vars| && n <= |LevelsOf(dom, vars[v])|
    ensures forall q :: 0 <= q < |r| ==> !IsExcluded(r[q], ex)
    decreases |vars| - v, 0, n
  {
    if n == 0 then []
    else
      ExpandLevels(base, dom, vars, v, ex, n - 1) +
      Expansion(base[vars[v] := LevelsOf(dom, vars[v])[n - 1]], dom, vars, v + 1, ex)
  }

  /** The accumulator the expansion pushes into. */
  class RequirementList {
    var items: seq<Row>

    constructor ()
      ensures items == []
    {
      items := [];
    }

    /** Appends the expansion of vars[v..] from `base`: a copy of `base`
        whose cell for vars[v] is reassigned before each recursive call, and
        a push of the finished copy unless it is excluded. */
    method FullCoverage(base: Row, dom: Domain, vars: seq<Path>, ex: seq<Exclusion>, v: nat)
      requires v <= |vars|
      modifies this
      ensures items == old(items) + Expansion(base, dom, vars, v, ex)
      decreases |vars| - v
    {
      var list := base;
      if v < |vars| {
        var variable := vars[v];
        var levels := LevelsOf(dom, variable);
        var c := 0;
        while c < |levels|
          invariant 0 <= c <= |levels|
          invariant items == old(items) + ExpandLevels(base, dom, vars, v, ex, c)
          invariant c == 0 ==> list == base
          invariant c > 0 ==> list == base[variable := levels[c - 1]]
        {
          list := list[variable := levels[c]];
          assert list == base[variable := levels[c]];
          FullCoverage(list, dom, vars, ex, v + 1);
          c := c + 1;
        }
      } else if !IsExcluded(list, ex) {
        items := items + [list];
      }
    }
  }

  /** The requirements of a list of variable subsets, subset by subset. */
  function Coverage(dom: Domain, subsets: seq<seq<Path>>, ex: seq<Exclusion>): seq<Row>
    decreases |subsets|
  {
    if subsets == [] then []
    else
      Coverage(dom, subsets[..|subsets| - 1], ex) +
      Expansion(map[], dom, subsets[|subsets| - 1], 0, ex)
  }

  /** The requirements of a perspective, or the error for a strength larger
      than its variable list. */
  function RequirementsOf(dom: Domain, p: Perspective, ex: seq<Exclusion>): Result<seq<Row>>
    requires ResolvedStrength(p) >= 1
  {
    if TooStrong(p) then Failure(StrengthExceedsVariables)
    else Success(Coverage(dom, Subsets(p.variables, ResolvedStrength(p)), ex))
  }

  method GetRequirements(dom: Domain, p: Perspective, ex: seq<Exclusion>) returns (r: Result<seq<Row>>)
    requires ResolvedStrength(p) >= 1
    ensures r == RequirementsOf(dom, p, ex)
  {
    if TooStrong(p) {
      return Failure(StrengthExceedsVariables);
    }
    var strength := ResolvedStrength(p);
    var combinations := Subsets(p.variables, strength);
    var acc := new RequirementList();
    var i := 0;
    while i < |combinations|
      invariant 0 <= i <= |combinations|
      invariant acc.items == Coverage(dom, combinations[..i], ex)
    {
      assert combinations[..i + 1][..i] == combinations[..i];
      acc.FullCoverage(map[], dom, combinations[i], ex, 0);
      i := i + 1;
    }
    assert combinations[..i] == combinations;
    return Success(acc.items);
  }

  /** The paths among vars[v..]. */
  function PathsFrom(vars: seq<Path>, v: nat): set<Path>
    requires v <= |vars|
  {
    set j | v <= j < |vars| :: vars[j]
  }

  /** `r` is one assignment of vars[v..] on top of `base`: it sets exactly
      the base's paths and those variables, gives each variable one of its
      levels, and keeps the base elsewhere. */
  predicate Assignment(r: Row, base: Row, dom: Domain, vars: seq<Path>, v: nat)
    requires v <= |vars|
  {
    && r.Keys == base.Keys + PathsFrom(vars, v)
    && (forall j :: v <= j < |vars| ==> r[vars[j]] in LevelsOf(dom, vars[j]))
    && (forall k :: k in base && k !in PathsFrom(vars, v) ==> r[k] == base[k])
  }

  lemma PathsFromStep(vars: seq<Path>, v: nat)
    requires v < |vars|
    ensures PathsFrom(vars, v) == {vars[v]} + PathsFrom(vars, v + 1)
  {
  }

  lemma AssignmentStep(r: Row, base: Row, dom: Domain, vars: seq<Path>, v: nat, level: Level)
    requires v < |vars| && level in LevelsOf(dom, vars[v])
    requires Assignment(r, base[vars[v] := level], dom, vars, v + 1)
    ensures Assignment(r, base, dom, vars, v)
  {
    PathsFromStep(vars, v);
    var b := base[vars[v] := level];
    forall j | v <= j < |vars| ensures r[vars[j]] in LevelsOf(dom, vars[j]) {
      if j == v && vars[v] !in PathsFrom(vars, v + 1) {
        assert r[vars[v]] == b[vars[v]];
      }
    }
  }

  lemma AssignmentUnstep(r: Row, base: Row, dom: Domain, vars: seq<Path>, v: nat, c: nat)
    requires v < |vars| && Assignment(r, base, dom, vars, v)
    requires c < |LevelsOf(dom, vars[v])| && LevelsOf(dom, vars[v])[c] == r[vars[v]]
    ensures Assignment(r, base[vars[v] := LevelsOf(dom, vars[v])[c]], dom, vars, v + 1)
  {
    PathsFromStep(vars, v);
  }

  /** Every pushed row is an assignment of the variables that no exclusion
      rejects. */
  lemma {:induction false} ExpansionSound(base: Row, dom: Domain, vars: seq<Path>, v: nat, ex: seq<Exclusion>)
    requires v <= |vars|
    ensures forall r :: r in Expansion(base, dom, vars, v, ex) ==>
      Assignment(r, base, dom, vars, v) && !IsExcluded(r, ex)
    decreases |vars| - v, 1
  {
    if v < |vars| {
      ExpandLevelsSound(base, dom, vars, v, ex, |LevelsOf(dom, vars[v])|);
    }
  }

  lemma {:induction false} ExpandLevelsSound(base: Row, dom: Domain, vars: seq<Path>, v: nat, ex: seq<Exclusion>, n: nat)
    requires v < |vars| && n <= |LevelsOf(dom, vars[v])|
    ensures forall r :: r in ExpandLevels(base, dom, vars, v, ex, n) ==>
      Assignment(r, base, dom, vars, v) && !IsExcluded(r, ex)
    decreases |vars| - v, 0, n
  {
    if n > 0 {
      var levels := LevelsOf(dom, vars[v]);
      var b := base[vars[v] := levels[n - 1]];
      ExpandLevelsSound(base, dom, vars, v, ex, n - 1);
      ExpansionSound(b, dom, vars, v + 1, ex);
      forall r | r in Expansion(b, dom, vars, v + 1, ex)
        ensures Assignment(r, base, dom, vars, v)
      {
        AssignmentStep(r, base, dom, vars, v, levels[n - 1]);
      }
    }
  }

  /** Every assignment of the variables that no exclusion rejects is
      pushed. */
  lemma {:induction false} ExpansionComplete(base: Row, dom: Domain, vars: seq<Path>, v: nat, ex: seq<Exclusion>, r: Row)
    requires v <= |vars|
    requires Assignment(r, base, dom, vars, v) && !IsExcluded(r, ex)
    ensures r in Expansion(base, dom, vars, v, ex)
    decreases |vars| - v
  {
    if v == |vars| {
      assert r == base;
    } else {
      var levels := LevelsOf(dom, vars[v]);
      var c :| 0 <= c < |levels| && levels[c] == r[vars[v]];
      AssignmentUnstep(r, base, dom, vars, v, c);
      ExpansionComplete(base[vars[v] := levels[c]], dom, vars, v + 1, ex, r);
      LevelsContain(base, dom, vars, v, ex, c, |levels|, r);
    }
  }

  lemma {:induction false} LevelsContain(base: Row, dom: Domain, vars: seq<Path>, v: nat, ex: seq<Exclusion>, c: nat, n: nat, r: Row)
    requires v < |vars| && c < n <= |LevelsOf(dom, vars[v])|
    requires r in Expansion(base[vars[v] := LevelsOf(dom, vars[v])[c]], dom, vars, v + 1, ex)
    ensures r in ExpandLevels(base, dom, vars, v, ex, n)
    decreases n
  {
    if c < n - 1 {
      LevelsContain(base, dom, vars, v, ex, c, n - 1, r);
    }
  }

  /** Pruning at the leaves is filtering the full cross product. */
  lemma {:induction false} ExpansionPruned(base: Row, dom: Domain, vars: seq<Path>, v: nat, ex: seq<Exclusion>)
    requires v <= |vars|
    ensures Expansion(base, dom, vars, v, ex) == Kept(Expansion(base, dom, vars, v, []), ex)
    decreases |vars| - v, 1
  {
    if v == |vars| {
      assert [base][..0] == [];
    } else {
      ExpandLevelsPruned(base, dom, vars, v, ex, |LevelsOf(dom, vars[v])|);
    }
  }

  lemma {:induction false} ExpandLevelsPruned(base: Row, dom: Domain, vars: seq<Path>, v: nat, ex: seq<Exclusion>, n: nat)
    requires v < |vars| && n <= |LevelsOf(dom, vars[v])|
    ensures ExpandLevels(base, dom, vars, v, ex, n) == Kept(ExpandLevels(base, dom, vars, v, [], n), ex)
    decreases |vars| - v, 0, n, 2
  {
    if n > 0 {
      ExpandLevelsPruned(base, dom, vars, v, ex, n - 1);
      PrunedLast(base, dom, vars, v, ex, n);
    }
  }

  /** The inductive step of ExpandLevelsPruned, given its hypothesis for
      the first n - 1 levels. */
  lemma {:induction false} PrunedLast(base: Row, dom: Domain, vars: seq<Path>, v: nat, ex: seq<Exclusion>, n: nat)
    requires v < |vars| && 0 < n <= |LevelsOf(dom, vars[v])|
    requires ExpandLevels(base, dom, vars, v, ex, n - 1) == Kept(ExpandLevels(base, dom, vars, v, [], n - 1), ex)
    ensures ExpandLevels(base, dom, vars, v, ex, n) == Kept(ExpandLevels(base, dom, vars, v, [], n), ex)
    decreases |vars| - v, 0, n, 1
  {
    ExpansionPruned(base[vars[v] := LevelsOf(dom, vars[v])[n - 1]], dom, vars, v + 1, ex);
    PrunedStep(base, dom, vars, v, ex, n);
  }

  lemma PrunedStep(base: Row, dom: Domain, vars: seq<Path>, v: nat, ex: seq<Exclusion>, n: nat)
    requires v < |vars| && 0 < n <= |LevelsOf(dom, vars[v])|
    requires ExpandLevels(base, dom, vars, v, ex, n - 1) == Kept(ExpandLevels(base, dom, vars, v, [], n - 1), ex)
    requires Expansion(base[vars[v] := LevelsOf(dom, vars[v])[n - 1]], dom, vars, v + 1, ex) ==
      Kept(Expansion(base[vars[v] := LevelsOf(dom, vars[v])[n - 1]], dom, vars, v + 1, []), ex)
    ensures ExpandLevels(base, dom, vars, v, ex, n) == Kept(ExpandLevels(base, dom, vars, v, [], n), ex)
  {
    var b := base[vars[v] := LevelsOf(dom, vars[v])[n - 1]];
    KeptPair(ExpandLevels(base, dom, vars, v, [], n - 1), Expansion(b, dom, vars, v + 1, []),
        ExpandLevels(base, dom, vars, v, ex, n - 1), Expansion(b, dom, vars, v + 1, ex),
        ExpandLevels(base, dom, vars, v, [], n), ExpandLevels(base, dom, vars, v, ex, n), ex);
  }

  lemma KeptPair(xs: seq<Row>, ys: seq<Row>, kx: seq<Row>, ky: seq<Row>, all: seq<Row>, kall: seq<Row>, ex: seq<Exclusion>)
    requires kx == Kept(xs, ex) && ky == Kept(ys, ex)
    requires all == xs + ys && kall == kx + ky
    ensures kall == Kept(all, ex)
  {
    KeptAppend(xs, ys, ex);
  }

  /** The number of level combinations of vars[v..]. */
  function Product(dom: Domain, vars: seq<Path>, v: nat): nat
    requires v <= |vars|
    decreases |vars| - v
  {
    if v == |vars| then 1 else |LevelsOf(dom, vars[v])| * Product(dom, vars, v + 1)
  }

  /** Without exclusions, the expansion lists one row per level combination. */
  lemma {:induction false} ExpansionCount(base: Row, dom: Domain, vars: seq<Path>, v: nat)
    requires v <= |vars|
    ensures |Expansion(base, dom, vars, v, [])| == Product(dom, vars, v)
    decreases |vars| - v, 1
  {
    if v < |vars| {
      ExpandLevelsCount(base, dom, vars, v, |LevelsOf(dom, vars[v])|);
    }
  }

  lemma {:induction false} ExpandLevelsCount(base: Row, dom: Domain, vars: seq<Path>, v: nat, n: nat)
    requires v < |vars| && n <= |LevelsOf(dom, vars[v])|
    ensures |ExpandLevels(base, dom, vars, v, [], n)| == n * Product(dom, vars, v + 1)
    decreases |vars| - v, 0, n
  {
    if n > 0 {
      ExpandLevelsCount(base, dom, vars, v, n - 1);
      ExpansionCount(base[vars[v] := LevelsOf(dom, vars[v])[n - 1]], dom, vars, v + 1);
      assert n * Product(dom, vars, v + 1) == (n - 1) * Product(dom, vars, v + 1) + Product(dom, vars, v + 1);
    }
  }

  /** Odometer order: without exclusions, the row at position c*P + q
      (P the number of combinations of the later variables) gives vars[v]
      its c-th level and is the q-th row of the expansion of the later
      variables, so the last variable varies fastest. */
  lemma OdometerOrder(base: Row, dom: Domain, vars: seq<Path>, v: nat, c: nat, q: nat)
    requires v < |vars| && c < |LevelsOf(dom, vars[v])| && q < Product(dom, vars, v + 1)
    ensures |Expansion(base[vars[v] := LevelsOf(dom, vars[v])[c]], dom, vars, v + 1, [])| == Product(dom, vars, v + 1)
    ensures c * Product(dom, vars, v + 1) + q < |Expansion(base, dom, vars, v, [])|
    ensures Expansion(base, dom, vars, v, [])[c * Product(dom, vars, v + 1) + q] ==
      Expansion(base[vars[v] := LevelsOf(dom, vars[v])[c]], dom, vars, v + 1, [])[q]
  {
    ExpansionCount(base[vars[v] := LevelsOf(dom, vars[v])[c]], dom, vars, v + 1);
    BlockAt(base, dom, vars, v, c, q, |LevelsOf(dom, vars[v])|);
  }

  lemma {:induction false} BlockAt(base: Row, dom: Domain, vars: seq<Path>, v: nat, c: nat, q: nat, n: nat)
    requires v < |vars| && c < n <= |LevelsOf(dom, vars[v])| && q < Product(dom, vars, v + 1)
    ensures |Expansion(base[vars[v] := LevelsOf(dom, vars[v])[c]], dom, vars, v + 1, [])| == Product(dom, vars, v + 1)
    ensures c * Product(dom, vars, v + 1) + q < |ExpandLevels(base, dom, vars, v, [], n)|
    ensures ExpandLevels(base, dom, vars, v, [], n)[c * Product(dom, vars, v + 1) + q] ==
      Expansion(base[vars[v] := LevelsOf(dom, vars[v])[c]], dom, vars, v + 1, [])[q]
    decreases n
  {
    var P := Product(dom, vars, v + 1);
    ExpansionCount(base[vars[v] := LevelsOf(dom, vars[v])[c]], dom, vars, v + 1);
    var front := ExpandLevels(base, dom, vars, v, [], n - 1);
    var back := Expansion(base[vars[v] := LevelsOf(dom, vars[v])[n - 1]], dom, vars, v + 1, []);
    ExpandLevelsCount(base, dom, vars, v, n - 1);
    ExpansionCount(base[vars[v] := LevelsOf(dom, vars[v])[n - 1]], dom, vars, v + 1);
    assert |front| == (n - 1) * P;
    assert ExpandLevels(base, dom, vars, v, [], n) == front + back;
    if c < n - 1 {
      BlockAt(base, dom, vars, v, c, q, n - 1);
    } else {
      assert c * P == |front|;
    }
  }

  /** The requirements of several subsets are the requirements of each
      subset in turn: a row is a requirement exactly when it belongs to the
      expansion of one of the subsets. */
  lemma {:induction false} CoverageMembers(dom: Domain, subsets: seq<seq<Path>>, ex: seq<Exclusion>)
    ensures forall r :: r in Coverage(dom, subsets, ex) <==>
      exists s :: 0 <= s < |subsets| && r in Expansion(map[], dom, subsets[s], 0, ex)
    decreases |subsets|
  {
    if subsets != [] {
      var init := subsets[..|subsets| - 1];
      CoverageMembers(dom, init, ex);
      forall s | 0 <= s < |init| ensures init[s] == subsets[s] { }
    }
  }

  /** A perspective's requirements fail exactly when its strength is given
      and exceeds the number of its variables; otherwise a row is a
      requirement exactly when it assigns one of the variable subsets of
      the resolved size and no exclusion rejects it. */
  lemma RequirementsOfMeaning(dom: Domain, p: Perspective, ex: seq<Exclusion>, r: Row)
    requires ResolvedStrength(p) >= 1
    ensures RequirementsOf(dom, p, ex).Failure? <==> TooStrong(p)
    ensures RequirementsOf(dom, p, ex).Success? ==>
      var ss := Subsets(p.variables, ResolvedStrength(p));
      (r in RequirementsOf(dom, p, ex).value <==>
        exists s :: 0 <= s < |ss| && Assignment(r, map[], dom, ss[s], 0) && !IsExcluded(r, ex))
  {
    if RequirementsOf(dom, p, ex).Success? {
      var ss := Subsets(p.variables, ResolvedStrength(p));
      CoverageMembers(dom, ss, ex);
      forall s | 0 <= s < |ss|
        ensures r in Expansion(map[], dom, ss[s], 0, ex) <==> Assignment(r, map[], dom, ss[s], 0) && !IsExcluded(r, ex)
      {
        ExpansionSound(map[], dom, ss[s], 0, ex);
        if Assignment(r, map[], dom, ss[s], 0) && !IsExcluded(r, ex) {
          ExpansionComplete(map[], dom, ss[s], 0, ex, r);
        }
      }
    }
  }
}
