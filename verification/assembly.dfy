/** The whole generation run: flatten the schema and the defaults, build
    each perspective's rows (requirements, covering array, baseline fill,
    exclusion filter, title and outcome), concatenate them in perspective
    order and number them. */
module Assembly {
  import opened Types
  import opened Flatten
  import opened Exclusions
  import opened Requirements
  import opened Covering

  const FullwidthOpen: char := '\U{FF08}'
  const FullwidthClose: char := '\U{FF09}'

  /** `s` with every occurrence of `from` replaced by `to`. */
  function ReplaceAll(s: string, from: char, to: char): (r: string)
    ensures |r| == |s|
    ensures forall i :: 0 <= i < |s| ==> r[i] == (if s[i] == from then to else s[i])
  {
    if s == [] then [] else [if s[0] == from then to else s[0]] + ReplaceAll(s[1..], from, to)
  }

  /** The title as it is written into each row: ASCII parentheses become
      full-width ones, so none is left, and the length is kept. */
  function NormalizeTitle(title: string): (r: string)
    ensures |r| == |title|
    ensures '(' !in r && ')' !in r
  {
    ReplaceAll(ReplaceAll(title, '(', FullwidthOpen), ')', FullwidthClose)
  }

  /** The normalised title has no ASCII parenthesis, has the same length,
      and differs from the title only where it had one; normalising twice
      changes nothing more. */
  lemma TitleMeaning(title: string)
    ensures |NormalizeTitle(title)| == |title|
    ensures forall i :: 0 <= i < |title| ==>
      NormalizeTitle(title)[i] == (if title[i] == '(' then FullwidthOpen else if title[i] == ')' then FullwidthClose else title[i])
    ensures '(' !in NormalizeTitle(title) && ')' !in NormalizeTitle(title)
    ensures NormalizeTitle(NormalizeTitle(title)) == NormalizeTitle(title)
  {
    var t := NormalizeTitle(title);
    assert forall i :: 0 <= i < |t| ==> t[i] != '(' && t[i] != ')';
    assert NormalizeTitle(t) == t;
  }

  /** The decimal digit of d. */
  function Digit(d: nat): char
    requires d < 10
  {
    (48 + d) as char
  }

  /** The decimal numeral of n, as a template literal writes it. */
  function NatToDecimal(n: nat): string
    decreases n
  {
    if n < 10 then [Digit(n)] else NatToDecimal(n / 10) + [Digit(n % 10)]
  }

  /** The value of a numeral of decimal digits. */
  function ParseDecimal(s: string): int
    decreases |s|
  {
    if s == [] then 0 else 10 * ParseDecimal(s[..|s| - 1]) + (s[|s| - 1] as int - 48)
  }

  /** Reading a numeral back gives the number, so distinct numbers get
      distinct numerals; a numeral of a positive number has no leading
      zero. */
  lemma {:induction false} DecimalRoundTrip(n: nat)
    ensures ParseDecimal(NatToDecimal(n)) == n
    ensures n > 0 ==> NatToDecimal(n)[0] != '0'
    decreases n
  {
    if n >= 10 {
      DecimalRoundTrip(n / 10);
      var s := NatToDecimal(n);
      assert s[..|s| - 1] == NatToDecimal(n / 10);
    }
  }

  lemma DecimalInjective(a: nat, b: nat)
    requires a != b
    ensures NatToDecimal(a) != NatToDecimal(b)
  {
    DecimalRoundTrip(a);
    DecimalRoundTrip(b);
  }

  /** The baseline test of a perspective: the defaults, with the
      perspective's constants taking precedence. */
  function BaseTest(defaults: Row, constants: Row): Row {
    defaults + constants
  }

  /** The baseline sets every default and every constant path; a constant
      wins over a default for the same path. */
  lemma BaseTestMeaning(defaults: Row, constants: Row)
    ensures BaseTest(defaults, constants).Keys == defaults.Keys + constants.Keys
    ensures forall k :: k in constants ==> BaseTest(defaults, constants)[k] == constants[k]
    ensures forall k :: k in defaults && k !in constants ==> BaseTest(defaults, constants)[k] == defaults[k]
  {
  }

  /** Copies the defaults and writes each constant over them. */
  method BuildBase(defaults: Row, constants: Row) returns (base: Row)
    ensures base == BaseTest(defaults, constants)
  {
    base := defaults;
    var pending := constants.Keys;
    while pending != {}
      invariant Overlaid(defaults, constants, base, pending)
      decreases |pending|
    {
      var k :| k in pending;
      OverlayOne(defaults, constants, base, pending, k);
      base := base[k := constants[k]];
      pending := pending - {k};
    }
    OverlayAll(defaults, constants, base);
  }

  /** `base` is the defaults with the constants outside `pending` written
      over them. */
  ghost predicate Overlaid(defaults: Row, constants: Row, base: Row, pending: set<Path>) {
    && pending <= constants.Keys
    && base.Keys == defaults.Keys + (constants.Keys - pending)
    && forall k :: k in base ==> base[k] == (if k in constants && k !in pending then constants[k] else defaults[k])
  }

  lemma OverlayOne(defaults: Row, constants: Row, base: Row, pending: set<Path>, k: Path)
    requires Overlaid(defaults, constants, base, pending) && k in pending
    ensures Overlaid(defaults, constants, base[k := constants[k]], pending - {k})
  {
  }

  lemma OverlayAll(defaults: Row, constants: Row, base: Row)
    requires Overlaid(defaults, constants, base, {})
    ensures base == BaseTest(defaults, constants)
  {
  }

  /** The rows with the perspective's title written in, each then handed
      to the perspective's outcome rule. */
  function Labelled(rows: seq<Row>, p: Perspective): (r: seq<Row>)
    ensures |r| == |rows|
  {
    seq(|rows|, t requires 0 <= t < |rows| => p.outcome(rows[t]["Perspective" := NormalizeTitle(p.title)]))
  }

  /** The rows of one perspective: the covering array of its requirements,
      filled from the baseline, without the excluded rows, labelled. */
  function PerspectiveRows(dom: Domain, p: Perspective, base: Row, ex: seq<Exclusion>): Result<seq<Row>>
    requires ResolvedStrength(p) >= 1
  {
    match RequirementsOf(dom, p, ex)
    case Failure(e) => Failure(e)
    case Success(reqs) => Success(Labelled(Kept(FillEach(Pack([], reqs), base), ex), p))
  }

  method GenerateTestsByPerspective(dom: Domain, p: Perspective, base: Row, ex: seq<Exclusion>)
    returns (r: Result<seq<Row>>)
    requires ResolvedStrength(p) >= 1
    ensures r == PerspectiveRows(dom, p, base, ex)
  {
    var requirements := GetRequirements(dom, p, ex);
    if requirements.Failure? {
      return Failure(requirements.error);
    }
    var ca := new CoveringArray();
    ca.Generate(requirements.value);
    ca.ApplyBase(base);
    var tests := Kept(ca.rows, ex);
    tests := Label(tests, p);
    return Success(tests);
  }

  /** Writes the title into each row and applies the outcome rule to it. */
  method Label(rows: seq<Row>, p: Perspective) returns (tests: seq<Row>)
    ensures tests == Labelled(rows, p)
  {
    tests := rows;
    var t := 0;
    while t < |tests|
      invariant 0 <= t <= |tests| && |tests| == |rows|
      invariant forall q :: 0 <= q < t ==> tests[q] == Labelled(rows, p)[q]
      invariant forall q :: t <= q < |tests| ==> tests[q] == rows[q]
    {
      var labelled := tests[t]["Perspective" := NormalizeTitle(p.title)];
      tests := tests[t := p.outcome(labelled)];
      t := t + 1;
    }
  }

  /** Every perspective asks for at least one factor at a time. */
  predicate StrengthsPositive(ps: seq<Perspective>) {
    forall i :: 0 <= i < |ps| ==> ResolvedStrength(ps[i]) >= 1
  }

  /** The rows of the perspectives, concatenated in order, or the first
      perspective's error. */
  function Collect(dom: Domain, defaults: Row, ex: seq<Exclusion>, ps: seq<Perspective>): Result<seq<Row>>
    requires StrengthsPositive(ps)
    decreases |ps|
  {
    if ps == [] then Success([])
    else
      var p := ps[|ps| - 1];
      Then(Collect(dom, defaults, ex, ps[..|ps| - 1]), PerspectiveRows(dom, p, BaseTest(defaults, p.constants), ex))
  }

  /** The rows so far followed by the next perspective's rows; the first
      error wins. */
  function Then(done: Result<seq<Row>>, more: Result<seq<Row>>): Result<seq<Row>> {
    match done
    case Failure(e) => Failure(e)
    case Success(rows) =>
      match more
      case Failure(e) => Failure(e)
      case Success(next) => Success(rows + next)
  }

  /** The rows numbered "1", "2", ... in order. */
  function WithIds(rows: seq<Row>): (r: seq<Row>)
    ensures |r| == |rows|
  {
    seq(|rows|, t requires 0 <= t < |rows| => rows[t]["ID" := NatToDecimal(t + 1)])
  }

  /** The result of a whole run. */
  function Generated(domain: Tree<seq<Level>>, defaults: Tree<Level>, ex: seq<Exclusion>, ps: seq<Perspective>)
    : Result<seq<Row>>
    requires domain.Group? && defaults.Group? && StrengthsPositive(ps)
  {
    match Flattened(domain)
    case Failure(e) => Failure(e)
    case Success(dom) =>
      match Flattened(defaults)
      case Failure(e) => Failure(e)
      case Success(defs) =>
        match Collect(dom, defs, ex, ps)
        case Failure(e) => Failure(e)
        case Success(rows) => Success(WithIds(rows))
  }

  method GenerateTests(domain: Tree<seq<Level>>, defaults: Tree<Level>, ex: seq<Exclusion>, ps: seq<Perspective>)
    returns (r: Result<seq<Row>>)
    requires domain.Group? && defaults.Group? && StrengthsPositive(ps)
    ensures r == Generated(domain, defaults, ex, ps)
  {
    var listDomain := new FlatDict<seq<Level>>();
    var ok := listDomain.AddTree(domain, "");
    if !ok {
      return Failure(DuplicateDefinition);
    }
    var listDefault := new FlatDict<Level>();
    ok := listDefault.AddTree(defaults, "");
    if !ok {
      return Failure(DuplicateDefinition);
    }
    var collected := CollectAll(listDomain.entries, listDefault.entries, ex, ps);
    if collected.Failure? {
      return Failure(collected.error);
    }
    var tests := Number(collected.value);
    return Success(tests);
  }

  /** Builds each perspective's rows in turn and concatenates them; the
      first error ends the run. */
  method CollectAll(dom: Domain, defs: Row, ex: seq<Exclusion>, ps: seq<Perspective>) returns (r: Result<seq<Row>>)
    requires StrengthsPositive(ps)
    ensures r == Collect(dom, defs, ex, ps)
  {
    var tests: seq<Row> := [];
    var i := 0;
    while i < |ps|
      invariant 0 <= i <= |ps|
      invariant Collect(dom, defs, ex, ps[..i]) == Success(tests)
    {
      var p := ps[i];
      var base := BuildBase(defs, p.constants);
      var more := GenerateTestsByPerspective(dom, p, base, ex);
      CollectStep(dom, defs, ex, ps, i, tests, more);
      if more.Failure? {
        return Failure(more.error);
      }
      tests := tests + more.value;
      i := i + 1;
    }
    assert ps[..i] == ps;
    return Success(tests);
  }

  /** One more perspective either extends the rows or ends the run with
      its error. */
  lemma CollectStep(dom: Domain, defs: Row, ex: seq<Exclusion>, ps: seq<Perspective>, i: nat, tests: seq<Row>,
                    more: Result<seq<Row>>)
    requires StrengthsPositive(ps) && i < |ps|
    requires Collect(dom, defs, ex, ps[..i]) == Success(tests)
    requires more == PerspectiveRows(dom, ps[i], BaseTest(defs, ps[i].constants), ex)
    ensures more.Success? ==> Collect(dom, defs, ex, ps[..i + 1]) == Success(tests + more.value)
    ensures more.Failure? ==> Collect(dom, defs, ex, ps) == Failure(more.error)
  {
    assert ps[..i + 1][..i] == ps[..i];
    CollectStops(dom, defs, ex, ps, i + 1);
  }

  /** Once a prefix of the perspectives fails, the whole run fails with
      the same error. */
  lemma {:induction false} CollectStops(dom: Domain, defs: Row, ex: seq<Exclusion>, ps: seq<Perspective>, j: nat)
    requires StrengthsPositive(ps) && j <= |ps|
    ensures Collect(dom, defs, ex, ps[..j]).Failure? ==> Collect(dom, defs, ex, ps) == Collect(dom, defs, ex, ps[..j])
    decreases |ps| - j
  {
    if j < |ps| {
      CollectStops(dom, defs, ex, ps, j + 1);
      assert ps[..j + 1][..j] == ps[..j];
    } else {
      assert ps[..j] == ps;
    }
  }

  /** Gives the rows the IDs "1", "2", ... with a running counter. */
  method Number(rows: seq<Row>) returns (tests: seq<Row>)
    ensures tests == WithIds(rows)
  {
    tests := rows;
    var id := 1;
    var t := 0;
    while t < |tests|
      invariant 0 <= t <= |tests| && |tests| == |rows| && id == t + 1
      invariant forall q :: 0 <= q < t ==> tests[q] == WithIds(rows)[q]
      invariant forall q :: t <= q < |tests| ==> tests[q] == rows[q]
    {
      tests := tests[t := tests[t]["ID" := NatToDecimal(id)]];
      id := id + 1;
      t := t + 1;
    }
  }

  /** A perspective fails exactly when it is too strong. */
  lemma PerspectiveFails(dom: Domain, p: Perspective, base: Row, ex: seq<Exclusion>)
    requires ResolvedStrength(p) >= 1
    ensures PerspectiveRows(dom, p, base, ex).Failure? <==> TooStrong(p)
    ensures PerspectiveRows(dom, p, base, ex).Failure? ==> PerspectiveRows(dom, p, base, ex).error == StrengthExceedsVariables
  {
    RequirementsOfMeaning(dom, p, ex, map[]);
  }

  /** The perspectives' rows fail exactly when some perspective is too
      strong, and then with that error. */
  lemma {:induction false} CollectFails(dom: Domain, defs: Row, ex: seq<Exclusion>, ps: seq<Perspective>)
    requires StrengthsPositive(ps)
    ensures Collect(dom, defs, ex, ps).Failure? <==> AnyTooStrong(ps)
    ensures Collect(dom, defs, ex, ps).Failure? ==> Collect(dom, defs, ex, ps).error == StrengthExceedsVariables
    decreases |ps|
  {
    if ps != [] {
      var init := ps[..|ps| - 1];
      var p := ps[|ps| - 1];
      CollectFails(dom, defs, ex, init);
      PerspectiveFails(dom, p, BaseTest(defs, p.constants), ex);
      ThenFails(Collect(dom, defs, ex, init), PerspectiveRows(dom, p, BaseTest(defs, p.constants), ex));
      TooStrongSplit(ps);
    }
  }

  lemma ThenFails(done: Result<seq<Row>>, more: Result<seq<Row>>)
    ensures Then(done, more).Failure? <==> done.Failure? || more.Failure?
    ensures Then(done, more).Failure? ==> Then(done, more).error == (if done.Failure? then done.error else more.error)
  {
  }

  lemma TooStrongSplit(ps: seq<Perspective>)
    requires ps != []
    ensures AnyTooStrong(ps) <==> AnyTooStrong(ps[..|ps| - 1]) || TooStrong(ps[|ps| - 1])
  {
    assert forall i :: 0 <= i < |ps| - 1 ==> ps[..|ps| - 1][i] == ps[i];
  }

  /** A run fails exactly when the schema or the defaults define a path
      twice, or some perspective is too strong; a duplicate definition is
      reported before a strength error. */
  lemma GeneratedFails(domain: Tree<seq<Level>>, defaults: Tree<Level>, ex: seq<Exclusion>, ps: seq<Perspective>)
    requires domain.Group? && defaults.Group? && StrengthsPositive(ps)
    ensures Generated(domain, defaults, ex, ps).Failure? <==>
      || !UniquePaths(GroupLeaves(domain, ""))
      || !UniquePaths(GroupLeaves(defaults, ""))
      || AnyTooStrong(ps)
    ensures Generated(domain, defaults, ex, ps).Failure? ==>
      Generated(domain, defaults, ex, ps).error ==
        (if UniquePaths(GroupLeaves(domain, "")) && UniquePaths(GroupLeaves(defaults, ""))
         then StrengthExceedsVariables else DuplicateDefinition)
  {
    FlattenedContents(domain);
    FlattenedContents(defaults);
    if Flattened(domain).Success? && Flattened(defaults).Success? {
      CollectFails(Flattened(domain).value, Flattened(defaults).value, ex, ps);
    }
  }

  /** A successful run numbers its rows "1", "2", ... in order, so no two
      rows share an ID and each ID reads back as its row's position plus
      one. */
  lemma GeneratedIds(domain: Tree<seq<Level>>, defaults: Tree<Level>, ex: seq<Exclusion>, ps: seq<Perspective>)
    requires domain.Group? && defaults.Group? && StrengthsPositive(ps)
    ensures Generated(domain, defaults, ex, ps).Success? ==>
      var rows := Generated(domain, defaults, ex, ps).value;
      && (forall t :: 0 <= t < |rows| ==> "ID" in rows[t] && ParseDecimal(rows[t]["ID"]) == t + 1)
      && (forall t, u :: 0 <= t < u < |rows| ==> rows[t]["ID"] != rows[u]["ID"])
  {
    if Generated(domain, defaults, ex, ps).Success? {
      IdsNumbered(Collect(Flattened(domain).value, Flattened(defaults).value, ex, ps).value);
    }
  }

  /** Numbered rows carry IDs that read back as their position plus one
      and are pairwise distinct. */
  lemma IdsNumbered(collected: seq<Row>)
    ensures forall t :: 0 <= t < |collected| ==> "ID" in WithIds(collected)[t] && ParseDecimal(WithIds(collected)[t]["ID"]) == t + 1
    ensures forall t, u :: 0 <= t < u < |collected| ==> WithIds(collected)[t]["ID"] != WithIds(collected)[u]["ID"]
  {
    var rows := WithIds(collected);
    forall t | 0 <= t < |rows| ensures "ID" in rows[t] && ParseDecimal(rows[t]["ID"]) == t + 1 {
      DecimalRoundTrip(t + 1);
    }
    forall t, u | 0 <= t < u < |rows| ensures rows[t]["ID"] != rows[u]["ID"] {
      DecimalInjective(t + 1, u + 1);
    }
  }

  /** `f` leaves the cells for `keys` as they were. */
  ghost predicate Keeps(f: Row -> Row, keys: set<Path>) {
    forall row :: AgreeOn(row, f(row), keys)
  }

  lemma AgreeTrans(a: Row, b: Row, c: Row, keys: set<Path>)
    requires AgreeOn(a, b, keys) && AgreeOn(b, c, keys)
    ensures AgreeOn(a, c, keys)
  {
  }

  /** No row of the list is excluded. */
  predicate NoneExcluded(rows: seq<Row>, ex: seq<Exclusion>) {
    forall t :: 0 <= t < |rows| ==> !IsExcluded(rows[t], ex)
  }

  lemma KeptNoneExcluded(rows: seq<Row>, ex: seq<Exclusion>)
    ensures NoneExcluded(Kept(rows, ex), ex)
  {
    var kept := Kept(rows, ex);
    KeptMembers(rows, ex);
    forall t | 0 <= t < |kept| ensures !IsExcluded(kept[t], ex) {
      assert kept[t] in kept;
    }
  }

  lemma LabelledNoneExcluded(rows: seq<Row>, p: Perspective, ex: seq<Exclusion>)
    requires NoneExcluded(rows, ex)
    requires "Perspective" !in Mentioned(ex) && Keeps(p.outcome, Mentioned(ex))
    ensures NoneExcluded(Labelled(rows, p), ex)
  {
    var labelled := Labelled(rows, p);
    forall t | 0 <= t < |rows| ensures !IsExcluded(labelled[t], ex) {
      var titled := rows[t]["Perspective" := NormalizeTitle(p.title)];
      assert AgreeOn(rows[t], titled, Mentioned(ex));
      assert AgreeOn(titled, p.outcome(titled), Mentioned(ex));
      AgreeTrans(rows[t], titled, p.outcome(titled), Mentioned(ex));
      ExcludedLocal(rows[t], labelled[t], ex);
    }
  }

  lemma NoneExcludedConcat(xs: seq<Row>, ys: seq<Row>, ex: seq<Exclusion>)
    requires NoneExcluded(xs, ex) && NoneExcluded(ys, ex)
    ensures NoneExcluded(xs + ys, ex)
  {
    forall t | 0 <= t < |xs + ys| ensures !IsExcluded((xs + ys)[t], ex) {
      if t < |xs| { assert (xs + ys)[t] == xs[t]; } else { assert (xs + ys)[t] == ys[t - |xs|]; }
    }
  }

  /** No row a perspective returns is excluded, provided the outcome rule
      leaves the cells the exclusions test alone and no exclusion tests
      the title. */
  lemma PerspectiveNotExcluded(dom: Domain, p: Perspective, base: Row, ex: seq<Exclusion>)
    requires ResolvedStrength(p) >= 1
    requires "Perspective" !in Mentioned(ex) && Keeps(p.outcome, Mentioned(ex))
    ensures PerspectiveRows(dom, p, base, ex).Success? ==> NoneExcluded(PerspectiveRows(dom, p, base, ex).value, ex)
  {
    if PerspectiveRows(dom, p, base, ex).Success? {
      var filled := FillEach(Pack([], RequirementsOf(dom, p, ex).value), base);
      KeptNoneExcluded(filled, ex);
      LabelledNoneExcluded(Kept(filled, ex), p, ex);
    }
  }

  lemma {:induction false} CollectNotExcluded(dom: Domain, defs: Row, ex: seq<Exclusion>, ps: seq<Perspective>)
    requires StrengthsPositive(ps)
    requires "Perspective" !in Mentioned(ex)
    requires forall i :: 0 <= i < |ps| ==> Keeps(ps[i].outcome, Mentioned(ex))
    ensures Collect(dom, defs, ex, ps).Success? ==> NoneExcluded(Collect(dom, defs, ex, ps).value, ex)
    decreases |ps|
  {
    if ps != [] && Collect(dom, defs, ex, ps).Success? {
      var init := ps[..|ps| - 1];
      var p := ps[|ps| - 1];
      assert forall i :: 0 <= i < |init| ==> init[i] == ps[i];
      CollectNotExcluded(dom, defs, ex, init);
      PerspectiveNotExcluded(dom, p, BaseTest(defs, p.constants), ex);
      NoneExcludedConcat(Collect(dom, defs, ex, init).value, PerspectiveRows(dom, p, BaseTest(defs, p.constants), ex).value, ex);
    }
  }

  /** No row of a successful run is excluded, provided no exclusion tests
      the title or the ID and every outcome rule leaves the cells the
      exclusions test alone. */
  lemma GeneratedNotExcluded(domain: Tree<seq<Level>>, defaults: Tree<Level>, ex: seq<Exclusion>, ps: seq<Perspective>)
    requires domain.Group? && defaults.Group? && StrengthsPositive(ps)
    requires "Perspective" !in Mentioned(ex) && "ID" !in Mentioned(ex)
    requires forall i :: 0 <= i < |ps| ==> Keeps(ps[i].outcome, Mentioned(ex))
    ensures Generated(domain, defaults, ex, ps).Success? ==> NoneExcluded(Generated(domain, defaults, ex, ps).value, ex)
  {
    if Generated(domain, defaults, ex, ps).Success? {
      var collected := Collect(Flattened(domain).value, Flattened(defaults).value, ex, ps).value;
      CollectNotExcluded(Flattened(domain).value, Flattened(defaults).value, ex, ps);
      var rows := WithIds(collected);
      forall t | 0 <= t < |rows| ensures !IsExcluded(rows[t], ex) {
        assert AgreeOn(collected[t], rows[t], Mentioned(ex));
        ExcludedLocal(collected[t], rows[t], ex);
      }
    }
  }

  /** Every row of a perspective carries the normalised title, provided the
      outcome rule leaves the title alone. */
  lemma PerspectiveTitles(dom: Domain, p: Perspective, base: Row, ex: seq<Exclusion>)
    requires ResolvedStrength(p) >= 1 && Keeps(p.outcome, {"Perspective"})
    ensures PerspectiveRows(dom, p, base, ex).Success? ==>
      forall t :: 0 <= t < |PerspectiveRows(dom, p, base, ex).value| ==>
        "Perspective" in PerspectiveRows(dom, p, base, ex).value[t] &&
        PerspectiveRows(dom, p, base, ex).value[t]["Perspective"] == NormalizeTitle(p.title)
  {
    if PerspectiveRows(dom, p, base, ex).Success? {
      var reqs := RequirementsOf(dom, p, ex).value;
      var kept := Kept(FillEach(Pack([], reqs), base), ex);
      var rows := PerspectiveRows(dom, p, base, ex).value;
      forall t | 0 <= t < |rows|
        ensures "Perspective" in rows[t] && rows[t]["Perspective"] == NormalizeTitle(p.title)
      {
        var titled := kept[t]["Perspective" := NormalizeTitle(p.title)];
        assert AgreeOn(titled, p.outcome(titled), {"Perspective"});
      }
    }
  }

  /** Before the exclusion filter, a perspective's filled covering array
      covers every requirement with non-empty levels, and it has no more
      rows than there are requirements. */
  lemma PerspectiveCoverage(dom: Domain, p: Perspective, base: Row, ex: seq<Exclusion>)
    requires ResolvedStrength(p) >= 1 && RequirementsOf(dom, p, ex).Success?
    ensures var reqs := RequirementsOf(dom, p, ex).value;
      && |FillEach(Pack([], reqs), base)| <= |reqs|
      && forall q :: 0 <= q < |reqs| && NonEmptyLevels(reqs[q]) ==> Covered(FillEach(Pack([], reqs), base), reqs[q])
  {
    var reqs := RequirementsOf(dom, p, ex).value;
    PackCovers([], reqs);
    forall q | 0 <= q < |reqs| && NonEmptyLevels(reqs[q]) ensures Covered(FillEach(Pack([], reqs), base), reqs[q]) {
      FillEachMeaning(Pack([], reqs), base, reqs[q]);
    }
  }
}
