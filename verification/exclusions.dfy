/** The exclusion (forbidden-combination) predicate and the filter built on
    it.  An exclusion maps paths to conditions; a row is excluded when some
    exclusion has every one of its conditions met by the row. */
module Exclusions {
  import opened Types

  /** A condition on one cell: an exact level, or a pattern.  A pattern is
      represented by the answer its `test` gives on a string; the regular
      expression engine itself is not part of this model. */
  datatype Matcher = Exact(level: Level) | Pattern(test: string -> bool)

  type Exclusion = map<Path, Matcher>

  /** What a pattern test receives for `key`: the cell's level, or the text
      "undefined" when the row does not set the key. */
  function CellText(row: Row, key: Path): string {
    if key in row then row[key] else "undefined"
  }

  /** An exact condition needs the cell to be set to that level; a pattern
      condition is asked about the cell's text. */
  predicate KeyMatches(row: Row, key: Path, m: Matcher) {
    match m
    case Exact(level) => key in row && row[key] == level
    case Pattern(test) => test(CellText(row, key))
  }

  /** Every condition of exclusion `e` holds for `row`. */
  predicate MatchesAll(row: Row, e: Exclusion) {
    forall k :: k in e ==> KeyMatches(row, k, e[k])
  }

  /** Whether some exclusion of the list rejects the row, trying them in
      order: exactly when some exclusion of the list matches it in full. */
  function IsExcluded(row: Row, ex: seq<Exclusion>): (r: bool)
    ensures r <==> exists i :: 0 <= i < |ex| && MatchesAll(row, ex[i])
    decreases |ex|
  {
    if ex == [] then false
    else
      MatchShift(row, ex);
      MatchesAll(row, ex[0]) || IsExcluded(row, ex[1..])
  }

  /** Some exclusion of a non-empty list matches exactly when the first one
      does or some exclusion of the rest does. */
  lemma MatchShift(row: Row, ex: seq<Exclusion>)
    requires ex != []
    ensures (exists i :: 0 <= i < |ex| && MatchesAll(row, ex[i])) <==>
      MatchesAll(row, ex[0]) || exists i :: 0 <= i < |ex[1..]| && MatchesAll(row, ex[1..][i])
  {
    if exists i :: 0 <= i < |ex[1..]| && MatchesAll(row, ex[1..][i]) {
      var i :| 0 <= i < |ex[1..]| && MatchesAll(row, ex[1..][i]);
      assert ex[i + 1] == ex[1..][i];
    }
    forall i | 0 < i < |ex| && MatchesAll(row, ex[i])
      ensures exists j :: 0 <= j < |ex[1..]| && MatchesAll(row, ex[1..][j])
    {
      assert ex[1..][i - 1] == ex[i];
    }
  }

  /** An exclusion without any condition rejects every row. */
  lemma EmptyExclusionExcludesAll(row: Row, ex: seq<Exclusion>, i: nat)
    requires i < |ex| && ex[i] == map[]
    ensures IsExcluded(row, ex)
  {
    assert MatchesAll(row, ex[i]);
  }

  /** Every path some exclusion of the list puts a condition on. */
  function Mentioned(ex: seq<Exclusion>): set<Path> {
    set i, k | 0 <= i < |ex| && k in ex[i] :: k
  }

  /** `a` and `b` set the same paths among `keys`, to the same levels. */
  predicate AgreeOn(a: Row, b: Row, keys: set<Path>) {
    forall k :: k in keys ==> (k in a <==> k in b) && (k in a ==> a[k] == b[k])
  }

  /** Whether a row is excluded depends only on the cells the exclusions
      mention. */
  lemma {:induction false} ExcludedLocal(a: Row, b: Row, ex: seq<Exclusion>)
    requires AgreeOn(a, b, Mentioned(ex))
    ensures IsExcluded(a, ex) == IsExcluded(b, ex)
    decreases |ex|
  {
    if ex != [] {
      forall k | k in ex[0] ensures KeyMatches(a, k, ex[0][k]) == KeyMatches(b, k, ex[0][k]) {
        assert k in Mentioned(ex);
        assert CellText(a, k) == CellText(b, k);
      }
      assert MatchesAll(a, ex[0]) == MatchesAll(b, ex[0]);
      forall k | k in Mentioned(ex[1..]) ensures k in Mentioned(ex) {
        var i :| 0 <= i < |ex[1..]| && k in ex[1..][i];
        assert ex[1..][i] == ex[i + 1];
      }
      ExcludedLocal(a, b, ex[1..]);
    }
  }

  /** The rows the exclusions let through, in their original order (the
      source's `filter`): no kept row is excluded, and none is added. */
  function Kept(rows: seq<Row>, ex: seq<Exclusion>): (r: seq<Row>)
    ensures |r| <= |rows|
    ensures forall q :: 0 <= q < |r| ==> !IsExcluded(r[q], ex)
    decreases |rows|
  {
    if rows == [] then []
    else
      var last := rows[|rows| - 1];
      Kept(rows[..|rows| - 1], ex) + (if IsExcluded(last, ex) then [] else [last])
  }

  lemma {:induction false} KeptAppend(xs: seq<Row>, ys: seq<Row>, ex: seq<Exclusion>)
    ensures Kept(xs + ys, ex) == Kept(xs, ex) + Kept(ys, ex)
    decreases |ys|
  {
    if ys != [] {
      var zs := ys[..|ys| - 1];
      assert (xs + ys)[..|xs + ys| - 1] == xs + zs;
      KeptAppend(xs, zs, ex);
    } else {
      assert xs + ys == xs;
    }
  }

  /** A row is kept exactly when it is one of the rows and is not excluded;
      the filter never lengthens the list. */
  lemma {:induction false} KeptMembers(rows: seq<Row>, ex: seq<Exclusion>)
    ensures forall r :: r in Kept(rows, ex) <==> r in rows && !IsExcluded(r, ex)
    ensures |Kept(rows, ex)| <= |rows|
    decreases |rows|
  {
    if rows != [] {
      var init := rows[..|rows| - 1];
      KeptMembers(init, ex);
      assert rows == init + [rows[|rows| - 1]];
    }
  }
}
