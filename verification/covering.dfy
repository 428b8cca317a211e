/** The greedy covering-array builder and the baseline fill.  Rows are
    partial test cases; a requirement is a partial row that some row must
    agree with.  A cell counts as set when it holds a non-empty level (the
    source tests cells for truthiness when it fills them and when it looks
    for conflicts, but tests for `undefined` when it looks for a gap). */
module Covering {
  import opened Types

  /** `row` agrees with `req` on every path `req` sets. */
  predicate Covers(row: Row, req: Row) {
    forall k :: k in req ==> k in row && row[k] == req[k]
  }

  /** Some row covers `req`. */
  predicate Covered(rows: seq<Row>, req: Row) {
    exists j :: 0 <= j < |rows| && Covers(rows[j], req)
  }

  /** Cell k holds a non-empty level. */
  predicate Filled(row: Row, k: Path) {
    k in row && row[k] != ""
  }

  /** Some path of `req` is not in the row at all. */
  predicate HasGap(row: Row, req: Row) {
    exists k :: k in req && k !in row
  }

  /** Some path of `req` is set in the row to a different level. */
  predicate Conflicts(row: Row, req: Row) {
    exists k :: k in req && Filled(row, k) && row[k] != req[k]
  }

  /** The row can be extended to cover `req`. */
  predicate Appendable(row: Row, req: Row) {
    HasGap(row, req) && !Conflicts(row, req)
  }

  /** Every level `req` asks for is non-empty. */
  predicate NonEmptyLevels(req: Row) {
    forall k :: k in req ==> req[k] != ""
  }

  /** `b` keeps every path of `a` and every set cell of `a` unchanged. */
  ghost predicate Extends(a: Row, b: Row) {
    a.Keys <= b.Keys && forall k :: Filled(a, k) ==> b[k] == a[k]
  }

  /** The row with every cell that is not set taken from `src`, for the
      paths `src` has: it never overwrites a set cell, writes `src`'s level
      into every other cell `src` names, and leaves the paths `src` does
      not name as they were. */
  function FillFrom(row: Row, src: Row): (r: Row)
    ensures Extends(row, r)
    ensures r.Keys == row.Keys + src.Keys
    ensures forall k :: k in src && !Filled(row, k) ==> r[k] == src[k]
    ensures forall k :: k in row && k !in src ==> r[k] == row[k]
  {
    map k | k in row.Keys + src.Keys :: if k in src && !Filled(row, k) then src[k] else row[k]
  }

  /** Filling a row that does not conflict with `req` from `req` makes it
      cover `req`. */
  lemma FillCompletes(row: Row, req: Row)
    requires !Conflicts(row, req)
    ensures Covers(FillFrom(row, req), req)
  {
    forall k | k in req ensures k in FillFrom(row, req) && FillFrom(row, req)[k] == req[k] {
      if Filled(row, k) {
        assert row[k] == req[k];
      }
    }
  }

  /** A row that covers a requirement with non-empty levels still covers
      it after any extension. */
  lemma ExtendsKeepsCover(a: Row, b: Row, req: Row)
    requires Extends(a, b) && Covers(a, req) && NonEmptyLevels(req)
    ensures Covers(b, req)
  {
    forall k | k in req ensures k in b && b[k] == req[k] {
      assert Filled(a, k);
    }
  }

  /** The position of the first row that can be extended to cover `req`,
      or the number of rows when there is none. */
  function FirstAppendable(rows: seq<Row>, req: Row): (i: nat)
    ensures i <= |rows|
    ensures i < |rows| ==> Appendable(rows[i], req)
    ensures forall j :: 0 <= j < i ==> !Appendable(rows[j], req)
    decreases |rows|
  {
    if rows == [] then 0
    else if Appendable(rows[0], req) then 0
    else 1 + FirstAppendable(rows[1..], req)
  }

  /** The effect of one requirement on the rows: nothing when some row
      already covers it, otherwise the first extendable row is filled from
      it, otherwise it becomes a new row.  Afterwards the requirement is
      covered, and at most one row has been added. */
  function Step(rows: seq<Row>, req: Row): (r: seq<Row>)
    ensures Covered(r, req)
    ensures |rows| <= |r| <= |rows| + 1
  {
    if Covered(rows, req) then rows
    else
      var i := FirstAppendable(rows, req);
      if i < |rows| then
        FillCompletes(rows[i], req);
        assert Covers(rows[i := FillFrom(rows[i], req)][i], req);
        rows[i := FillFrom(rows[i], req)]
      else
        assert Covers((rows + [req])[|rows|], req);
        rows + [req]
  }

  /** The rows after handling `reqs` in order, starting from `rows`: the
      old rows stay in place and at most one row per requirement is
      added. */
  function Pack(rows: seq<Row>, reqs: seq<Row>): (r: seq<Row>)
    ensures |rows| <= |r| <= |rows| + |reqs|
    decreases |reqs|
  {
    if reqs == [] then rows else Step(Pack(rows, reqs[..|reqs| - 1]), reqs[|reqs| - 1])
  }

  /** Every row filled from `base`. */
  function FillEach(rows: seq<Row>, base: Row): (r: seq<Row>)
    ensures |r| == |rows|
  {
    seq(|rows|, t requires 0 <= t < |rows| => FillFrom(rows[t], base))
  }

  /** `b` keeps the rows of `a`, in place, each one extended. */
  ghost predicate Grows(a: seq<Row>, b: seq<Row>) {
    |a| <= |b| && forall j :: 0 <= j < |a| ==> Extends(a[j], b[j])
  }

  lemma GrowsTrans(a: seq<Row>, b: seq<Row>, c: seq<Row>)
    requires Grows(a, b) && Grows(b, c)
    ensures Grows(a, c)
  {
    forall j | 0 <= j < |a| ensures Extends(a[j], c[j]) {
      assert Extends(a[j], b[j]) && Extends(b[j], c[j]);
      forall k | Filled(a[j], k) ensures c[j][k] == a[j][k] {
        assert Filled(b[j], k);
      }
    }
  }

  /** After one step the requirement is covered, no row has been removed
      or reordered, no set cell has changed, and at most one row has been
      added. */
  lemma StepCovers(rows: seq<Row>, req: Row)
    ensures Covered(Step(rows, req), req)
    ensures Grows(rows, Step(rows, req)) && |Step(rows, req)| <= |rows| + 1
  {
    var r := Step(rows, req);
    if !Covered(rows, req) {
      var i := FirstAppendable(rows, req);
      if i < |rows| {
        FillCompletes(rows[i], req);
        assert Covers(r[i], req);
      } else {
        assert Covers(r[|rows|], req);
      }
    }
    assert forall j :: 0 <= j < |rows| ==> Extends(rows[j], r[j]);
  }

  /** A step changes nothing when some row already covers the requirement;
      otherwise it changes at most the first extendable row, filling it from
      the requirement, and adds a row only when no row covers the
      requirement or can be extended to; the added row is the requirement
      itself. */
  lemma StepShape(rows: seq<Row>, req: Row)
    ensures Covered(rows, req) ==> Step(rows, req) == rows
    ensures forall j :: 0 <= j < |rows| && Step(rows, req)[j] != rows[j] ==> Step(rows, req)[j] == FillFrom(rows[j], req)
    ensures forall j :: 0 <= j < |rows| && Step(rows, req)[j] != rows[j] ==>
      Appendable(rows[j], req) && forall q :: 0 <= q < j ==> !Appendable(rows[q], req)
    ensures |Step(rows, req)| > |rows| ==>
      && !Covered(rows, req)
      && (forall j :: 0 <= j < |rows| ==> !Appendable(rows[j], req))
      && Step(rows, req)[|rows|] == req
  {
  }

  /** Every requirement with non-empty levels is covered once all
      requirements have been handled; rows are only ever extended, and
      there are at most as many new rows as requirements. */
  lemma {:induction false} PackCovers(rows: seq<Row>, reqs: seq<Row>)
    ensures forall q :: 0 <= q < |reqs| && NonEmptyLevels(reqs[q]) ==> Covered(Pack(rows, reqs), reqs[q])
    ensures Grows(rows, Pack(rows, reqs)) && |Pack(rows, reqs)| <= |rows| + |reqs|
    decreases |reqs|
  {
    if reqs != [] {
      var init := reqs[..|reqs| - 1];
      PackCovers(rows, init);
      PackStep(rows, init, reqs[|reqs| - 1], reqs);
    }
  }

  lemma PackStep(rows: seq<Row>, init: seq<Row>, last: Row, reqs: seq<Row>)
    requires reqs == init + [last]
    requires forall q :: 0 <= q < |init| && NonEmptyLevels(init[q]) ==> Covered(Pack(rows, init), init[q])
    requires Grows(rows, Pack(rows, init)) && |Pack(rows, init)| <= |rows| + |init|
    ensures forall q :: 0 <= q < |reqs| && NonEmptyLevels(reqs[q]) ==> Covered(Pack(rows, reqs), reqs[q])
    ensures Grows(rows, Pack(rows, reqs)) && |Pack(rows, reqs)| <= |rows| + |reqs|
  {
    var before := Pack(rows, init);
    assert reqs[..|reqs| - 1] == init;
    assert Pack(rows, reqs) == Step(before, last);
    StepCovers(before, last);
    GrowsTrans(rows, before, Step(before, last));
    forall q | 0 <= q < |reqs| && NonEmptyLevels(reqs[q]) ensures Covered(Step(before, last), reqs[q]) {
      if q < |init| {
        assert init[q] == reqs[q];
        StepKeepsCover(before, last, reqs[q]);
      }
    }
  }

  /** A requirement with non-empty levels that is covered stays covered
      through a step. */
  lemma StepKeepsCover(rows: seq<Row>, req: Row, r: Row)
    requires Covered(rows, r) && NonEmptyLevels(r)
    ensures Covered(Step(rows, req), r)
  {
    var j :| 0 <= j < |rows| && Covers(rows[j], r);
    StepCovers(rows, req);
    ExtendsKeepsCover(rows[j], Step(rows, req)[j], r);
  }

  /** Why the levels must be non-empty: a requirement asking for the empty
      level is covered by the row it creates, but the next requirement
      fills that cell (it counts as unset) and the first one is left
      uncovered. */
  lemma EmptyLevelUncovered()
    ensures var first := map["A" := ""];
      var second := map["A" := "x", "B" := "y"];
      !Covered(Pack([], [first, second]), first)
  {
    var first := map["A" := ""];
    var second := map["A" := "x", "B" := "y"];
    var reqs := [first, second];
    assert reqs[..1] == [first] && [first][..0] == [];
    assert Pack([], [first]) == Step([], first);
    EmptyLevelSecondStep(first, second);
  }

  lemma EmptyLevelSecondStep(first: Row, second: Row)
    requires first == map["A" := ""] && second == map["A" := "x", "B" := "y"]
    ensures Step([first], second) == [FillFrom(first, second)]
    ensures !Covers(FillFrom(first, second), first)
  {
    assert "B" in second && "B" !in first;
    assert !Covered([first], second);
    assert Appendable(first, second);
    assert FillFrom(first, second)["A"] == "x";
  }

  /** The baseline fill gives every row each path of `base`, never
      overwrites a set cell, and keeps every requirement with non-empty
      levels covered. */
  lemma FillEachMeaning(rows: seq<Row>, base: Row, r: Row)
    ensures Grows(rows, FillEach(rows, base))
    ensures forall t :: 0 <= t < |rows| ==> base.Keys <= FillEach(rows, base)[t].Keys
    ensures Covered(rows, r) && NonEmptyLevels(r) ==> Covered(FillEach(rows, base), r)
  {
    var filled := FillEach(rows, base);
    forall t | 0 <= t < |rows| ensures Extends(rows[t], filled[t]) && base.Keys <= filled[t].Keys {
    }
    if Covered(rows, r) && NonEmptyLevels(r) {
      var j :| 0 <= j < |rows| && Covers(rows[j], r);
      ExtendsKeepsCover(rows[j], filled[j], r);
    }
  }

  /** Fills the cells of `row` that are not set from `src`, path by path. */
  method FillCells(row: Row, src: Row) returns (r: Row)
    ensures r == FillFrom(row, src)
  {
    r := row;
    var pending := src.Keys;
    while pending != {}
      invariant FillProgress(row, src, r, pending)
      decreases |pending|
    {
      var k :| k in pending;
      var r' := if !Filled(r, k) then r[k := src[k]] else r;
      FillOne(row, src, r, pending, k, r');
      r := r';
      pending := pending - {k};
    }
    FilledAll(row, src, r);
  }

  /** `r` is `row` with the paths of `src` outside `pending` filled. */
  ghost predicate FillProgress(row: Row, src: Row, r: Row, pending: set<Path>) {
    && pending <= src.Keys
    && r.Keys == row.Keys + (src.Keys - pending)
    && (forall k :: k in pending || k !in src ==> k in row ==> r[k] == row[k])
    && (forall k :: k in src && k !in pending ==> r[k] == FillFrom(row, src)[k])
  }

  lemma FillOne(row: Row, src: Row, r: Row, pending: set<Path>, k: Path, r': Row)
    requires FillProgress(row, src, r, pending) && k in pending
    requires r' == if !Filled(r, k) then r[k := src[k]] else r
    ensures FillProgress(row, src, r', pending - {k})
  {
    assert Filled(r, k) == Filled(row, k);
  }

  lemma FilledAll(row: Row, src: Row, r: Row)
    requires FillProgress(row, src, r, {})
    ensures r == FillFrom(row, src)
  {
  }

  /** The rows under construction, extended in place. */
  class CoveringArray {
    var rows: seq<Row>

    constructor ()
      ensures rows == []
    {
      rows := [];
    }

    /** Handles one requirement. */
    method Add(req: Row)
      modifies this
      ensures rows == Step(old(rows), req)
    {
      var j := 0;
      while j < |rows|
        invariant 0 <= j <= |rows|
        invariant forall q :: 0 <= q < j ==> !Covers(rows[q], req)
      {
        if Covers(rows[j], req) {
          return;
        }
        j := j + 1;
      }
      var i := 0;
      while i < |rows| && !Appendable(rows[i], req)
        invariant 0 <= i <= |rows|
        invariant forall q :: 0 <= q < i ==> !Appendable(rows[q], req)
      {
        i := i + 1;
      }
      assert i == FirstAppendable(rows, req);
      if i < |rows| {
        var filled := FillCells(rows[i], req);
        rows := rows[i := filled];
      } else {
        rows := rows + [req];
      }
    }

    /** Handles the requirements in order. */
    method Generate(reqs: seq<Row>)
      modifies this
      ensures rows == Pack(old(rows), reqs)
    {
      var n := 0;
      while n < |reqs|
        invariant 0 <= n <= |reqs|
        invariant rows == Pack(old(rows), reqs[..n])
      {
        assert reqs[..n + 1][..n] == reqs[..n];
        Add(reqs[n]);
        n := n + 1;
      }
      assert reqs[..n] == reqs;
    }

    /** Fills every row's unset cells from the baseline test. */
    method ApplyBase(base: Row)
      modifies this
      ensures rows == FillEach(old(rows), base)
    {
      var t := 0;
      while t < |rows|
        invariant 0 <= t <= |rows| && |rows| == |old(rows)|
        invariant forall q :: 0 <= q < t ==> rows[q] == FillFrom(old(rows)[q], base)
        invariant forall q :: t <= q < |rows| ==> rows[q] == old(rows)[q]
      {
        var filled := FillCells(rows[t], base);
        rows := rows[t := filled];
        t := t + 1;
      }
    }
  }
}
