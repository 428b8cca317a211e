/** Flattening of a nested factor schema (or of a nested defaults object)
    into a dictionary keyed by dotted paths.  The same walk serves the domain
    tree, whose leaves are level lists, and the defaults tree, whose leaves
    are single levels; `L` is the leaf type. */
module Flatten {
  import opened Types

  /** A nested object: a leaf value, or a group of named members in
      declaration order. */
  datatype Tree<L> = Leaf(value: L) | Group(members: seq<(string, Tree<L>)>)

  /** The path of member `key` below `parent`: the key alone at the root. */
  function JoinPath(parent: Path, key: string): Path {
    if parent == "" then key else parent + "." + key
  }

  /** The leaves below node `t`, reached by `path`, with their dotted paths
      in visiting order. */
  function NodeLeaves<L>(t: Tree<L>, path: Path): seq<(Path, L)>
    decreases t, 1
  {
    match t
    case Leaf(v) => [(path, v)]
    case Group(ms) => MemberLeaves(t, path, |ms|)
  }

  /** The leaves below the first `n` members of group `t`, whose own path is
      `parent`. */
  function MemberLeaves<L>(t: Tree<L>, parent: Path, n: nat): seq<(Path, L)>
    requires t.Group? && n <= |t.members|
    decreases t, 0, n
  {
    if n == 0 then []
    else
      var (key, child) := t.members[n - 1];
      MemberLeaves(t, parent, n - 1) + NodeLeaves(child, JoinPath(parent, key))
  }

  function Paths<L>(leaves: seq<(Path, L)>): set<Path> {
    set i | 0 <= i < |leaves| :: leaves[i].0
  }

  /** Registering `leaves` one after another never meets a path that is
      already in `known` or that an earlier leaf registered. */
  predicate Fresh<L>(known: set<Path>, leaves: seq<(Path, L)>) {
    && (forall i :: 0 <= i < |leaves| ==> leaves[i].0 !in known)
    && (forall i, j :: 0 <= i < j < |leaves| ==> leaves[i].0 != leaves[j].0)
  }

  /** The dictionary after registering `leaves` in order. */
  function Register<L>(m: map<Path, L>, leaves: seq<(Path, L)>): map<Path, L>
    decreases |leaves|
  {
    if leaves == [] then m else Register(m[leaves[0].0 := leaves[0].1], leaves[1..])
  }

  /** All leaves of group `t`, below path `parent`. */
  function GroupLeaves<L>(t: Tree<L>, parent: Path): seq<(Path, L)>
    requires t.Group?
  {
    MemberLeaves(t, parent, |t.members|)
  }

  /** No two leaves share a dotted path. */
  predicate UniquePaths<L>(leaves: seq<(Path, L)>) {
    forall i, j :: 0 <= i < j < |leaves| ==> leaves[i].0 != leaves[j].0
  }

  /** What flattening a whole tree yields: the dictionary of its leaves, or
      the duplicate-definition error exactly when two leaves share a path. */
  function Flattened<L>(t: Tree<L>): (r: Result<map<Path, L>>)
    requires t.Group?
    ensures r.Success? <==> UniquePaths(GroupLeaves(t, ""))
    ensures r.Failure? ==> r.error == DuplicateDefinition
  {
    var leaves := GroupLeaves(t, "");
    if Fresh({}, leaves) then Success(Register(map[], leaves)) else Failure(DuplicateDefinition)
  }

  lemma PathsAppend<L>(a: seq<(Path, L)>, b: seq<(Path, L)>)
    ensures Paths(a + b) == Paths(a) + Paths(b)
  {
    var ab := a + b;
    forall i | 0 <= i < |ab| ensures ab[i].0 in Paths(a) + Paths(b) {
      if i < |a| { assert ab[i] == a[i]; } else { assert ab[i] == b[i - |a|]; }
    }
    forall i | 0 <= i < |a| ensures a[i].0 in Paths(ab) {
      assert ab[i] == a[i];
    }
    forall i | 0 <= i < |b| ensures b[i].0 in Paths(ab) {
      assert ab[|a| + i] == b[i];
    }
  }

  /** Freshness splits at any point of the registration order. */
  lemma FreshAppend<L>(known: set<Path>, a: seq<(Path, L)>, b: seq<(Path, L)>)
    ensures Fresh(known, a + b) <==> Fresh(known, a) && Fresh(known + Paths(a), b)
  {
    var ab := a + b;
    if Fresh(known, a) && Fresh(known + Paths(a), b) {
      forall i, j | 0 <= i < j < |ab| ensures ab[i].0 != ab[j].0 {
        if j >= |a| && i < |a| {
          assert ab[i].0 in Paths(a);
          assert b[j - |a|].0 !in known + Paths(a);
        } else if i >= |a| {
          assert b[i - |a|].0 != b[j - |a|].0;
        }
      }
      forall i | 0 <= i < |ab| ensures ab[i].0 !in known {
        if i >= |a| { assert b[i - |a|].0 !in known + Paths(a); }
      }
    }
    if Fresh(known, ab) {
      forall i | 0 <= i < |a| ensures a[i].0 !in known {
        assert ab[i] == a[i];
      }
      forall i, j | 0 <= i < j < |a| ensures a[i].0 != a[j].0 {
        assert ab[i] == a[i] && ab[j] == a[j];
      }
      forall j | 0 <= j < |b| ensures b[j].0 !in known + Paths(a) {
        assert ab[|a| + j] == b[j];
        forall i | 0 <= i < |a| ensures a[i].0 != b[j].0 {
          assert ab[i] == a[i];
        }
      }
      forall i, j | 0 <= i < j < |b| ensures b[i].0 != b[j].0 {
        assert ab[|a| + i] == b[i] && ab[|a| + j] == b[j];
      }
    }
  }

  lemma {:induction false} RegisterAppend<L>(m: map<Path, L>, a: seq<(Path, L)>, b: seq<(Path, L)>)
    ensures Register(m, a + b) == Register(Register(m, a), b)
    decreases |a|
  {
    if a == [] {
      assert a + b == b;
    } else {
      assert (a + b)[1..] == a[1..] + b;
      RegisterAppend(m[a[0].0 := a[0].1], a[1..], b);
    }
  }

  /** Registration adds exactly the leaves' paths, keeps every earlier entry
      that no leaf names, and, when no path repeats, stores each leaf's value
      unchanged under its path. */
  lemma {:induction false} RegisterContents<L>(m: map<Path, L>, leaves: seq<(Path, L)>)
    ensures Register(m, leaves).Keys == m.Keys + Paths(leaves)
    ensures forall p :: p in m && p !in Paths(leaves) ==> Register(m, leaves)[p] == m[p]
    ensures Fresh(m.Keys, leaves) ==>
      forall i :: 0 <= i < |leaves| ==> Register(m, leaves)[leaves[i].0] == leaves[i].1
    decreases |leaves|
  {
    if leaves != [] {
      var m' := m[leaves[0].0 := leaves[0].1];
      var rest := leaves[1..];
      RegisterContents(m', rest);
      assert leaves == [leaves[0]] + rest;
      PathsAppend([leaves[0]], rest);
      assert Paths([leaves[0]]) == {leaves[0].0};
      if Fresh(m.Keys, leaves) {
        FreshAppend(m.Keys, [leaves[0]], rest);
        forall i | 0 <= i < |leaves|
          ensures Register(m, leaves)[leaves[i].0] == leaves[i].1
        {
          if i == 0 {
            forall j | 0 <= j < |rest| ensures rest[j].0 != leaves[0].0 {
              assert leaves[j + 1] == rest[j];
            }
          } else {
            assert rest[i - 1] == leaves[i];
          }
        }
      }
    }
  }

  /** Registering `done` and then `here` is registering `done + here`, and
      it is fresh exactly when both steps are. */
  lemma RegisterStep<L>(start: map<Path, L>, done: seq<(Path, L)>, here: seq<(Path, L)>)
    ensures Fresh(start.Keys, done + here) <==>
      Fresh(start.Keys, done) && Fresh(Register(start, done).Keys, here)
    ensures Register(start, done + here) == Register(Register(start, done), here)
  {
    RegisterContents(start, done);
    FreshAppend(start.Keys, done, here);
    RegisterAppend(start, done, here);
  }

  /** A prefix of a fresh registration order is fresh. */
  lemma {:induction false} FreshPrefix<L>(known: set<Path>, t: Tree<L>, parent: Path, n: nat, m: nat)
    requires t.Group? && n <= m <= |t.members|
    ensures Fresh(known, MemberLeaves(t, parent, m)) ==> Fresh(known, MemberLeaves(t, parent, n))
    decreases m
  {
    if n < m {
      var (key, child) := t.members[m - 1];
      FreshAppend(known, MemberLeaves(t, parent, m - 1), NodeLeaves(child, JoinPath(parent, key)));
      FreshPrefix(known, t, parent, n, m - 1);
    }
  }

  /** Flattening succeeds exactly when no two leaves share a dotted path, and
      then maps every leaf's path to that leaf's value and nothing else. */
  lemma FlattenedContents<L>(t: Tree<L>)
    requires t.Group?
    ensures var leaves := GroupLeaves(t, "");
      && (Flattened(t).Success? <==> UniquePaths(leaves))
      && (Flattened(t).Success? ==>
            && Flattened(t).value.Keys == Paths(leaves)
            && forall i :: 0 <= i < |leaves| ==> Flattened(t).value[leaves[i].0] == leaves[i].1)
  {
    var leaves := GroupLeaves(t, "");
    RegisterContents(map[], leaves);
    assert Fresh({}, leaves) <==> UniquePaths(leaves);
  }

  /** The dictionary a flattening run fills in place, as the source's
      caller-supplied `result` object. */
  class FlatDict<L> {
    var entries: map<Path, L>

    constructor ()
      ensures entries == map[]
    {
      entries := map[];
    }

    /** Registers every leaf below group `t`, whose path is `parent`,
        visiting members in declaration order and descending into groups;
        reports a duplicate definition as `false` (the source throws at that
        point and the run is abandoned). */
    method AddTree(t: Tree<L>, parent: Path) returns (ok: bool)
      requires t.Group?
      modifies this
      ensures ok == Fresh(old(entries).Keys, GroupLeaves(t, parent))
      ensures ok ==> entries == Register(old(entries), GroupLeaves(t, parent))
      decreases t
    {
      ghost var start := entries;
      var i := 0;
      while i < |t.members|
        invariant 0 <= i <= |t.members|
        invariant Fresh(start.Keys, MemberLeaves(t, parent, i))
        invariant entries == Register(start, MemberLeaves(t, parent, i))
      {
        var key := t.members[i].0;
        var value := t.members[i].1;
        var path := JoinPath(parent, key);
        ghost var done := MemberLeaves(t, parent, i);
        ghost var here := NodeLeaves(value, path);
        assert MemberLeaves(t, parent, i + 1) == done + here;
        RegisterStep(start, done, here);
        if value.Leaf? {
          assert here == [(path, value.value)];
          if path in entries {
            FreshPrefix(start.Keys, t, parent, i + 1, |t.members|);
            return false;
          }
          entries := entries[path := value.value];
        } else {
          var sub := AddTree(value, path);
          if !sub {
            FreshPrefix(start.Keys, t, parent, i + 1, |t.members|);
            return false;
          }
        }
        i := i + 1;
      }
      ok := true;
    }
  }
}
