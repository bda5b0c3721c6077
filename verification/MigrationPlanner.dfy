/** `MigrationContainer`: registered migrations by start and end version, and the greedy walk that
    plans an upgrade. */
module MigrationPlanner {
  import opened Wrappers

  datatype Migration<+A> = Migration(start: nat, end: nat, action: A)

  type Registry<+A> = map<nat, map<nat, Migration<A>>>

  // ----- registering

  /** `add_migration`: a second migration between the same versions replaces the first. */
  function Added<A>(c: Registry<A>, m: Migration<A>): Registry<A> {
    c[m.start := (if m.start in c then c[m.start] else map[])[m.end := m]]
  }

  function AddedAll<A>(c: Registry<A>, ms: seq<Migration<A>>): Registry<A> {
    if ms == [] then c else Added(AddedAll(c, ms[..|ms| - 1]), ms[|ms| - 1])
  }

  function Lookup<A>(c: Registry<A>, start: nat, end: nat): Option<Migration<A>> {
    if start in c && end in c[start] then Some(c[start][end]) else None
  }

  /** The last migration of the list between two versions. */
  function LastBetween<A>(ms: seq<Migration<A>>, start: nat, end: nat): Option<Migration<A>> {
    if ms == [] then None
    else
      var m := ms[|ms| - 1];
      if m.start == start && m.end == end then Some(m) else LastBetween(ms[..|ms| - 1], start, end)
  }

  /** Migrations are filed under their own versions, and no start version has an empty list. */
  ghost predicate Filed<A>(c: Registry<A>) {
    && (forall s, e :: s in c && e in c[s] ==> c[s][e].start == s && c[s][e].end == e)
    && (forall s :: s in c ==> c[s] != map[])
  }

  lemma {:induction false} RegistryIsFiled<A>(ms: seq<Migration<A>>)
    ensures Filed(AddedAll(map[], ms))
  {
    if ms != [] {
      RegistryIsFiled(ms[..|ms| - 1]);
      var m := ms[|ms| - 1];
      assert m.end in AddedAll(map[], ms)[m.start];
    }
  }

  lemma {:induction false} LastRegistrationWins<A>(ms: seq<Migration<A>>, start: nat, end: nat)
    ensures Lookup(AddedAll(map[], ms), start, end) == LastBetween(ms, start, end)
  {
    if ms != [] {
      LastRegistrationWins(ms[..|ms| - 1], start, end);
    }
  }

  lemma SameLookupsSameRegistry<A>(c1: Registry<A>, c2: Registry<A>)
    requires Filed(c1) && Filed(c2)
    requires forall s, e :: Lookup(c1, s, e) == Lookup(c2, s, e)
    ensures c1 == c2
  {
    SameLookupsSubset(c1, c2);
    SameLookupsSubset(c2, c1);
    forall s | s in c1 ensures c1[s] == c2[s] {
      forall e ensures e in c1[s] <==> e in c2[s] {
        assert Lookup(c1, s, e) == Lookup(c2, s, e);
      }
      forall e | e in c1[s] ensures c1[s][e] == c2[s][e] {
        assert Lookup(c1, s, e) == Lookup(c2, s, e);
      }
    }
  }

  lemma SameLookupsSubset<A>(c1: Registry<A>, c2: Registry<A>)
    requires Filed(c1) && forall s, e :: Lookup(c1, s, e) == Lookup(c2, s, e)
    ensures c1.Keys <= c2.Keys
  {
    forall s | s in c1 ensures s in c2 {
      assert c1[s] != map[];
      var e :| e in c1[s];
      assert Lookup(c1, s, e) == Lookup(c2, s, e);
    }
  }

  /** Between two given versions the list has at most one migration. */
  ghost predicate NoDuplicates<A>(ms: seq<Migration<A>>) {
    forall i, j :: 0 <= i < j < |ms| ==> ms[i].start != ms[j].start || ms[i].end != ms[j].end
  }

  lemma {:induction false} LastBetweenIsMember<A>(ms: seq<Migration<A>>, start: nat, end: nat)
    ensures LastBetween(ms, start, end).Some? ==>
              var m := LastBetween(ms, start, end).value; m in ms && m.start == start && m.end == end
    ensures LastBetween(ms, start, end).None? ==> forall m :: m in ms ==> m.start != start || m.end != end
  {
    if ms != [] {
      LastBetweenIsMember(ms[..|ms| - 1], start, end);
      assert ms == ms[..|ms| - 1] + [ms[|ms| - 1]];
    }
  }

  /** Without duplicates the order of registration does not matter. */
  lemma RegistrationOrderIsIrrelevant<A>(ms1: seq<Migration<A>>, ms2: seq<Migration<A>>)
    requires NoDuplicates(ms1) && forall m :: m in ms1 <==> m in ms2
    ensures NoDuplicates(ms2) ==> AddedAll(map[], ms1) == AddedAll(map[], ms2)
  {
    if NoDuplicates(ms2) {
      var c1, c2: Registry<A> := AddedAll(map[], ms1), AddedAll(map[], ms2);
      RegistryIsFiled(ms1);
      RegistryIsFiled(ms2);
      forall s, e ensures Lookup(c1, s, e) == Lookup(c2, s, e) {
        LastRegistrationWins(ms1, s, e);
        LastRegistrationWins(ms2, s, e);
        LastBetweenIsMember(ms1, s, e);
        LastBetweenIsMember(ms2, s, e);
        if LastBetween(ms1, s, e).Some? && LastBetween(ms2, s, e).Some? {
          var i :| 0 <= i < |ms1| && ms1[i] == LastBetween(ms1, s, e).value;
          assert LastBetween(ms2, s, e).value in ms1;
          var j :| 0 <= j < |ms1| && ms1[j] == LastBetween(ms2, s, e).value;
          assert i == j;
        }
      }
      SameLookupsSameRegistry(c1, c2);
    }
  }

  // ----- sorting the targets of a version

  lemma {:induction false} LeastExists(s: set<nat>) returns (m: nat)
    requires s != {}
    ensures m in s && forall x :: x in s ==> m <= x
  {
    var a :| a in s;
    m := a;
    if s != {a} {
      var n := LeastExists(s - {a});
      m := if n < a then n else a;
      forall x | x in s ensures m <= x {
        assert x == a || x in s - {a};
      }
    }
  }

  function Least(s: set<nat>): (m: nat)
    requires s != {}
    ensures m in s && forall x :: x in s ==> m <= x
  {
    assert exists m :: m in s && forall x :: x in s ==> m <= x by {
      var m := LeastExists(s);
    }
    var m :| m in s && forall x :: x in s ==> m <= x;
    m
  }

  function Sorted(s: set<nat>): (q: seq<nat>)
    ensures forall x :: x in q <==> x in s
    ensures forall i, j :: 0 <= i < j < |q| ==> q[i] < q[j]
  {
    if s == {} then []
    else
      var m := Least(s);
      var rest := Sorted(s - {m});
      assert forall i :: 0 <= i < |rest| ==> rest[i] in rest;
      [m] + rest
  }

  // ----- the walk

  /** The versions one can step to from `v` without leaving the range. */
  function Admissible<A>(c: Registry<A>, v: nat, end: nat): set<nat> {
    if v in c then set t | t in c[v] && v < t <= end else {}
  }

  /** The walk as a value: from each version the least admissible step. */
  function GreedyPath<A>(c: Registry<A>, v: nat, end: nat): Option<seq<Migration<A>>>
    decreases end - v
  {
    if v >= end then Some([])
    else if Admissible(c, v, end) == {} then None
    else
      var t := Least(Admissible(c, v, end));
      match GreedyPath(c, t, end)
      case None => None
      case Some(rest) => Some([c[v][t]] + rest)
  }

  class MigrationContainer<A> {
    var migrations: Registry<A>

    constructor ()
      ensures migrations == map[]
    {
      migrations := map[];
    }

    method AddMigration(m: Migration<A>)
      modifies this
      ensures migrations == Added(old(migrations), m)
    {
      var targets := if m.start in migrations then migrations[m.start] else map[];
      migrations := migrations[m.start := targets[m.end := m]];
    }

    method AddMigrations(ms: seq<Migration<A>>)
      modifies this
      ensures migrations == AddedAll(old(migrations), ms)
    {
      for k := 0 to |ms|
        invariant migrations == AddedAll(old(migrations), ms[..k])
      {
        AddMigration(ms[k]);
        assert ms[..k + 1][..k] == ms[..k];
      }
      assert ms[..|ms|] == ms;
    }

    /** The inner loop of `find_migration_path`: the first admissible version in sorted order. */
    method NextVersion(targets: map<nat, Migration<A>>, current: nat, end: nat) returns (next: Option<nat>)
      requires current in migrations && migrations[current] == targets
      ensures next == None ==> Admissible(migrations, current, end) == {}
      ensures next.Some? ==> Admissible(migrations, current, end) != {}
                             && next.value == Least(Admissible(migrations, current, end))
    {
      var sorted := Sorted(targets.Keys);
      for k := 0 to |sorted|
        invariant forall j :: 0 <= j < k ==> !(current < sorted[j] <= end)
      {
        if sorted[k] <= end && sorted[k] > current {
          FirstAdmissible(migrations, current, end, sorted, k);
          return Some(sorted[k]);
        }
      }
      assert forall t :: t in targets ==> t in sorted;
      return None;
    }

    method FindMigrationPath(start: nat, end: nat) returns (r: Option<seq<Migration<A>>>)
      ensures r == GreedyPath(migrations, start, end)
    {
      var result: seq<Migration<A>> := [];
      var current := start;
      if GreedyPath(migrations, start, end).Some? {
        assert result + GreedyPath(migrations, start, end).value == GreedyPath(migrations, start, end).value;
      }
      while current < end
        invariant match GreedyPath(migrations, current, end)
                  case None => GreedyPath(migrations, start, end) == None
                  case Some(rest) => GreedyPath(migrations, start, end) == Some(result + rest)
        decreases end - current
      {
        if current !in migrations {
          return None;
        }
        var next := NextVersion(migrations[current], current, end);
        if next == None {
          return None;
        }
        ghost var rest := GreedyPath(migrations, next.value, end);
        var migration := migrations[current][next.value];
        assert rest.Some? ==> result + ([migration] + rest.value) == result + [migration] + rest.value;
        result := result + [migration];
        current := next.value;
      }
      assert result + [] == result;
      return Some(result);
    }
  }

  /** Scanning the sorted targets, the first admissible one is the least. */
  lemma FirstAdmissible<A>(c: Registry<A>, v: nat, end: nat, sorted: seq<nat>, k: nat)
    requires v in c && sorted == Sorted(c[v].Keys) && k < |sorted| && v < sorted[k] <= end
    requires forall j :: 0 <= j < k ==> !(v < sorted[j] <= end)
    ensures Admissible(c, v, end) != {} && Least(Admissible(c, v, end)) == sorted[k]
  {
    var s := Admissible(c, v, end);
    assert sorted[k] in sorted;
    assert sorted[k] in s;
    forall x | x in s ensures sorted[k] <= x {
      assert x in sorted;
      var j :| 0 <= j < |sorted| && sorted[j] == x;
    }
  }

  // ----- what a returned path is

  /** Contiguous, strictly increasing, registered, and made of least admissible steps. */
  ghost predicate IsGreedyChain<A>(c: Registry<A>, path: seq<Migration<A>>, start: nat, end: nat) {
    && (path == [] ==> start >= end)
    && (path != [] ==> path[0].start == start && path[|path| - 1].end == end)
    && (forall i :: 0 <= i < |path| - 1 ==> path[i].end == path[i + 1].start)
    && (forall i :: 0 <= i < |path| ==>
          && path[i].start < path[i].end <= end
          && Lookup(c, path[i].start, path[i].end) == Some(path[i])
          && forall t :: path[i].start < t <= end && Lookup(c, path[i].start, t).Some? ==> path[i].end <= t)
  }

  lemma {:induction false} GreedyPathIsChain<A>(c: Registry<A>, start: nat, end: nat)
    requires Filed(c) && GreedyPath(c, start, end).Some?
    ensures IsGreedyChain(c, GreedyPath(c, start, end).value, start, end)
    ensures start <= end ==> |GreedyPath(c, start, end).value| <= end - start
    decreases end - start
  {
    if start < end {
      var t := Least(Admissible(c, start, end));
      GreedyPathIsChain(c, t, end);
      forall u | start < u <= end && Lookup(c, start, u).Some? ensures t <= u {
        assert u in Admissible(c, start, end);
      }
      ChainCons(c, c[start][t], GreedyPath(c, t, end).value, end);
    }
  }

  lemma ChainCons<A>(c: Registry<A>, m: Migration<A>, rest: seq<Migration<A>>, end: nat)
    requires IsGreedyChain(c, rest, m.end, end)
    requires m.start < m.end <= end && Lookup(c, m.start, m.end) == Some(m)
    requires forall t :: m.start < t <= end && Lookup(c, m.start, t).Some? ==> m.end <= t
    ensures IsGreedyChain(c, [m] + rest, m.start, end)
  {
    var path := [m] + rest;
    forall i | 0 <= i < |path| - 1 ensures path[i].end == path[i + 1].start {
      assert path[i + 1] == rest[i];
      if i > 0 {
        assert path[i] == rest[i - 1];
      }
    }
    forall i | 0 <= i < |path|
      ensures && path[i].start < path[i].end <= end
              && Lookup(c, path[i].start, path[i].end) == Some(path[i])
              && forall t :: path[i].start < t <= end && Lookup(c, path[i].start, t).Some? ==> path[i].end <= t
    {
      if i > 0 {
        assert path[i] == rest[i - 1];
      }
    }
    if rest != [] {
      assert path[|path| - 1] == rest[|rest| - 1];
    }
  }

  /** The versions the walk visits. */
  function Walk<A>(c: Registry<A>, v: nat, end: nat): seq<nat>
    decreases end - v
  {
    if v >= end || Admissible(c, v, end) == {} then [v]
    else [v] + Walk(c, Least(Admissible(c, v, end)), end)
  }

  /** A sequence of registered steps from `v` to `end`, not necessarily least ones. */
  ghost predicate Connects<A>(c: Registry<A>, vs: seq<nat>, v: nat, end: nat) {
    && vs != [] && vs[0] == v && vs[|vs| - 1] == end
    && forall i :: 0 <= i < |vs| - 1 ==> vs[i + 1] in Admissible(c, vs[i], end)
  }

  ghost predicate CanReach<A>(c: Registry<A>, v: nat, end: nat) {
    exists vs :: Connects(c, vs, v, end)
  }

  lemma WalkReaches<A>(c: Registry<A>, v: nat, end: nat)
    requires v <= end && GreedyPath(c, v, end).Some?
    ensures Connects(c, Walk(c, v, end), v, end)
    decreases end - v
  {
    if v < end {
      var t := Least(Admissible(c, v, end));
      WalkReaches(c, t, end);
      var rest := Walk(c, t, end);
      assert forall i :: 0 <= i < |rest| ==> ([v] + rest)[i + 1] == rest[i];
    }
  }

  /** No path is found exactly when the walk runs into a version below the end with no admissible step. */
  lemma {:induction false} NoPathMeansStuck<A>(c: Registry<A>, start: nat, end: nat)
    ensures GreedyPath(c, start, end) == None <==>
            exists v :: v in Walk(c, start, end) && v < end && Admissible(c, v, end) == {}
    decreases end - start
  {
    if start < end && Admissible(c, start, end) != {} {
      var t := Least(Admissible(c, start, end));
      NoPathMeansStuck(c, t, end);
      var rest := Walk(c, t, end);
      assert forall v :: v in Walk(c, start, end) <==> v == start || v in rest;
    } else {
      assert Walk(c, start, end) == [start] && start in Walk(c, start, end);
    }
  }

  /** The greedy walk succeeds exactly when it never leaves the versions from which the end can be
      reached at all; in particular success means a path exists. */
  lemma {:induction false} GreedySucceedsIffWalkStaysConnected<A>(c: Registry<A>, start: nat, end: nat)
    requires start <= end
    ensures GreedyPath(c, start, end).Some? <==> forall v :: v in Walk(c, start, end) ==> CanReach(c, v, end)
    decreases end - start
  {
    assert start in Walk(c, start, end);
    if GreedyPath(c, start, end).Some? {
      WalkReaches(c, start, end);
      if start < end {
        var t := Least(Admissible(c, start, end));
        GreedySucceedsIffWalkStaysConnected(c, t, end);
        assert forall v :: v in Walk(c, start, end) <==> v == start || v in Walk(c, t, end);
      } else {
        assert Connects(c, [end], end, end);
      }
    } else if Admissible(c, start, end) == {} {
      assert forall vs :: Connects(c, vs, start, end) ==> vs[1] in Admissible(c, vs[0], end);
    } else {
      var t := Least(Admissible(c, start, end));
      GreedySucceedsIffWalkStaysConnected(c, t, end);
      assert forall v :: v in Walk(c, t, end) ==> v in Walk(c, start, end);
    }
  }

  /** The walk cannot fail if the start and every registered target below the end has an admissible step. */
  lemma {:induction false} GreedyIsComplete<A>(c: Registry<A>, start: nat, end: nat)
    requires start < end ==> Admissible(c, start, end) != {}
    requires forall s, t :: s in c && t in c[s] && t < end ==> Admissible(c, t, end) != {}
    ensures GreedyPath(c, start, end).Some?
    decreases end - start
  {
    if start < end {
      var t := Least(Admissible(c, start, end));
      GreedyIsComplete(c, t, end);
    }
  }

  /** The condition is needed: with steps 1 to 2 and 1 to 3 registered, the end 3 can be reached from 1,
      but the walk steps to 2 and finds nothing there. */
  lemma GreedyCanMissAPath<A>(a: A, b: A)
    ensures var c := AddedAll(map[], [Migration(1, 2, a), Migration(1, 3, b)]);
            CanReach(c, 1, 3) && GreedyPath(c, 1, 3) == None
  {
    var m1, m2 := Migration(1, 2, a), Migration(1, 3, b);
    var c := AddedAll(map[], [m1, m2]);
    assert [m1, m2][..1] == [m1] && [m1][..0] == [];
    assert AddedAll(map[], [m1]) == map[1 := map[2 := m1]];
    assert c == map[1 := map[2 := m1, 3 := m2]];
    assert Connects(c, [1, 3], 1, 3);
    assert Admissible(c, 1, 3) == {2, 3};
    assert Least({2, 3}) == 2;
    assert GreedyPath(c, 2, 3) == None;
  }
}
