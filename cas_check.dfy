/**
 * CAS histories as the offline checkers read them (cas_checking/): each recorded CAS names the
 * value it expected, the value it installed, and whether it succeeded. A history is sequentially
 * consistent in a given order when replaying it from the initial value reproduces every result.
 */
module CasHistory {

  datatype Cas = Cas(valueFrom: int, valueTo: int, result: bool)

  /** The per-thread histories one after another. */
  function Flatten(threads: seq<seq<Cas>>): (r: seq<Cas>)
    ensures forall t, c :: t in threads && c in t ==> c in r
    ensures forall c :: c in r ==> exists t :: t in threads && c in t
  {
    if threads == [] then [] else threads[0] + Flatten(threads[1..])
  }

  lemma FlattenOne(t: seq<Cas>)
    ensures Flatten([t]) == t
  {
    assert [t][1..] == [];
    assert t + [] == t;
  }

  lemma FlattenPair(t1: seq<Cas>, t2: seq<Cas>)
    ensures Flatten([t1, t2]) == t1 + t2
  {
    assert [t1, t2][1..] == [t2];
    assert [t2][1..] == [];
    assert Flatten([t2]) == t2 + Flatten([]);
    assert t2 + [] == t2;
  }

  /** The number of successful CASes that installed `v`: the in-degree of `v` in the CAS graph. */
  function InDegree(cases: seq<Cas>, v: int): nat
  {
    if cases == [] then 0
    else
      var c := cases[|cases| - 1];
      InDegree(cases[..|cases| - 1], v) + if c.result && c.valueTo == v then 1 else 0
  }

  /** The number of successful CASes that replaced `v`: the out-degree of `v` in the CAS graph. */
  function OutDegree(cases: seq<Cas>, v: int): nat
  {
    if cases == [] then 0
    else
      var c := cases[|cases| - 1];
      OutDegree(cases[..|cases| - 1], v) + if c.result && c.valueFrom == v then 1 else 0
  }

  /** The number of successful CASes: the number of edges of the CAS graph. */
  function SuccessCount(cases: seq<Cas>): nat
  {
    if cases == [] then 0 else SuccessCount(cases[..|cases| - 1]) + if cases[|cases| - 1].result then 1 else 0
  }

  /** The values touched by a successful CAS: the vertices of the CAS graph. */
  function Vertices(cases: seq<Cas>): set<int>
  {
    (set i | 0 <= i < |cases| && cases[i].result :: cases[i].valueFrom) +
    (set i | 0 <= i < |cases| && cases[i].result :: cases[i].valueTo)
  }

  /** A value is a vertex exactly when some edge enters or leaves it. */
  lemma {:induction false} VertexIffDegree(cases: seq<Cas>, v: int)
    ensures v in Vertices(cases) <==> InDegree(cases, v) > 0 || OutDegree(cases, v) > 0
    decreases |cases|
  {
    if cases != [] {
      var n := |cases|;
      var front := cases[..n - 1];
      VertexIffDegree(front, v);
      if v in Vertices(cases) {
        var i :| 0 <= i < n && cases[i].result && (cases[i].valueFrom == v || cases[i].valueTo == v);
        if i < n - 1 {
          assert front[i] == cases[i];
        }
      }
      if v in Vertices(front) {
        var i :| 0 <= i < n - 1 && front[i].result && (front[i].valueFrom == v || front[i].valueTo == v);
        assert cases[i] == front[i];
      }
    }
  }

  lemma DegreesOfSingleton(a: seq<Cas>, x: Cas, v: int)
    ensures InDegree(a + [x], v) == InDegree(a, v) + InDegree([x], v)
    ensures OutDegree(a + [x], v) == OutDegree(a, v) + OutDegree([x], v)
    ensures SuccessCount(a + [x]) == SuccessCount(a) + SuccessCount([x])
  {
    assert (a + [x])[..|a|] == a;
    assert [x][..0] == [];
  }

  lemma {:induction false} DegreesAppend(a: seq<Cas>, b: seq<Cas>, v: int)
    ensures InDegree(a + b, v) == InDegree(a, v) + InDegree(b, v)
    ensures OutDegree(a + b, v) == OutDegree(a, v) + OutDegree(b, v)
    ensures SuccessCount(a + b) == SuccessCount(a) + SuccessCount(b)
    decreases |b|
  {
    if b == [] {
      assert a + b == a;
    } else {
      var b' := b[..|b| - 1];
      assert (a + b)[..|a + b| - 1] == a + b';
      DegreesAppend(a, b', v);
    }
  }

  /** The CAS graph does not depend on the order in which the CASes are listed. */
  lemma {:induction false} DegreesOfPermutation(a: seq<Cas>, b: seq<Cas>, v: int)
    requires multiset(a) == multiset(b)
    ensures InDegree(a, v) == InDegree(b, v) && OutDegree(a, v) == OutDegree(b, v)
    ensures SuccessCount(a) == SuccessCount(b)
    decreases |a|
  {
    if a == [] {
      assert |b| == |multiset(b)| == 0;
    } else {
      var n := |a|;
      var x := a[n - 1];
      var front := a[..n - 1];
      assert a == front + [x];
      assert x in multiset(b);
      var j :| 0 <= j < |b| && b[j] == x;
      var b1, b2 := b[..j], b[j + 1..];
      assert b == b1 + [x] + b2;
      RemoveFromBoth(a, b, j);
      DegreesOfPermutation(front, b1 + b2, v);
      DegreesAppend(b1, b2, v);
      DegreesAppend(b1 + [x], b2, v);
      DegreesSingletonSplit(front, b1, x, v);
    }
  }

  /** Removing the last element of `a` and an equal element of `b` keeps the two a permutation. */
  lemma RemoveFromBoth(a: seq<Cas>, b: seq<Cas>, j: nat)
    requires multiset(a) == multiset(b) && a != [] && j < |b| && b[j] == a[|a| - 1]
    ensures multiset(a[..|a| - 1]) == multiset(b[..j] + b[j + 1..])
  {
    var x := a[|a| - 1];
    assert a == a[..|a| - 1] + [x];
    assert b == b[..j] + [x] + b[j + 1..];
    assert multiset(a) == multiset(a[..|a| - 1]) + multiset{x};
    calc {
      multiset(b);
      multiset(b[..j] + [x] + b[j + 1..]);
      multiset(b[..j]) + multiset{x} + multiset(b[j + 1..]);
      multiset(b[..j] + b[j + 1..]) + multiset{x};
    }
    assert multiset(a[..|a| - 1]) == multiset(a) - multiset{x};
  }

  lemma DegreesSingletonSplit(front: seq<Cas>, b1: seq<Cas>, x: Cas, v: int)
    ensures InDegree(front + [x], v) == InDegree(front, v) + InDegree([x], v)
    ensures InDegree(b1 + [x], v) == InDegree(b1, v) + InDegree([x], v)
    ensures OutDegree(front + [x], v) == OutDegree(front, v) + OutDegree([x], v)
    ensures OutDegree(b1 + [x], v) == OutDegree(b1, v) + OutDegree([x], v)
    ensures SuccessCount(front + [x]) == SuccessCount(front) + SuccessCount([x])
    ensures SuccessCount(b1 + [x]) == SuccessCount(b1) + SuccessCount([x])
  {
    DegreesOfSingleton(front, x, v);
    DegreesOfSingleton(b1, x, v);
  }

  /** Whether replaying `cases` in order from `current` reproduces every recorded result. */
  predicate ReplaysFrom(current: int, cases: seq<Cas>)
    decreases |cases|
  {
    cases == [] ||
    (cases[0].result == (cases[0].valueFrom == current) &&
     ReplaysFrom(if cases[0].result then cases[0].valueTo else current, cases[1..]))
  }

  /** The register value after replaying `cases` from `current`. */
  function FinalValue(current: int, cases: seq<Cas>): int
    decreases |cases|
  {
    if cases == [] then current
    else FinalValue(if cases[0].result && cases[0].valueFrom == current then cases[0].valueTo else current, cases[1..])
  }

  /**
   * The degrees of a walk from `first` to `last` that uses every edge once: every value has as
   * many incoming as outgoing edges, except that `first` has one more outgoing and `last` one more
   * incoming (which cancel when the walk is closed).
   */
  ghost predicate EulerDegrees(cases: seq<Cas>, first: int, last: int)
  {
    forall v :: InDegree(cases, v) + (if v == first then 1 else 0) == OutDegree(cases, v) + (if v == last then 1 else 0)
  }

  /** The successful CASes of a consistent replay are such a walk, from the initial value to the final one. */
  lemma {:induction false} ReplayIsWalk(current: int, cases: seq<Cas>)
    requires ReplaysFrom(current, cases)
    ensures EulerDegrees(cases, current, FinalValue(current, cases))
    decreases |cases|
  {
    if cases != [] {
      var c := cases[0];
      var next := if c.result then c.valueTo else current;
      var last := FinalValue(current, cases);
      assert FinalValue(next, cases[1..]) == last;
      ReplayIsWalk(next, cases[1..]);
      assert cases == [c] + cases[1..];
      forall v
        ensures InDegree(cases, v) + (if v == current then 1 else 0) == OutDegree(cases, v) + (if v == last then 1 else 0)
      {
        DegreesAppend([c], cases[1..], v);
        assert [c][..0] == [];
        assert InDegree(cases[1..], v) + (if v == next then 1 else 0) == OutDegree(cases[1..], v) + (if v == last then 1 else 0);
      }
    }
  }
}

/**
 * The degree-balance checker (cas_checking/check.py): the successful CASes are the edges of a
 * multigraph on values, and the history is accepted when the degrees allow an Euler path that
 * starts at the initial value.
 */
module CasCheck {
  import opened Errors
  import opened CasHistory

  lemma DegreeStep(cases: seq<Cas>, i: nat)
    requires i < |cases|
    ensures forall v :: InDegree(cases[..i + 1], v) == InDegree(cases[..i], v) + if cases[i].result && cases[i].valueTo == v then 1 else 0
    ensures forall v :: OutDegree(cases[..i + 1], v) == OutDegree(cases[..i], v) + if cases[i].result && cases[i].valueFrom == v then 1 else 0
  {
    assert cases[..i + 1][..i] == cases[..i];
  }

  /** One more edge at `v`: a missing entry starts at zero, then the count goes up by one. */
  method Increment(deg: map<int, nat>, v: int) returns (r: map<int, nat>)
    ensures forall u :: u in r <==> u in deg || u == v
    ensures forall u :: u in r ==> r[u] == (if u in deg then deg[u] else 0) + (if u == v then 1 else 0)
  {
    r := deg;
    if v !in r {
      r := r[v := 0];
    }
    r := r[v := r[v] + 1];
  }

  /** `__build_graph`: in- and out-degree maps holding exactly the values that have such an edge. */
  method BuildDegrees(cases: seq<Cas>) returns (degIn: map<int, nat>, degOut: map<int, nat>)
    ensures forall v :: v in degIn <==> InDegree(cases, v) > 0
    ensures forall v :: v in degOut <==> OutDegree(cases, v) > 0
    ensures forall v :: v in degIn ==> degIn[v] == InDegree(cases, v)
    ensures forall v :: v in degOut ==> degOut[v] == OutDegree(cases, v)
  {
    degIn, degOut := map[], map[];
    for i := 0 to |cases|
      invariant forall v :: v in degIn <==> InDegree(cases[..i], v) > 0
      invariant forall v :: v in degOut <==> OutDegree(cases[..i], v) > 0
      invariant forall v :: v in degIn ==> degIn[v] == InDegree(cases[..i], v)
      invariant forall v :: v in degOut ==> degOut[v] == OutDegree(cases[..i], v)
    {
      DegreeStep(cases, i);
      var c := cases[i];
      if c.result {
        degIn := Increment(degIn, c.valueTo);
        degOut := Increment(degOut, c.valueFrom);
      }
    }
    assert cases[..|cases|] == cases;
  }

  /** Values with one more outgoing than incoming edge: candidate starts of an Euler path. */
  function Starts(cases: seq<Cas>): set<int>
  {
    set v | v in Vertices(cases) && InDegree(cases, v) + 1 == OutDegree(cases, v)
  }

  /** Values with one more incoming than outgoing edge: candidate ends of an Euler path. */
  function Finishes(cases: seq<Cas>): set<int>
  {
    set v | v in Vertices(cases) && InDegree(cases, v) == OutDegree(cases, v) + 1
  }

  /**
   * `check`: reject two starts or two finishes; accept when there is neither, or when the start
   * is the initial value and a finish, other than the initial value, exists.
   */
  function CheckSpec(cases: seq<Cas>, init: int): bool
  {
    var s, f := Starts(cases), Finishes(cases);
    if |s| >= 2 || |f| >= 2 then false
    else (s == {} && f == {}) || (s == {init} && f != {} && init !in f)
  }

  lemma TwoMembers(s: set<int>, a: int, b: int)
    requires a in s && b in s && a != b
    ensures |s| >= 2
  {
    var rest := s - {a, b};
    assert s == rest + {a, b};
    assert rest * {a, b} == {};
  }

  lemma NonEmptyHasMember(s: set<int>)
    requires s != {}
    ensures exists v :: v in s
  {
    if forall v :: v !in s {
      assert false;
    }
  }

  /** `check`: visit the vertices in any order, remembering the one start and the one finish. */
  method Check(cases: seq<Cas>, init: int) returns (r: bool)
    ensures r == CheckSpec(cases, init)
  {
    var degIn, degOut := BuildDegrees(cases);
    var start: Option<int> := None;
    var finish: Option<int> := None;
    var keys := degIn.Keys + degOut.Keys;
    var remaining := keys;
    while remaining != {}
      invariant remaining <= keys
      invariant start.Some? ==> start.value in Starts(cases) && start.value in keys - remaining
      invariant finish.Some? ==> finish.value in Finishes(cases) && finish.value in keys - remaining
      invariant forall u :: u in Starts(cases) && u in keys - remaining ==> start == Some(u)
      invariant forall u :: u in Finishes(cases) && u in keys - remaining ==> finish == Some(u)
      decreases remaining
    {
      NonEmptyHasMember(remaining);
      var v :| v in remaining;
      var degreeIn: int := if v in degIn then degIn[v] else 0;
      var degreeOut: int := if v in degOut then degOut[v] else 0;
      VertexIffDegree(cases, v);
      assert degreeIn == InDegree(cases, v) && degreeOut == OutDegree(cases, v) && v in Vertices(cases);
      if degreeIn == degreeOut {
      } else if degreeIn == degreeOut + 1 {
        if finish.Some? {
          TwoMembers(Finishes(cases), finish.value, v);
          return false;
        }
        finish := Some(v);
      } else if degreeIn == degreeOut - 1 {
        if start.Some? {
          TwoMembers(Starts(cases), start.value, v);
          return false;
        }
        start := Some(v);
      }
      remaining := remaining - {v};
    }
    StartsAndFinishesAreVertices(cases, keys, degIn, degOut);
    ScanFoundAll(cases, init, keys, start, finish);
    r := (start.None? && finish.None?) || (start == Some(init) && finish.Some? && finish.value != init);
  }

  /** Once every vertex is visited, the remembered start and finish are all there are. */
  lemma ScanFoundAll(cases: seq<Cas>, init: int, keys: set<int>, start: Option<int>, finish: Option<int>)
    requires Starts(cases) <= keys && Finishes(cases) <= keys
    requires start.Some? ==> start.value in Starts(cases)
    requires finish.Some? ==> finish.value in Finishes(cases)
    requires forall u :: u in Starts(cases) && u in keys ==> start == Some(u)
    requires forall u :: u in Finishes(cases) && u in keys ==> finish == Some(u)
    ensures CheckSpec(cases, init) == ((start.None? && finish.None?) || (start == Some(init) && finish.Some? && finish.value != init))
  {
    assert start.None? ==> Starts(cases) == {};
    assert start.Some? ==> Starts(cases) == {start.value};
    assert finish.None? ==> Finishes(cases) == {};
    assert finish.Some? ==> Finishes(cases) == {finish.value};
  }

  lemma StartsAndFinishesAreVertices(cases: seq<Cas>, keys: set<int>, degIn: map<int, nat>, degOut: map<int, nat>)
    requires keys == degIn.Keys + degOut.Keys
    requires forall v :: v in degIn <==> InDegree(cases, v) > 0
    requires forall v :: v in degOut <==> OutDegree(cases, v) > 0
    ensures Starts(cases) <= keys && Finishes(cases) <= keys
  {
    forall v | v in Starts(cases) + Finishes(cases) ensures v in keys {
      VertexIffDegree(cases, v);
    }
  }

  // ---------------------------------------------------------------------------
  // Properties of the checker
  // ---------------------------------------------------------------------------

  /** Histories with the same CAS graph get the same verdict. */
  lemma SameDegreesSameVerdict(a: seq<Cas>, b: seq<Cas>, init: int)
    requires forall v :: InDegree(a, v) == InDegree(b, v) && OutDegree(a, v) == OutDegree(b, v)
    ensures Vertices(a) == Vertices(b) && Starts(a) == Starts(b) && Finishes(a) == Finishes(b)
    ensures CheckSpec(a, init) == CheckSpec(b, init)
    ensures CorrectedCheckSpec(a, init) == CorrectedCheckSpec(b, init)
  {
    forall v ensures v in Vertices(a) <==> v in Vertices(b) {
      VertexIffDegree(a, v);
      VertexIffDegree(b, v);
    }
  }

  /** Failed CASes never affect the verdict, and neither does the order of the history. */
  lemma VerdictIgnoresFailuresAndOrder(a: seq<Cas>, b: seq<Cas>, init: int, failed: Cas)
    requires multiset(a) == multiset(b) && !failed.result
    ensures CheckSpec(a, init) == CheckSpec(b, init)
    ensures CheckSpec(a + [failed], init) == CheckSpec(a, init)
  {
    forall v ensures InDegree(a, v) == InDegree(b, v) && OutDegree(a, v) == OutDegree(b, v) {
      DegreesOfPermutation(a, b, v);
    }
    SameDegreesSameVerdict(a, b, init);
    assert (a + [failed])[..|a|] == a;
    SameDegreesSameVerdict(a + [failed], a, init);
  }

  /** Flattening per-thread histories in any thread order gives the same verdict. */
  lemma VerdictIgnoresThreadOrder(t1: seq<Cas>, t2: seq<Cas>, init: int)
    ensures CheckSpec(Flatten([t1, t2]), init) == CheckSpec(Flatten([t2, t1]), init)
  {
    FlattenPair(t1, t2);
    FlattenPair(t2, t1);
    assert multiset(t1 + t2) == multiset(t2 + t1);
    VerdictIgnoresFailuresAndOrder(t1 + t2, t2 + t1, init, Cas(0, 0, false));
  }

  // ---------------------------------------------------------------------------
  // Finding: values whose degrees differ by two or more are skipped
  // ---------------------------------------------------------------------------

  /** The check with the Euler condition completed: every other vertex must be balanced. */
  function CorrectedCheckSpec(cases: seq<Cas>, init: int): bool
  {
    CheckSpec(cases, init) &&
    forall v :: v in Vertices(cases) ==> v in Starts(cases) || v in Finishes(cases) || InDegree(cases, v) == OutDegree(cases, v)
  }

  /**
   * The corrected check accepts exactly the degree pattern of an Euler path from the initial
   * value: every value balanced except the initial value, with one more outgoing edge, and a
   * single last value, with one more incoming edge (or all balanced, for a closed walk).
   */
  lemma CorrectedCheckIsEulerCondition(cases: seq<Cas>, init: int)
    ensures CorrectedCheckSpec(cases, init) <==> exists last :: EulerDegrees(cases, init, last)
  {
    if CorrectedCheckSpec(cases, init) {
      if Starts(cases) == {} {
        forall v ensures InDegree(cases, v) + (if v == init then 1 else 0) == OutDegree(cases, v) + (if v == init then 1 else 0) {
          VertexIffDegree(cases, v);
          assert v !in Finishes(cases);
        }
        assert EulerDegrees(cases, init, init);
      } else {
        var last :| last in Finishes(cases);
        forall v ensures InDegree(cases, v) + (if v == init then 1 else 0) == OutDegree(cases, v) + (if v == last then 1 else 0) {
          VertexIffDegree(cases, v);
          if v in Finishes(cases) && v != last {
            TwoMembers(Finishes(cases), v, last);
          }
        }
        assert EulerDegrees(cases, init, last);
      }
    }
    if last :| EulerDegrees(cases, init, last) {
      EulerDegreesAccepted(cases, init, last);
    }
  }

  lemma EulerDegreesAccepted(cases: seq<Cas>, init: int, last: int)
    requires EulerDegrees(cases, init, last)
    ensures CorrectedCheckSpec(cases, init)
  {
    assert InDegree(cases, init) + 1 == OutDegree(cases, init) + (if init == last then 1 else 0);
    assert InDegree(cases, last) + (if last == init then 1 else 0) == OutDegree(cases, last) + 1;
    if init == last {
      assert Starts(cases) == {} && Finishes(cases) == {};
    } else {
      VertexIffDegree(cases, init);
      VertexIffDegree(cases, last);
      assert Starts(cases) == {init};
      assert Finishes(cases) == {last};
    }
  }

  /**
   * Every history that some order replays consistently from the initial value is accepted, by the
   * check as written and by the corrected one: its successful CASes form a walk from the initial
   * value that uses each of them once.
   */
  lemma ConsistentHistoryAccepted(history: seq<Cas>, order: seq<Cas>, init: int)
    requires multiset(order) == multiset(history) && ReplaysFrom(init, order)
    ensures CheckSpec(history, init) && CorrectedCheckSpec(history, init)
  {
    ReplayIsWalk(init, order);
    var last := FinalValue(init, order);
    forall v ensures InDegree(history, v) + (if v == init then 1 else 0) == OutDegree(history, v) + (if v == last then 1 else 0) {
      DegreesOfPermutation(order, history, v);
    }
    EulerDegreesAccepted(history, init, last);
  }

  /** The recorded examples: an Euler cycle and an Euler path from 1 are accepted; the path is rejected from 2. */
  lemma RecordedExamples()
    ensures CheckSpec([Cas(1, 2, true), Cas(2, 3, true), Cas(3, 1, true)], 1)
    ensures CheckSpec(RecordedPath(), 1)
    ensures !CheckSpec(RecordedPath(), 2)
  {
    var cycle := [Cas(1, 2, true), Cas(2, 3, true), Cas(3, 1, true)];
    assert ReplaysFrom(1, cycle) by {
      assert cycle[1..] == [Cas(2, 3, true), Cas(3, 1, true)];
      assert cycle[1..][1..] == [Cas(3, 1, true)] && cycle[1..][1..][1..] == [];
    }
    ConsistentHistoryAccepted(cycle, cycle, 1);
    RecordedPathReplays();
    ConsistentHistoryAccepted(RecordedPath(), RecordedPath(), 1);
    RecordedPathStartsAtOne();
  }

  /** The Euler path of the recorded examples. */
  function RecordedPath(): seq<Cas>
  {
    [Cas(1, 2, true), Cas(2, 4, true), Cas(4, 3, true), Cas(3, 2, true), Cas(2, 1, true), Cas(1, 2, true)]
  }

  lemma RecordedPathReplays()
    ensures ReplaysFrom(1, RecordedPath()) && FinalValue(1, RecordedPath()) == 2
  {
    var path := RecordedPath();
    var p1 := [Cas(2, 4, true), Cas(4, 3, true), Cas(3, 2, true), Cas(2, 1, true), Cas(1, 2, true)];
    var p2 := [Cas(4, 3, true), Cas(3, 2, true), Cas(2, 1, true), Cas(1, 2, true)];
    var p3 := [Cas(3, 2, true), Cas(2, 1, true), Cas(1, 2, true)];
    var p4 := [Cas(2, 1, true), Cas(1, 2, true)];
    assert path[1..] == p1 && p1[1..] == p2 && p2[1..] == p3 && p3[1..] == p4;
    assert p4[1..] == [Cas(1, 2, true)] && [Cas(1, 2, true)][1..] == [];
  }

  /** From 2, value 1 is a start other than the initial value, so the path is rejected. */
  lemma RecordedPathStartsAtOne()
    ensures 1 in Starts(RecordedPath())
  {
    var path := RecordedPath();
    RecordedPathReplays();
    ReplayIsWalk(1, path);
    assert InDegree(path, 1) + 1 == OutDegree(path, 1);
    assert path[0].result && path[0].valueFrom == 1;
    assert 1 in Vertices(path);
  }

  /** The same successful CAS recorded twice. */
  function RepeatedCas(): seq<Cas>
  {
    [Cas(1, 2, true), Cas(1, 2, true)]
  }

  /**
   * As written, the check accepts a history that no order replays: after the first CAS installs 2
   * the second cannot succeed, yet both are recorded as successful. Value 1 has two outgoing edges
   * and value 2 two incoming, so neither counts as a start or a finish.
   */
  lemma RepeatedCasAccepted()
    ensures CheckSpec(RepeatedCas(), 1)
    ensures forall order :: multiset(order) == multiset(RepeatedCas()) ==> !ReplaysFrom(1, order)
  {
    var h := RepeatedCas();
    RepeatedCasDegrees();
    assert Starts(h) == {} && Finishes(h) == {};
    forall order | multiset(order) == multiset(h) ensures !ReplaysFrom(1, order) {
      assert |order| == |multiset(h)| == 2;
      assert order[0] in multiset(h) && order[1] in multiset(h);
      assert order[1..] == [order[1]];
    }
  }

  lemma RepeatedCasDegrees()
    ensures Vertices(RepeatedCas()) == {1, 2}
    ensures forall v :: InDegree(RepeatedCas(), v) == (if v == 2 then 2 else 0)
    ensures forall v :: OutDegree(RepeatedCas(), v) == (if v == 1 then 2 else 0)
  {
    var h := RepeatedCas();
    assert h[..1] == [Cas(1, 2, true)];
    assert h[..1][..0] == [];
    forall v ensures InDegree(h, v) == (if v == 2 then 2 else 0) && OutDegree(h, v) == (if v == 1 then 2 else 0) {
      assert InDegree(h[..1], v) == (if v == 2 then 1 else 0);
      assert OutDegree(h[..1], v) == (if v == 1 then 1 else 0);
    }
    assert h[0].valueFrom == 1 && h[0].valueTo == 2;
  }

  /** The corrected check rejects the repeated CAS: value 1 is neither balanced, a start nor a finish. */
  lemma CorrectedRejectsRepeatedCas()
    ensures !CorrectedCheckSpec(RepeatedCas(), 1)
  {
    RepeatedCasDegrees();
    assert 1 in Vertices(RepeatedCas()) && 1 !in Starts(RepeatedCas()) && 1 !in Finishes(RepeatedCas());
  }
}
