/**
 * The chain checker (cas_checking/check_restricted.py). It serves histories in which no value is
 * installed twice and the initial value is never reinstalled, so the successful CASes must form a
 * single chain from the initial value. The checker walks that chain, numbers its edges, and
 * accepts when the chain uses every successful CAS and each thread's successful CASes occur on it
 * in program order.
 */
module CasCheckRestricted {
  import opened Errors
  import opened CasHistory
  import CasCheck

  /** Why `check` raises instead of answering. */
  datatype Failure =
    | SelfLoop          // a CAS whose expected and installed values agree
    | InstallsInit      // a CAS that installs the initial value
    | DuplicateValueTo  // two CASes that install the same value
    | NotAPair          // the traversal's `False` unpacked as a pair
    | MissingEdge       // an edge lookup that misses the chain index

  datatype Verdict = Accept | Reject | Raised(failure: Failure)

  // ---------------------------------------------------------------------------
  // Validation and the successor graph (`__build_graph`)
  // ---------------------------------------------------------------------------

  function ValuesTo(cases: seq<Cas>): set<int>
  {
    set i | 0 <= i < |cases| :: cases[i].valueTo
  }

  /** The exception the scan over `cases` raises first, if any. */
  function ValidationError(cases: seq<Cas>, init: int): (r: Option<Failure>)
    ensures r.None? || r.value in {SelfLoop, InstallsInit, DuplicateValueTo}
    decreases |cases|
  {
    if cases == [] then None
    else
      var front, c := cases[..|cases| - 1], cases[|cases| - 1];
      if ValidationError(front, init).Some? then ValidationError(front, init)
      else if c.valueFrom == c.valueTo then Some(SelfLoop)
      else if c.valueTo == init then Some(InstallsInit)
      else if c.valueTo in ValuesTo(front) then Some(DuplicateValueTo)
      else None
  }

  /** No CAS, successful or not, is a self-loop or installs the initial value, and no value is installed twice. */
  ghost predicate WellFormed(cases: seq<Cas>, init: int)
  {
    (forall i :: 0 <= i < |cases| ==> cases[i].valueFrom != cases[i].valueTo && cases[i].valueTo != init) &&
    (forall i, j :: 0 <= i < j < |cases| ==> cases[i].valueTo != cases[j].valueTo)
  }

  lemma {:induction false} ValidationErrorMeans(cases: seq<Cas>, init: int)
    ensures ValidationError(cases, init).None? <==> WellFormed(cases, init)
    decreases |cases|
  {
    if cases != [] {
      var n := |cases|;
      var front, c := cases[..n - 1], cases[n - 1];
      ValidationErrorMeans(front, init);
      if WellFormed(cases, init) {
        assert WellFormed(front, init) by {
          forall i | 0 <= i < n - 1 ensures front[i] == cases[i] { }
        }
        forall i | 0 <= i < n - 1 ensures front[i].valueTo != c.valueTo {
          assert cases[i].valueTo != cases[n - 1].valueTo;
        }
      }
      if ValidationError(cases, init).None? {
        assert WellFormed(front, init);
        forall i, j | 0 <= i < j < n ensures cases[i].valueTo != cases[j].valueTo {
          if j < n - 1 {
            assert front[i] == cases[i] && front[j] == cases[j];
          } else {
            assert front[i].valueTo in ValuesTo(front);
          }
        }
        forall i | 0 <= i < n ensures cases[i].valueFrom != cases[i].valueTo && cases[i].valueTo != init {
          if i < n - 1 {
            assert front[i] == cases[i];
          }
        }
      }
    }
  }

  /** The scan stops at the first violation: a violation in a prefix decides the whole history. */
  lemma {:induction false} ValidationErrorOfPrefix(cases: seq<Cas>, init: int, i: nat)
    requires i <= |cases| && ValidationError(cases[..i], init).Some?
    ensures ValidationError(cases, init) == ValidationError(cases[..i], init)
    decreases |cases|
  {
    if i == |cases| {
      assert cases[..i] == cases;
    } else {
      var front := cases[..|cases| - 1];
      assert front[..i] == cases[..i];
      ValidationErrorOfPrefix(front, init, i);
    }
  }

  function Successors(g: map<int, seq<int>>, v: int): seq<int>
  {
    if v in g then g[v] else []
  }

  /** Each value mapped to the values installed by the successful CASes that expected it, in history order. */
  function Graph(cases: seq<Cas>): map<int, seq<int>>
  {
    if cases == [] then map[]
    else
      var g, c := Graph(cases[..|cases| - 1]), cases[|cases| - 1];
      if !c.result then g
      else g[c.valueFrom := Successors(g, c.valueFrom) + [c.valueTo]]
  }

  /** The graph holds exactly the successful CASes, with the out-degrees the degree checker counts. */
  lemma {:induction false} GraphEdges(cases: seq<Cas>, v: int)
    ensures forall u :: u in Successors(Graph(cases), v) <==> Cas(v, u, true) in cases
    ensures |Successors(Graph(cases), v)| == OutDegree(cases, v)
    ensures v in Graph(cases) ==> |Graph(cases)[v]| > 0
    decreases |cases|
  {
    if cases != [] {
      var front, c := cases[..|cases| - 1], cases[|cases| - 1];
      GraphEdges(front, v);
      assert cases == front + [c];
      forall u ensures u in Successors(Graph(cases), v) <==> Cas(v, u, true) in cases {
        assert Cas(v, u, true) in cases <==> Cas(v, u, true) in front || Cas(v, u, true) == c;
      }
    }
  }

  /** Every value some successful CAS installed. */
  function Targets(g: map<int, seq<int>>): set<int>
  {
    set v, k | v in g && 0 <= k < |g[v]| :: g[v][k]
  }

  /**
   * The shape validation guarantees: no self-loops, the initial value is never a target, and
   * every target has exactly one incoming edge.
   */
  ghost predicate ChainShaped(g: map<int, seq<int>>, init: int)
  {
    (forall v, k :: v in g && 0 <= k < |g[v]| ==> g[v][k] != v && g[v][k] != init) &&
    (forall v, w, k, l :: v in g && w in g && 0 <= k < |g[v]| && 0 <= l < |g[w]| && g[v][k] == g[w][l] ==> v == w && k == l)
  }

  lemma {:induction false} WellFormedGraphIsChainShaped(cases: seq<Cas>, init: int)
    requires WellFormed(cases, init)
    ensures ChainShaped(Graph(cases), init)
    ensures Targets(Graph(cases)) <= ValuesTo(cases)
    decreases |cases|
  {
    if cases != [] {
      var n := |cases|;
      var front, c := cases[..n - 1], cases[n - 1];
      assert WellFormed(front, init) by {
        forall i | 0 <= i < n - 1 ensures front[i] == cases[i] { }
      }
      WellFormedGraphIsChainShaped(front, init);
      assert ValuesTo(front) <= ValuesTo(cases) by {
        forall x | x in ValuesTo(front) ensures x in ValuesTo(cases) {
          var i :| 0 <= i < n - 1 && front[i].valueTo == x;
          assert cases[i].valueTo == x;
        }
      }
      assert c.valueTo in ValuesTo(cases);
      if c.result {
        var g := Graph(front);
        assert c.valueTo !in Targets(g) by {
          forall i | 0 <= i < n - 1 ensures front[i].valueTo != c.valueTo {
            assert cases[i].valueTo != cases[n - 1].valueTo;
          }
        }
        GrowChainShaped(g, init, c.valueFrom, c.valueTo);
      }
    }
  }

  /** Appending an edge to a fresh target keeps the graph chain-shaped and adds only that target. */
  lemma GrowChainShaped(g: map<int, seq<int>>, init: int, from: int, to: int)
    requires ChainShaped(g, init) && to !in Targets(g) && to != from && to != init
    ensures ChainShaped(g[from := Successors(g, from) + [to]], init)
    ensures Targets(g[from := Successors(g, from) + [to]]) == Targets(g) + {to}
  {
    var g' := g[from := Successors(g, from) + [to]];
    forall v, k | v in g' && 0 <= k < |g'[v]| ensures g'[v][k] == to || (v in g && k < |g[v]| && g'[v][k] == g[v][k]) {
    }
    forall v, w, k, l | v in g' && w in g' && 0 <= k < |g'[v]| && 0 <= l < |g'[w]| && g'[v][k] == g'[w][l]
      ensures v == w && k == l
    {
      OldOrNew(g, from, to, v, k);
      OldOrNew(g, from, to, w, l);
    }
    assert g'[from][|Successors(g, from)|] == to;
    forall x | x in Targets(g) ensures x in Targets(g') {
      var v, k :| v in g && 0 <= k < |g[v]| && g[v][k] == x;
      assert g'[v][k] == x;
    }
  }

  /** An entry of the grown graph is the appended edge or an entry the graph already had. */
  lemma OldOrNew(g: map<int, seq<int>>, from: int, to: int, v: int, k: int)
    requires v in g[from := Successors(g, from) + [to]] && 0 <= k < |g[from := Successors(g, from) + [to]][v]|
    ensures var g' := g[from := Successors(g, from) + [to]];
      (v == from && k == |Successors(g, from)| && g'[v][k] == to) ||
      (v in g && k < |g[v]| && g'[v][k] == g[v][k] && g[v][k] in Targets(g))
  {
  }

  // ---------------------------------------------------------------------------
  // The walk along the chain (`__traverse_graph`)
  // ---------------------------------------------------------------------------

  /**
   * The walk from `cur`: stop at a value without successors, fail at a value with two, and
   * otherwise follow the single successor. `avail` holds the targets not yet visited; it only
   * bounds the recursion, since a walk over a chain-shaped graph never meets a visited target.
   */
  datatype Walk = Ended(path: seq<int>) | Branches | Revisits

  function WalkFrom(g: map<int, seq<int>>, cur: int, avail: set<int>): Walk
    decreases avail
  {
    if cur !in g || |g[cur]| == 0 then Ended([cur])
    else if |g[cur]| > 1 then Branches
    else if g[cur][0] !in avail then Revisits
    else
      match WalkFrom(g, g[cur][0], avail - {g[cur][0]})
      case Ended(rest) => Ended([cur] + rest)
      case other => other
  }

  /** The walk so far, `prefix`, in front of the rest of the walk. */
  function Extend(prefix: seq<int>, w: Walk): Walk
  {
    match w
    case Ended(rest) => Ended(prefix + rest)
    case other => other
  }

  /** Bookkeeping that keeps the walk off visited targets (needs uniqueness of incoming edges). */
  ghost predicate Fresh(g: map<int, seq<int>>, init: int, cur: int, avail: set<int>)
  {
    avail <= Targets(g) && cur !in avail && (cur == init || cur in Targets(g)) &&
    (forall k :: cur in g && 0 <= k < |g[cur]| ==> g[cur][k] in avail) &&
    (forall v, k :: v in g && 0 <= k < |g[v]| && g[v][k] !in avail ==> v == init || (v in Targets(g) && v !in avail))
  }

  lemma FreshAtStart(g: map<int, seq<int>>, init: int)
    requires ChainShaped(g, init)
    ensures Fresh(g, init, init, Targets(g))
  {
    forall k | init in g && 0 <= k < |g[init]| ensures g[init][k] in Targets(g) { }
    assert init !in Targets(g);
  }

  lemma FreshStep(g: map<int, seq<int>>, init: int, cur: int, avail: set<int>)
    requires ChainShaped(g, init) && Fresh(g, init, cur, avail)
    requires cur in g && |g[cur]| == 1
    ensures g[cur][0] in avail && Fresh(g, init, g[cur][0], avail - {g[cur][0]})
  {
    var next := g[cur][0];
    var avail' := avail - {next};
    assert next in Targets(g);
    forall k | next in g && 0 <= k < |g[next]| ensures g[next][k] in avail' {
      assert g[next][k] != next;
    }
    forall v, k | v in g && 0 <= k < |g[v]| && g[v][k] !in avail'
      ensures v == init || (v in Targets(g) && v !in avail')
    {
      if g[v][k] == next {
        assert v == cur;
      }
    }
  }

  /** On a chain-shaped graph the walk from the initial value never meets a visited target. */
  lemma {:induction false} WalkNeverRevisits(g: map<int, seq<int>>, init: int, cur: int, avail: set<int>)
    requires ChainShaped(g, init) && Fresh(g, init, cur, avail)
    ensures !WalkFrom(g, cur, avail).Revisits?
    decreases avail
  {
    if cur in g && |g[cur]| == 1 {
      FreshStep(g, init, cur, avail);
      WalkNeverRevisits(g, init, g[cur][0], avail - {g[cur][0]});
    }
  }

  ghost predicate Distinct<T>(s: seq<T>)
  {
    forall i, j :: 0 <= i < j < |s| ==> s[i] != s[j]
  }

  /** A path in which each value's only successor is the next one, ending at a value without successors. */
  ghost predicate IsChain(g: map<int, seq<int>>, p: seq<int>)
  {
    |p| > 0 &&
    (forall k :: 0 <= k < |p| - 1 ==> p[k] in g && g[p[k]] == [p[k + 1]]) &&
    (p[|p| - 1] !in g || |g[p[|p| - 1]]| == 0)
  }

  /** A finished walk is a chain of distinct values that starts at `cur` and visits only available targets after it. */
  lemma {:induction false} WalkIsChain(g: map<int, seq<int>>, cur: int, avail: set<int>)
    requires WalkFrom(g, cur, avail).Ended? && cur !in avail
    ensures var p := WalkFrom(g, cur, avail).path;
      IsChain(g, p) && p[0] == cur && Distinct(p) && (forall k :: 1 <= k < |p| ==> p[k] in avail)
    decreases avail
  {
    if cur in g && |g[cur]| > 0 {
      var next := g[cur][0];
      WalkIsChain(g, next, avail - {next});
      var rest := WalkFrom(g, next, avail - {next}).path;
      var p := [cur] + rest;
      assert WalkFrom(g, cur, avail).path == p;
      assert IsChain(g, p) by {
        assert g[cur] == [next];
        forall k | 0 <= k < |p| - 1 ensures p[k] in g && g[p[k]] == [p[k + 1]] {
          if k > 0 {
            assert p[k] == rest[k - 1] && p[k + 1] == rest[k];
          }
        }
      }
      assert Distinct(p) by {
        forall i, j | 0 <= i < j < |p| ensures p[i] != p[j] {
          if i > 0 {
            assert p[i] == rest[i - 1] && p[j] == rest[j - 1];
          } else {
            assert p[j] == rest[j - 1];
            assert p[j] in avail;
          }
        }
      }
    }
  }

  /** Each chain edge mapped to its position, as the traversal records it. */
  function EdgeIndex(p: seq<int>): map<(int, int), nat>
  {
    if |p| < 2 then map[]
    else EdgeIndex(p[..|p| - 1])[(p[|p| - 2], p[|p| - 1]) := |p| - 2]
  }

  /** The index records only chain edges, each at its position. */
  lemma {:induction false} EdgeIndexSound(p: seq<int>)
    ensures forall e :: e in EdgeIndex(p) ==>
      EdgeIndex(p)[e] < |p| - 1 && p[EdgeIndex(p)[e]] == e.0 && p[EdgeIndex(p)[e] + 1] == e.1
    decreases |p|
  {
    if |p| >= 2 {
      var front := p[..|p| - 1];
      EdgeIndexSound(front);
      forall e | e in EdgeIndex(p)
        ensures EdgeIndex(p)[e] < |p| - 1 && p[EdgeIndex(p)[e]] == e.0 && p[EdgeIndex(p)[e] + 1] == e.1
      {
        if e != (p[|p| - 2], p[|p| - 1]) {
          var m := EdgeIndex(front)[e];
          assert front[m] == p[m] && front[m + 1] == p[m + 1];
        }
      }
    }
  }

  /** On a path of distinct values the index records every edge of the path. */
  lemma {:induction false} EdgeIndexComplete(p: seq<int>)
    requires Distinct(p)
    ensures forall k :: 0 <= k < |p| - 1 ==> (p[k], p[k + 1]) in EdgeIndex(p) && EdgeIndex(p)[(p[k], p[k + 1])] == k
    decreases |p|
  {
    if |p| >= 2 {
      var front := p[..|p| - 1];
      assert Distinct(front);
      EdgeIndexComplete(front);
      forall k | 0 <= k < |p| - 1 ensures (p[k], p[k + 1]) in EdgeIndex(p) && EdgeIndex(p)[(p[k], p[k + 1])] == k {
        if k < |p| - 2 {
          assert p[k] != p[|p| - 2];
          assert front[k] == p[k] && front[k + 1] == p[k + 1];
        }
      }
    }
  }

  lemma ExtendStep(prefix: seq<int>, cur: int, w: Walk)
    ensures Extend(prefix, match w case Ended(rest) => Ended([cur] + rest) case other => other) == Extend(prefix + [cur], w)
  {
    if w.Ended? {
      assert prefix + ([cur] + w.path) == prefix + [cur] + w.path;
    }
  }

  /** One step of the traversal: the walk so far grows by the single successor, which gets the next edge number. */
  lemma TraverseStep(g: map<int, seq<int>>, init: int, cur: int, avail: set<int>, path: seq<int>)
    requires ChainShaped(g, init) && Fresh(g, init, cur, avail)
    requires |path| > 0 && path[|path| - 1] == cur && cur in g && |g[cur]| == 1
    requires WalkFrom(g, init, Targets(g)) == Extend(path[..|path| - 1], WalkFrom(g, cur, avail))
    ensures g[cur][0] in avail && Fresh(g, init, g[cur][0], avail - {g[cur][0]})
    ensures EdgeIndex(path + [g[cur][0]]) == EdgeIndex(path)[(cur, g[cur][0]) := |path| - 1]
    ensures WalkFrom(g, init, Targets(g)) == Extend(path, WalkFrom(g, g[cur][0], avail - {g[cur][0]}))
  {
    var next := g[cur][0];
    FreshStep(g, init, cur, avail);
    ExtendStep(path[..|path| - 1], cur, WalkFrom(g, next, avail - {next}));
    assert path[..|path| - 1] + [cur] == path;
    assert (path + [next])[..|path|] == path;
  }

  /** Where the traversal stops at a value without successors, the walk is the path so far. */
  lemma TraverseDone(g: map<int, seq<int>>, init: int, cur: int, avail: set<int>, path: seq<int>)
    requires |path| > 0 && path[|path| - 1] == cur && !(cur in g && |g[cur]| > 0)
    requires WalkFrom(g, init, Targets(g)) == Extend(path[..|path| - 1], WalkFrom(g, cur, avail))
    ensures WalkFrom(g, init, Targets(g)) == Ended(path)
  {
    assert path[..|path| - 1] + [cur] == path;
  }

  /** Where the traversal meets a value with two successors, the walk fails. */
  lemma TraverseBranches(g: map<int, seq<int>>, init: int, cur: int, avail: set<int>, prefix: seq<int>)
    requires cur in g && |g[cur]| > 1
    requires WalkFrom(g, init, Targets(g)) == Extend(prefix, WalkFrom(g, cur, avail))
    ensures !WalkFrom(g, init, Targets(g)).Ended?
  {
  }

  /** `__traverse_graph`: follow single successors from the initial value, numbering the edges. */
  method Traverse(g: map<int, seq<int>>, init: int) returns (r: Option<(map<(int, int), nat>, nat)>)
    requires ChainShaped(g, init)
    ensures WalkFrom(g, init, Targets(g)).Ended? ==>
      r == Some((EdgeIndex(WalkFrom(g, init, Targets(g)).path), |WalkFrom(g, init, Targets(g)).path| - 1))
    ensures !WalkFrom(g, init, Targets(g)).Ended? ==> r.None?
  {
    var traversed: nat := 0;
    var index: map<(int, int), nat> := map[];
    var cur := init;
    ghost var avail := Targets(g);
    ghost var path := [init];
    FreshAtStart(g, init);
    while cur in g && |g[cur]| > 0
      invariant Fresh(g, init, cur, avail)
      invariant |path| == traversed + 1 && path[traversed] == cur
      invariant index == EdgeIndex(path)
      invariant WalkFrom(g, init, Targets(g)) == Extend(path[..|path| - 1], WalkFrom(g, cur, avail))
      decreases avail
    {
      if |g[cur]| > 1 {
        TraverseBranches(g, init, cur, avail, path[..|path| - 1]);
        return None;
      }
      var next := g[cur][0];
      TraverseStep(g, init, cur, avail, path);
      index := index[(cur, next) := traversed];
      path := path + [next];
      cur := next;
      avail := avail - {next};
      traversed := traversed + 1;
    }
    TraverseDone(g, init, cur, avail, path);
    r := Some((index, traversed));
  }

  /** `__build_graph`: validate every CAS, then collect the successful ones as edges. */
  method BuildGraph(all: seq<Cas>, init: int) returns (err: Option<Failure>, g: map<int, seq<int>>, total: nat)
    ensures err == ValidationError(all, init)
    ensures err.None? ==> g == Graph(all) && total == SuccessCount(all)
  {
    g, total := map[], 0;
    var seen: set<int> := {};
    for i := 0 to |all|
      invariant ValidationError(all[..i], init).None?
      invariant seen == ValuesTo(all[..i]) && g == Graph(all[..i]) && total == SuccessCount(all[..i])
    {
      var c := all[i];
      assert all[..i + 1][..i] == all[..i] && all[..i + 1][i] == c;
      if c.valueFrom == c.valueTo {
        ValidationErrorOfPrefix(all, init, i + 1);
        return Some(SelfLoop), g, total;
      }
      if c.valueTo == init {
        ValidationErrorOfPrefix(all, init, i + 1);
        return Some(InstallsInit), g, total;
      }
      if c.valueTo in seen {
        ValidationErrorOfPrefix(all, init, i + 1);
        return Some(DuplicateValueTo), g, total;
      }
      assert ValuesTo(all[..i + 1]) == seen + {c.valueTo} by {
        forall x | x in ValuesTo(all[..i + 1]) ensures x in seen + {c.valueTo} {
          var j :| 0 <= j < i + 1 && all[..i + 1][j].valueTo == x;
          if j < i {
            assert all[..i][j].valueTo == x;
          }
        }
        forall x | x in seen ensures x in ValuesTo(all[..i + 1]) {
          var j :| 0 <= j < i && all[..i][j].valueTo == x;
          assert all[..i + 1][j].valueTo == x;
        }
        assert all[..i + 1][i].valueTo == c.valueTo;
      }
      seen := seen + {c.valueTo};
      if c.result {
        total := total + 1;
        if c.valueFrom !in g {
          g := g[c.valueFrom := []];
        }
        g := g[c.valueFrom := g[c.valueFrom] + [c.valueTo]];
      }
    }
    assert all[..|all|] == all;
    err := None;
  }

  // ---------------------------------------------------------------------------
  // The verdict (`check`)
  // ---------------------------------------------------------------------------

  /** The successful CASes of a history, in order. */
  function Successful(cases: seq<Cas>): seq<Cas>
  {
    if cases == [] then []
    else Successful(cases[..|cases| - 1]) + if cases[|cases| - 1].result then [cases[|cases| - 1]] else []
  }

  /** The edge a CAS stands for. */
  function Key(c: Cas): (int, int)
  {
    (c.valueFrom, c.valueTo)
  }

  /** The per-thread scan over consecutive successful CASes: each must sit later on the chain than the one before. */
  function PairsVerdict(s: seq<Cas>, index: map<(int, int), nat>): Verdict
    decreases |s|
  {
    if |s| < 2 then Accept
    else if Key(s[0]) !in index || Key(s[1]) !in index then Raised(MissingEdge)
    else if index[Key(s[0])] >= index[Key(s[1])] then Reject
    else PairsVerdict(s[1..], index)
  }

  function ThreadsVerdict(threads: seq<seq<Cas>>, index: map<(int, int), nat>): Verdict
    decreases |threads|
  {
    if threads == [] then Accept
    else
      match PairsVerdict(Successful(threads[0]), index)
      case Accept => ThreadsVerdict(threads[1..], index)
      case other => other
  }

  predicate ExpectsValue(cases: seq<Cas>, v: int)
  {
    exists i :: 0 <= i < |cases| && cases[i].valueFrom == v
  }

  /** What `check` answers for the per-thread histories `threads` and initial value `init`. */
  function RestrictedSpec(threads: seq<seq<Cas>>, init: int): Verdict
  {
    var all := Flatten(threads);
    var err := ValidationError(all, init);
    if err.Some? then Raised(err.value)
    else
      var g := Graph(all);
      if init !in g then
        if SuccessCount(all) == 0 && !ExpectsValue(all, init) then Accept else Reject
      else
        match WalkFrom(g, init, Targets(g))
        case Ended(p) => if |p| - 1 != SuccessCount(all) then Reject else ThreadsVerdict(threads, EdgeIndex(p))
        case _ => Raised(NotAPair)
  }

  /** `check`. */
  method Check(threads: seq<seq<Cas>>, init: int) returns (r: Verdict)
    ensures r == RestrictedSpec(threads, init)
  {
    var all := Flatten(threads);
    var err, g, total := BuildGraph(all, init);
    if err.Some? {
      return Raised(err.value);
    }
    ValidationErrorMeans(all, init);
    WellFormedGraphIsChainShaped(all, init);
    if init !in g {
      if total == 0 {
        for i := 0 to |all|
          invariant forall j :: 0 <= j < i ==> all[j].valueFrom != init
        {
          if all[i].valueFrom == init {
            return Reject;
          }
        }
        return Accept;
      }
      return Reject;
    }
    var walked := Traverse(g, init);
    if walked.None? {
      return Raised(NotAPair);
    }
    var index, traversed := walked.value.0, walked.value.1;
    if traversed != total {
      return Reject;
    }
    for t := 0 to |threads|
      invariant ThreadsVerdict(threads, index) == ThreadsVerdict(threads[t..], index)
    {
      var onlyTrue := Successful(threads[t]);
      var i := 0;
      while i + 1 < |onlyTrue|
        invariant i <= |onlyTrue|
        invariant PairsVerdict(onlyTrue, index) == PairsVerdict(onlyTrue[i..], index)
      {
        var curCas, nextCas := onlyTrue[i], onlyTrue[i + 1];
        var curKey, nextKey := Key(curCas), Key(nextCas);
        if curKey !in index || nextKey !in index {
          return Raised(MissingEdge);
        }
        if index[curKey] >= index[nextKey] {
          return Reject;
        }
        assert onlyTrue[i..][1..] == onlyTrue[i + 1..];
        i := i + 1;
      }
      assert threads[t..][1..] == threads[t + 1..];
    }
    return Accept;
  }

  // ---------------------------------------------------------------------------
  // Successful CASes and chains as CAS sequences
  // ---------------------------------------------------------------------------

  lemma {:induction false} SuccessfulMeans(s: seq<Cas>)
    ensures forall c :: c in Successful(s) <==> c in s && c.result
    ensures |Successful(s)| == SuccessCount(s)
    ensures Distinct(s) ==> Distinct(Successful(s))
    decreases |s|
  {
    if s != [] {
      var front, c := s[..|s| - 1], s[|s| - 1];
      SuccessfulMeans(front);
      assert s == front + [c];
      if Distinct(s) {
        assert Distinct(front);
        assert c !in front;
      }
    }
  }

  /** Dropping the failed CASes changes no degree. */
  lemma {:induction false} SuccessfulKeepsDegrees(s: seq<Cas>, v: int)
    ensures InDegree(Successful(s), v) == InDegree(s, v) && OutDegree(Successful(s), v) == OutDegree(s, v)
    decreases |s|
  {
    if s != [] {
      var front, c := s[..|s| - 1], s[|s| - 1];
      SuccessfulKeepsDegrees(front, v);
      DegreesAppend(Successful(front), if c.result then [c] else [], v);
      assert [c][..0] == [];
    }
  }

  lemma {:induction false} SuccessCountZero(s: seq<Cas>)
    ensures SuccessCount(s) == 0 <==> forall c :: c in s ==> !c.result
    decreases |s|
  {
    if s != [] {
      var front, c := s[..|s| - 1], s[|s| - 1];
      SuccessCountZero(front);
      assert s == front + [c];
    }
  }

  /** A well-formed history installs each value once, so its CASes are all different. */
  lemma WellFormedIsDistinct(cases: seq<Cas>, init: int)
    requires WellFormed(cases, init)
    ensures Distinct(cases)
  {
  }

  /** The CASes that walk the register along the chain `p`. */
  function ChainOrder(p: seq<int>): seq<Cas>
    decreases |p|
  {
    if |p| < 2 then [] else [Cas(p[0], p[1], true)] + ChainOrder(p[1..])
  }

  lemma {:induction false} ChainOrderMeans(p: seq<int>)
    requires |p| > 0
    ensures |ChainOrder(p)| == |p| - 1
    ensures forall k :: 0 <= k < |p| - 1 ==> ChainOrder(p)[k] == Cas(p[k], p[k + 1], true)
    ensures ReplaysFrom(p[0], ChainOrder(p))
    decreases |p|
  {
    if |p| >= 2 {
      ChainOrderMeans(p[1..]);
      forall k | 0 < k < |p| - 1 ensures ChainOrder(p)[k] == Cas(p[k], p[k + 1], true) {
        assert ChainOrder(p)[k] == ChainOrder(p[1..])[k - 1];
      }
      assert ChainOrder(p)[1..] == ChainOrder(p[1..]);
    }
  }

  function ElementSet<T>(s: seq<T>): set<T>
  {
    set x | x in s
  }

  lemma {:induction false} DistinctCard<T>(s: seq<T>)
    requires Distinct(s)
    ensures |ElementSet(s)| == |s|
    decreases |s|
  {
    if s != [] {
      var front, x := s[..|s| - 1], s[|s| - 1];
      assert Distinct(front);
      DistinctCard(front);
      assert s == front + [x];
      assert ElementSet(s) == ElementSet(front) + {x};
      assert x !in ElementSet(front);
    }
  }

  lemma {:induction false} DistinctCount<T>(s: seq<T>, x: T)
    requires Distinct(s)
    ensures multiset(s)[x] == if x in s then 1 else 0
    decreases |s|
  {
    if s != [] {
      var front, y := s[..|s| - 1], s[|s| - 1];
      assert Distinct(front);
      DistinctCount(front, x);
      assert s == front + [y];
      assert y !in front;
    }
  }

  lemma SubsetSameCard<T>(a: set<T>, b: set<T>)
    requires a <= b && |a| == |b|
    ensures a == b
  {
    assert b == a + (b - a);
    assert a * (b - a) == {};
    assert |b - a| == 0;
  }

  lemma DistinctSameElements<T>(a: seq<T>, b: seq<T>)
    requires Distinct(a) && Distinct(b) && ElementSet(a) == ElementSet(b)
    ensures multiset(a) == multiset(b)
  {
    forall x ensures multiset(a)[x] == multiset(b)[x] {
      DistinctCount(a, x);
      DistinctCount(b, x);
      assert x in a <==> x in ElementSet(a);
      assert x in b <==> x in ElementSet(b);
    }
  }

  lemma ChainOrderDistinct(p: seq<int>)
    requires |p| > 0 && Distinct(p)
    ensures Distinct(ChainOrder(p))
  {
    ChainOrderMeans(p);
    var order := ChainOrder(p);
    forall i, j | 0 <= i < j < |order| ensures order[i] != order[j] {
      assert i < |p| - 1 && j < |p| - 1;
      assert ChainOrder(p)[i] == Cas(p[i], p[i + 1], true);
      assert ChainOrder(p)[j] == Cas(p[j], p[j + 1], true);
      assert p[i] != p[j];
    }
  }

  /** The edges of a chain of the graph are successful CASes of the history. */
  lemma ChainEdgesInHistory(all: seq<Cas>, p: seq<int>)
    requires IsChain(Graph(all), p)
    ensures ElementSet(ChainOrder(p)) <= ElementSet(Successful(all))
  {
    ChainOrderMeans(p);
    SuccessfulMeans(all);
    var order := ChainOrder(p);
    forall k | 0 <= k < |order| ensures order[k] in Successful(all) {
      GraphEdges(all, p[k]);
      assert p[k + 1] in Successors(Graph(all), p[k]);
    }
  }

  /** The edges of the walk from the initial value are successful CASes, all different. */
  lemma ChainEdgesAreSuccesses(all: seq<Cas>, init: int, p: seq<int>)
    requires WellFormed(all, init)
    requires WalkFrom(Graph(all), init, Targets(Graph(all))) == Ended(p)
    ensures Distinct(p) && p[0] == init && |ChainOrder(p)| == |p| - 1
    ensures Distinct(ChainOrder(p))
    ensures ElementSet(ChainOrder(p)) <= ElementSet(Successful(all))
  {
    var g := Graph(all);
    WellFormedGraphIsChainShaped(all, init);
    assert init !in Targets(g);
    WalkIsChain(g, init, Targets(g));
    ChainOrderMeans(p);
    ChainOrderDistinct(p);
    ChainEdgesInHistory(all, p);
  }

  /**
   * When the walk from the initial value is as long as the number of successful CASes, its edges
   * are exactly the successful CASes: every successful CAS lies on the chain.
   */
  lemma ChainCoversSuccesses(all: seq<Cas>, init: int, p: seq<int>)
    requires WellFormed(all, init)
    requires WalkFrom(Graph(all), init, Targets(Graph(all))) == Ended(p) && |p| - 1 == SuccessCount(all)
    ensures Distinct(p) && p[0] == init
    ensures multiset(ChainOrder(p)) == multiset(Successful(all))
    ensures forall c :: c in all && c.result ==> c in ChainOrder(p)
  {
    var order := ChainOrder(p);
    ChainEdgesAreSuccesses(all, init, p);
    SuccessfulMeans(all);
    WellFormedIsDistinct(all, init);
    DistinctCard(order);
    DistinctCard(Successful(all));
    SubsetSameCard(ElementSet(order), ElementSet(Successful(all)));
    DistinctSameElements(order, Successful(all));
    forall c | c in all && c.result ensures c in order {
      assert c in ElementSet(Successful(all));
    }
  }

  /** Every CAS of the chain is recorded in the edge index. */
  lemma ChainKeysIndexed(p: seq<int>, c: Cas)
    requires |p| > 0 && Distinct(p) && c in ChainOrder(p)
    ensures Key(c) in EdgeIndex(p)
  {
    ChainOrderMeans(p);
    EdgeIndexComplete(p);
    var k :| 0 <= k < |ChainOrder(p)| && ChainOrder(p)[k] == c;
    assert Key(c) == (p[k], p[k + 1]);
  }

  // ---------------------------------------------------------------------------
  // The per-thread scan
  // ---------------------------------------------------------------------------

  /** Both CASes are on the chain, and `a` earlier than `b`. */
  ghost predicate InOrder(index: map<(int, int), nat>, a: Cas, b: Cas)
  {
    Key(a) in index && Key(b) in index && index[Key(a)] < index[Key(b)]
  }

  lemma {:induction false} PairsAccepted(s: seq<Cas>, index: map<(int, int), nat>)
    requires PairsVerdict(s, index) == Accept
    ensures forall i, j :: 0 <= i && j == i + 1 && j < |s| ==> InOrder(index, s[i], s[j])
    decreases |s|
  {
    if |s| >= 2 {
      PairsAccepted(s[1..], index);
      forall i, j | 1 <= i && j == i + 1 && j < |s| ensures InOrder(index, s[i], s[j]) {
        assert s[i] == s[1..][i - 1] && s[j] == s[1..][j - 1];
      }
    }
  }

  lemma {:induction false} PairsNeverRaise(s: seq<Cas>, index: map<(int, int), nat>)
    requires forall c :: c in s ==> Key(c) in index
    ensures !PairsVerdict(s, index).Raised?
    decreases |s|
  {
    if |s| >= 2 {
      PairsNeverRaise(s[1..], index);
    }
  }

  lemma {:induction false} ThreadsAccepted(threads: seq<seq<Cas>>, index: map<(int, int), nat>)
    requires ThreadsVerdict(threads, index) == Accept
    ensures forall k :: 0 <= k < |threads| ==> PairsVerdict(Successful(threads[k]), index) == Accept
    decreases |threads|
  {
    if threads != [] {
      ThreadsAccepted(threads[1..], index);
      forall k | 1 <= k < |threads| ensures PairsVerdict(Successful(threads[k]), index) == Accept {
        assert threads[k] == threads[1..][k - 1];
      }
    }
  }

  lemma {:induction false} ThreadsNeverRaise(threads: seq<seq<Cas>>, index: map<(int, int), nat>)
    requires forall k, c :: 0 <= k < |threads| && c in Successful(threads[k]) ==> Key(c) in index
    ensures !ThreadsVerdict(threads, index).Raised?
    decreases |threads|
  {
    if threads != [] {
      PairsNeverRaise(Successful(threads[0]), index);
      forall k, c | 0 <= k < |threads| - 1 && c in Successful(threads[1..][k]) ensures Key(c) in index {
        assert threads[1..][k] == threads[k + 1];
      }
      ThreadsNeverRaise(threads[1..], index);
    }
  }

  // ---------------------------------------------------------------------------
  // What the verdict means
  // ---------------------------------------------------------------------------

  /** `a` occurs before `b` in `order`. */
  ghost predicate Before(order: seq<Cas>, a: Cas, b: Cas)
  {
    exists p, q :: 0 <= p < q < |order| && order[p] == a && order[q] == b
  }

  /**
   * `order` is a sequential execution of the successful CASes of the history: it replays from the
   * initial value, uses each successful CAS exactly once, and keeps each thread's successful
   * CASes in program order.
   */
  ghost predicate Linearizes(threads: seq<seq<Cas>>, init: int, order: seq<Cas>)
  {
    ReplaysFrom(init, order) &&
    multiset(order) == multiset(Successful(Flatten(threads))) &&
    KeepsThreadOrder(threads, order)
  }

  /** Each thread's successful CASes occur in `order` in program order. */
  ghost predicate KeepsThreadOrder(threads: seq<seq<Cas>>, order: seq<Cas>)
  {
    forall k, i :: 0 <= k < |threads| && 0 <= i < |Successful(threads[k])| - 1 ==>
      Before(order, Successful(threads[k])[i], Successful(threads[k])[i + 1])
  }

  /** Soundness: an accepted history has a sequential execution of its successful CASes. */
  lemma AcceptedIsLinearizable(threads: seq<seq<Cas>>, init: int)
    requires RestrictedSpec(threads, init) == Accept
    ensures exists order :: Linearizes(threads, init, order)
  {
    var all := Flatten(threads);
    ValidationErrorMeans(all, init);
    var g := Graph(all);
    SuccessfulMeans(all);
    if init !in g {
      SuccessCountZero(all);
      forall k | 0 <= k < |threads| ensures |Successful(threads[k])| == 0 {
        SuccessfulMeans(threads[k]);
        SuccessCountZero(threads[k]);
      }
      assert Linearizes(threads, init, []);
    } else {
      var p := WalkFrom(g, init, Targets(g)).path;
      ChainCoversSuccesses(all, init, p);
      ChainOrderMeans(p);
      EdgeIndexSound(p);
      var order := ChainOrder(p);
      var index := EdgeIndex(p);
      ThreadsAccepted(threads, index);
      forall k, i | 0 <= k < |threads| && 0 <= i < |Successful(threads[k])| - 1
        ensures Before(order, Successful(threads[k])[i], Successful(threads[k])[i + 1])
      {
        var s := Successful(threads[k]);
        SuccessfulMeans(threads[k]);
        PairsAccepted(s, index);
        assert InOrder(index, s[i], s[i + 1]);
        var m, m' := index[Key(s[i])], index[Key(s[i + 1])];
        assert s[i] in s && s[i + 1] in s;
        assert order[m] == s[i] && order[m'] == s[i + 1];
      }
      assert Linearizes(threads, init, order);
    }
  }

  /** The edge lookups never miss: once the chain is as long as the edge count, it holds every successful CAS. */
  lemma NeverMissingEdge(threads: seq<seq<Cas>>, init: int)
    ensures RestrictedSpec(threads, init) != Raised(MissingEdge)
    ensures RestrictedSpec(threads, init).Raised? <==>
      ValidationError(Flatten(threads), init).Some? ||
      (init in Graph(Flatten(threads)) && WalkFrom(Graph(Flatten(threads)), init, Targets(Graph(Flatten(threads)))).Branches?)
  {
    var all := Flatten(threads);
    if ValidationError(all, init).None? {
      ValidationErrorMeans(all, init);
      var g := Graph(all);
      if init in g {
        WellFormedGraphIsChainShaped(all, init);
        FreshAtStart(g, init);
        WalkNeverRevisits(g, init, init, Targets(g));
        var w := WalkFrom(g, init, Targets(g));
        if w.Ended? && |w.path| - 1 == SuccessCount(all) {
          ChainCoversSuccesses(all, init, w.path);
          forall k, c | 0 <= k < |threads| && c in Successful(threads[k]) ensures Key(c) in EdgeIndex(w.path) {
            SuccessfulMeans(threads[k]);
            assert threads[k] in threads;
            ChainKeysIndexed(w.path, c);
          }
          ThreadsNeverRaise(threads, EdgeIndex(w.path));
          assert RestrictedSpec(threads, init) == ThreadsVerdict(threads, EdgeIndex(w.path));
        }
      }
    }
  }

  /** An accepted history also passes the degree-balance check. */
  lemma AcceptedPassesDegreeCheck(threads: seq<seq<Cas>>, init: int)
    requires RestrictedSpec(threads, init) == Accept
    ensures CasCheck.CheckSpec(Flatten(threads), init)
  {
    var all := Flatten(threads);
    AcceptedIsLinearizable(threads, init);
    var order :| Linearizes(threads, init, order);
    CasCheck.ConsistentHistoryAccepted(Successful(all), order, init);
    forall v ensures InDegree(Successful(all), v) == InDegree(all, v) && OutDegree(Successful(all), v) == OutDegree(all, v) {
      SuccessfulKeepsDegrees(all, v);
    }
    CasCheck.SameDegreesSameVerdict(Successful(all), all, init);
  }

  // ---------------------------------------------------------------------------
  // Completeness: every linearizable well-formed history is accepted
  // ---------------------------------------------------------------------------

  lemma DistinctIfCountsAtMostOne<T>(s: seq<T>)
    requires forall x :: multiset(s)[x] <= 1
    ensures Distinct(s)
  {
    forall i, j | 0 <= i < j < |s| ensures s[i] != s[j] {
      var x := s[j];
      assert s == s[..j] + [x] + s[j + 1..];
      assert s[i] == s[..j][i];
      assert multiset(s)[x] == multiset(s[..j])[x] + 1 + multiset(s[j + 1..])[x];
    }
  }

  /** In a well-formed history different CASes install different values. */
  lemma WellFormedValuesTo(all: seq<Cas>, init: int, c: Cas, d: Cas)
    requires WellFormed(all, init) && c in all && d in all && c != d
    ensures c.valueTo != d.valueTo && c.valueTo != init
  {
    var i :| 0 <= i < |all| && all[i] == c;
    var j :| 0 <= j < |all| && all[j] == d;
    assert i != j;
  }

  /** What a linearization of a well-formed history looks like: distinct successful CASes of the history. */
  lemma LinearizationFacts(all: seq<Cas>, init: int, order: seq<Cas>)
    requires WellFormed(all, init) && multiset(order) == multiset(Successful(all))
    ensures Distinct(order) && |order| == SuccessCount(all)
    ensures forall c :: c in order ==> c in all && c.result
    ensures forall v :: OutDegree(order, v) == OutDegree(all, v)
  {
    SuccessfulMeans(all);
    WellFormedIsDistinct(all, init);
    forall x ensures multiset(order)[x] <= 1 {
      DistinctCount(Successful(all), x);
    }
    DistinctIfCountsAtMostOne(order);
    assert |order| == |multiset(order)| == |multiset(Successful(all))| == |Successful(all)|;
    forall c | c in order ensures c in all && c.result {
      assert c in multiset(order);
      assert c in multiset(Successful(all));
    }
    forall v ensures OutDegree(order, v) == OutDegree(all, v) {
      DegreesOfPermutation(order, Successful(all), v);
      SuccessfulKeepsDegrees(all, v);
    }
  }

  /** A consistent replay of successful CASes chains each expected value to the previous installed one. */
  lemma {:induction false} ReplayLinks(cur: int, order: seq<Cas>)
    requires ReplaysFrom(cur, order) && forall c :: c in order ==> c.result
    ensures |order| > 0 ==> order[0].valueFrom == cur
    ensures forall k, j :: 0 <= k && j == k + 1 && j < |order| ==> order[j].valueFrom == order[k].valueTo
    decreases |order|
  {
    if order != [] {
      ReplayLinks(order[0].valueTo, order[1..]);
      forall k, j | 0 <= k && j == k + 1 && j < |order| ensures order[j].valueFrom == order[k].valueTo {
        if k > 0 {
          assert order[j] == order[1..][k] && order[k] == order[1..][k - 1];
        }
      }
    }
  }

  /** The values the register takes along `order`, starting from `init`. */
  function ValuePath(init: int, order: seq<Cas>): (q: seq<int>)
    ensures |q| == |order| + 1 && q[0] == init
    ensures forall k :: 0 <= k < |order| ==> q[k + 1] == order[k].valueTo
  {
    [init] + seq(|order|, k requires 0 <= k < |order| => order[k].valueTo)
  }

  lemma {:induction false} OutDegreeCounts(s: seq<Cas>, v: int, k: int)
    requires forall m :: 0 <= m < |s| && s[m].result && s[m].valueFrom == v ==> m == k
    ensures OutDegree(s, v) == if 0 <= k < |s| && s[k].result && s[k].valueFrom == v then 1 else 0
    decreases |s|
  {
    if s != [] {
      var front := s[..|s| - 1];
      forall m | 0 <= m < |front| && front[m].result && front[m].valueFrom == v ensures m == k {
        assert front[m] == s[m];
      }
      OutDegreeCounts(front, v, k);
      if 0 <= k < |front| {
        assert front[k] == s[k];
      }
    }
  }

  lemma WellFormedNotInit(all: seq<Cas>, init: int, c: Cas)
    requires WellFormed(all, init) && c in all
    ensures c.valueTo != init
  {
  }

  /** The register's values along a consistent replay of distinct successful CASes are distinct, and the replay walks them. */
  lemma PathOfReplay(all: seq<Cas>, init: int, order: seq<Cas>)
    requires WellFormed(all, init) && Distinct(order) && ReplaysFrom(init, order)
    requires forall c :: c in order ==> c in all && c.result
    ensures var q := ValuePath(init, order);
      Distinct(q) && forall k {:trigger order[k]} :: 0 <= k < |order| ==> order[k] == Cas(q[k], q[k + 1], true)
  {
    var q := ValuePath(init, order);
    ReplayLinks(init, order);
    forall k | 0 <= k < |order| ensures order[k] == Cas(q[k], q[k + 1], true) {
      if k > 0 {
        assert order[k].valueFrom == order[k - 1].valueTo;
      }
    }
    forall i, j | 0 <= i < j < |q| ensures q[i] != q[j] {
      WellFormedNotInit(all, init, order[j - 1]);
      if i > 0 {
        assert order[i - 1] != order[j - 1];
        WellFormedValuesTo(all, init, order[i - 1], order[j - 1]);
      }
    }
  }

  /** A path of distinct values walked by CASes that are the history's only successful ones is a chain of its graph. */
  lemma PathIsChain(all: seq<Cas>, order: seq<Cas>, q: seq<int>)
    requires |q| == |order| + 1 && Distinct(q)
    requires forall k {:trigger order[k]} :: 0 <= k < |order| ==> order[k] == Cas(q[k], q[k + 1], true)
    requires forall c :: c in order ==> c in all
    requires forall v :: OutDegree(order, v) == OutDegree(all, v)
    ensures IsChain(Graph(all), q) && forall m :: 1 <= m < |q| ==> q[m] in Targets(Graph(all))
  {
    var g := Graph(all);
    forall k | 0 <= k < |q| - 1 ensures q[k] in g && g[q[k]] == [q[k + 1]] {
      GraphEdges(all, q[k]);
      OutDegreeCounts(order, q[k], k);
      assert order[k] in all;
      assert q[k + 1] in Successors(g, q[k]);
    }
    GraphEdges(all, q[|q| - 1]);
    forall m | 0 <= m < |order| ensures order[m].valueFrom != q[|q| - 1] {
      assert order[m].valueFrom == q[m];
    }
    OutDegreeCounts(order, q[|q| - 1], |q| - 1);
    forall m | 1 <= m < |q| ensures q[m] in Targets(g) {
      assert g[q[m - 1]][0] == q[m];
    }
  }

  /** A linearization's thread order puts each thread's consecutive successful CASes in increasing chain positions. */
  lemma ThreadOrderAccepted(threads: seq<seq<Cas>>, order: seq<Cas>, q: seq<int>)
    requires |q| == |order| + 1 && Distinct(q)
    requires forall k {:trigger order[k]} :: 0 <= k < |order| ==> order[k] == Cas(q[k], q[k + 1], true)
    requires KeepsThreadOrder(threads, order)
    ensures ThreadsVerdict(threads, EdgeIndex(q)) == Accept
  {
    EdgeIndexComplete(q);
    var index := EdgeIndex(q);
    forall k | 0 <= k < |threads| ensures PairsVerdict(Successful(threads[k]), index) == Accept {
      var s := Successful(threads[k]);
      forall i, j | 0 <= i && j == i + 1 && j < |s| ensures InOrder(index, s[i], s[j]) {
        assert Before(order, s[i], s[i + 1]);
        var a, b :| 0 <= a < b < |order| && order[a] == s[i] && order[b] == s[j];
        assert Key(s[i]) == (q[a], q[a + 1]) && Key(s[j]) == (q[b], q[b + 1]);
      }
      PairsAcceptedIf(s, index);
    }
    ThreadsAcceptedIf(threads, index);
  }

  /** The walk follows a chain of distinct available values to its end. */
  lemma {:induction false} WalkFollowsChain(g: map<int, seq<int>>, q: seq<int>, k: nat, avail: set<int>)
    requires IsChain(g, q) && Distinct(q) && k < |q|
    requires forall m :: k < m < |q| ==> q[m] in avail
    ensures WalkFrom(g, q[k], avail) == Ended(q[k..])
    decreases |q| - k
  {
    if k < |q| - 1 {
      WalkFollowsChain(g, q, k + 1, avail - {q[k + 1]});
      assert q[k..] == [q[k]] + q[k + 1..];
    } else {
      assert q[k..] == [q[k]];
    }
  }

  lemma {:induction false} PairsAcceptedIf(s: seq<Cas>, index: map<(int, int), nat>)
    requires forall i, j :: 0 <= i && j == i + 1 && j < |s| ==> InOrder(index, s[i], s[j])
    ensures PairsVerdict(s, index) == Accept
    decreases |s|
  {
    if |s| >= 2 {
      assert InOrder(index, s[0], s[1]);
      forall i, j | 0 <= i && j == i + 1 && j < |s[1..]| ensures InOrder(index, s[1..][i], s[1..][j]) {
        assert s[1..][i] == s[i + 1] && s[1..][j] == s[j + 1];
      }
      PairsAcceptedIf(s[1..], index);
    }
  }

  lemma {:induction false} ThreadsAcceptedIf(threads: seq<seq<Cas>>, index: map<(int, int), nat>)
    requires forall k :: 0 <= k < |threads| ==> PairsVerdict(Successful(threads[k]), index) == Accept
    ensures ThreadsVerdict(threads, index) == Accept
    decreases |threads|
  {
    if threads != [] {
      forall k | 0 <= k < |threads| - 1 ensures PairsVerdict(Successful(threads[1..][k]), index) == Accept {
        assert threads[1..][k] == threads[k + 1];
      }
      ThreadsAcceptedIf(threads[1..], index);
    }
  }

  /**
   * Any consistent replay of the successful CASes of a well-formed history fixes the walk: it
   * follows the values the replay gives the register, and uses every successful CAS.
   */
  lemma ReplayDeterminesWalk(all: seq<Cas>, init: int, order: seq<Cas>)
    requires WellFormed(all, init) && multiset(order) == multiset(Successful(all))
    requires ReplaysFrom(init, order) && order != []
    ensures var q := ValuePath(init, order);
      init in Graph(all) && WalkFrom(Graph(all), init, Targets(Graph(all))) == Ended(q) &&
      |q| - 1 == SuccessCount(all) && Distinct(q) &&
      forall k {:trigger order[k]} :: 0 <= k < |order| ==> order[k] == Cas(q[k], q[k + 1], true)
  {
    var g := Graph(all);
    var q := ValuePath(init, order);
    LinearizationFacts(all, init, order);
    PathOfReplay(all, init, order);
    PathIsChain(all, order, q);
    assert order[0] in all;
    GraphEdges(all, init);
    assert q[1] in Successors(g, init);
    WalkFollowsChain(g, q, 0, Targets(g));
    assert q[0..] == q;
  }

  /**
   * Completeness: a well-formed history whose successful CASes have a sequential execution is
   * accepted, unless no CAS succeeded and a failed one expected the initial value (which no
   * execution can explain: that CAS would have succeeded).
   */
  lemma LinearizableIsAccepted(threads: seq<seq<Cas>>, init: int, order: seq<Cas>)
    requires WellFormed(Flatten(threads), init) && Linearizes(threads, init, order)
    requires SuccessCount(Flatten(threads)) > 0 || !ExpectsValue(Flatten(threads), init)
    ensures RestrictedSpec(threads, init) == Accept
  {
    var all := Flatten(threads);
    ValidationErrorMeans(all, init);
    LinearizationFacts(all, init, order);
    if order == [] {
      GraphEdges(all, init);
      assert init !in Graph(all);
    } else {
      ReplayDeterminesWalk(all, init, order);
      ThreadOrderAccepted(threads, order, ValuePath(init, order));
    }
  }

  /**
   * On well-formed histories the checker decides exactly whether the successful CASes have a
   * sequential execution that keeps each thread's order (given a success, or no failed CAS that
   * expected the initial value).
   */
  lemma AcceptIffLinearizable(threads: seq<seq<Cas>>, init: int)
    requires WellFormed(Flatten(threads), init)
    requires SuccessCount(Flatten(threads)) > 0 || !ExpectsValue(Flatten(threads), init)
    ensures RestrictedSpec(threads, init) == Accept <==> exists order :: Linearizes(threads, init, order)
  {
    if RestrictedSpec(threads, init) == Accept {
      AcceptedIsLinearizable(threads, init);
    }
    if order :| Linearizes(threads, init, order) {
      LinearizableIsAccepted(threads, init, order);
    }
  }

  // ---------------------------------------------------------------------------
  // The recorded examples
  // ---------------------------------------------------------------------------

  /** Appending a CAS that is not a self-loop and installs a fresh value other than the initial one keeps a history valid. */
  lemma ValidationErrorSnoc(a: seq<Cas>, c: Cas, init: int)
    requires ValidationError(a, init).None? && c.valueFrom != c.valueTo && c.valueTo != init && c.valueTo !in ValuesTo(a)
    ensures ValidationError(a + [c], init).None? && ValuesTo(a + [c]) == ValuesTo(a) + {c.valueTo}
  {
    var b := a + [c];
    assert b[..|b| - 1] == a && b[|b| - 1] == c;
    forall i | 0 <= i < |a| ensures b[i] == a[i] && a[i].valueTo in ValuesTo(a) { }
    forall x | x in ValuesTo(b) ensures x in ValuesTo(a) + {c.valueTo} {
      var i :| 0 <= i < |b| && b[i].valueTo == x;
      if i < |a| {
        assert a[i].valueTo == x;
      }
    }
  }
  /** How a history of six CASes is built up one CAS at a time. */
  lemma SixParts(a: Cas, b: Cas, c: Cas, d: Cas, e: Cas, f: Cas)
    ensures [a] == [] + [a] && [a, b] == [a] + [b] && [a, b, c] == [a, b] + [c]
    ensures [a, b, c] + [d] == [a, b, c, d] && [a, b, c, d] + [e] == [a, b, c, d, e]
    ensures [a, b, c, d, e] + [f] == [a, b, c] + [d, e, f]
  {
  }

  lemma SuccessfulOfOne(x: Cas) ensures Successful([x]) == if x.result then [x] else [] { assert [x][..0] == []; }
  lemma SuccessfulOfThree(x: Cas, y: Cas, z: Cas)
    ensures Successful([x, y, z]) == (if x.result then [x] else []) + (if y.result then [y] else []) + (if z.result then [z] else [])
  {
    SuccessfulOfOne(x); SuccessfulOfOne(y); SuccessfulOfOne(z);
    SuccessfulAppend([x], [y]); SuccessfulAppend([x, y], [z]);
    assert [x] + [y] == [x, y];
    assert [x, y] + [z] == [x, y, z];
  }

  lemma SequentialAccepted()
    ensures RestrictedSpec([[Cas(3, 5, false), Cas(1, 2, true), Cas(2, 7, true)]], 1) == Accept
  {
    var t := [Cas(3, 5, false), Cas(1, 2, true), Cas(2, 7, true)];
    var order := [Cas(1, 2, true), Cas(2, 7, true)];
    FlattenOne(t);
    SixParts(t[0], t[1], t[2], t[2], t[2], t[2]);
    ValidationErrorSnoc([], t[0], 1);
    ValidationErrorSnoc([t[0]], t[1], 1);
    ValidationErrorSnoc([t[0], t[1]], t[2], 1);
    ValidationErrorMeans(t, 1);
    SequentialLinearizes();
    LinearizableIsAccepted([t], 1, order);
  }

  lemma SequentialLinearizes()
    ensures Linearizes([[Cas(3, 5, false), Cas(1, 2, true), Cas(2, 7, true)]], 1, [Cas(1, 2, true), Cas(2, 7, true)])
  {
    var t := [Cas(3, 5, false), Cas(1, 2, true), Cas(2, 7, true)];
    var order := [Cas(1, 2, true), Cas(2, 7, true)];
    FlattenOne(t);
    SuccessfulOfThree(t[0], t[1], t[2]);
    assert Successful(t) == order;
    assert ReplaysFrom(1, order) by {
      assert order[1..] == [Cas(2, 7, true)] && order[1..][1..] == [];
    }
    assert Before(order, order[0], order[1]);
    assert KeepsThreadOrder([t], order) by {
      forall k, i | 0 <= k < |[t]| && 0 <= i < |Successful([t][k])| - 1
        ensures Before(order, Successful([t][k])[i], Successful([t][k])[i + 1])
      {
        assert [t][k] == t && i == 0;
      }
    }
  }

  /** The six CASes of the two-thread examples, with the first thread's successful CASes in either order. */
  lemma ParallelValid(x: Cas, y: Cas)
    requires x.valueFrom != x.valueTo && y.valueFrom != y.valueTo && x.valueTo != y.valueTo
    requires x.valueTo !in {1, 5, 7, 8, 10} && y.valueTo !in {1, 5, 7, 8, 10}
    ensures WellFormed([Cas(3, 5, false), x, y] + [Cas(2, 7, true), Cas(7, 8, false), Cas(9, 10, true)], 1)
  {
    var c0, c3, c4, c5 := Cas(3, 5, false), Cas(2, 7, true), Cas(7, 8, false), Cas(9, 10, true);
    SixParts(c0, x, y, c3, c4, c5);
    ValidationErrorSnoc([], c0, 1);
    ValidationErrorSnoc([c0], x, 1);
    ValidationErrorSnoc([c0, x], y, 1);
    ValidationErrorSnoc([c0, x, y], c3, 1);
    ValidationErrorSnoc([c0, x, y, c3], c4, 1);
    ValidationErrorSnoc([c0, x, y, c3, c4], c5, 1);
    var all := [c0, x, y] + [c3, c4, c5];
    ValidationErrorMeans(all, 1);
  }

  /** The successful CASes of the two-thread examples, thread by thread. */
  lemma ParallelSuccesses(x: Cas, y: Cas)
    requires x.result && y.result
    ensures Successful([Cas(3, 5, false), x, y]) == [x, y]
    ensures Successful([Cas(2, 7, true), Cas(7, 8, false), Cas(9, 10, true)]) == [Cas(2, 7, true), Cas(9, 10, true)]
    ensures Successful([Cas(3, 5, false), x, y] + [Cas(2, 7, true), Cas(7, 8, false), Cas(9, 10, true)]) == [x, y, Cas(2, 7, true), Cas(9, 10, true)]
  {
    SuccessfulOfThree(Cas(3, 5, false), x, y);
    SuccessfulOfThree(Cas(2, 7, true), Cas(7, 8, false), Cas(9, 10, true));
    SuccessfulAppend([Cas(3, 5, false), x, y], [Cas(2, 7, true), Cas(7, 8, false), Cas(9, 10, true)]);
  }


  /** The sequential order both two-thread examples are measured against. */
  function ParallelOrder(): seq<Cas>
  {
    [Cas(1, 2, true), Cas(2, 7, true), Cas(7, 9, true), Cas(9, 10, true)]
  }

  lemma ParallelOrderReplays()
    ensures ReplaysFrom(1, ParallelOrder())
  {
    var order := ParallelOrder();
    assert order[1..] == [Cas(2, 7, true), Cas(7, 9, true), Cas(9, 10, true)];
    assert order[1..][1..] == [Cas(7, 9, true), Cas(9, 10, true)];
    assert order[1..][1..][1..] == [Cas(9, 10, true)];
    assert order[1..][1..][1..][1..] == [];
  }

  lemma ParallelOrderPermutes(x: Cas, y: Cas)
    requires (x, y) == (Cas(1, 2, true), Cas(7, 9, true)) || (x, y) == (Cas(7, 9, true), Cas(1, 2, true))
    ensures multiset(ParallelOrder()) == multiset(Successful([Cas(3, 5, false), x, y] + [Cas(2, 7, true), Cas(7, 8, false), Cas(9, 10, true)]))
  {
    ParallelSuccesses(x, y);
    ParallelOrderCounts(x, y);
  }

  lemma ParallelOrderCounts(x: Cas, y: Cas)
    requires (x, y) == (Cas(1, 2, true), Cas(7, 9, true)) || (x, y) == (Cas(7, 9, true), Cas(1, 2, true))
    ensures multiset(ParallelOrder()) == multiset([x, y, Cas(2, 7, true), Cas(9, 10, true)])
  {
    var a, b, c, d := Cas(1, 2, true), Cas(2, 7, true), Cas(7, 9, true), Cas(9, 10, true);
    assert ParallelOrder() == [a, b, c, d];
    SwapMiddle(a, b, c, d);
    SwapFront(a, c, b, d);
  }

  lemma SwapMiddle<T>(a: T, b: T, c: T, d: T)
    ensures multiset([a, c, b, d]) == multiset([a, b, c, d])
  {
    assert [a, c, b, d] == [a] + [c, b] + [d];
    assert [a, b, c, d] == [a] + [b, c] + [d];
    assert multiset([c, b]) == multiset([b, c]);
  }

  lemma SwapFront<T>(a: T, b: T, c: T, d: T)
    ensures multiset([b, a, c, d]) == multiset([a, b, c, d])
  {
    assert [b, a, c, d] == [b, a] + [c, d];
    assert [a, b, c, d] == [a, b] + [c, d];
    assert multiset([b, a]) == multiset([a, b]);
  }

  lemma ParallelKeepsThreadOrder()
    ensures KeepsThreadOrder([[Cas(3, 5, false), Cas(1, 2, true), Cas(7, 9, true)], [Cas(2, 7, true), Cas(7, 8, false), Cas(9, 10, true)]], ParallelOrder())
  {
    var threads := [[Cas(3, 5, false), Cas(1, 2, true), Cas(7, 9, true)], [Cas(2, 7, true), Cas(7, 8, false), Cas(9, 10, true)]];
    var order := ParallelOrder();
    ParallelSuccesses(Cas(1, 2, true), Cas(7, 9, true));
    assert Before(order, order[0], order[2]);
    assert Before(order, order[1], order[3]);
    forall k, i | 0 <= k < |threads| && 0 <= i < |Successful(threads[k])| - 1
      ensures Before(order, Successful(threads[k])[i], Successful(threads[k])[i + 1])
    {
      assert i == 0;
      if k == 0 {
        assert Successful(threads[k]) == [order[0], order[2]];
      } else {
        assert Successful(threads[k]) == [order[1], order[3]];
      }
    }
  }

  lemma ParallelAccepted()
    ensures RestrictedSpec([[Cas(3, 5, false), Cas(1, 2, true), Cas(7, 9, true)],
                            [Cas(2, 7, true), Cas(7, 8, false), Cas(9, 10, true)]], 1) == Accept
  {
    var t0 := [Cas(3, 5, false), Cas(1, 2, true), Cas(7, 9, true)];
    var t1 := [Cas(2, 7, true), Cas(7, 8, false), Cas(9, 10, true)];
    FlattenPair(t0, t1);
    ParallelValid(Cas(1, 2, true), Cas(7, 9, true));
    ParallelOrderReplays();
    ParallelOrderPermutes(Cas(1, 2, true), Cas(7, 9, true));
    ParallelKeepsThreadOrder();
    assert SuccessCount(t0 + t1) > 0 by {
      var all := t0 + t1;
      assert all[|all| - 1] == Cas(9, 10, true);
    }
    LinearizableIsAccepted([t0, t1], 1, ParallelOrder());
  }

  /** In the out-of-order example the traversal still finds the whole chain 1 -> 2 -> 7 -> 9 -> 10. */
  lemma OutOfOrderWalk()
    ensures var all := [Cas(3, 5, false), Cas(7, 9, true), Cas(1, 2, true)] + [Cas(2, 7, true), Cas(7, 8, false), Cas(9, 10, true)];
      var q := ValuePath(1, ParallelOrder());
      ValidationError(all, 1).None? && 1 in Graph(all) && WalkFrom(Graph(all), 1, Targets(Graph(all))) == Ended(q) &&
      |q| - 1 == SuccessCount(all) && Distinct(q) && q[1] == 2 && q[2] == 7 && q[3] == 9 && |q| == 5
  {
    var all := [Cas(3, 5, false), Cas(7, 9, true), Cas(1, 2, true)] + [Cas(2, 7, true), Cas(7, 8, false), Cas(9, 10, true)];
    var order := ParallelOrder();
    ParallelValid(Cas(7, 9, true), Cas(1, 2, true));
    ValidationErrorMeans(all, 1);
    ParallelOrderReplays();
    ParallelOrderPermutes(Cas(7, 9, true), Cas(1, 2, true));
    ReplayDeterminesWalk(all, 1, order);
    var q := ValuePath(1, order);
    assert order[0] == Cas(q[0], q[1], true) && order[2] == Cas(q[2], q[3], true);
  }

  lemma ParallelOutOfOrderRejected()
    ensures RestrictedSpec([[Cas(3, 5, false), Cas(7, 9, true), Cas(1, 2, true)],
                            [Cas(2, 7, true), Cas(7, 8, false), Cas(9, 10, true)]], 1) == Reject
  {
    var t0 := [Cas(3, 5, false), Cas(7, 9, true), Cas(1, 2, true)];
    var t1 := [Cas(2, 7, true), Cas(7, 8, false), Cas(9, 10, true)];
    FlattenPair(t0, t1);
    OutOfOrderWalk();
    var q := ValuePath(1, ParallelOrder());
    EdgeIndexComplete(q);
    var index := EdgeIndex(q);
    assert q[1] == 2 && q[2] == 7 && q[3] == 9;
    assert index[(q[2], q[3])] == 2 && index[(q[0], q[1])] == 0;
    ParallelSuccesses(Cas(7, 9, true), Cas(1, 2, true));
    assert PairsVerdict(Successful(t0), index) == Reject;
    assert [t0, t1][0] == t0;
  }

  /** Threads whose CASes all failed, none of them expecting the initial value. */
  lemma NoActionsAccepted()
    ensures RestrictedSpec([[Cas(3, 5, false)]], 1) == Accept
    ensures RestrictedSpec([[Cas(3, 5, false), Cas(2, 4, false)]], 1) == Accept
  {
    var c0, c1 := Cas(3, 5, false), Cas(2, 4, false);
    var t1, t2 := [c0], [c0, c1];
    SixParts(c0, c1, c1, c1, c1, c1);
    ValidationErrorSnoc([], c0, 1);
    ValidationErrorSnoc(t1, c1, 1);
    assert forall i :: 0 <= i < |t1| ==> !t1[i].result && t1[i].valueFrom != 1;
    assert forall i :: 0 <= i < |t2| ==> !t2[i].result && t2[i].valueFrom != 1;
    NoActionsLinearize(t1);
    NoActionsLinearize(t2);
    LinearizableIsAccepted([t1], 1, []);
    LinearizableIsAccepted([t2], 1, []);
  }

  /** A valid thread of failed CASes none of which expects the initial value is linearised by the empty order. */
  lemma NoActionsLinearize(t: seq<Cas>)
    requires ValidationError(t, 1).None?
    requires forall i :: 0 <= i < |t| ==> !t[i].result && t[i].valueFrom != 1
    ensures WellFormed(t, 1) && Linearizes([t], 1, []) && !ExpectsValue(Flatten([t]), 1)
  {
    FlattenOne(t);
    ValidationErrorMeans(t, 1);
    SuccessfulMeans(t);
    SuccessCountZero(t);
    assert |Successful(t)| == 0;
  }

  /** A failed CAS that expected the initial value, with no successful CAS to move the register away from it. */
  lemma SingleIncorrectRejected()
    ensures RestrictedSpec([[Cas(1, 5, false)]], 1) == Reject
  {
    var t := [Cas(1, 5, false)];
    FlattenOne(t);
    ValidationErrorSnoc([], t[0], 1);
    assert [] + [t[0]] == t;
    assert t[..0] == [];
    assert SuccessCount(t) == 0 && Graph(t) == map[];
    assert t[0].valueFrom == 1;
    assert ExpectsValue(t, 1);
  }

  lemma {:induction false} SuccessfulAppend(a: seq<Cas>, b: seq<Cas>)
    ensures Successful(a + b) == Successful(a) + Successful(b)
    decreases |b|
  {
    if b == [] {
      assert a + b == a;
    } else {
      var b' := b[..|b| - 1];
      assert (a + b)[..|a + b| - 1] == a + b';
      SuccessfulAppend(a, b');
    }
  }
}
