/**
  Where the tracker's promise ends: runs of the global scope that the bounded search
  cannot judge, and runs that contradict "cycles are structurally impossible".
 */
module TraversalBound {
  import opened Basics
  import opened TaskGraph
  import opened AncestorSearch
  import opened WorkflowTracking

  function Name(i: nat): (s: string)
    ensures |s| == i + 1
  {
    seq(i + 1, _ => 't')
  }

  /** Tasks 1..n, each naming its predecessor; task 1 names the absent task 0. */
  function Chain(n: nat): Tasks {
    if n == 0 then map[] else Chain(n - 1)[Name(n) := Link(n)]
  }

  function Link(i: nat): TaskRecord
    requires i > 0
  {
    TaskRecord(Name(i), 1, [Name(i - 1)])
  }

  lemma {:induction false} ChainAt(n: nat, i: nat)
    requires 0 < i <= n
    ensures Name(i) in Chain(n) && Chain(n)[Name(i)] == Link(i)
  {
    if i < n {
      ChainAt(n - 1, i);
      assert |Name(i)| != |Name(n)|;
    }
  }

  lemma {:induction false} ChainHoldsOnly(n: nat, id: string)
    requires id in Chain(n)
    ensures 1 < |id| <= n + 1 && id == Name(|id| - 1) && Chain(n)[id] == Link(|id| - 1)
  {
    if id != Name(n) { ChainHoldsOnly(n - 1, id); }
  }

  function Rooted(n: nat): Tasks {
    Chain(n)[Name(0) := TaskRecord(Name(0), 0, [])]
  }

  /** Record task 0, then tasks 1..n. */
  function BuildEvents(n: nat): seq<Event> {
    if n == 0 then [Record("", Name(0), 0, [])]
    else BuildEvents(n - 1) + [Record("", Name(n), 1, [Name(n - 1)])]
  }

  lemma RootedShape(m: nat)
    ensures ParentClosed(Rooted(m))
    ensures forall id :: id in Rooted(m) ==> |id| <= m + 1
    ensures Name(m) in Rooted(m) && Rooted(m)[Name(m)].issuedAt <= 1
  {
    forall id | id in Chain(m)
      ensures |id| <= m + 1 && forall p :: p in Chain(m)[id].parents ==> p in Rooted(m)
    {
      ChainHoldsOnly(m, id);
      if |id| > 2 { ChainAt(m, |id| - 2); }
    }
    if m > 0 { ChainAt(m, m); }
  }

  /** In a parent-closed scope the search never reports an unrecorded id. */
  lemma NoFalseAlarm(tasks: Tasks, jti: string, parents: seq<string>)
    requires ParentClosed(tasks) && jti !in tasks && forall p :: p in parents ==> p in tasks
    ensures !Search(tasks, jti, parents, {}, MAX_ANCESTOR_TRAVERSAL)
  {
    UnrecordedIsNoAncestor(tasks, jti, parents);
    if Search(tasks, jti, parents, {}, MAX_ANCESTOR_TRAVERSAL) {
      SearchSound(tasks, jti, parents, {}, MAX_ANCESTOR_TRAVERSAL);
      assert false;
    }
  }

  lemma ExtendChain(t: Tracker, n: nat)
    requires n > 0 && t.globalTasks == Rooted(n - 1) && t.clockSkew >= 0
    ensures Step(t, Record("", Name(n), 1, [Name(n - 1)])) == t.(globalTasks := Rooted(n))
  {
    var tasks := t.globalTasks;
    RootedShape(n - 1);
    assert |Name(n)| != |Name(0)|;
    NoFalseAlarm(tasks, Name(n), [Name(n - 1)]);
    assert tasks[Name(n) := Link(n)] == Rooted(n);
  }

  lemma {:induction false} BuildChain(ttl: int, skew: int, n: nat)
    requires skew >= 0
    ensures Run(NewTracker(ttl, skew), BuildEvents(n)) == Tracker(map[], Rooted(n), ttl, skew)
  {
    var t := NewTracker(ttl, skew);
    if n == 0 {
      var e := BuildEvents(0)[0];
      assert Run(t, BuildEvents(0)) == Run(Step(t, e), []);
    } else {
      BuildChain(ttl, skew, n - 1);
      var e := Record("", Name(n), 1, [Name(n - 1)]);
      RunAppend(t, BuildEvents(n - 1), [e]);
      ExtendChain(Run(t, BuildEvents(n - 1)), n);
      assert Run(Run(t, BuildEvents(n - 1)), [e]) == Step(Run(t, BuildEvents(n - 1)), e);
    }
  }

  /** From task k the absent task 0 is the dequeue number k + 1. */
  lemma {:induction false} SearchDownChain(n: nat, k: nat, visited: set<string>, budget: nat)
    requires k <= n && forall j: nat :: j <= k ==> Name(j) !in visited
    ensures Search(Chain(n), Name(0), [Name(k)], visited, budget) <==> budget >= k + 1
    decreases k
  {
    if budget > 0 && k > 0 {
      assert |Name(k)| != |Name(0)|;
      ChainAt(n, k);
      assert [Name(k)][1..] + ParentsOf(Chain(n), Name(k)) == [Name(k - 1)];
      forall j: nat | j <= k - 1 ensures Name(j) !in visited + {Name(k)} {
        assert |Name(j)| != |Name(k)|;
      }
      SearchDownChain(n, k - 1, visited + {Name(k)}, budget - 1);
    }
  }

  lemma {:induction false} ChainReachesRoot(n: nat, k: nat)
    requires k <= n
    ensures Reaches(Chain(n), [Name(k)], Name(0))
    decreases k
  {
    if k == 0 {
      assert Leads(Chain(n), [Name(0)], [Name(0)], Name(0));
    } else {
      ChainReachesRoot(n, k - 1);
      var p :| Leads(Chain(n), p, [Name(k - 1)], Name(0));
      ChainAt(n, k);
      assert IsPath(Chain(n), [Name(k), p[0]]);
      JoinPaths(Chain(n), [Name(k), p[0]], p);
      assert Leads(Chain(n), [Name(k), p[0]] + p[1..], [Name(k)], Name(0));
    }
  }

  /** Names get shorter along a path, so the chain has no cycle. */
  lemma {:induction false} ChainPathShrinks(n: nat, p: seq<string>)
    requires IsPath(Chain(n), p)
    ensures |p[|p| - 1]| == |p[0]| - (|p| - 1)
    decreases |p|
  {
    if |p| > 1 {
      assert Edge(Chain(n), p[0], p[1]);
      ChainHoldsOnly(n, p[0]);
      SubPath(Chain(n), p, 1, |p|);
      ChainPathShrinks(n, p[1..]);
    }
  }

  lemma ChainIsAcyclic(n: nat)
    ensures Acyclic(Chain(n))
  {
    forall p | IsPath(Chain(n), p) && |p| > 1 ensures p[0] != p[|p| - 1] {
      ChainPathShrinks(n, p);
    }
  }

  lemma {:induction false} ChainLinks(n: nat)
    ensures LinkCount(Chain(n)) == n
  {
    if n > 0 {
      LinksSplit(Chain(n), Chain(n).Keys, Name(n));
      assert Name(n) !in Chain(n - 1) by {
        if Name(n) in Chain(n - 1) { ChainHoldsOnly(n - 1, Name(n)); assert false; }
      }
      assert Chain(n).Keys - {Name(n)} == Chain(n - 1).Keys;
      SameLinks(Chain(n), Chain(n - 1), Chain(n - 1).Keys);
      ChainLinks(n - 1);
    }
  }

  lemma {:induction false} SameLinks(a: Tasks, b: Tasks, ids: set<string>)
    requires forall id :: id in ids ==> ParentsOf(a, id) == ParentsOf(b, id)
    ensures LinksOf(a, ids) == LinksOf(b, ids)
    decreases ids
  {
    if ids != {} {
      var id :| id in ids;
      LinksSplit(a, ids, id);
      LinksSplit(b, ids, id);
      SameLinks(a, b, ids - {id});
    }
  }

  lemma CleaningTheRoot(n: nat)
    ensures Name(0) !in Chain(n)
    ensures (map id | id in Rooted(n) && Rooted(n)[id].issuedAt >= 1 :: Rooted(n)[id]) == Chain(n)
  {
    forall id | id in Chain(n) ensures |id| > 1 && Chain(n)[id].issuedAt == 1 {
      ChainHoldsOnly(n, id);
    }
  }

  lemma AfterCleaning(ttl: int, skew: int, n: nat)
    requires skew >= 0
    ensures Run(NewTracker(ttl, skew), BuildEvents(n) + [Clean(ttl + 1)]) == Tracker(map[], Chain(n), ttl, skew)
  {
    BuildChain(ttl, skew, n);
    RunAppend(NewTracker(ttl, skew), BuildEvents(n), [Clean(ttl + 1)]);
    var built := Tracker(map[], Rooted(n), ttl, skew);
    CleaningTheRoot(n);
    assert Cleaned(built, ttl + 1).workflows == map[];
    assert Cleaned(built, ttl + 1) == Tracker(map[], Chain(n), ttl, skew);
    assert Run(built, [Clean(ttl + 1)]) == Step(built, Clean(ttl + 1));
  }

  lemma RecordRootAgain(t: Tracker, n: nat)
    requires n > 0 && t.globalTasks == Chain(n) && t.clockSkew >= 0
    ensures var e := Record("", Name(0), 1, [Name(n)]);
            && |e.parents| + LinkCount(t.globalTasks) == n + 1
            && ErrorOf(t, e) == (if n + 1 <= MAX_ANCESTOR_TRAVERSAL then Some(CycleDetected(Name(0))) else None)
            && (Acyclic(Step(t, e).globalTasks) <==> n + 1 <= MAX_ANCESTOR_TRAVERSAL)
  {
    CleaningTheRoot(n);
    ChainAt(n, n);
    ChainLinks(n);
    SearchDownChain(n, n, {}, MAX_ANCESTOR_TRAVERSAL);
    ChainIsAcyclic(n);
    ChainReachesRoot(n, n);
    GlobalStepAcyclicIff(t, Record("", Name(0), 1, [Name(n)]));
  }

  /**
    The bound is tight. For every n there is a run (record 0..n, clean up task 0) after
    which recording task 0 again under task n would close a cycle through n + 1 links;
    it is rejected if n + 1 <= 10000, and otherwise accepted, leaving a cycle.
   */
  lemma TraversalBoundIsTight(ttl: int, skew: int, n: nat)
    requires skew >= 0 && n > 0
    ensures var t := Run(NewTracker(ttl, skew), BuildEvents(n) + [Clean(ttl + 1)]);
            var e := Record("", Name(0), 1, [Name(n)]);
            && |e.parents| + LinkCount(t.globalTasks) == n + 1
            && ErrorOf(t, e) == (if n + 1 <= 10000 then Some(CycleDetected(Name(0))) else None)
            && (Acyclic(Step(t, e).globalTasks) <==> n + 1 <= 10000)
  {
    AfterCleaning(ttl, skew, n);
    RecordRootAgain(Tracker(map[], Chain(n), ttl, skew), n);
  }

  /**
    Three events after which the global scope does answer with the cycle error: task "a" is
    cleaned up while its child "b" still names it, and comes back as a child of "b".
   */
  lemma CycleErrorHappensInGlobalScope()
    ensures var t := Run(NewTracker(3600, 30), OrphanedChild());
            ErrorOf(t, Record("", "a", 4000, ["b"])) == Some(CycleDetected("a"))
  {
    AfterOrphaning();
    var tasks := map["b" := TaskRecord("b", 4000, ["a"])];
    assert IsPath(tasks, ["b", "a"]);
    assert Leads(tasks, ["b", "a"], ["b"], "a");
    LinksSplit(tasks, tasks.Keys, "b");
    assert tasks.Keys - {"b"} == {};
    SearchExact(tasks, "a", ["b"], MAX_ANCESTOR_TRAVERSAL);
  }

  /** A run that reverses time: "a" is cleaned up, comes back at any time, and outdates its surviving child "b". */
  lemma GlobalScopeCanReverseTime(later: int)
    ensures var t := Run(NewTracker(3600, 30), OrphanedChild() + [Record("", "a", later, [])]);
            && Edge(t.globalTasks, "b", "a") && "a" in t.globalTasks
            && t.globalTasks["a"].issuedAt == later && t.globalTasks["b"].issuedAt == 4000
            && (TemporallyOrdered(t.globalTasks, 30) <==> later <= 4030)
  {
    AfterOrphaning();
    var t := Run(NewTracker(3600, 30), OrphanedChild());
    var e := Record("", "a", later, []);
    RunAppend(NewTracker(3600, 30), OrphanedChild(), [e]);
    assert Run(t, [e]) == Step(t, e);
    GlobalStepOrderedIff(t, e);
  }

  function OrphanedChild(): seq<Event> {
    [Record("", "a", 0, []), Record("", "b", 4000, ["a"]), Clean(4000)]
  }

  lemma AfterOrphaning()
    ensures Run(NewTracker(3600, 30), OrphanedChild())
         == Tracker(map[], map["b" := TaskRecord("b", 4000, ["a"])], 3600, 30)
  {
    var es := OrphanedChild();
    var t0 := NewTracker(3600, 30);
    var t1 := t0.(globalTasks := map["a" := TaskRecord("a", 0, [])]);
    var both := map["a" := TaskRecord("a", 0, []), "b" := TaskRecord("b", 4000, ["a"])];
    var t2 := t0.(globalTasks := both);
    assert Step(t0, es[0]) == t1;
    assert Step(t1, es[1]) == t2 by {
      NoFalseAlarm(t1.globalTasks, "b", ["a"]);
    }
    assert Step(t2, es[2]).globalTasks == map["b" := TaskRecord("b", 4000, ["a"])];
    assert es[1..][1..] == [es[2]] && es[1..][0] == es[1];
    assert Run(t2, [es[2]]) == Step(t2, es[2]);
  }
}
