/**
  The bounded breadth-first ancestor search of pkg/mcp/workflow.go (checkAcyclicity):
  what it finds and when it is exhaustive.
 */
module AncestorSearch {
  import opened TaskGraph

  const MAX_ANCESTOR_TRAVERSAL: nat := 10000

  /** Whether `target` is dequeued within `budget` dequeues. */
  function Search(tasks: Tasks, target: string, queue: seq<string>, visited: set<string>, budget: nat): bool
    decreases budget
  {
    if queue == [] || budget == 0 then false
    else if queue[0] == target then true
    else if queue[0] in visited then Search(tasks, target, queue[1..], visited, budget - 1)
    else Search(tasks, target, queue[1..] + ParentsOf(tasks, queue[0]), visited + {queue[0]}, budget - 1)
  }

  /** How many parent links `ids` have together. */
  ghost function LinksOf(tasks: Tasks, ids: set<string>): nat {
    if ids == {} then 0
    else
      var id :| id in ids;
      |ParentsOf(tasks, id)| + LinksOf(tasks, ids - {id})
  }

  /** All recorded parent links. */
  ghost function LinkCount(tasks: Tasks): nat {
    LinksOf(tasks, tasks.Keys)
  }

  /** The sum does not depend on the order in which tasks are taken. */
  lemma {:induction false} LinksSplit(tasks: Tasks, ids: set<string>, id: string)
    requires id in ids
    ensures LinksOf(tasks, ids) == |ParentsOf(tasks, id)| + LinksOf(tasks, ids - {id})
    decreases ids
  {
    var first :| first in ids && LinksOf(tasks, ids) == |ParentsOf(tasks, first)| + LinksOf(tasks, ids - {first});
    if first != id {
      LinksSplit(tasks, ids - {first}, id);
      LinksSplit(tasks, ids - {id}, first);
      assert ids - {first} - {id} == ids - {id} - {first};
    }
  }

  /** A hit is a real ancestor. */
  lemma {:induction false} SearchSound(tasks: Tasks, target: string, queue: seq<string>, visited: set<string>,
                                       budget: nat)
    requires Search(tasks, target, queue, visited, budget)
    ensures Reaches(tasks, queue, target)
    decreases budget
  {
    var head := queue[0];
    if head == target {
      assert Leads(tasks, [head], queue, target);
    } else {
      var added := if head in visited then [] else ParentsOf(tasks, head);
      if head in visited {
        SearchSound(tasks, target, queue[1..], visited, budget - 1);
        assert queue[1..] + added == queue[1..];
      } else {
        SearchSound(tasks, target, queue[1..] + added, visited + {head}, budget - 1);
      }
      var p :| Leads(tasks, p, queue[1..] + added, target);
      if p[0] in queue[1..] {
        assert Leads(tasks, p, queue, target);
      } else {
        assert IsPath(tasks, [head, p[0]]);
        JoinPaths(tasks, [head, p[0]], p);
        assert Leads(tasks, [head, p[0]] + p[1..], queue, target);
      }
    }
  }

  /** What the loop keeps: the parents of a visited task are visited or queued. */
  ghost predicate Frontier(tasks: Tasks, visited: set<string>, queue: seq<string>) {
    forall id, parent :: id in visited && id in tasks && parent in tasks[id].parents ==>
      parent in visited || parent in queue
  }

  /** Visiting a task moves its links from the unvisited part into the queue. */
  lemma ExpandingPaysForItself(tasks: Tasks, visited: set<string>, id: string)
    requires id !in visited
    ensures LinksOf(tasks, tasks.Keys - visited)
         == |ParentsOf(tasks, id)| + LinksOf(tasks, tasks.Keys - (visited + {id}))
  {
    var unvisited := tasks.Keys - visited;
    assert unvisited - {id} == tasks.Keys - (visited + {id});
    if id in tasks {
      LinksSplit(tasks, unvisited, id);
    } else {
      assert unvisited - {id} == unvisited;
    }
  }

  lemma FrontierAdvances(tasks: Tasks, visited: set<string>, queue: seq<string>)
    requires Frontier(tasks, visited, queue) && queue != []
    ensures queue[0] in visited ==> Frontier(tasks, visited, queue[1..])
    ensures queue[0] !in visited ==>
              Frontier(tasks, visited + {queue[0]}, queue[1..] + ParentsOf(tasks, queue[0]))
  {
    assert queue == [queue[0]] + queue[1..];
  }

  /**
    With enough budget, a miss leaves an ancestor-closed set around the queue that
    does not hold the target.
   */
  lemma {:induction false} SearchComplete(tasks: Tasks, target: string, queue: seq<string>, visited: set<string>,
                                          budget: nat)
      returns (closed: set<string>)
    requires !Search(tasks, target, queue, visited, budget)
    requires Frontier(tasks, visited, queue) && target !in visited
    requires |queue| + LinksOf(tasks, tasks.Keys - visited) <= budget
    ensures AncestorClosed(tasks, closed) && target !in closed
    ensures visited <= closed && forall id :: id in queue ==> id in closed
    decreases budget
  {
    if queue == [] {
      closed := visited;
    } else {
      FrontierAdvances(tasks, visited, queue);
      assert queue == [queue[0]] + queue[1..];
      if queue[0] in visited {
        closed := SearchComplete(tasks, target, queue[1..], visited, budget - 1);
      } else {
        ExpandingPaysForItself(tasks, visited, queue[0]);
        var queue' := queue[1..] + ParentsOf(tasks, queue[0]);
        closed := SearchComplete(tasks, target, queue', visited + {queue[0]}, budget - 1);
      }
    }
  }

  /** If new parents plus recorded links fit the budget, the search answers reachability exactly. */
  lemma SearchExact(tasks: Tasks, target: string, parents: seq<string>, budget: nat)
    requires |parents| + LinkCount(tasks) <= budget
    ensures Search(tasks, target, parents, {}, budget) <==> Reaches(tasks, parents, target)
  {
    if Search(tasks, target, parents, {}, budget) {
      SearchSound(tasks, target, parents, {}, budget);
    } else {
      assert tasks.Keys - {} == tasks.Keys;
      var closed := SearchComplete(tasks, target, parents, {}, budget);
      ClosedSetBlocksReach(tasks, closed, parents, target);
    }
  }

  /** checkAcyclicity: the queue loop. */
  method CheckAcyclicity(tasks: Tasks, newJti: string, parents: seq<string>) returns (cycle: bool)
    ensures cycle == Search(tasks, newJti, parents, {}, MAX_ANCESTOR_TRAVERSAL)
    ensures cycle ==> Reaches(tasks, parents, newJti)
    ensures |parents| + LinkCount(tasks) <= MAX_ANCESTOR_TRAVERSAL && Reaches(tasks, parents, newJti) ==> cycle
  {
    var visited: set<string> := {};
    var queue := parents;
    var depth := 0;
    cycle := false;
    while |queue| > 0 && depth < MAX_ANCESTOR_TRAVERSAL
      invariant 0 <= depth <= MAX_ANCESTOR_TRAVERSAL
      invariant Search(tasks, newJti, parents, {}, MAX_ANCESTOR_TRAVERSAL)
             == Search(tasks, newJti, queue, visited, MAX_ANCESTOR_TRAVERSAL - depth)
      decreases MAX_ANCESTOR_TRAVERSAL - depth
    {
      var current := queue[0];
      if current == newJti {
        cycle := true;
        break;
      }
      queue := queue[1..];
      depth := depth + 1;
      if current !in visited {
        visited := visited + {current};
        queue := queue + ParentsOf(tasks, current);
      } else {
        assert queue + [] == queue;
      }
    }
    if cycle {
      SearchSound(tasks, newJti, parents, {}, MAX_ANCESTOR_TRAVERSAL);
    } else if |parents| + LinkCount(tasks) <= MAX_ANCESTOR_TRAVERSAL {
      SearchExact(tasks, newJti, parents, MAX_ANCESTOR_TRAVERSAL);
    }
  }
}
