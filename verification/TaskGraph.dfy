/**
  The graph of recorded execution-context tasks: a task points at the parents it
  names. A parent may be absent from the map (it was cleaned up), so a link can dangle.
 */
module TaskGraph {

  datatype TaskRecord = TaskRecord(jti: string, issuedAt: int, parents: seq<string>)

  type Tasks = map<string, TaskRecord>

  function ParentsOf(tasks: Tasks, id: string): seq<string> {
    if id in tasks then tasks[id].parents else []
  }

  predicate Edge(tasks: Tasks, child: string, parent: string) {
    child in tasks && parent in tasks[child].parents
  }

  /** Each id in `p` names the next one as a parent. */
  ghost predicate IsPath(tasks: Tasks, p: seq<string>) {
    && |p| > 0
    && forall i, j :: 0 <= i && j == i + 1 && j < |p| ==> Edge(tasks, p[i], p[j])
  }

  ghost predicate Leads(tasks: Tasks, p: seq<string>, sources: seq<string>, target: string) {
    IsPath(tasks, p) && p[0] in sources && p[|p| - 1] == target
  }

  /** `target` is one of `sources` or an ancestor of one of them. */
  ghost predicate Reaches(tasks: Tasks, sources: seq<string>, target: string) {
    exists p :: Leads(tasks, p, sources, target)
  }

  ghost predicate IsCycle(tasks: Tasks, p: seq<string>) {
    IsPath(tasks, p) && |p| > 1 && p[0] == p[|p| - 1]
  }

  ghost predicate Acyclic(tasks: Tasks) {
    forall p :: !IsCycle(tasks, p)
  }

  /** Every named parent is itself recorded. */
  ghost predicate ParentClosed(tasks: Tasks) {
    forall id, parent :: id in tasks && parent in tasks[id].parents ==> parent in tasks
  }

  lemma SubPath(tasks: Tasks, p: seq<string>, lo: nat, hi: nat)
    requires IsPath(tasks, p) && lo < hi <= |p|
    ensures IsPath(tasks, p[lo..hi])
  {
    var q := p[lo..hi];
    forall i, j | 0 <= i && j == i + 1 && j < |q| ensures Edge(tasks, q[i], q[j]) {
      assert q[i] == p[lo + i] && q[j] == p[lo + j];
    }
  }

  lemma JoinPaths(tasks: Tasks, p: seq<string>, q: seq<string>)
    requires IsPath(tasks, p) && IsPath(tasks, q) && p[|p| - 1] == q[0]
    ensures IsPath(tasks, p + q[1..])
  {
    var r := p + q[1..];
    forall i, j | 0 <= i && j == i + 1 && j < |r| ensures Edge(tasks, r[i], r[j]) {
      if j >= |p| {
        var k := j - |p| + 1;
        assert r[j] == q[k] && r[i] == q[k - 1];
      }
    }
  }

  /** `s` holds the recorded parents of each of its members. */
  ghost predicate AncestorClosed(tasks: Tasks, s: set<string>) {
    forall id, parent :: id in s && id in tasks && parent in tasks[id].parents ==> parent in s
  }

  /** A path that starts in an ancestor-closed set never leaves it. */
  lemma {:induction false} ClosedSetHoldsPath(tasks: Tasks, s: set<string>, p: seq<string>)
    requires AncestorClosed(tasks, s)
    requires IsPath(tasks, p) && p[0] in s
    ensures p[|p| - 1] in s
    decreases |p|
  {
    if |p| > 1 {
      assert Edge(tasks, p[0], p[1]);
      SubPath(tasks, p, 1, |p|);
      ClosedSetHoldsPath(tasks, s, p[1..]);
    }
  }

  lemma ClosedSetBlocksReach(tasks: Tasks, s: set<string>, sources: seq<string>, target: string)
    requires AncestorClosed(tasks, s)
    requires forall x :: x in sources ==> x in s
    requires target !in s
    ensures !Reaches(tasks, sources, target)
  {
    forall p | IsPath(tasks, p) && p[0] in sources ensures p[|p| - 1] in s {
      ClosedSetHoldsPath(tasks, s, p);
    }
  }

  /** Paths survive adding tasks and do not appear by deleting them. */
  lemma PathMonotone(small: Tasks, big: Tasks, p: seq<string>)
    requires forall id :: id in small ==> id in big && big[id] == small[id]
    requires IsPath(small, p)
    ensures IsPath(big, p) && (IsCycle(small, p) ==> IsCycle(big, p))
  {
    forall i, j | 0 <= i && j == i + 1 && j < |p| ensures Edge(big, p[i], p[j]) {
      assert Edge(small, p[i], p[j]);
    }
  }

  lemma DeletionKeepsAcyclic(small: Tasks, big: Tasks)
    requires forall id :: id in small ==> id in big && big[id] == small[id]
    requires Acyclic(big)
    ensures Acyclic(small)
  {
    forall p ensures !IsCycle(small, p) {
      if IsCycle(small, p) {
        PathMonotone(small, big, p);
        assert false;
      }
    }
  }

  /** A cycle through `id` can be rotated to start and end at `id`. */
  lemma RotateCycle(tasks: Tasks, c: seq<string>, at: nat) returns (d: seq<string>)
    requires IsCycle(tasks, c) && at < |c| - 1
    ensures IsCycle(tasks, d) && d[0] == c[at]
  {
    SubPath(tasks, c, at, |c|);
    SubPath(tasks, c, 0, at + 1);
    var back, front := c[at..], c[..at + 1];
    JoinPaths(tasks, back, front);
    d := back + front[1..];
    if at > 0 { assert d[|d| - 1] == front[at]; }
  }

  /** The part of a closed walk from `id` up to its first return to `id`. */
  lemma FirstReturn(tasks: Tasks, d: seq<string>) returns (k: nat)
    requires IsCycle(tasks, d)
    ensures 0 < k < |d| && d[k] == d[0]
    ensures forall i :: 0 < i < k ==> d[i] != d[0]
  {
    k := 1;
    while d[k] != d[0]
      invariant 0 < k < |d|
      invariant forall i :: 0 < i < k ==> d[i] != d[0]
      decreases |d| - k
    {
      k := k + 1;
    }
  }

  /** Recording a new task closes a cycle exactly when its own id is already among its ancestors. */
  lemma RecordClosesCycleIff(tasks: Tasks, record: TaskRecord)
    requires Acyclic(tasks) && record.jti !in tasks
    ensures Acyclic(tasks[record.jti := record]) <==> !Reaches(tasks, record.parents, record.jti)
  {
    var id := record.jti;
    var grown := tasks[id := record];
    if Reaches(tasks, record.parents, id) {
      var p :| Leads(tasks, p, record.parents, id);
      PathMonotone(tasks, grown, p);
      assert IsPath(grown, [id, p[0]]);
      JoinPaths(grown, [id, p[0]], p);
      assert IsCycle(grown, [id, p[0]] + p[1..]);
    } else {
      forall c ensures !IsCycle(grown, c) {
        if IsCycle(grown, c) {
          CycleThroughNewTask(tasks, record, c);
          assert false;
        }
      }
    }
  }

  lemma CycleThroughNewTask(tasks: Tasks, record: TaskRecord, c: seq<string>)
    requires Acyclic(tasks) && record.jti !in tasks
    requires IsCycle(tasks[record.jti := record], c)
    ensures Reaches(tasks, record.parents, record.jti)
  {
    var id := record.jti;
    var grown := tasks[id := record];
    assert exists at :: 0 <= at < |c| - 1 && c[at] == id by {
      if forall i :: 0 <= i < |c| - 1 ==> c[i] != id {
        PathAvoidingNewTask(tasks, record, c);
        assert false;
      }
    }
    var at :| 0 <= at < |c| - 1 && c[at] == id;
    var d := RotateCycle(grown, c, at);
    var k := FirstReturn(grown, d);
    SubPath(grown, d, 1, k + 1);
    var q := d[1..k + 1];
    PathAvoidingNewTask(tasks, record, q);
    assert Edge(grown, d[0], d[1]);
    assert Leads(tasks, q, record.parents, id);
  }

  lemma PathAvoidingNewTask(tasks: Tasks, record: TaskRecord, p: seq<string>)
    requires IsPath(tasks[record.jti := record], p)
    requires forall i :: 0 <= i < |p| - 1 ==> p[i] != record.jti
    ensures IsPath(tasks, p)
    ensures IsCycle(tasks[record.jti := record], p) ==> IsCycle(tasks, p)
  {
    forall i, j | 0 <= i && j == i + 1 && j < |p| ensures Edge(tasks, p[i], p[j]) {
      assert Edge(tasks[record.jti := record], p[i], p[j]);
    }
  }
}
