/**
  The ECT workflow tracker of pkg/mcp/workflow.go: task admission (section 5 of
  draft-nennemann-wimse-ect-00), recording and clean-up, in named workflows and in
  the global scope.
 */
module WorkflowTracking {
  import opened Basics
  import opened TaskGraph
  import opened AncestorSearch

  datatype Workflow = Workflow(id: string, tasks: Tasks, createdAt: int, updatedAt: int)

  datatype RecordError =
    | DuplicateTaskId(jti: string)
    | ParentNotFound(parent: string)
    | TemporalViolation(parent: string)
    | CycleDetected(jti: string)

  datatype Tracker = Tracker(workflows: map<string, Workflow>, globalTasks: Tasks, ttl: int, clockSkew: int)

  function NewTracker(ttl: int, clockSkew: int): Tracker {
    Tracker(map[], map[], ttl, clockSkew)
  }

  function TasksForScope(t: Tracker, wid: string): Tasks {
    if wid == "" then t.globalTasks
    else if wid in t.workflows then t.workflows[wid].tasks
    else map[]
  }

  function FirstMissing(tasks: Tasks, parents: seq<string>): (r: Option<string>)
    ensures r.None? <==> forall p :: p in parents ==> p in tasks
    ensures r.Some? ==> r.value in parents && r.value !in tasks
  {
    if parents == [] then None
    else if parents[0] !in tasks then Some(parents[0])
    else FirstMissing(tasks, parents[1..])
  }

  function FirstLate(tasks: Tasks, latest: int, parents: seq<string>): (r: Option<string>)
    requires forall p :: p in parents ==> p in tasks
    ensures r.None? <==> forall p :: p in parents ==> tasks[p].issuedAt <= latest
    ensures r.Some? ==> r.value in parents && tasks[r.value].issuedAt > latest
  {
    if parents == [] then None
    else if tasks[parents[0]].issuedAt > latest then Some(parents[0])
    else FirstLate(tasks, latest, parents[1..])
  }

  /** The four admission checks, in order. */
  function Admission(tasks: Tasks, skew: int, jti: string, issuedAt: int, parents: seq<string>): Option<RecordError> {
    if jti in tasks then Some(DuplicateTaskId(jti))
    else
      var missing := FirstMissing(tasks, parents);
      if missing.Some? then Some(ParentNotFound(missing.value))
      else
        var late := FirstLate(tasks, issuedAt + skew, parents);
        if late.Some? then Some(TemporalViolation(late.value))
        else if Search(tasks, jti, parents, {}, MAX_ANCESTOR_TRAVERSAL) then Some(CycleDetected(jti))
        else None
  }

  function Store(t: Tracker, wid: string, record: TaskRecord): Tracker {
    if wid == "" then t.(globalTasks := t.globalTasks[record.jti := record])
    else
      var wf := if wid in t.workflows then t.workflows[wid] else Workflow(wid, map[], record.issuedAt, record.issuedAt);
      t.(workflows := t.workflows[wid := wf.(tasks := wf.tasks[record.jti := record], updatedAt := record.issuedAt)])
  }

  function Cleaned(t: Tracker, now: int): Tracker {
    var cutoff := now - t.ttl;
    t.(workflows := map wid | wid in t.workflows && t.workflows[wid].updatedAt >= cutoff :: t.workflows[wid],
       globalTasks := map id | id in t.globalTasks && t.globalTasks[id].issuedAt >= cutoff :: t.globalTasks[id])
  }

  datatype Event =
    | Record(wid: string, jti: string, issuedAt: int, parents: seq<string>)
    | Clean(now: int)

  function ErrorOf(t: Tracker, e: Event): Option<RecordError>
    requires e.Record?
  {
    Admission(TasksForScope(t, e.wid), t.clockSkew, e.jti, e.issuedAt, e.parents)
  }

  function Step(t: Tracker, e: Event): Tracker {
    match e
    case Clean(now) => Cleaned(t, now)
    case Record(wid, jti, issuedAt, parents) =>
      if ErrorOf(t, e).Some? then t else Store(t, wid, TaskRecord(jti, issuedAt, parents))
  }

  function Run(t: Tracker, es: seq<Event>): Tracker
    decreases |es|
  {
    if es == [] then t else Run(Step(t, es[0]), es[1..])
  }

  lemma {:induction false} RunAppend(t: Tracker, es: seq<Event>, fs: seq<Event>)
    ensures Run(t, es + fs) == Run(Run(t, es), fs)
    decreases |es|
  {
    if es == [] {
      assert es + fs == fs;
    } else {
      assert (es + fs)[1..] == es[1..] + fs;
      RunAppend(Step(t, es[0]), es[1..], fs);
    }
  }

  // ---- What a record is accepted for ----

  /** `tasks` is the scope of `wid`: the global one if it is empty, else the workflow's, empty if it is new. */
  ghost predicate IsScope(t: Tracker, wid: string, tasks: Tasks) {
    if wid == "" then tasks == t.globalTasks
    else tasks == if wid in t.workflows then t.workflows[wid].tasks else map[]
  }

  /** All parents are recorded, and none was issued later than the child plus the skew. */
  ghost predicate ParentsFit(tasks: Tasks, skew: int, e: Event)
    requires e.Record?
  {
    forall p :: p in e.parents ==> p in tasks && tasks[p].issuedAt <= e.issuedAt + skew
  }

  /** Parent `i` is the first that is not recorded. */
  ghost predicate MissingAt(tasks: Tasks, parents: seq<string>, i: int) {
    0 <= i < |parents| && parents[i] !in tasks && forall j :: 0 <= j < i ==> parents[j] in tasks
  }

  /** Parent `i` is the first that is issued after `latest`. */
  ghost predicate LateAt(tasks: Tasks, latest: int, parents: seq<string>, i: int)
    requires forall p :: p in parents ==> p in tasks
  {
    && 0 <= i < |parents| && tasks[parents[i]].issuedAt > latest
    && forall j :: 0 <= j < i ==> tasks[parents[j]].issuedAt <= latest
  }

  lemma {:induction false} FirstMissingAt(tasks: Tasks, parents: seq<string>, i: nat)
    requires MissingAt(tasks, parents, i)
    ensures FirstMissing(tasks, parents) == Some(parents[i])
  {
    if i > 0 { FirstMissingAt(tasks, parents[1..], i - 1); }
  }

  lemma {:induction false} MissingPosition(tasks: Tasks, parents: seq<string>) returns (i: nat)
    requires FirstMissing(tasks, parents).Some?
    ensures MissingAt(tasks, parents, i)
  {
    i := 0;
    if parents[0] in tasks {
      i := MissingPosition(tasks, parents[1..]);
      i := i + 1;
    }
  }

  lemma {:induction false} FirstLateAt(tasks: Tasks, latest: int, parents: seq<string>, i: nat)
    requires forall p :: p in parents ==> p in tasks
    requires LateAt(tasks, latest, parents, i)
    ensures FirstLate(tasks, latest, parents) == Some(parents[i])
  {
    if i > 0 { FirstLateAt(tasks, latest, parents[1..], i - 1); }
  }

  lemma {:induction false} LatePosition(tasks: Tasks, latest: int, parents: seq<string>) returns (i: nat)
    requires forall p :: p in parents ==> p in tasks
    requires FirstLate(tasks, latest, parents).Some?
    ensures LateAt(tasks, latest, parents, i)
  {
    i := 0;
    if tasks[parents[0]].issuedAt <= latest {
      i := LatePosition(tasks, latest, parents[1..]);
      i := i + 1;
    }
  }

  /** A record is accepted exactly if its id is new, its parents fit, and it is not its own ancestor. */
  lemma AcceptedIff(t: Tracker, e: Event, tasks: Tasks)
    requires e.Record? && IsScope(t, e.wid, tasks) && |e.parents| + LinkCount(tasks) <= 10000
    ensures ErrorOf(t, e).None? <==>
            e.jti !in tasks && ParentsFit(tasks, t.clockSkew, e) && !Reaches(tasks, e.parents, e.jti)
    ensures ErrorOf(t, e) == Some(CycleDetected(e.jti)) <==>
            e.jti !in tasks && ParentsFit(tasks, t.clockSkew, e) && Reaches(tasks, e.parents, e.jti)
  {
    SearchExact(tasks, e.jti, e.parents, MAX_ANCESTOR_TRAVERSAL);
  }

  /** The first two errors: a known id, else the first parent that is not recorded. */
  lemma UnknownParentIff(t: Tracker, e: Event, tasks: Tasks, p: string)
    requires e.Record? && IsScope(t, e.wid, tasks)
    ensures ErrorOf(t, e) == Some(DuplicateTaskId(e.jti)) <==> e.jti in tasks
    ensures ErrorOf(t, e) == Some(ParentNotFound(p)) <==>
            e.jti !in tasks && exists i :: MissingAt(tasks, e.parents, i) && e.parents[i] == p
  {
    if FirstMissing(tasks, e.parents).Some? {
      var i := MissingPosition(tasks, e.parents);
      FirstMissingAt(tasks, e.parents, i);
      forall j | MissingAt(tasks, e.parents, j) ensures e.parents[j] == e.parents[i] {
        FirstMissingAt(tasks, e.parents, j);
      }
    } else {
      assert forall i :: 0 <= i < |e.parents| ==> e.parents[i] in e.parents;
    }
  }

  /** All parents are recorded, and `p` is the first that is issued after `latest`. */
  ghost predicate IsFirstLate(tasks: Tasks, latest: int, parents: seq<string>, p: string) {
    && (forall q :: q in parents ==> q in tasks)
    && exists i :: LateAt(tasks, latest, parents, i) && parents[i] == p
  }

  /** The third: with all parents recorded, the first that was issued later than the child plus the skew. */
  lemma LateParentIff(t: Tracker, e: Event, tasks: Tasks, p: string)
    requires e.Record? && IsScope(t, e.wid, tasks)
    ensures ErrorOf(t, e) == Some(TemporalViolation(p)) <==>
            e.jti !in tasks && IsFirstLate(tasks, e.issuedAt + t.clockSkew, e.parents, p)
  {
    if ErrorOf(t, e) == Some(TemporalViolation(p)) {
      var i := NamedParentIsLate(tasks, t.clockSkew, e.jti, e.issuedAt, e.parents, p);
    }
    if e.jti !in tasks && IsFirstLate(tasks, e.issuedAt + t.clockSkew, e.parents, p) {
      var i :| LateAt(tasks, e.issuedAt + t.clockSkew, e.parents, i) && e.parents[i] == p;
      LateParentIsNamed(tasks, t.clockSkew, e.jti, e.issuedAt, e.parents, i);
    }
  }

  lemma LateParentIsNamed(tasks: Tasks, skew: int, jti: string, issuedAt: int, parents: seq<string>, i: nat)
    requires jti !in tasks && (forall q :: q in parents ==> q in tasks) && LateAt(tasks, issuedAt + skew, parents, i)
    ensures Admission(tasks, skew, jti, issuedAt, parents) == Some(TemporalViolation(parents[i]))
  {
    FirstLateAt(tasks, issuedAt + skew, parents, i);
  }

  lemma NamedParentIsLate(tasks: Tasks, skew: int, jti: string, issuedAt: int, parents: seq<string>, p: string)
    returns (i: nat)
    requires Admission(tasks, skew, jti, issuedAt, parents) == Some(TemporalViolation(p))
    ensures jti !in tasks && (forall q :: q in parents ==> q in tasks)
    ensures LateAt(tasks, issuedAt + skew, parents, i) && parents[i] == p
  {
    i := LatePosition(tasks, issuedAt + skew, parents);
    FirstLateAt(tasks, issuedAt + skew, parents, i);
  }

  /** A rejected record changes nothing; an accepted one adds its task to its scope and touches no other. */
  lemma RecordChanges(t: Tracker, e: Event, tasks: Tasks)
    requires e.Record? && IsScope(t, e.wid, tasks)
    ensures ErrorOf(t, e).Some? ==> Step(t, e) == t
    ensures ErrorOf(t, e).None? ==> IsScope(Step(t, e), e.wid, tasks[e.jti := TaskRecord(e.jti, e.issuedAt, e.parents)])
    ensures e.wid != "" ==> Step(t, e).globalTasks == t.globalTasks
    ensures forall w :: w != e.wid || w == "" ==>
              (w in t.workflows <==> w in Step(t, e).workflows)
              && (w in t.workflows ==> Step(t, e).workflows[w] == t.workflows[w])
    ensures ErrorOf(t, e).None? && e.wid != "" ==>
              && e.wid in Step(t, e).workflows
              && Step(t, e).workflows[e.wid].id == (if e.wid in t.workflows then t.workflows[e.wid].id else e.wid)
              && Step(t, e).workflows[e.wid].updatedAt == e.issuedAt
              && Step(t, e).workflows[e.wid].createdAt ==
                 if e.wid in t.workflows then t.workflows[e.wid].createdAt else e.issuedAt
  {
  }

  // ---- Named workflows ----

  /** No parent is issued later than its child, up to the clock skew. */
  ghost predicate TemporallyOrdered(tasks: Tasks, skew: int) {
    forall id, p :: id in tasks && p in tasks[id].parents && p in tasks ==>
      tasks[p].issuedAt <= tasks[id].issuedAt + skew
  }

  ghost predicate SoundWorkflow(tasks: Tasks, skew: int) {
    ParentClosed(tasks) && Acyclic(tasks) && TemporallyOrdered(tasks, skew)
  }

  ghost predicate NamedSound(t: Tracker) {
    && "" !in t.workflows
    && forall wid :: wid in t.workflows ==> SoundWorkflow(t.workflows[wid].tasks, t.clockSkew)
  }

  lemma EmptyIsSound(skew: int)
    ensures SoundWorkflow(map[], skew)
  {
    var none: Tasks := map[];
    forall p: seq<string> | |p| > 1 ensures !IsPath(none, p) {
      assert !Edge(none, p[0], p[1]);
    }
  }

  /** In a parent-closed scope an unrecorded id is no ancestor of recorded tasks. */
  lemma UnrecordedIsNoAncestor(tasks: Tasks, jti: string, parents: seq<string>)
    requires ParentClosed(tasks) && jti !in tasks
    requires forall p :: p in parents ==> p in tasks
    ensures !Reaches(tasks, parents, jti)
  {
    ClosedSetBlocksReach(tasks, tasks.Keys, parents, jti);
  }

  lemma SoundAfterRecord(tasks: Tasks, skew: int, record: TaskRecord)
    requires SoundWorkflow(tasks, skew)
    requires Admission(tasks, skew, record.jti, record.issuedAt, record.parents).None?
    ensures SoundWorkflow(tasks[record.jti := record], skew)
  {
    UnrecordedIsNoAncestor(tasks, record.jti, record.parents);
    RecordClosesCycleIff(tasks, record);
  }

  lemma StepKeepsNamedSound(t: Tracker, e: Event)
    requires NamedSound(t)
    ensures NamedSound(Step(t, e))
  {
    if e.Record? && ErrorOf(t, e).None? && e.wid != "" {
      EmptyIsSound(t.clockSkew);
      SoundAfterRecord(TasksForScope(t, e.wid), t.clockSkew, TaskRecord(e.jti, e.issuedAt, e.parents));
    }
  }

  /** In every reachable state each named workflow is parent-closed, acyclic and temporally ordered. */
  lemma {:induction false} NamedWorkflowsStaySound(t: Tracker, es: seq<Event>)
    requires NamedSound(t)
    ensures NamedSound(Run(t, es))
    decreases |es|
  {
    if es != [] {
      StepKeepsNamedSound(t, es[0]);
      NamedWorkflowsStaySound(Step(t, es[0]), es[1..]);
    }
  }

  /** After any run, a named workflow never answers with the cycle error. */
  lemma NoCycleErrorInNamedWorkflow(ttl: int, skew: int, es: seq<Event>, e: Event)
    requires e.Record? && e.wid != ""
    ensures ErrorOf(Run(NewTracker(ttl, skew), es), e) != Some(CycleDetected(e.jti))
  {
    NamedWorkflowsStaySound(NewTracker(ttl, skew), es);
    var tasks := TasksForScope(Run(NewTracker(ttl, skew), es), e.wid);
    EmptyIsSound(skew);
    if e.jti !in tasks && FirstMissing(tasks, e.parents).None? {
      UnrecordedIsNoAncestor(tasks, e.jti, e.parents);
      if Search(tasks, e.jti, e.parents, {}, MAX_ANCESTOR_TRAVERSAL) {
        SearchSound(tasks, e.jti, e.parents, {}, MAX_ANCESTOR_TRAVERSAL);
        assert false;
      }
    }
  }

  /** With parents ordered, n links cost at most n skews; the last task of the path may have been deleted. */
  lemma {:induction false} SkewAlongPath(tasks: Tasks, skew: int, p: seq<string>)
    requires TemporallyOrdered(tasks, skew) && IsPath(tasks, p) && p[0] in tasks && p[|p| - 1] in tasks
    ensures tasks[p[|p| - 1]].issuedAt <= tasks[p[0]].issuedAt + (|p| - 1) * skew
    decreases |p|
  {
    if |p| > 1 {
      assert Edge(tasks, p[0], p[1]);
      SubPath(tasks, p, 1, |p|);
      if |p| > 2 { assert Edge(tasks, p[1], p[2]); }
      SkewAlongPath(tasks, skew, p[1..]);
      assert (|p| - 1) * skew == (|p| - 2) * skew + skew;
    }
  }

  lemma {:induction false} PathStaysInside(tasks: Tasks, p: seq<string>)
    requires ParentClosed(tasks) && IsPath(tasks, p) && p[0] in tasks
    ensures p[|p| - 1] in tasks
    decreases |p|
  {
    if |p| > 1 {
      assert Edge(tasks, p[0], p[1]);
      SubPath(tasks, p, 1, |p|);
      PathStaysInside(tasks, p[1..]);
    }
  }

  lemma {:induction false} RunKeepsConfig(t: Tracker, es: seq<Event>)
    ensures Run(t, es).clockSkew == t.clockSkew && Run(t, es).ttl == t.ttl
    decreases |es|
  {
    if es != [] { RunKeepsConfig(Step(t, es[0]), es[1..]); }
  }

  /** Along n parent links of a named workflow, issue times run backwards by at most n skews. */
  lemma AncestorIssueTimeBound(ttl: int, skew: int, es: seq<Event>, wid: string, p: seq<string>)
    requires wid in Run(NewTracker(ttl, skew), es).workflows
    requires IsPath(Run(NewTracker(ttl, skew), es).workflows[wid].tasks, p)
    requires p[0] in Run(NewTracker(ttl, skew), es).workflows[wid].tasks
    ensures var tasks := Run(NewTracker(ttl, skew), es).workflows[wid].tasks;
            p[|p| - 1] in tasks && tasks[p[|p| - 1]].issuedAt <= tasks[p[0]].issuedAt + (|p| - 1) * skew
  {
    var t := Run(NewTracker(ttl, skew), es);
    NamedWorkflowsStaySound(NewTracker(ttl, skew), es);
    RunKeepsConfig(NewTracker(ttl, skew), es);
    PathStaysInside(t.workflows[wid].tasks, p);
    SkewAlongPath(t.workflows[wid].tasks, skew, p);
  }

  // ---- The global scope ----

  ghost predicate AcceptedGlobally(t: Tracker, e: Event) {
    e.Record? && e.wid == "" && ErrorOf(t, e).None?
  }

  /** One step keeps the global graph acyclic exactly when it does not record an id that is its own ancestor. */
  lemma GlobalStepAcyclicIff(t: Tracker, e: Event)
    requires Acyclic(t.globalTasks)
    ensures Acyclic(Step(t, e).globalTasks) <==>
            (AcceptedGlobally(t, e) ==> !Reaches(t.globalTasks, e.parents, e.jti))
  {
    if AcceptedGlobally(t, e) {
      RecordClosesCycleIff(t.globalTasks, TaskRecord(e.jti, e.issuedAt, e.parents));
    } else if e.Clean? {
      DeletionKeepsAcyclic(Step(t, e).globalTasks, t.globalTasks);
    }
  }

  /** Every state of the run has an acyclic global graph. */
  ghost predicate AcyclicThroughout(t: Tracker, es: seq<Event>)
    decreases |es|
  {
    Acyclic(t.globalTasks) && (es != [] ==> AcyclicThroughout(Step(t, es[0]), es[1..]))
  }

  /** No accepted global record names an id that already is its own ancestor. */
  ghost predicate NeverOwnAncestor(t: Tracker, es: seq<Event>)
    decreases |es|
  {
    es != [] ==>
      && (AcceptedGlobally(t, es[0]) ==> !Reaches(t.globalTasks, es[0].parents, es[0].jti))
      && NeverOwnAncestor(Step(t, es[0]), es[1..])
  }

  lemma {:induction false} GlobalAcyclicIff(t: Tracker, es: seq<Event>)
    requires Acyclic(t.globalTasks)
    ensures AcyclicThroughout(t, es) <==> NeverOwnAncestor(t, es)
    decreases |es|
  {
    if es != [] {
      GlobalStepAcyclicIff(t, es[0]);
      if Acyclic(Step(t, es[0]).globalTasks) {
        GlobalAcyclicIff(Step(t, es[0]), es[1..]);
      }
    }
  }

  /** At every global record of the run, new parents plus recorded links fit the traversal bound. */
  ghost predicate SearchesFit(t: Tracker, es: seq<Event>)
    decreases |es|
  {
    es != [] ==>
      && (es[0].Record? && es[0].wid == "" ==> |es[0].parents| + LinkCount(t.globalTasks) <= MAX_ANCESTOR_TRAVERSAL)
      && SearchesFit(Step(t, es[0]), es[1..])
  }

  /** While the ancestor search is exhaustive, no run closes a cycle, whatever ids are deleted and recorded again. */
  lemma {:induction false} GlobalScopeStaysAcyclic(t: Tracker, es: seq<Event>)
    requires Acyclic(t.globalTasks) && SearchesFit(t, es)
    ensures AcyclicThroughout(t, es)
    decreases |es|
  {
    if es != [] {
      if AcceptedGlobally(t, es[0]) {
        SearchExact(t.globalTasks, es[0].jti, es[0].parents, MAX_ANCESTOR_TRAVERSAL);
      }
      GlobalStepAcyclicIff(t, es[0]);
      GlobalScopeStaysAcyclic(Step(t, es[0]), es[1..]);
    }
  }

  // ---- Issue times in the global scope ----

  /** Every live task that already names the recorded id as a parent is issued at most one skew before it. */
  ghost predicate FitsChildren(tasks: Tasks, skew: int, e: Event)
    requires e.Record?
  {
    forall id :: id in tasks && e.jti in tasks[id].parents ==> e.issuedAt <= tasks[id].issuedAt + skew
  }

  /**
    Admission compares a record with its parents, never with children that outlived a deleted
    namesake: one step keeps the global scope ordered exactly when the record fits those too.
   */
  lemma GlobalStepOrderedIff(t: Tracker, e: Event)
    requires TemporallyOrdered(t.globalTasks, t.clockSkew)
    ensures TemporallyOrdered(Step(t, e).globalTasks, t.clockSkew) <==>
            (AcceptedGlobally(t, e) ==> FitsChildren(t.globalTasks, t.clockSkew, e))
  {
    if AcceptedGlobally(t, e) {
      var tasks, after := t.globalTasks, Step(t, e).globalTasks;
      assert forall id :: id in tasks ==> after[id] == tasks[id];
      if !FitsChildren(tasks, t.clockSkew, e) {
        var id :| id in tasks && e.jti in tasks[id].parents && e.issuedAt > tasks[id].issuedAt + t.clockSkew;
        assert id in after && e.jti in after[id].parents && e.jti in after;
      }
    }
  }

  /** Every state of the run has a temporally ordered global scope. */
  ghost predicate OrderedThroughout(t: Tracker, es: seq<Event>)
    decreases |es|
  {
    TemporallyOrdered(t.globalTasks, t.clockSkew) && (es != [] ==> OrderedThroughout(Step(t, es[0]), es[1..]))
  }

  /** Every accepted global record fits the live tasks that already name it. */
  ghost predicate AlwaysFitsChildren(t: Tracker, es: seq<Event>)
    decreases |es|
  {
    es != [] ==>
      && (AcceptedGlobally(t, es[0]) ==> FitsChildren(t.globalTasks, t.clockSkew, es[0]))
      && AlwaysFitsChildren(Step(t, es[0]), es[1..])
  }

  lemma {:induction false} GlobalOrderedIff(t: Tracker, es: seq<Event>)
    requires TemporallyOrdered(t.globalTasks, t.clockSkew)
    ensures OrderedThroughout(t, es) <==> AlwaysFitsChildren(t, es)
    decreases |es|
  {
    if es != [] {
      GlobalStepOrderedIff(t, es[0]);
      if TemporallyOrdered(Step(t, es[0]).globalTasks, t.clockSkew) {
        GlobalOrderedIff(Step(t, es[0]), es[1..]);
      }
    }
  }

  /** In such runs the bound along parent links holds between any two live global tasks as well. */
  lemma {:induction false} GlobalIssueTimeBound(t: Tracker, es: seq<Event>, p: seq<string>)
    requires TemporallyOrdered(t.globalTasks, t.clockSkew) && AlwaysFitsChildren(t, es)
    requires IsPath(Run(t, es).globalTasks, p)
    requires p[0] in Run(t, es).globalTasks && p[|p| - 1] in Run(t, es).globalTasks
    ensures var tasks := Run(t, es).globalTasks;
            tasks[p[|p| - 1]].issuedAt <= tasks[p[0]].issuedAt + (|p| - 1) * t.clockSkew
    decreases |es|
  {
    if es == [] {
      SkewAlongPath(t.globalTasks, t.clockSkew, p);
    } else {
      GlobalStepOrderedIff(t, es[0]);
      GlobalIssueTimeBound(Step(t, es[0]), es[1..], p);
    }
  }

  // ---- Retention ----

  ghost predicate AcceptedIn(t: Tracker, e: Event, wid: string) {
    e.Record? && e.wid == wid && ErrorOf(t, e).None?
  }

  /** The issue time of the last record that the run accepts in `wid`; `last` if it accepts none. */
  ghost function LastIssue(t: Tracker, es: seq<Event>, wid: string, last: Option<int>): Option<int>
    decreases |es|
  {
    if es == [] then last
    else LastIssue(Step(t, es[0]), es[1..], wid, if AcceptedIn(t, es[0], wid) then Some(es[0].issuedAt) else last)
  }

  lemma {:induction false} UpdatedAtIsLastIssue(t: Tracker, es: seq<Event>, wid: string, last: Option<int>)
    requires wid != "" && (wid in t.workflows ==> last == Some(t.workflows[wid].updatedAt))
    ensures wid in Run(t, es).workflows ==> LastIssue(t, es, wid, last) == Some(Run(t, es).workflows[wid].updatedAt)
    decreases |es|
  {
    if es != [] {
      UpdatedAtIsLastIssue(Step(t, es[0]), es[1..], wid,
                           if AcceptedIn(t, es[0], wid) then Some(es[0].issuedAt) else last);
    }
  }

  /**
    After any run, a clean-up keeps a live workflow, with all its tasks, exactly if the record
    accepted last was issued within the TTL; the other records do not count.
   */
  lemma CleanupFollowsLastRecord(ttl: int, skew: int, es: seq<Event>, wid: string, now: int)
    requires wid != "" && wid in Run(NewTracker(ttl, skew), es).workflows
    ensures var before := Run(NewTracker(ttl, skew), es);
            var after := Run(NewTracker(ttl, skew), es + [Clean(now)]);
            && LastIssue(NewTracker(ttl, skew), es, wid, None).Some?
            && (wid in after.workflows <==> LastIssue(NewTracker(ttl, skew), es, wid, None).value >= now - ttl)
            && (wid in after.workflows ==> after.workflows[wid] == before.workflows[wid])
  {
    var before := Run(NewTracker(ttl, skew), es);
    UpdatedAtIsLastIssue(NewTracker(ttl, skew), es, wid, None);
    RunKeepsConfig(NewTracker(ttl, skew), es);
    RunAppend(NewTracker(ttl, skew), es, [Clean(now)]);
    assert Run(before, [Clean(now)]) == Step(before, Clean(now));
  }

  /** After any run, a clean-up keeps a global task, unaltered, exactly if it was issued within the TTL. */
  lemma GlobalTaskKeptIff(ttl: int, skew: int, es: seq<Event>, id: string, now: int)
    ensures var before := Run(NewTracker(ttl, skew), es).globalTasks;
            var after := Run(NewTracker(ttl, skew), es + [Clean(now)]).globalTasks;
            && (id in after <==> id in before && before[id].issuedAt >= now - ttl)
            && (id in after ==> after[id] == before[id])
  {
    var before := Run(NewTracker(ttl, skew), es);
    RunKeepsConfig(NewTracker(ttl, skew), es);
    RunAppend(NewTracker(ttl, skew), es, [Clean(now)]);
    assert Run(before, [Clean(now)]) == Step(before, Clean(now));
  }

  /** That time can move backwards: a backdated record lets a workflow go whose other task is within the TTL. */
  lemma BackdatedRecordEndsWorkflow(ttl: int, skew: int, wid: string, now: int, backdated: int)
    requires wid != "" && backdated < now - ttl
    ensures var es := [Record(wid, "a", now, []), Record(wid, "b", backdated, [])];
            && wid in Run(NewTracker(ttl, skew), es).workflows
            && wid !in Run(NewTracker(ttl, skew), es + [Clean(now)]).workflows
  {
    var t, e, f := NewTracker(ttl, skew), Record(wid, "a", now, []), Record(wid, "b", backdated, []);
    assert Step(t, e).workflows[wid].tasks == map["a" := TaskRecord("a", now, [])];
    assert ErrorOf(Step(t, e), f).None?;
    assert Run(t, [e, f]) == Step(Step(t, e), f) by {
      assert [e, f][1..] == [f];
      assert Run(Step(t, e), [f]) == Step(Step(t, e), f);
    }
    UpdatedAtIsLastIssue(t, [e, f], wid, None);
    CleanupFollowsLastRecord(ttl, skew, [e, f], wid, now);
  }

  // ---- The imperative tracker ----

  method FindMissing(tasks: Tasks, parents: seq<string>) returns (r: Option<string>)
    ensures r == FirstMissing(tasks, parents)
  {
    for i := 0 to |parents|
      invariant FirstMissing(tasks, parents) == FirstMissing(tasks, parents[i..])
    {
      if parents[i] !in tasks {
        return Some(parents[i]);
      }
      assert parents[i..][1..] == parents[i + 1..];
    }
    return None;
  }

  method FindLate(tasks: Tasks, latest: int, parents: seq<string>) returns (r: Option<string>)
    requires forall p :: p in parents ==> p in tasks
    ensures r == FirstLate(tasks, latest, parents)
  {
    for i := 0 to |parents|
      invariant FirstLate(tasks, latest, parents) == FirstLate(tasks, latest, parents[i..])
    {
      if tasks[parents[i]].issuedAt > latest {
        return Some(parents[i]);
      }
      assert parents[i..][1..] == parents[i + 1..];
    }
    return None;
  }

  class WorkflowTracker {
    var workflows: map<string, Workflow>
    var globalTasks: Tasks
    const ttl: int
    const clockSkew: int

    ghost function State(): Tracker
      reads this
    {
      Tracker(workflows, globalTasks, ttl, clockSkew)
    }

    constructor (ttl: int, clockSkew: int)
      ensures State() == NewTracker(ttl, clockSkew)
    {
      this.workflows, this.globalTasks := map[], map[];
      this.ttl, this.clockSkew := ttl, clockSkew;
    }

    method RecordTask(wid: string, jti: string, issuedAt: int, parents: seq<string>) returns (err: Option<RecordError>)
      modifies this
      ensures err == ErrorOf(old(State()), Record(wid, jti, issuedAt, parents))
      ensures State() == Step(old(State()), Record(wid, jti, issuedAt, parents))
    {
      var tasks := TasksForScope(Tracker(workflows, globalTasks, ttl, clockSkew), wid);
      if jti in tasks {
        return Some(DuplicateTaskId(jti));
      }
      var missing := FindMissing(tasks, parents);
      if missing.Some? {
        return Some(ParentNotFound(missing.value));
      }
      var late := FindLate(tasks, issuedAt + clockSkew, parents);
      if late.Some? {
        return Some(TemporalViolation(late.value));
      }
      var cycle := CheckAcyclicity(tasks, jti, parents);
      if cycle {
        return Some(CycleDetected(jti));
      }
      var record := TaskRecord(jti, issuedAt, parents);
      if wid != "" {
        if wid !in workflows {
          workflows := workflows[wid := Workflow(wid, map[], issuedAt, issuedAt)];
        }
        var wf := workflows[wid];
        workflows := workflows[wid := wf.(tasks := wf.tasks[jti := record], updatedAt := issuedAt)];
      } else {
        globalTasks := globalTasks[jti := record];
      }
      return None;
    }

    method Cleanup(now: int) returns (removed: nat)
      modifies this
      ensures State() == Step(old(State()), Clean(now))
      ensures removed == |old(workflows)| - |workflows|
    {
      removed := CleanWorkflows(now - ttl);
      CleanGlobalTasks(now - ttl);
    }

    /** The first clean-up loop, in whatever order the map yields its keys. */
    method CleanWorkflows(cutoff: int) returns (removed: nat)
      modifies this`workflows
      ensures workflows ==
              map wid | wid in old(workflows) && old(workflows)[wid].updatedAt >= cutoff :: old(workflows)[wid]
      ensures removed == |old(workflows)| - |workflows|
    {
      removed := 0;
      var pending := workflows.Keys;
      while pending != {}
        invariant pending <= workflows.Keys <= old(workflows).Keys
        invariant forall wid :: wid in workflows ==> workflows[wid] == old(workflows)[wid]
        invariant forall wid :: wid in old(workflows) && wid !in pending ==>
                    (wid in workflows <==> old(workflows)[wid].updatedAt >= cutoff)
        invariant removed == |old(workflows).Keys| - |workflows.Keys|
        decreases pending
      {
        var wid :| wid in pending;
        pending := pending - {wid};
        if workflows[wid].updatedAt < cutoff {
          assert (workflows - {wid}).Keys == workflows.Keys - {wid};
          workflows := workflows - {wid};
          removed := removed + 1;
        }
      }
    }

    /** The second clean-up loop: global tasks go one at a time, so links to them may dangle. */
    method CleanGlobalTasks(cutoff: int)
      modifies this`globalTasks
      ensures globalTasks ==
              map id | id in old(globalTasks) && old(globalTasks)[id].issuedAt >= cutoff :: old(globalTasks)[id]
    {
      var pending := globalTasks.Keys;
      while pending != {}
        invariant pending <= globalTasks.Keys <= old(globalTasks).Keys
        invariant forall id :: id in globalTasks ==> globalTasks[id] == old(globalTasks)[id]
        invariant forall id :: id in old(globalTasks) && id !in pending ==>
                    (id in globalTasks <==> old(globalTasks)[id].issuedAt >= cutoff)
        decreases pending
      {
        var id :| id in pending;
        pending := pending - {id};
        if globalTasks[id].issuedAt < cutoff {
          globalTasks := globalTasks - {id};
        }
      }
    }
  }
}
