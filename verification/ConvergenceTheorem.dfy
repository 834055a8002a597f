/** Plan, order, execute: when the live trust domains become exactly the specified ones. */
module ConvergenceTheorem {
  import opened Basics
  import opened TrustDomains
  import opened ConvergencePlan
  import opened ConvergenceApply

  /**
    A reconcile round: a keeper is configured, the spec passed admission (no duplicate names),
    and `plan` holds some domain plan for the current list.
   */
  ghost predicate Round(c: Conn, spec: seq<Domain>, plan: seq<Action>) {
    && c.hasKeeper && c.desired == Some(spec) && UniqueNames(spec)
    && IsDomainPlan(CurrentDomains(c), spec, InPhase(plan, 2))
  }

  /** The signing-key actions, which alone precede the trust domains, succeed. */
  ghost predicate KeysSucceed(plan: seq<Action>, others: Others) {
    Succeed(InPhase(plan, 1), others)
  }

  /** All actions of known type outside trust domains succeed. */
  ghost predicate OthersSucceed(plan: seq<Action>, others: Others) {
    forall a :: a in plan && !IsDomainAction(a) && !a.kind.Unlisted? ==> others(a)
  }

  /** The entries called `n` after the round, from those before it. */
  function FinalNamed(current: seq<Domain>, spec: seq<Domain>, n: string): seq<Domain> {
    if Latest(spec, n).None? then []
    else if NeedsUpsert(current, spec, n) then Upserted(Named(current, n), Latest(spec, n).value)
    else Named(current, n)
  }

  lemma DesiredIsLatest(c: Conn, spec: seq<Domain>, n: string)
    requires c.desired == Some(spec) && UniqueNames(spec)
    ensures Desired(c, n) == Latest(spec, n)
    ensures Latest(spec, n).Some? ==> Named(spec, n) == [Latest(spec, n).value] && Latest(spec, n).value.name == n
  {
    NamedMembers(spec, n);
    if Named(spec, n) != [] {
      assert Named(spec, n)[0] in Named(spec, n);
      UniqueNamed(spec, Named(spec, n)[0]);
    }
  }

  lemma PlannedUpsertsApply(c: Conn, spec: seq<Domain>, ups: seq<Action>)
    requires c.desired == Some(spec) && UniqueNames(spec) && IsUpserts(CurrentDomains(c), spec, ups)
    ensures AreUpserts(c, ups)
    ensures forall n :: Targets(ups, n) <==> NeedsUpsert(CurrentDomains(c), spec, n)
  {
    forall a | a in ups ensures Desired(c, a.target).Some? {
      DesiredIsLatest(c, spec, a.target);
    }
  }

  lemma AfterUpserts(c: Conn, spec: seq<Domain>, ups: seq<Action>, others: Others, n: string)
    requires c.hasKeeper && c.desired == Some(spec) && UniqueNames(spec) && IsUpserts(CurrentDomains(c), spec, ups)
    ensures Completes(c, ups, others) && NeverEmptied(c, ups, others)
    ensures var mid := Execute(c, ups, others).0;
            && mid == c.(keeper := mid.keeper)
            && (Latest(spec, n).Some? ==>
                  Named(CurrentDomains(mid), n) == FinalNamed(CurrentDomains(c), spec, n) != [])
            && (Latest(spec, n).None? ==> Named(CurrentDomains(mid), n) == Named(CurrentDomains(c), n))
  {
    PlannedUpsertsApply(c, spec, ups);
    DesiredIsLatest(c, spec, n);
    RunUpserts(c, ups, others, n);
  }

  /** Upserts do not take away what the removals look for. */
  lemma PlannedRemovalsApply(c: Conn, spec: seq<Domain>, ups: seq<Action>, rems: seq<Action>, others: Others)
    requires c.hasKeeper && AreUpserts(c, ups) && IsRemovals(CurrentDomains(c), spec, rems)
    ensures AreRemovals(Execute(c, ups, others).0, rems)
  {
    forall a | a in rems ensures Named(CurrentDomains(Execute(c, ups, others).0), a.target) != [] {
      RunUpserts(c, ups, others, a.target);
    }
  }

  /** With a non-empty spec nothing fails, the list is never emptied, and each name ends as FinalNamed says. */
  lemma DomainPhase(c: Conn, spec: seq<Domain>, ups: seq<Action>, rems: seq<Action>, others: Others, n: string)
    requires c.hasKeeper && c.desired == Some(spec) && UniqueNames(spec) && spec != []
    requires IsUpserts(CurrentDomains(c), spec, ups) && IsRemovals(CurrentDomains(c), spec, rems)
    ensures Completes(c, ups + rems, others) && NeverEmptied(c, ups + rems, others)
    ensures var c' := Execute(c, ups + rems, others).0;
            c' == c.(keeper := c'.keeper) && Named(CurrentDomains(c'), n) == FinalNamed(CurrentDomains(c), spec, n)
  {
    var kept := spec[0].name;
    assert Latest(spec, kept).Some? by { NamedMembers(spec, kept); }
    AfterUpserts(c, spec, ups, others, kept);
    AfterUpserts(c, spec, ups, others, n);
    PlannedUpsertsApply(c, spec, ups);
    PlannedRemovalsApply(c, spec, ups, rems, others);
    RemovalTargets(CurrentDomains(c), spec, rems, kept);
    RemovalTargets(CurrentDomains(c), spec, rems, n);
    ThenRemovals(c, spec, ups, rems, others, kept, n);
  }

  lemma RemovalTargets(current: seq<Domain>, spec: seq<Domain>, rems: seq<Action>, n: string)
    requires IsRemovals(current, spec, rems)
    ensures Targets(rems, n) <==> NeedsRemoval(current, spec, n)
  {
  }

  lemma ThenRemovals(c: Conn, spec: seq<Domain>, ups: seq<Action>, rems: seq<Action>, others: Others,
                     kept: string, n: string)
    requires c.hasKeeper && Completes(c, ups, others) && NeverEmptied(c, ups, others)
    requires var mid := Execute(c, ups, others).0;
             && mid == c.(keeper := mid.keeper) && AreRemovals(mid, rems)
             && !Targets(rems, kept) && Named(CurrentDomains(mid), kept) != []
    ensures Completes(c, ups + rems, others) && NeverEmptied(c, ups + rems, others)
    ensures var mid, end := Execute(c, ups, others).0, Execute(c, ups + rems, others).0;
            && end == c.(keeper := end.keeper)
            && Named(CurrentDomains(end), n) == if Targets(rems, n) then [] else Named(CurrentDomains(mid), n)
  {
    RunRemovals(Execute(c, ups, others).0, rems, others, kept, n);
    ExecuteAppend(c, ups, rems, others);
  }

  /** The domain phase with an empty spec: everything is removed, so the boot configuration shows. */
  lemma EmptySpecPhase(c: Conn, rems: seq<Action>, others: Others)
    requires c.hasKeeper && IsRemovals(CurrentDomains(c), [], rems)
    ensures Completes(c, rems, others)
    ensures CurrentDomains(Execute(c, rems, others).0) == BootList(c.boot)
  {
    forall n ensures Named(CurrentDomains(c), n) != [] <==> NeedsRemoval(CurrentDomains(c), [], n) {}
    if rems == [] {
      assert forall n :: !Targets(rems, n);
      EmptyByName(CurrentDomains(c));
    } else {
      RunFullRemoval(c, rems, others);
    }
  }

  // ---- When the result is the spec ----

  lemma FinalIsSpecified(current: seq<Domain>, spec: seq<Domain>, n: string)
    requires UniqueNames(spec) && |Named(current, n)| <= 1
    ensures FinalNamed(current, spec, n) == Named(spec, n)
  {
    DesiredIsLatest(Conn(true, [], [], Some(spec)), spec, n);
    NamedMembers(current, n);
    if Named(current, n) != [] {
      assert Named(current, n)[0] in Named(current, n);
    }
  }

  lemma DuplicatesSurvive(current: seq<Domain>, spec: seq<Domain>, n: string)
    requires UniqueNames(spec) && Latest(spec, n).Some? && |Named(current, n)| > 1
    ensures |FinalNamed(current, spec, n)| > |Named(spec, n)|
  {
    DesiredIsLatest(Conn(true, [], [], Some(spec)), spec, n);
    NamedMembers(current, n);
    assert Named(current, n)[0] in Named(current, n);
  }

  lemma FinalListIff(current: seq<Domain>, spec: seq<Domain>, result: seq<Domain>)
    requires UniqueNames(spec) && forall n :: Named(result, n) == FinalNamed(current, spec, n)
    ensures multiset(result) == multiset(spec) <==> forall n :: Latest(spec, n).Some? ==> |Named(current, n)| <= 1
  {
    if forall n :: Latest(spec, n).Some? ==> |Named(current, n)| <= 1 {
      forall n ensures Named(result, n) == Named(spec, n) {
        if Latest(spec, n).Some? { FinalIsSpecified(current, spec, n); }
      }
      SameNamesSameList(result, spec);
    } else {
      var n :| Latest(spec, n).Some? && |Named(current, n)| > 1;
      DuplicatesSurvive(current, spec, n);
      if multiset(result) == multiset(spec) {
        NamedLength(result, spec, n);
        assert false;
      }
    }
  }

  /** The live trust domains are exactly the spec's. */
  ghost predicate Converged(c: Conn, spec: seq<Domain>) {
    multiset(CurrentDomains(c)) == multiset(spec)
  }

  /** No wanted name is listed twice, and an empty spec meets an empty boot configuration. */
  ghost predicate CanConverge(c: Conn, spec: seq<Domain>) {
    && (forall n :: Latest(spec, n).Some? ==> |Named(CurrentDomains(c), n)| <= 1)
    && (spec != [] || c.boot == [])
  }

  lemma PlanSplits(current: seq<Domain>, spec: seq<Domain>, dom: seq<Action>)
    returns (ups: seq<Action>, rems: seq<Action>)
    requires IsDomainPlan(current, spec, dom)
    ensures dom == ups + rems && IsUpserts(current, spec, ups) && IsRemovals(current, spec, rems)
  {
    var k: nat :| k <= |dom| && IsUpserts(current, spec, dom[..k]) && IsRemovals(current, spec, dom[k..]);
    ups, rems := dom[..k], dom[k..];
  }

  lemma DomainPhaseByName(c: Conn, spec: seq<Domain>, dom: seq<Action>, others: Others, n: string)
    requires c.hasKeeper && c.desired == Some(spec) && UniqueNames(spec) && spec != []
    requires IsDomainPlan(CurrentDomains(c), spec, dom)
    ensures Completes(c, dom, others) && NeverEmptied(c, dom, others)
    ensures Named(CurrentDomains(Execute(c, dom, others).0), n) == FinalNamed(CurrentDomains(c), spec, n)
  {
    var ups, rems := PlanSplits(CurrentDomains(c), spec, dom);
    DomainPhase(c, spec, ups, rems, others, n);
  }

  lemma EmptySpecPlan(current: seq<Domain>, dom: seq<Action>)
    requires IsDomainPlan(current, [], dom)
    ensures IsRemovals(current, [], dom)
  {
    var ups, rems := PlanSplits(current, [], dom);
    NonEmptyHasMember(ups);
    assert dom == rems;
  }

  lemma DomainPhaseOutcome(c: Conn, spec: seq<Domain>, dom: seq<Action>, others: Others)
    requires c.hasKeeper && c.desired == Some(spec) && UniqueNames(spec) && IsDomainPlan(CurrentDomains(c), spec, dom)
    ensures Completes(c, dom, others) && (spec != [] ==> NeverEmptied(c, dom, others))
    ensures Converged(Execute(c, dom, others).0, spec) <==> CanConverge(c, spec)
  {
    if spec != [] {
      forall n ensures Named(CurrentDomains(Execute(c, dom, others).0), n) == FinalNamed(CurrentDomains(c), spec, n) {
        DomainPhaseByName(c, spec, dom, others, n);
      }
      DomainPhaseByName(c, spec, dom, others, "");
      FinalListIff(CurrentDomains(c), spec, CurrentDomains(Execute(c, dom, others).0));
    } else {
      EmptySpecPlan(CurrentDomains(c), dom);
      EmptySpecPhase(c, dom, others);
      assert multiset(BootList(c.boot)) == multiset([]) <==> c.boot == [] by {
        assert |multiset(BootList(c.boot))| == |c.boot|;
      }
    }
  }

  /** The streams, peers and revocations that follow the trust domains. */
  ghost function Later(plan: seq<Action>): seq<Action> {
    InPhase(plan, 3) + InPhase(plan, 4) + InPhase(plan, 5)
  }

  lemma OthersByPhase(plan: seq<Action>, others: Others)
    ensures OthersSucceed(plan, others) <==> KeysSucceed(plan, others) && Succeed(Later(plan), others)
    ensures forall a :: a in InPhase(plan, 1) || a in Later(plan) ==> !IsDomainAction(a)
  {
    forall a ensures a in InPhase(plan, 1) || a in Later(plan) <==>
                     a in plan && !IsDomainAction(a) && !a.kind.Unlisted?
    {
      assert a in Later(plan) <==> a in InPhase(plan, 3) || a in InPhase(plan, 4) || a in InPhase(plan, 5);
    }
  }

  /** A round stops before the domains, leaving the connection as it was, or runs the whole domain phase. */
  lemma RoundIsDomainPhase(c: Conn, spec: seq<Domain>, plan: seq<Action>, others: Others)
    requires Round(c, spec, plan)
    ensures Completes(c, Ordered(plan), others) <==> OthersSucceed(plan, others)
    ensures spec != [] ==> NeverEmptied(c, Ordered(plan), others)
    ensures Execute(c, Ordered(plan), others).0 ==
            if KeysSucceed(plan, others) then Execute(c, InPhase(plan, 2), others).0 else c
  {
    var keys, dom, rest := InPhase(plan, 1), InPhase(plan, 2), Later(plan);
    assert Ordered(plan) == keys + (dom + rest);
    OthersByPhase(plan, others);
    DomainPhaseOutcome(c, spec, dom, others);
    OthersLast(c, dom, rest, others);
    OthersFirst(c, keys, dom + rest, others);
  }

  /**
    For every plan that some iteration order produces, whichever other actions fail: execution
    completes exactly if none of them does. If a signing-key action fails the connection is left
    as it was; otherwise the live trust domains end up as exactly the spec's if and only if
    CanConverge held before. With a non-empty spec the keeper's list is never emptied midway.
   */
  lemma ConvergenceOutcome(c: Conn, spec: seq<Domain>, plan: seq<Action>, others: Others)
    requires Round(c, spec, plan)
    ensures Completes(c, Ordered(plan), others) <==> OthersSucceed(plan, others)
    ensures spec != [] ==> NeverEmptied(c, Ordered(plan), others)
    ensures !KeysSucceed(plan, others) ==> Execute(c, Ordered(plan), others).0 == c
    ensures KeysSucceed(plan, others) ==>
              (Converged(Execute(c, Ordered(plan), others).0, spec) <==> CanConverge(c, spec))
  {
    RoundIsDomainPhase(c, spec, plan, others);
    DomainPhaseOutcome(c, spec, InPhase(plan, 2), others);
  }

  // ---- Repeated rounds ----

  lemma {:induction false} ExecuteMovesKeeperOnly(c: Conn, actions: seq<Action>, others: Others)
    ensures Execute(c, actions, others).0 == c.(keeper := Execute(c, actions, others).0.keeper)
    decreases |actions|
  {
    if actions != [] && ApplyOk(c, actions[0], others) {
      ExecuteMovesKeeperOnly(Applied(c, actions[0], others), actions[1..], others);
    }
  }

  /** An update edits the first entry of a name, so a duplicated wanted name stays duplicated. */
  lemma DuplicationIsKept(current: seq<Domain>, spec: seq<Domain>, n: string)
    requires UniqueNames(spec) && Latest(spec, n).Some?
    ensures |FinalNamed(current, spec, n)| <= 1 <==> |Named(current, n)| <= 1
  {
    if |Named(current, n)| > 1 {
      DuplicatesSurvive(current, spec, n);
      DesiredIsLatest(Conn(true, [], [], Some(spec)), spec, n);
    } else {
      FinalIsSpecified(current, spec, n);
      DesiredIsLatest(Conn(true, [], [], Some(spec)), spec, n);
    }
  }

  lemma DomainPhaseKeepsCanConverge(c: Conn, spec: seq<Domain>, dom: seq<Action>, others: Others)
    requires c.hasKeeper && c.desired == Some(spec) && UniqueNames(spec) && IsDomainPlan(CurrentDomains(c), spec, dom)
    ensures CanConverge(Execute(c, dom, others).0, spec) <==> CanConverge(c, spec)
  {
    ExecuteMovesKeeperOnly(c, dom, others);
    var c' := Execute(c, dom, others).0;
    if spec != [] {
      forall n | Latest(spec, n).Some?
        ensures |Named(CurrentDomains(c'), n)| <= 1 <==> |Named(CurrentDomains(c), n)| <= 1
      {
        DomainPhaseByName(c, spec, dom, others, n);
        DuplicationIsKept(CurrentDomains(c), spec, n);
      }
    }
  }

  /** A round neither creates nor removes an obstacle to convergence, even if it fails. */
  lemma RoundKeepsCanConverge(c: Conn, spec: seq<Domain>, plan: seq<Action>, others: Others)
    requires Round(c, spec, plan)
    ensures CanConverge(Execute(c, Ordered(plan), others).0, spec) <==> CanConverge(c, spec)
  {
    RoundIsDomainPhase(c, spec, plan, others);
    DomainPhaseKeepsCanConverge(c, spec, InPhase(plan, 2), others);
  }

  /** A round: its plan, and the fate of its actions outside trust domains. */
  datatype Attempt = Attempt(plan: seq<Action>, others: Others)

  ghost function AfterRound(c: Conn, r: Attempt): Conn {
    Execute(c, Ordered(r.plan), r.others).0
  }

  ghost function AfterRounds(c: Conn, rounds: seq<Attempt>): Conn
    decreases |rounds|
  {
    if rounds == [] then c else AfterRounds(AfterRound(c, rounds[0]), rounds[1..])
  }

  ghost predicate AllRounds(c: Conn, spec: seq<Domain>, rounds: seq<Attempt>)
    decreases |rounds|
  {
    rounds != [] ==> Round(c, spec, rounds[0].plan) && AllRounds(AfterRound(c, rounds[0]), spec, rounds[1..])
  }

  /** Some round gets as far as the trust domains. */
  ghost predicate SomeReachesDomains(rounds: seq<Attempt>) {
    exists r :: r in rounds && KeysSucceed(r.plan, r.others)
  }

  /**
    Reconciling again never helps: as soon as some round reaches the trust domains, the list is
    the spec's if and only if CanConverge held at the start; before that nothing has changed.
   */
  lemma {:induction false} RepeatedRounds(c: Conn, spec: seq<Domain>, rounds: seq<Attempt>)
    requires AllRounds(c, spec, rounds)
    ensures SomeReachesDomains(rounds) ==> (Converged(AfterRounds(c, rounds), spec) <==> CanConverge(c, spec))
    ensures !SomeReachesDomains(rounds) ==> AfterRounds(c, rounds) == c
    decreases |rounds|
  {
    if rounds != [] {
      var r := rounds[0];
      ConvergenceOutcome(c, spec, r.plan, r.others);
      RoundKeepsCanConverge(c, spec, r.plan, r.others);
      RepeatedRounds(AfterRound(c, r), spec, rounds[1..]);
      assert SomeReachesDomains(rounds) <==> KeysSucceed(r.plan, r.others) || SomeReachesDomains(rounds[1..]) by {
        assert forall x :: x in rounds <==> x == r || x in rounds[1..];
      }
    }
  }

  lemma SameLatest(current: seq<Domain>, spec: seq<Domain>, n: string)
    requires UniqueNames(spec) && multiset(current) == multiset(spec)
    ensures Latest(current, n) == Latest(spec, n)
  {
    NamedLength(current, spec, n);
    DesiredIsLatest(Conn(true, [], [], Some(spec)), spec, n);
    NamedMembers(current, n);
    NamedMembers(spec, n);
    if Named(current, n) != [] {
      var d := Named(current, n)[0];
      assert d in Named(current, n) && d in multiset(current);
      assert d in multiset(spec) && d in Named(spec, n);
    }
  }

  /** Once the list is the spec, planning again yields no trust-domain action, in any iteration order. */
  lemma ConvergedIsFixpoint(current: seq<Domain>, spec: seq<Domain>, again: seq<Action>)
    requires UniqueNames(spec) && multiset(current) == multiset(spec)
    requires IsDomainPlan(current, spec, again)
    ensures again == []
  {
    forall n ensures Latest(current, n) == Latest(spec, n) {
      SameLatest(current, spec, n);
    }
    if again != [] {
      PlanMember(current, spec, again, again[0]);
      assert false;
    }
  }

  // ---- The connection object ----

  class InProcessConnection {
    const hasKeeper: bool
    const boot: seq<BootDomain>
    var keeper: seq<Domain>
    var desired: Option<seq<Domain>>

    ghost function State(): Conn
      reads this
    {
      Conn(hasKeeper, keeper, boot, desired)
    }

    constructor (hasKeeper: bool, keeper: seq<Domain>, boot: seq<BootDomain>)
      ensures State() == Conn(hasKeeper, keeper, boot, None)
    {
      this.hasKeeper, this.keeper, this.boot, this.desired := hasKeeper, keeper, boot, None;
    }

    method SetDesiredSpec(spec: seq<Domain>)
      modifies this`desired
      ensures State() == old(State()).(desired := Some(spec))
    {
      desired := Some(spec);
    }

    method Persist(ds: seq<Domain>)
      modifies this`keeper
      ensures State() == Persisted(old(State()), ds)
    {
      if hasKeeper { keeper := ds; }
    }

    method ApplyAction(a: Action, others: Others) returns (ok: bool)
      modifies this`keeper
      ensures ok == ApplyOk(old(State()), a, others)
      ensures State() == Applied(old(State()), a, others)
    {
      var domains := CurrentDomains(Conn(hasKeeper, keeper, boot, desired));
      match a.kind {
        case AddTrustDomain | UpdateTrustDomain =>
          var wanted := Desired(Conn(hasKeeper, keeper, boot, desired), a.target);
          if wanted.None? { return false; }
          var updated := Upsert(domains, wanted.value);
          Persist(updated);
          return true;
        case RemoveTrustDomain =>
          var remaining, found := Remove(domains, a.target);
          if !found { return false; }
          Persist(remaining);
          return true;
        case _ =>
          return others(a);
      }
    }

    /** ExecutePlan: order, then apply until something fails. */
    method ExecutePlan(plan: seq<Action>, others: Others) returns (total: nat, applied: nat, ok: bool)
      modifies this`keeper
      ensures total == |Ordered(plan)|
      ensures (State(), applied) == Execute(old(State()), Ordered(plan), others)
      ensures ok <==> applied == total
    {
      var ordered := SortActions(plan);
      total, applied, ok := |ordered|, 0, true;
      while applied < |ordered|
        invariant applied <= |ordered| && ok
        invariant Execute(old(State()), ordered, others).0 == Execute(State(), ordered[applied..], others).0
        invariant Execute(old(State()), ordered, others).1 == applied + Execute(State(), ordered[applied..], others).1
      {
        ok := ApplyAction(ordered[applied], others);
        assert ordered[applied..][1..] == ordered[applied + 1..];
        if !ok { return; }
        applied := applied + 1;
      }
    }

    /** A whole reconcile round: read, plan, execute. The outcome theorem as a caller sees it. */
    method Reconcile(spec: seq<Domain>, rest: seq<Action>, others: Others) returns (ok: bool)
      requires hasKeeper && UniqueNames(spec)
      requires forall a :: a in rest ==> !IsDomainAction(a)
      modifies this
      ensures ok <==> OthersSucceed(rest, others)
      ensures !KeysSucceed(rest, others) ==> State() == old(State()).(desired := Some(spec))
      ensures KeysSucceed(rest, others) ==> (Converged(State(), spec) <==> CanConverge(old(State()), spec))
    {
      SetDesiredSpec(spec);
      var domainPlan := ConvergeTrustDomains(CurrentDomains(Conn(hasKeeper, keeper, boot, desired)), spec);
      DomainPartOfPlan(CurrentDomains(State()), spec, domainPlan, rest, others);
      ConvergenceOutcome(State(), spec, domainPlan + rest, others);
      var _, _, done := ExecutePlan(domainPlan + rest, others);
      ok := done;
    }
  }

  /** Planned domain actions are all in the domain phase, in their planned order; the rest is elsewhere. */
  lemma DomainPartOfPlan(current: seq<Domain>, spec: seq<Domain>, dom: seq<Action>, rest: seq<Action>, others: Others)
    requires IsDomainPlan(current, spec, dom) && forall a :: a in rest ==> !IsDomainAction(a)
    ensures InPhase(dom + rest, 2) == dom
    ensures KeysSucceed(dom + rest, others) <==> KeysSucceed(rest, others)
    ensures OthersSucceed(dom + rest, others) <==> OthersSucceed(rest, others)
  {
    PlanHasDomainActionsOnly(current, spec, dom);
    AllInPhase(dom, 2);
    NoneInPhase(rest, 2);
    NoneInPhase(dom, 1);
    InPhaseAppend(dom, rest, 2);
    InPhaseAppend(dom, rest, 1);
    assert dom + [] == dom;
    assert [] + InPhase(rest, 1) == InPhase(rest, 1);
    assert forall a :: a in dom + rest <==> a in dom || a in rest;
  }

  lemma PlanHasDomainActionsOnly(current: seq<Domain>, spec: seq<Domain>, dom: seq<Action>)
    requires IsDomainPlan(current, spec, dom)
    ensures forall a :: a in dom ==> IsDomainAction(a)
  {
    forall a | a in dom ensures IsDomainAction(a) {
      PlanMember(current, spec, dom, a);
    }
  }

  lemma {:induction false} InPhaseAppend(a: seq<Action>, b: seq<Action>, phase: nat)
    ensures InPhase(a + b, phase) == InPhase(a, phase) + InPhase(b, phase)
    decreases |a|
  {
    if a == [] {
      assert a + b == b;
    } else {
      assert (a + b)[1..] == a[1..] + b;
      InPhaseAppend(a[1..], b, phase);
    }
  }

  lemma {:induction false} AllInPhase(a: seq<Action>, phase: nat)
    requires forall x :: x in a ==> PhaseOf(x.kind) == phase
    ensures InPhase(a, phase) == a
    decreases |a|
  {
    if a != [] {
      assert a[0] in a;
      AllInPhase(a[1..], phase);
    }
  }

  lemma NoneInPhase(a: seq<Action>, phase: nat)
    requires forall x :: x in a ==> PhaseOf(x.kind) != phase
    ensures InPhase(a, phase) == []
  {
    NonEmptyHasMember(InPhase(a, phase));
  }
}
