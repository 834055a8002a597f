/**
  Planning trust-domain convergence (pkg/soul/upgrade.go) and ordering a plan for
  execution (sortActions of pkg/operator/applier.go).
 */
module ConvergencePlan {
  import opened Basics
  import opened TrustDomains

  datatype ActionType =
    | AddTrustDomain | RemoveTrustDomain | UpdateTrustDomain
    | RotateSigningKey
    | ImportRevocations | ResetRevocations
    | AddSsfStream | RemoveSsfStream
    | AddPeer | RemovePeer
    | Unlisted(tag: string) // action types are strings: any other value

  datatype Action = Action(kind: ActionType, target: string)

  predicate DomainChanged(a: Domain, b: Domain) {
    a.enabled != b.enabled || a.issuer != b.issuer || a.jwksUrl != b.jwksUrl || a.kind != b.kind
  }

  /** The entry a map built from the list holds for `n`: the last one. */
  function Latest(ds: seq<Domain>, n: string): Option<Domain> {
    var named := Named(ds, n);
    if named == [] then None else Some(named[|named| - 1])
  }

  /** `n` is wanted but missing or different. */
  predicate NeedsUpsert(current: seq<Domain>, spec: seq<Domain>, n: string) {
    && Latest(spec, n).Some?
    && (Latest(current, n).None? || DomainChanged(Latest(current, n).value, Latest(spec, n).value))
  }

  ghost predicate DistinctTargets(actions: seq<Action>) {
    forall i, j :: 0 <= i < j < |actions| ==> actions[i].target != actions[j].target
  }

  ghost predicate Targets(actions: seq<Action>, n: string) {
    exists a :: a in actions && a.target == n
  }

  ghost predicate IsUpserts(current: seq<Domain>, spec: seq<Domain>, ups: seq<Action>) {
    && DistinctTargets(ups)
    && (forall a :: a in ups ==>
          NeedsUpsert(current, spec, a.target)
          && a.kind == if Latest(current, a.target).None? then AddTrustDomain else UpdateTrustDomain)
    && (forall n :: NeedsUpsert(current, spec, n) ==> Targets(ups, n))
  }

  ghost predicate NeedsRemoval(current: seq<Domain>, spec: seq<Domain>, n: string) {
    Latest(current, n).Some? && Latest(spec, n).None?
  }

  ghost predicate IsRemovals(current: seq<Domain>, spec: seq<Domain>, rems: seq<Action>) {
    && DistinctTargets(rems)
    && (forall a :: a in rems ==> a.kind == RemoveTrustDomain && NeedsRemoval(current, spec, a.target))
    && (forall n :: NeedsRemoval(current, spec, n) ==> Targets(rems, n))
  }

  /** A plan that some map iteration order produces: each needed upsert once, then each needed removal once. */
  ghost predicate IsDomainPlan(current: seq<Domain>, spec: seq<Domain>, plan: seq<Action>) {
    exists k: nat :: k <= |plan| && IsUpserts(current, spec, plan[..k]) && IsRemovals(current, spec, plan[k..])
  }

  /** Every planned action is needed. */
  lemma PlanMember(current: seq<Domain>, spec: seq<Domain>, plan: seq<Action>, a: Action)
    requires IsDomainPlan(current, spec, plan) && a in plan
    ensures PhaseOf(a.kind) == 2
    ensures NeedsUpsert(current, spec, a.target) || NeedsRemoval(current, spec, a.target)
  {
    var k: nat :| k <= |plan| && IsUpserts(current, spec, plan[..k]) && IsRemovals(current, spec, plan[k..]);
    var i :| 0 <= i < |plan| && plan[i] == a;
    if i < k {
      assert plan[..k][i] == a;
    } else {
      assert plan[k..][i - k] == a;
    }
  }

  lemma LatestAppend(ds: seq<Domain>, d: Domain, n: string)
    ensures Latest(ds + [d], n) == if n == d.name then Some(d) else Latest(ds, n)
  {
    NamedAppend(ds, [d], n);
    assert Named([d], n) == (if d.name == n then [d] else []) + Named([], n);
  }

  type DomainMap = map<string, Domain>

  ghost predicate MapOf(m: DomainMap, ds: seq<Domain>) {
    && (forall n :: n in m <==> Latest(ds, n).Some?)
    && (forall n :: n in m ==> m[n] == Latest(ds, n).value)
  }

  lemma MapOfAppend(m: DomainMap, ds: seq<Domain>, d: Domain)
    requires MapOf(m, ds)
    ensures MapOf(m[d.name := d], ds + [d])
  {
    forall n ensures Latest(ds + [d], n) == if n == d.name then Some(d) else Latest(ds, n) {
      LatestAppend(ds, d, n);
    }
  }

  /** Build the lookup map: a later entry of the same name wins. */
  method MapByName(ds: seq<Domain>) returns (m: DomainMap)
    ensures MapOf(m, ds)
  {
    m := map[];
    for i := 0 to |ds|
      invariant MapOf(m, ds[..i])
    {
      assert ds[..i + 1] == ds[..i] + [ds[i]];
      MapOfAppend(m, ds[..i], ds[i]);
      m := m[ds[i].name := ds[i]];
    }
    assert ds[..|ds|] == ds;
  }

  /** convergeTrustDomains, for every order in which the two maps may be walked. */
  method ConvergeTrustDomains(current: seq<Domain>, spec: seq<Domain>) returns (plan: seq<Action>)
    ensures IsDomainPlan(current, spec, plan)
  {
    var currentDomains := MapByName(current);
    var specDomains := MapByName(spec);
    var ups := PlanUpserts(currentDomains, specDomains);
    var rems := PlanRemovals(currentDomains, specDomains);
    PlannedFromMaps(current, spec, currentDomains, specDomains, ups, rems);
    plan := ups + rems;
    assert plan[..|ups|] == ups && plan[|ups|..] == rems;
  }

  /** `n` is wanted but missing or different, in terms of the lookup maps. */
  predicate Stale(current: DomainMap, spec: DomainMap, n: string) {
    n in spec && (n !in current || DomainChanged(current[n], spec[n]))
  }

  ghost predicate UpsertsFor(current: DomainMap, spec: DomainMap, pending: set<string>, ups: seq<Action>) {
    && DistinctTargets(ups)
    && (forall a :: a in ups ==>
          && a.target !in pending && Stale(current, spec, a.target)
          && a.kind == if a.target in current then UpdateTrustDomain else AddTrustDomain)
    && (forall n :: Stale(current, spec, n) && n !in pending ==> Targets(ups, n))
  }

  method PlanUpserts(current: DomainMap, spec: DomainMap) returns (ups: seq<Action>)
    ensures UpsertsFor(current, spec, {}, ups)
  {
    ups := [];
    var pending := spec.Keys;
    while pending != {}
      invariant pending <= spec.Keys
      invariant UpsertsFor(current, spec, pending, ups)
      decreases pending
    {
      var name :| name in pending;
      if name !in current {
        TargetsAppend(ups, Action(AddTrustDomain, name));
        ups := ups + [Action(AddTrustDomain, name)];
      } else if DomainChanged(current[name], spec[name]) {
        TargetsAppend(ups, Action(UpdateTrustDomain, name));
        ups := ups + [Action(UpdateTrustDomain, name)];
      }
      pending := pending - {name};
    }
  }

  ghost predicate RemovalsFor(current: DomainMap, spec: DomainMap, pending: set<string>, rems: seq<Action>) {
    && DistinctTargets(rems)
    && (forall a :: a in rems ==>
          a.kind == RemoveTrustDomain && a.target !in pending && a.target in current && a.target !in spec)
    && (forall n :: n in current && n !in spec && n !in pending ==> Targets(rems, n))
  }

  method PlanRemovals(current: DomainMap, spec: DomainMap) returns (rems: seq<Action>)
    ensures RemovalsFor(current, spec, {}, rems)
  {
    rems := [];
    var pending := current.Keys;
    while pending != {}
      invariant pending <= current.Keys
      invariant RemovalsFor(current, spec, pending, rems)
      decreases pending
    {
      var name :| name in pending;
      if name !in spec {
        TargetsAppend(rems, Action(RemoveTrustDomain, name));
        rems := rems + [Action(RemoveTrustDomain, name)];
      }
      pending := pending - {name};
    }
  }

  lemma TargetsAppend(actions: seq<Action>, b: Action)
    ensures forall n :: Targets(actions + [b], n) <==> Targets(actions, n) || n == b.target
    ensures forall a :: a in actions + [b] <==> a in actions || a == b
  {
    assert b in actions + [b];
    assert forall a :: a in actions ==> a in actions + [b];
  }

  lemma PlannedFromMaps(current: seq<Domain>, spec: seq<Domain>, cm: DomainMap, sm: DomainMap,
                        ups: seq<Action>, rems: seq<Action>)
    requires MapOf(cm, current) && MapOf(sm, spec)
    requires UpsertsFor(cm, sm, {}, ups) && RemovalsFor(cm, sm, {}, rems)
    ensures IsUpserts(current, spec, ups) && IsRemovals(current, spec, rems)
  {
    forall n ensures NeedsUpsert(current, spec, n) <==> Stale(cm, sm, n) {}
    forall n ensures NeedsRemoval(current, spec, n) <==> n in cm && n !in sm {}
  }

  // ---- Execution order ----

  /** Keys, trust domains, streams, peers, revocations; an unlisted type is in no phase. */
  function PhaseOf(k: ActionType): nat {
    match k
    case RotateSigningKey => 1
    case AddTrustDomain | UpdateTrustDomain | RemoveTrustDomain => 2
    case AddSsfStream | RemoveSsfStream => 3
    case AddPeer | RemovePeer => 4
    case ImportRevocations | ResetRevocations => 5
    case Unlisted(_) => 0
  }

  function InPhase(actions: seq<Action>, phase: nat): (r: seq<Action>)
    ensures forall a :: a in r <==> a in actions && PhaseOf(a.kind) == phase
  {
    if actions == [] then []
    else (if PhaseOf(actions[0].kind) == phase then [actions[0]] else []) + InPhase(actions[1..], phase)
  }

  function Ordered(actions: seq<Action>): seq<Action> {
    InPhase(actions, 1) + InPhase(actions, 2) + InPhase(actions, 3) + InPhase(actions, 4) + InPhase(actions, 5)
  }

  /** One pass of sortActions. */
  method AppendPhase(sorted: seq<Action>, actions: seq<Action>, phase: nat) returns (r: seq<Action>)
    ensures r == sorted + InPhase(actions, phase)
  {
    r := sorted;
    for i := 0 to |actions|
      invariant r + InPhase(actions[i..], phase) == sorted + InPhase(actions, phase)
    {
      assert actions[i..][1..] == actions[i + 1..];
      if PhaseOf(actions[i].kind) == phase {
        r := r + [actions[i]];
      }
    }
  }

  method SortActions(actions: seq<Action>) returns (sorted: seq<Action>)
    ensures sorted == Ordered(actions)
  {
    sorted := AppendPhase([], actions, 1);
    sorted := AppendPhase(sorted, actions, 2);
    sorted := AppendPhase(sorted, actions, 3);
    sorted := AppendPhase(sorted, actions, 4);
    sorted := AppendPhase(sorted, actions, 5);
  }

  lemma {:induction false} CountInPhase(actions: seq<Action>, phase: nat, a: Action)
    ensures multiset(InPhase(actions, phase))[a] == if PhaseOf(a.kind) == phase then multiset(actions)[a] else 0
    decreases |actions|
  {
    if actions != [] {
      assert actions == [actions[0]] + actions[1..];
      CountInPhase(actions[1..], phase, a);
    }
  }

  /** Ordering keeps the listed actions, each as often as planned, and silently drops exactly the unlisted ones. */
  lemma OrderingKeepsListedActions(actions: seq<Action>, a: Action)
    ensures multiset(Ordered(actions))[a] == if a.kind.Unlisted? then 0 else multiset(actions)[a]
  {
    CountInPhase(actions, 1, a);
    CountInPhase(actions, 2, a);
    CountInPhase(actions, 3, a);
    CountInPhase(actions, 4, a);
    CountInPhase(actions, 5, a);
  }

  predicate IsTrustDomainKind(k: ActionType) {
    k.AddTrustDomain? || k.UpdateTrustDomain? || k.RemoveTrustDomain?
  }

  predicate IsStreamKind(k: ActionType) {
    k.AddSsfStream? || k.RemoveSsfStream?
  }

  predicate IsPeerKind(k: ActionType) {
    k.AddPeer? || k.RemovePeer?
  }

  /** By type: keys come first, then trust domains, streams and peers, and revocations last. */
  lemma OrderingIsByType(actions: seq<Action>, i: nat, j: nat)
    requires i < j < |Ordered(actions)|
    ensures var a, b := Ordered(actions)[i].kind, Ordered(actions)[j].kind;
            && (b.RotateSigningKey? ==> a.RotateSigningKey?)
            && (IsTrustDomainKind(b) ==> a.RotateSigningKey? || IsTrustDomainKind(a))
            && (IsStreamKind(b) ==> a.RotateSigningKey? || IsTrustDomainKind(a) || IsStreamKind(a))
            && (IsPeerKind(b) ==> !a.ImportRevocations? && !a.ResetRevocations?)
            && !a.Unlisted? && !b.Unlisted?
  {
    OrderingIsByPhase(actions, i, j);
    OrderedIsListed(actions, i);
    OrderedIsListed(actions, j);
  }

  lemma OrderedIsListed(actions: seq<Action>, i: nat)
    requires i < |Ordered(actions)|
    ensures !Ordered(actions)[i].kind.Unlisted?
  {
    assert Ordered(actions)[i] in multiset(Ordered(actions));
    OrderingKeepsListedActions(actions, Ordered(actions)[i]);
  }

  /** The plan read off the two lists: what is added, updated and removed. */
  lemma PlanSays(current: seq<Domain>, spec: seq<Domain>, plan: seq<Action>, n: string)
    requires IsDomainPlan(current, spec, plan)
    ensures Action(AddTrustDomain, n) in plan <==> Named(spec, n) != [] && Named(current, n) == []
    ensures Action(RemoveTrustDomain, n) in plan <==> Named(spec, n) == [] && Named(current, n) != []
    ensures Action(UpdateTrustDomain, n) in plan <==>
            && Named(spec, n) != [] && Named(current, n) != []
            && Named(spec, n)[|Named(spec, n)| - 1] != Named(current, n)[|Named(current, n)| - 1]
  {
    var k: nat :| k <= |plan| && IsUpserts(current, spec, plan[..k]) && IsRemovals(current, spec, plan[k..]);
    var ups, rems := plan[..k], plan[k..];
    assert plan == ups + rems;
    assert forall a :: a in plan <==> a in ups || a in rems;
    if Named(spec, n) != [] && Named(current, n) != [] { ChangedIffDifferent(current, spec, n); }
    if NeedsUpsert(current, spec, n) { assert Targets(ups, n); }
    if NeedsRemoval(current, spec, n) { assert Targets(rems, n); }
  }

  lemma ChangedIffDifferent(current: seq<Domain>, spec: seq<Domain>, n: string)
    requires Named(spec, n) != [] && Named(current, n) != []
    ensures var a, b := Named(current, n)[|Named(current, n)| - 1], Named(spec, n)[|Named(spec, n)| - 1];
            DomainChanged(a, b) <==> a != b
  {
    NamedMembers(current, n);
    NamedMembers(spec, n);
    assert Named(current, n)[|Named(current, n)| - 1] in Named(current, n);
    assert Named(spec, n)[|Named(spec, n)| - 1] in Named(spec, n);
  }

  lemma OrderingIsByPhase(actions: seq<Action>, i: nat, j: nat)
    requires i < j < |Ordered(actions)|
    ensures PhaseOf(Ordered(actions)[i].kind) <= PhaseOf(Ordered(actions)[j].kind)
  {
    var p1, p2, p3 := InPhase(actions, 1), InPhase(actions, 2), InPhase(actions, 3);
    var p4, p5 := InPhase(actions, 4), InPhase(actions, 5);
    forall k | 0 <= k < |Ordered(actions)|
      ensures PhaseOf(Ordered(actions)[k].kind) ==
              if k < |p1| then 1 else if k < |p1| + |p2| then 2 else if k < |p1| + |p2| + |p3| then 3
              else if k < |p1| + |p2| + |p3| + |p4| then 4 else 5
    {
      var c := Ordered(actions)[k];
      if k < |p1| { assert c == p1[k]; }
      else if k < |p1| + |p2| { assert c == p2[k - |p1|]; }
      else if k < |p1| + |p2| + |p3| { assert c == p3[k - |p1| - |p2|]; }
      else if k < |p1| + |p2| + |p3| + |p4| { assert c == p4[k - |p1| - |p2| - |p3|]; }
      else { assert c == p5[k - |p1| - |p2| - |p3| - |p4|]; }
    }
  }
}
