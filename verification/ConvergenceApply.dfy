/**
  Executing a convergence plan on the in-process connection (pkg/operator/applier.go,
  pkg/operator/inprocess.go): what the live list of trust domains ends up as.
 */
module ConvergenceApply {
  import opened Basics
  import opened TrustDomains
  import opened ConvergencePlan

  /** Boot-time configuration carries no domain type. */
  datatype BootDomain = BootDomain(name: string, issuer: string, jwksUrl: string, enabled: bool)

  datatype Conn = Conn(hasKeeper: bool, keeper: seq<Domain>, boot: seq<BootDomain>, desired: Option<seq<Domain>>)

  function BootList(boot: seq<BootDomain>): (r: seq<Domain>)
    ensures |r| == |boot|
  {
    seq(|boot|, i requires 0 <= i < |boot| =>
      Domain(boot[i].name, "", boot[i].issuer, boot[i].jwksUrl, boot[i].enabled))
  }

  /** The keeper's list, or the boot configuration when that list is empty. */
  function CurrentDomains(c: Conn): seq<Domain> {
    if c.hasKeeper && c.keeper != [] then c.keeper else BootList(c.boot)
  }

  function Persisted(c: Conn, ds: seq<Domain>): Conn {
    if c.hasKeeper then c.(keeper := ds) else c
  }

  /** lookupDesiredDomain: the first match. */
  function Desired(c: Conn, n: string): Option<Domain> {
    if c.desired.None? || Named(c.desired.value, n) == [] then None else Some(Named(c.desired.value, n)[0])
  }

  predicate IsDomainAction(a: Action) {
    PhaseOf(a.kind) == 2
  }

  /** Whether each action outside trust domains succeeds; none of them touches the domain list. */
  type Others = Action -> bool

  function ApplyOk(c: Conn, a: Action, others: Others): bool {
    if a.kind.AddTrustDomain? || a.kind.UpdateTrustDomain? then Desired(c, a.target).Some?
    else if a.kind.RemoveTrustDomain? then Named(CurrentDomains(c), a.target) != []
    else others(a)
  }

  function Applied(c: Conn, a: Action, others: Others): Conn {
    if !ApplyOk(c, a, others) || !IsDomainAction(a) then c
    else if a.kind.RemoveTrustDomain? then Persisted(c, Without(CurrentDomains(c), a.target))
    else Persisted(c, Upserted(CurrentDomains(c), Desired(c, a.target).value))
  }

  /** The live list is the keeper's, or else the boot entries with name, issuer, key location and switch. */
  lemma LiveList(c: Conn, i: nat)
    ensures c.hasKeeper && c.keeper != [] ==> CurrentDomains(c) == c.keeper
    ensures !c.hasKeeper || c.keeper == [] ==>
              && |CurrentDomains(c)| == |c.boot|
              && (i < |c.boot| ==>
                    var d := CurrentDomains(c)[i];
                    && d.name == c.boot[i].name && d.issuer == c.boot[i].issuer && d.jwksUrl == c.boot[i].jwksUrl
                    && d.enabled == c.boot[i].enabled && d.kind == "")
  {
  }

  lemma {:induction false} NamedHead(ds: seq<Domain>, n: string, i: nat)
    requires i < |ds| && ds[i].name == n && forall j :: 0 <= j < i ==> ds[j].name != n
    ensures Named(ds, n) != [] && Named(ds, n)[0] == ds[i]
    decreases |ds|
  {
    if i > 0 { NamedHead(ds[1..], n, i - 1); }
  }

  /** The desired entry of a name is the first that the spec lists. */
  lemma DesiredIsFirst(c: Conn, n: string, i: nat)
    requires c.desired.Some? && i < |c.desired.value| && c.desired.value[i].name == n
    requires forall j :: 0 <= j < i ==> c.desired.value[j].name != n
    ensures Desired(c, n) == Some(c.desired.value[i])
  {
    NamedHead(c.desired.value, n, i);
  }

  /** An upsert fails exactly if the spec lacks its target, a removal exactly if the live list does. */
  lemma AppliesIff(c: Conn, a: Action, others: Others)
    ensures a.kind.AddTrustDomain? || a.kind.UpdateTrustDomain? ==>
              (ApplyOk(c, a, others) <==> c.desired.Some? && exists d :: d in c.desired.value && d.name == a.target)
    ensures a.kind.RemoveTrustDomain? ==>
              (ApplyOk(c, a, others) <==> exists d :: d in CurrentDomains(c) && d.name == a.target)
    ensures !ApplyOk(c, a, others) || !c.hasKeeper ==> Applied(c, a, others) == c
  {
    if c.desired.Some? {
      NamedMembers(c.desired.value, a.target);
      NonEmptyHasMember(Named(c.desired.value, a.target));
    }
    NamedMembers(CurrentDomains(c), a.target);
    NonEmptyHasMember(Named(CurrentDomains(c), a.target));
  }

  /** Apply in order, stopping at the first failure; the number says how many were applied. */
  function Execute(c: Conn, actions: seq<Action>, others: Others): (r: (Conn, nat))
    ensures r.1 <= |actions|
    decreases |actions|
  {
    if actions == [] || !ApplyOk(c, actions[0], others) then (c, 0)
    else
      var (c', n) := Execute(Applied(c, actions[0], others), actions[1..], others);
      (c', n + 1)
  }

  ghost predicate Completes(c: Conn, actions: seq<Action>, others: Others) {
    Execute(c, actions, others).1 == |actions|
  }

  /** No write of the run leaves the keeper's list empty, so no later step falls back to the boot configuration. */
  ghost predicate NeverEmptied(c: Conn, actions: seq<Action>, others: Others)
    decreases |actions|
  {
    actions != [] && ApplyOk(c, actions[0], others) ==>
      && (IsDomainAction(actions[0]) ==> Applied(c, actions[0], others).keeper != [])
      && NeverEmptied(Applied(c, actions[0], others), actions[1..], others)
  }

  lemma {:induction false} ExecuteAppend(c: Conn, a: seq<Action>, b: seq<Action>, others: Others)
    requires Completes(c, a, others)
    ensures var mid := Execute(c, a, others).0;
            && Execute(c, a + b, others).0 == Execute(mid, b, others).0
            && (Completes(mid, b, others) <==> Completes(c, a + b, others))
            && (NeverEmptied(c, a, others) && NeverEmptied(mid, b, others) ==> NeverEmptied(c, a + b, others))
    decreases |a|
  {
    if a == [] {
      assert a + b == b;
    } else {
      assert (a + b)[1..] == a[1..] + b;
      ExecuteAppend(Applied(c, a[0], others), a[1..], b, others);
    }
  }

  /** What follows a failure is never reached. */
  lemma {:induction false} ExecuteStops(c: Conn, a: seq<Action>, b: seq<Action>, others: Others)
    requires !Completes(c, a, others)
    ensures Execute(c, a + b, others) == Execute(c, a, others)
    ensures NeverEmptied(c, a, others) ==> NeverEmptied(c, a + b, others)
    decreases |a|
  {
    if ApplyOk(c, a[0], others) {
      assert (a + b)[1..] == a[1..] + b;
      ExecuteStops(Applied(c, a[0], others), a[1..], b, others);
    }
  }

  ghost predicate Succeed(actions: seq<Action>, others: Others) {
    forall a :: a in actions ==> others(a)
  }

  /** Actions outside trust domains leave the connection alone, and complete exactly if all succeed. */
  lemma {:induction false} OthersAreInert(c: Conn, actions: seq<Action>, others: Others)
    requires forall a :: a in actions ==> !IsDomainAction(a)
    ensures Execute(c, actions, others).0 == c && NeverEmptied(c, actions, others)
    ensures Completes(c, actions, others) <==> Succeed(actions, others)
    decreases |actions|
  {
    if actions != [] {
      assert actions[0] in actions;
      assert forall a :: a in actions <==> a == actions[0] || a in actions[1..];
      OthersAreInert(c, actions[1..], others);
    }
  }

  lemma OthersFirst(c: Conn, keys: seq<Action>, b: seq<Action>, others: Others)
    requires forall a :: a in keys ==> !IsDomainAction(a)
    ensures Execute(c, keys + b, others).0 == if Succeed(keys, others) then Execute(c, b, others).0 else c
    ensures Completes(c, keys + b, others) <==> Succeed(keys, others) && Completes(c, b, others)
    ensures NeverEmptied(c, b, others) ==> NeverEmptied(c, keys + b, others)
  {
    OthersAreInert(c, keys, others);
    if Succeed(keys, others) {
      ExecuteAppend(c, keys, b, others);
    } else {
      ExecuteStops(c, keys, b, others);
    }
  }

  lemma OthersLast(c: Conn, a: seq<Action>, rest: seq<Action>, others: Others)
    requires Completes(c, a, others) && forall x :: x in rest ==> !IsDomainAction(x)
    ensures Execute(c, a + rest, others).0 == Execute(c, a, others).0
    ensures Completes(c, a + rest, others) <==> Succeed(rest, others)
    ensures NeverEmptied(c, a, others) ==> NeverEmptied(c, a + rest, others)
  {
    OthersAreInert(Execute(c, a, others).0, rest, others);
    ExecuteAppend(c, a, rest, others);
  }

  // ---- Upserts ----

  ghost predicate AreUpserts(c: Conn, ups: seq<Action>) {
    && DistinctTargets(ups)
    && forall a :: a in ups ==> (a.kind.AddTrustDomain? || a.kind.UpdateTrustDomain?) && Desired(c, a.target).Some?
  }

  lemma UpsertStep(c: Conn, a: Action, others: Others, n: string)
    requires c.hasKeeper && (a.kind.AddTrustDomain? || a.kind.UpdateTrustDomain?) && Desired(c, a.target).Some?
    ensures var c' := Applied(c, a, others);
            && c' == c.(keeper := c'.keeper) && c'.keeper != [] && CurrentDomains(c') == c'.keeper
            && Named(CurrentDomains(c'), n) ==
               if n == a.target then Upserted(Named(CurrentDomains(c), n), Desired(c, n).value)
               else Named(CurrentDomains(c), n)
  {
    var d := Desired(c, a.target).value;
    NamedMembers(c.desired.value, a.target);
    assert d in Named(c.desired.value, a.target);
    UpsertByName(CurrentDomains(c), d, n);
  }

  /** After all upserts, a targeted name has its first entry replaced, or its only one added; others keep theirs. */
  lemma {:induction false} RunUpserts(c: Conn, ups: seq<Action>, others: Others, n: string)
    requires c.hasKeeper && AreUpserts(c, ups)
    ensures Completes(c, ups, others) && NeverEmptied(c, ups, others)
    ensures var c' := Execute(c, ups, others).0;
            && c' == c.(keeper := c'.keeper)
            && (Targets(ups, n) ==> Desired(c, n).Some?)
            && Named(CurrentDomains(c'), n) ==
               if Targets(ups, n) then Upserted(Named(CurrentDomains(c), n), Desired(c, n).value)
               else Named(CurrentDomains(c), n)
    decreases |ups|
  {
    if ups != [] {
      var a := ups[0];
      assert a in ups;
      UpsertStep(c, a, others, n);
      var c1 := Applied(c, a, others);
      TargetsSplit(ups, n);
      assert AreUpserts(c1, ups[1..]) by {
        assert forall b :: b in ups[1..] ==> b in ups;
      }
      RunUpserts(c1, ups[1..], others, n);
      assert Desired(c1, n) == Desired(c, n);
    }
  }

  lemma TargetsSplit(actions: seq<Action>, n: string)
    requires actions != [] && DistinctTargets(actions)
    ensures Targets(actions, n) <==> n == actions[0].target || Targets(actions[1..], n)
    ensures !Targets(actions[1..], actions[0].target)
  {
    assert actions == [actions[0]] + actions[1..];
    assert actions[0] in actions;
    if Targets(actions[1..], n) {
      var a :| a in actions[1..] && a.target == n;
      assert a in actions;
    }
  }

  // ---- Removals ----

  ghost predicate AreRemovals(c: Conn, rems: seq<Action>) {
    && DistinctTargets(rems)
    && forall a :: a in rems ==> a.kind.RemoveTrustDomain? && Named(CurrentDomains(c), a.target) != []
  }

  lemma RemoveStep(c: Conn, a: Action, others: Others, kept: string, n: string)
    requires c.hasKeeper && a.kind.RemoveTrustDomain? && Named(CurrentDomains(c), a.target) != []
    requires kept != a.target && Named(CurrentDomains(c), kept) != []
    ensures ApplyOk(c, a, others)
    ensures var c' := Applied(c, a, others);
            && c' == c.(keeper := c'.keeper) && c'.keeper != []
            && Named(CurrentDomains(c'), n) == if n == a.target then [] else Named(CurrentDomains(c), n)
  {
    WithoutByName(CurrentDomains(c), a.target, n);
    WithoutByName(CurrentDomains(c), a.target, kept);
  }

  /** While some other name stays, removals take out exactly their targets and never empty the list. */
  lemma {:induction false} RunRemovals(c: Conn, rems: seq<Action>, others: Others, kept: string, n: string)
    requires c.hasKeeper && AreRemovals(c, rems)
    requires !Targets(rems, kept) && Named(CurrentDomains(c), kept) != []
    ensures Completes(c, rems, others) && NeverEmptied(c, rems, others)
    ensures var c' := Execute(c, rems, others).0;
            && c' == c.(keeper := c'.keeper)
            && Named(CurrentDomains(c'), n) == if Targets(rems, n) then [] else Named(CurrentDomains(c), n)
    decreases |rems|
  {
    if rems != [] {
      var a := rems[0];
      assert a in rems;
      TargetsSplit(rems, kept);
      TargetsSplit(rems, n);
      RemoveStep(c, a, others, kept, n);
      var c1 := Applied(c, a, others);
      forall b | b in rems[1..] ensures b.kind.RemoveTrustDomain? && Named(CurrentDomains(c1), b.target) != [] {
        assert b in rems && Targets(rems[1..], b.target);
        RemoveStep(c, a, others, kept, b.target);
      }
      RemoveStep(c, a, others, kept, kept);
      RunRemovals(c1, rems[1..], others, kept, n);
    }
  }

  lemma LastRemoval(c: Conn, a: Action, others: Others)
    requires c.hasKeeper && a.kind.RemoveTrustDomain? && Named(CurrentDomains(c), a.target) != []
    requires forall n :: Named(CurrentDomains(c), n) != [] ==> n == a.target
    ensures ApplyOk(c, a, others) && Applied(c, a, others) == c.(keeper := [])
  {
    forall n ensures Named(Without(CurrentDomains(c), a.target), n) == [] {
      WithoutByName(CurrentDomains(c), a.target, n);
    }
    EmptyByName(Without(CurrentDomains(c), a.target));
  }

  /** Removing every name empties the keeper's list with the last removal, and the boot configuration shows again. */
  lemma {:induction false} RunFullRemoval(c: Conn, rems: seq<Action>, others: Others)
    requires c.hasKeeper && AreRemovals(c, rems) && rems != []
    requires forall n :: Named(CurrentDomains(c), n) != [] ==> Targets(rems, n)
    ensures Completes(c, rems, others)
    ensures Execute(c, rems, others).0 == c.(keeper := [])
    decreases |rems|
  {
    var a := rems[0];
    assert a in rems;
    forall n ensures Targets(rems, n) <==> n == a.target || Targets(rems[1..], n) {
      TargetsSplit(rems, n);
    }
    if |rems| == 1 {
      assert rems[1..] == [];
      LastRemoval(c, a, others);
    } else {
      var kept := rems[1].target;
      assert rems[1] in rems && rems[1] in rems[1..];
      var c1 := Applied(c, a, others);
      forall n ensures Named(CurrentDomains(c1), n) == if n == a.target then [] else Named(CurrentDomains(c), n) {
        RemoveStep(c, a, others, kept, n);
      }
      RemoveStep(c, a, others, kept, kept);
      TargetsSplit(rems, kept);
      forall b | b in rems[1..] ensures b.kind.RemoveTrustDomain? && Named(CurrentDomains(c1), b.target) != [] {
        assert b in rems && Targets(rems[1..], b.target);
      }
      RunFullRemoval(c1, rems[1..], others);
    }
  }
}
