/**
  Many inbound calls at once (pkg/federation/inbound.go): the dedup block and the update of the
  index are separate steps, so calls that were let through apply their revocations later, in any
  order.
 */
module InboundFlow {
  import opened Basics
  import opened Revocation
  import opened DedupWindow
  import opened Inbound

  datatype Settings = Settings(requireMtls: bool, trusted: set<string>, maxSeen: nat)

  /** A signal that was let through, with the expiry it was given then. */
  datatype Admitted = Admitted(signal: Signal, expiry: int)

  datatype Flow = Flow(accepted: seq<string>, order: seq<string>, pending: seq<Admitted>, applied: seq<Admitted>,
                       index: Index)

  datatype Event =
    | Arrive(signal: Signal, at: int) // a call runs up to and including the dedup block
    | Update(i: nat, at: int)         // a pending call revokes its subject

  function Step(cfg: Settings, f: Flow, e: Event): Flow
    requires cfg.maxSeen >= 1
  {
    match e
    case Arrive(s, at) =>
      if Admission(cfg.requireMtls, cfg.trusted, f.order, s, at).Some? then f
      else
        f.(accepted := f.accepted + IdOf(s), order := Remembered(cfg.maxSeen, f.order, s),
           pending := f.pending + [Admitted(s, EffectiveExpiry(s, at))])
    case Update(i, at) =>
      if i >= |f.pending| then f
      else
        var a := f.pending[i];
        f.(pending := f.pending[..i] + f.pending[i + 1..], applied := f.applied + [a],
           index := Revoked(f.index, a.signal.subject, ReasonOf(a.signal), Some(a.expiry), at))
  }

  function Run(cfg: Settings, f: Flow, es: seq<Event>): Flow
    requires cfg.maxSeen >= 1
    decreases |es|
  {
    if es == [] then f else Run(cfg, Step(cfg, f, es[0]), es[1..])
  }

  // ---- Every accepted event is applied once ----

  /** The non-empty event ids of `xs`. */
  function Ids(xs: seq<Admitted>): multiset<string> {
    if xs == [] then multiset{} else multiset(IdOf(xs[0].signal)) + Ids(xs[1..])
  }

  lemma {:induction false} IdsAppend(a: seq<Admitted>, b: seq<Admitted>)
    ensures Ids(a + b) == Ids(a) + Ids(b)
    decreases |a|
  {
    if a == [] {
      assert a + b == b;
    } else {
      assert (a + b)[1..] == a[1..] + b;
      IdsAppend(a[1..], b);
    }
  }

  lemma IdsOfOne(x: Admitted)
    ensures Ids([x]) == multiset(IdOf(x.signal))
  {
    assert [x][1..] == [];
  }

  lemma {:induction false} IdsWithout(xs: seq<Admitted>, i: nat)
    requires i < |xs|
    ensures Ids(xs) == Ids(xs[..i] + xs[i + 1..]) + multiset(IdOf(xs[i].signal))
    decreases |xs|
  {
    var rest := xs[..i] + xs[i + 1..];
    if i == 0 {
      assert rest == xs[1..];
    } else {
      assert rest[0] == xs[0] && rest[1..] == xs[1..][..i - 1] + xs[1..][i..];
      IdsWithout(xs[1..], i - 1);
    }
  }

  /** The signal applied last for subject `k`. */
  function LastFor(applied: seq<Admitted>, k: string): Option<Admitted> {
    if applied == [] then None
    else if applied[|applied| - 1].signal.subject == k then Some(applied[|applied| - 1])
    else LastFor(applied[..|applied| - 1], k)
  }

  lemma LastForAppend(applied: seq<Admitted>, a: Admitted, k: string)
    ensures LastFor(applied + [a], k) == if a.signal.subject == k then Some(a) else LastFor(applied, k)
  {
    assert (applied + [a])[..|applied|] == applied;
  }

  /** The index holds what was applied last for each subject, and otherwise what `base` held. */
  ghost predicate Reflects(index: Index, base: Index, applied: seq<Admitted>) {
    forall k ::
      match LastFor(applied, k)
      case Some(a) =>
        k in index && index[k].expiresAt == Some(a.expiry) && index[k].reason == ReasonOf(a.signal)
      case None =>
        (k in index <==> k in base) && (k in index ==> index[k] == base[k])
  }

  /** Every accepted id is pending or applied, as often as it was accepted. */
  ghost predicate Conserved(accepted: seq<string>, pending: seq<Admitted>, applied: seq<Admitted>) {
    Ids(pending) + Ids(applied) == multiset(accepted)
  }

  /** The signal passed the checks, and keeps the expiry it came with. */
  ghost predicate Vetted(cfg: Settings, a: Admitted) {
    && Authentic(cfg.requireMtls, a.signal) && a.signal.source in cfg.trusted && a.signal.subject != ""
    && (a.signal.expiresAt.Some? ==> a.expiry == a.signal.expiresAt.value)
  }

  /** Nothing else is pending or was applied. */
  ghost predicate AllVetted(cfg: Settings, f: Flow) {
    && (forall a :: a in f.pending ==> Vetted(cfg, a))
    && (forall a :: a in f.applied ==> Vetted(cfg, a))
  }

  ghost predicate Inv(cfg: Settings, base: Index, f: Flow)
    requires cfg.maxSeen >= 1
  {
    && Remembers(cfg.maxSeen, f.accepted, f.order)
    && Conserved(f.accepted, f.pending, f.applied)
    && AllVetted(cfg, f) && Reflects(f.index, base, f.applied)
  }

  lemma StepKeepsWindow(cfg: Settings, f: Flow, e: Event)
    requires cfg.maxSeen >= 1 && Remembers(cfg.maxSeen, f.accepted, f.order)
    ensures Remembers(cfg.maxSeen, Step(cfg, f, e).accepted, Step(cfg, f, e).order)
  {
    assert f.accepted + [] == f.accepted;
    if e.Arrive? && e.signal.eventJti != "" && e.signal.eventJti !in f.order {
      AcceptKeepsWindow(cfg.maxSeen, f.accepted, f.order, e.signal.eventJti);
    }
  }

  lemma ArriveConserves(f: Flow, a: Admitted)
    requires Conserved(f.accepted, f.pending, f.applied)
    ensures Conserved(f.accepted + IdOf(a.signal), f.pending + [a], f.applied)
  {
    IdsAppend(f.pending, [a]);
    IdsOfOne(a);
  }

  lemma UpdateConserves(f: Flow, i: nat)
    requires Conserved(f.accepted, f.pending, f.applied) && i < |f.pending|
    ensures Conserved(f.accepted, f.pending[..i] + f.pending[i + 1..], f.applied + [f.pending[i]])
  {
    IdsWithout(f.pending, i);
    IdsAppend(f.applied, [f.pending[i]]);
    IdsOfOne(f.pending[i]);
  }

  lemma ArriveStepConserves(cfg: Settings, f: Flow, s: Signal, at: int)
    requires cfg.maxSeen >= 1 && Conserved(f.accepted, f.pending, f.applied)
    ensures var f' := Step(cfg, f, Arrive(s, at)); Conserved(f'.accepted, f'.pending, f'.applied)
  {
    ArriveConserves(f, Admitted(s, EffectiveExpiry(s, at)));
  }

  lemma UpdateStepConserves(cfg: Settings, f: Flow, i: nat, at: int)
    requires cfg.maxSeen >= 1 && Conserved(f.accepted, f.pending, f.applied)
    ensures var f' := Step(cfg, f, Update(i, at)); Conserved(f'.accepted, f'.pending, f'.applied)
  {
    if i < |f.pending| { UpdateConserves(f, i); }
  }

  lemma StepConserves(cfg: Settings, f: Flow, e: Event)
    requires cfg.maxSeen >= 1 && Conserved(f.accepted, f.pending, f.applied)
    ensures var f' := Step(cfg, f, e); Conserved(f'.accepted, f'.pending, f'.applied)
  {
    match e {
      case Arrive(s, at) => ArriveStepConserves(cfg, f, s, at);
      case Update(i, at) => UpdateStepConserves(cfg, f, i, at);
    }
  }

  lemma UpdateReflects(index: Index, base: Index, applied: seq<Admitted>, a: Admitted, at: int)
    requires Reflects(index, base, applied) && a.signal.subject != ""
    ensures Reflects(Revoked(index, a.signal.subject, ReasonOf(a.signal), Some(a.expiry), at), base, applied + [a])
  {
    forall k ensures LastFor(applied + [a], k) == if a.signal.subject == k then Some(a) else LastFor(applied, k) {
      LastForAppend(applied, a, k);
    }
  }

  lemma StepReflects(cfg: Settings, base: Index, f: Flow, e: Event)
    requires cfg.maxSeen >= 1 && AllVetted(cfg, f) && Reflects(f.index, base, f.applied)
    ensures var f' := Step(cfg, f, e); AllVetted(cfg, f') && Reflects(f'.index, base, f'.applied)
  {
    if e.Update? && e.i < |f.pending| {
      assert Vetted(cfg, f.pending[e.i]);
      UpdateReflects(f.index, base, f.applied, f.pending[e.i], e.at);
    }
  }

  lemma StepKeepsInv(cfg: Settings, base: Index, f: Flow, e: Event)
    requires cfg.maxSeen >= 1 && Inv(cfg, base, f)
    ensures Inv(cfg, base, Step(cfg, f, e))
  {
    StepKeepsWindow(cfg, f, e);
    StepConserves(cfg, f, e);
    StepReflects(cfg, base, f, e);
  }

  /**
    In every interleaving of arriving and finishing calls: the ids accepted are, with
    multiplicity, those pending and those applied, nothing is applied that a check refuses, the
    remembered ids are the window of DedupWindow, and each subject's entry is that of the signal
    applied, not let through, last.
   */
  lemma {:induction false} FlowInvariant(cfg: Settings, base: Index, f: Flow, es: seq<Event>)
    requires cfg.maxSeen >= 1 && Inv(cfg, base, f)
    ensures Inv(cfg, base, Run(cfg, f, es))
    decreases |es|
  {
    if es != [] {
      StepKeepsInv(cfg, base, f, es[0]);
      FlowInvariant(cfg, base, Step(cfg, f, es[0]), es[1..]);
    }
  }

  /** An event redelivered inside the guaranteed window starts no further update, even while the first is pending. */
  lemma RedeliveryStartsNothing(cfg: Settings, base: Index, f: Flow, es: seq<Event>, s: Signal, i: nat, at: int)
    requires cfg.maxSeen >= 1 && Inv(cfg, base, f)
    requires var accepted := Run(cfg, f, es).accepted;
             && i < |accepted| && accepted[i] == s.eventJti && s.eventJti != ""
             && |accepted| - i <= cfg.maxSeen + 1 - EvictCount(cfg.maxSeen)
    ensures Step(cfg, Run(cfg, f, es), Arrive(s, at)) == Run(cfg, f, es)
  {
    var end := Run(cfg, f, es);
    FlowInvariant(cfg, base, f, es);
    RedeliveryIsSuppressed(cfg.maxSeen, end.accepted, end.order, i);
  }
}
