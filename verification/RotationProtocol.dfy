/**
  Signing-key rotation (pkg/lifecycle/rotation_workflow.go) as a step protocol, interleaved
  with token signing (pkg/exchange/engine.go) and the clock. An activity attempt may fail
  before its effect, take effect and be acknowledged, or take effect and lose its
  acknowledgement; it is retried up to three times.
 */
module RotationProtocol {
  import opened Basics
  import opened Keyrings
  import opened RotationActivities

  const DEFAULT_GRACE: nat := 300        // 5 minutes, in seconds
  const DEFAULT_PROPAGATION: nat := 30
  const DEFAULT_TTL: nat := 300
  const DEFAULT_EXECUTION_TTL: nat := 30

  /**
    Rotation parameters, where 0 stands for "use the default" and a negative wait ends at once,
    and the engine's token lifetimes.
   */
  datatype Config = Config(gracePeriod: int, propagationTimeout: int, ttl: int, executionTtl: int) {
    function Grace(): nat { Wait(gracePeriod, DEFAULT_GRACE) }
    function Propagation(): nat { Wait(propagationTimeout, DEFAULT_PROPAGATION) }
    function LongestTtl(): int { Max(ttl, executionTtl) }
  }

  function Wait(period: int, default: nat): nat {
    if period == 0 then default else Max(period, 0)
  }

  datatype Token = Token(kid: Kid, key: Key, signedAt: int, exp: int)

  datatype Phase =
    | Idle
    | Generating(tries: nat)
    | Propagating(newKid: Kid, until: int)
    | Minting(newKid: Kid, tries: nat)
    | Swapping(newKid: Kid, tries: nat)
    | Verifying(newKid: Kid, oldKid: Kid, tries: nat)
    | InGrace(newKid: Kid, oldKid: Kid, until: int)
    | Removing(kid: Kid, tries: nat)
    | RollingBack(newKid: Kid, oldKid: Kid, tries: nat)

  /** `published` remembers when each rotated-in key entered the published set. */
  datatype State = State(ring: Ring, now: int, tokens: set<Token>, phase: Phase, published: map<Kid, int>)

  datatype Event =
    | Tick(elapsed: nat)
    | Sign(issuedAt: int, executionScoped: bool)
    | Start
    | Attempt(outcome: Outcome, kid: Kid, key: Key)
    | Wake
    | Cancel

  function Initial(kid: Kid, key: Key, now: int): State {
    State(Ring(kid, map[kid := key]), now, {}, Idle, map[])
  }

  /** Retry, or give up and compensate. */
  function AfterFailure(p: Phase): Phase {
    match p
    case Generating(n) => if n + 1 < MAX_ATTEMPTS then Generating(n + 1) else Idle
    case Minting(k, n) => if n + 1 < MAX_ATTEMPTS then Minting(k, n + 1) else Removing(k, 0)
    case Swapping(k, n) => if n + 1 < MAX_ATTEMPTS then Swapping(k, n + 1) else Removing(k, 0)
    case Verifying(k, o, n) => if n + 1 < MAX_ATTEMPTS then Verifying(k, o, n + 1) else RollingBack(k, o, 0)
    case Removing(k, n) => if n + 1 < MAX_ATTEMPTS then Removing(k, n + 1) else Idle
    case RollingBack(k, o, n) => if n + 1 < MAX_ATTEMPTS then RollingBack(k, o, n + 1) else Idle
    case _ => p
  }

  /** A key id nobody has seen: generated ids carry a nanosecond timestamp. */
  ghost predicate FreshKid(s: State, kid: Kid) {
    kid !in s.ring.keys && kid !in s.published && forall t :: t in s.tokens ==> t.kid != kid
  }

  /** Reactivate the old key, then remove the new one. */
  function RolledBack(r: Ring, oldKid: Kid, newKid: Kid): Ring {
    if oldKid in r.keys then Removed(Activated(r, oldKid), newKid) else r
  }

  ghost function AttemptStep(cfg: Config, s: State, o: Outcome, kid: Kid, key: Key): State {
    var effect := TakesEffect(o);
    var failed := s.(phase := AfterFailure(s.phase));
    match s.phase
    case Generating(_) =>
      if !effect then failed
      else if !FreshKid(s, kid) then s
      else
        var added := s.(ring := Added(s.ring, kid, key), published := s.published[kid := s.now]);
        added.(phase := if o.Lost? then AfterFailure(s.phase) else Propagating(kid, s.now + cfg.Propagation()))
    case Minting(k, _) =>
      if o.Acked? then s.(phase := Swapping(k, 0)) else failed
    case Swapping(k, _) =>
      if !effect then failed
      else if o.Lost? || ActivateError(s.ring, k).Some? then failed.(ring := Activated(s.ring, k))
      else s.(ring := Activated(s.ring, k), phase := Verifying(k, s.ring.active, 0))
    case Verifying(k, prev, _) =>
      if o.Acked? && s.ring.active == k then s.(phase := InGrace(k, prev, s.now + cfg.Grace())) else failed
    case Removing(k, _) =>
      if !effect then failed
      else if o.Lost? || RemoveError(s.ring, k).Some? then failed.(ring := Removed(s.ring, k))
      else s.(ring := Removed(s.ring, k), phase := Idle)
    case RollingBack(k, prev, _) =>
      if o.Failed? then failed
      else if o.Half? then failed.(ring := Activated(s.ring, prev))
      else if o.Lost? || prev !in s.ring.keys || k == prev then failed.(ring := RolledBack(s.ring, prev, k))
      else s.(ring := RolledBack(s.ring, prev, k), phase := Idle)
    case _ => s
  }

  /** One step. An event that is not possible in `s` leaves it unchanged. */
  ghost function Next(cfg: Config, s: State, e: Event): State {
    match e
    case Tick(elapsed) => s.(now := s.now + elapsed)
    case Sign(issuedAt, executionScoped) =>
      // The issue time is read before the active key, possibly much earlier.
      if issuedAt > s.now || s.ring.active !in s.ring.keys then s
      else
        var ttl := if executionScoped then cfg.executionTtl else cfg.ttl;
        s.(tokens := s.tokens + {Token(s.ring.active, s.ring.keys[s.ring.active], s.now, issuedAt + ttl)})
    case Start => if s.phase.Idle? then s.(phase := Generating(0)) else s
    case Attempt(outcome, kid, key) => AttemptStep(cfg, s, outcome, kid, key)
    case Wake =>
      if s.phase.Propagating? && s.now >= s.phase.until then s.(phase := Minting(s.phase.newKid, 0))
      else if s.phase.InGrace? && s.now >= s.phase.until then s.(phase := Removing(s.phase.oldKid, 0))
      else s
    case Cancel => if s.phase.Propagating? || s.phase.InGrace? then s.(phase := Idle) else s
  }

  ghost function Run(cfg: Config, s: State, es: seq<Event>): State
    decreases |es|
  {
    if es == [] then s else Run(cfg, Next(cfg, s, es[0]), es[1..])
  }

  // ---- Verification continuity ----

  /** Every token that has not expired finds its own key in the published set. */
  ghost predicate Continuity(s: State) {
    forall t :: t in s.tokens && s.now < t.exp ==> t.kid in s.ring.keys && s.ring.keys[t.kid] == t.key
  }

  ghost predicate ContinuityThroughout(cfg: Config, s: State, es: seq<Event>)
    decreases |es|
  {
    Continuity(s) && (es != [] ==> ContinuityThroughout(cfg, Next(cfg, s, es[0]), es[1..]))
  }

  ghost predicate ExpiredBy(s: State, kid: Kid, time: int) {
    forall t :: t in s.tokens && t.kid == kid ==> t.exp <= time
  }

  /** A verify-failed rollback step that removes the new key finds no live token signed under it. */
  ghost predicate RollbackSpares(s: State, e: Event) {
    s.phase.RollingBack? && e.Attempt? && TakesEffect(e.outcome)
    && s.phase.oldKid in s.ring.keys && s.phase.oldKid != s.phase.newKid
    ==> ExpiredBy(s, s.phase.newKid, s.now)
  }

  ghost predicate RollbacksSpare(cfg: Config, s: State, es: seq<Event>)
    decreases |es|
  {
    es != [] ==> RollbackSpares(s, es[0]) && RollbacksSpare(cfg, Next(cfg, s, es[0]), es[1..])
  }

  ghost predicate PhaseFacts(s: State) {
    match s.phase
    case Propagating(k, _) => k != s.ring.active ==> k in s.ring.keys && Unused(s, k)
    case Minting(k, _) => k != s.ring.active ==> k in s.ring.keys && Unused(s, k)
    case Swapping(k, _) => k != s.ring.active ==> k in s.ring.keys && Unused(s, k)
    case Verifying(k, prev, _) => s.ring.active == k && prev in s.ring.keys
    case InGrace(k, prev, until) => s.ring.active == k && (prev != k ==> ExpiredBy(s, prev, until))
    case Removing(k, _) => k != s.ring.active ==> ExpiredBy(s, k, s.now)
    case RollingBack(k, prev, _) => prev in s.ring.keys
    case _ => true
  }

  ghost predicate Unused(s: State, kid: Kid) {
    forall t :: t in s.tokens ==> t.kid != kid
  }

  /** What holds in every phase. */
  ghost predicate Core(cfg: Config, s: State) {
    && Consistent(s.ring)
    && (forall t :: t in s.tokens ==> t.exp <= s.now + cfg.LongestTtl())
    && (forall t :: t in s.tokens && t.kid in s.ring.keys ==> s.ring.keys[t.kid] == t.key)
    && Continuity(s)
  }

  ghost predicate Inv(cfg: Config, s: State) {
    Core(cfg, s) && PhaseFacts(s)
  }

  lemma AddKeepsCore(cfg: Config, s: State, kid: Kid, key: Key)
    requires Core(cfg, s) && FreshKid(s, kid)
    ensures Core(cfg, s.(ring := Added(s.ring, kid, key), published := s.published[kid := s.now]))
  {
  }

  lemma RemoveKeepsCore(cfg: Config, s: State, kid: Kid)
    requires Core(cfg, s) && (kid != s.ring.active ==> ExpiredBy(s, kid, s.now))
    ensures Core(cfg, s.(ring := Removed(s.ring, kid)))
  {
  }

  /** Core and the phase facts about tokens do not depend on anything but these fields. */
  lemma CoreIgnoresPhase(cfg: Config, s: State, p: Phase)
    requires Core(cfg, s)
    ensures Core(cfg, s.(phase := p))
  {
  }

  lemma GenerateKeepsInv(cfg: Config, s: State, o: Outcome, kid: Kid, key: Key)
    requires Inv(cfg, s) && s.phase.Generating?
    ensures Inv(cfg, AttemptStep(cfg, s, o, kid, key))
  {
    if FreshKid(s, kid) {
      AddKeepsCore(cfg, s, kid, key);
    }
  }

  lemma SwapKeepsInv(cfg: Config, s: State, o: Outcome, kid: Kid, key: Key)
    requires Inv(cfg, s) && s.phase.Swapping?
    ensures Inv(cfg, AttemptStep(cfg, s, o, kid, key))
  {
    var r := Activated(s.ring, s.phase.newKid);
    assert Core(cfg, s.(ring := r));
    assert forall t :: t in s.tokens ==> (t.kid in r.keys <==> t.kid in s.ring.keys);
  }

  lemma RemovalKeepsInv(cfg: Config, s: State, o: Outcome, kid: Kid, key: Key)
    requires Inv(cfg, s) && s.phase.Removing?
    ensures Inv(cfg, AttemptStep(cfg, s, o, kid, key))
  {
    RemoveKeepsCore(cfg, s, s.phase.kid);
  }

  lemma RollbackKeepsInv(cfg: Config, s: State, o: Outcome, kid: Kid, key: Key)
    requires Inv(cfg, s) && s.phase.RollingBack? && RollbackSpares(s, Attempt(o, kid, key))
    ensures Inv(cfg, AttemptStep(cfg, s, o, kid, key))
  {
    var back := s.(ring := Activated(s.ring, s.phase.oldKid));
    assert Core(cfg, back);
    if TakesEffect(o) {
      RemoveKeepsCore(cfg, back, s.phase.newKid);
    }
  }

  lemma AttemptKeepsInv(cfg: Config, s: State, o: Outcome, kid: Kid, key: Key)
    requires Inv(cfg, s) && cfg.LongestTtl() <= cfg.Grace()
    requires RollbackSpares(s, Attempt(o, kid, key))
    ensures Inv(cfg, AttemptStep(cfg, s, o, kid, key))
  {
    match s.phase
    case Generating(_) => GenerateKeepsInv(cfg, s, o, kid, key);
    case Swapping(_, _) => SwapKeepsInv(cfg, s, o, kid, key);
    case Removing(_, _) => RemovalKeepsInv(cfg, s, o, kid, key);
    case RollingBack(_, _, _) => RollbackKeepsInv(cfg, s, o, kid, key);
    case _ => CoreIgnoresPhase(cfg, s, AttemptStep(cfg, s, o, kid, key).phase);
  }

  lemma StepKeepsInv(cfg: Config, s: State, e: Event)
    requires Inv(cfg, s) && cfg.LongestTtl() <= cfg.Grace() && RollbackSpares(s, e)
    ensures Inv(cfg, Next(cfg, s, e))
  {
    if e.Attempt? { AttemptKeepsInv(cfg, s, e.outcome, e.kid, e.key); }
  }

  /** Removing a key under which a live token was signed breaks continuity at once. */
  lemma UnsparingRollbackBreaks(cfg: Config, s: State, e: Event)
    requires !RollbackSpares(s, e)
    ensures !Continuity(Next(cfg, s, e))
  {
    var t :| t in s.tokens && t.kid == s.phase.newKid && t.exp > s.now;
    var s' := Next(cfg, s, e);
    assert t in s'.tokens && t.kid !in s'.ring.keys;
  }

  /**
    With a grace period of at least the longest lifetime, in every interleaving, continuity holds
    at every moment exactly when each verify-failed rollback that removes the new key finds no
    live token signed under it.
   */
  lemma {:induction false} ContinuityIff(cfg: Config, s: State, es: seq<Event>)
    requires Inv(cfg, s) && cfg.LongestTtl() <= cfg.Grace()
    ensures ContinuityThroughout(cfg, s, es) <==> RollbacksSpare(cfg, s, es)
    decreases |es|
  {
    if es != [] {
      var s' := Next(cfg, s, es[0]);
      if RollbackSpares(s, es[0]) {
        StepKeepsInv(cfg, s, es[0]);
        ContinuityIff(cfg, s', es[1..]);
      } else {
        UnsparingRollbackBreaks(cfg, s, es[0]);
        assert !ContinuityThroughout(cfg, s', es[1..]);
      }
    }
  }

  // ---- Continuity for every grace period ----

  /** A step that removes a key, after a grace period or in a rollback, finds no live token signed under it. */
  ghost predicate RemovalSpares(s: State, e: Event) {
    && RollbackSpares(s, e)
    && (s.phase.Removing? && e.Attempt? && TakesEffect(e.outcome) && s.phase.kid != s.ring.active
        ==> ExpiredBy(s, s.phase.kid, s.now))
  }

  ghost predicate RemovalsSpare(cfg: Config, s: State, es: seq<Event>)
    decreases |es|
  {
    es != [] ==> RemovalSpares(s, es[0]) && RemovalsSpare(cfg, Next(cfg, s, es[0]), es[1..])
  }

  /** A published key that signed a token is the one that signed it. */
  ghost predicate TokensMatch(s: State) {
    forall t :: t in s.tokens && t.kid in s.ring.keys ==> s.ring.keys[t.kid] == t.key
  }

  lemma UnsparingRemovalBreaks(cfg: Config, s: State, e: Event)
    requires !RemovalSpares(s, e)
    ensures !Continuity(Next(cfg, s, e))
  {
    if RollbackSpares(s, e) {
      var t :| t in s.tokens && t.kid == s.phase.kid && t.exp > s.now;
      var s' := Next(cfg, s, e);
      assert t in s'.tokens && t.kid !in s'.ring.keys;
    } else {
      UnsparingRollbackBreaks(cfg, s, e);
    }
  }

  lemma SparingStepContinues(cfg: Config, s: State, e: Event)
    requires Continuity(s) && TokensMatch(s) && RemovalSpares(s, e)
    ensures Continuity(Next(cfg, s, e)) && TokensMatch(Next(cfg, s, e))
  {
  }

  /** For every configuration and interleaving, continuity holds throughout iff no removal takes a live token's key. */
  lemma {:induction false} ContinuityIffRemovalsSpare(cfg: Config, s: State, es: seq<Event>)
    requires Continuity(s) && TokensMatch(s)
    ensures ContinuityThroughout(cfg, s, es) <==> RemovalsSpare(cfg, s, es)
    decreases |es|
  {
    if es != [] {
      if RemovalSpares(s, es[0]) {
        SparingStepContinues(cfg, s, es[0]);
        ContinuityIffRemovalsSpare(cfg, Next(cfg, s, es[0]), es[1..]);
      } else {
        UnsparingRemovalBreaks(cfg, s, es[0]);
        assert !ContinuityThroughout(cfg, Next(cfg, s, es[0]), es[1..]);
      }
    }
  }

  // ---- Propagation ----

  /** If `kid` was rotated in, it has been published for at least the propagation timeout. */
  ghost predicate Propagated(cfg: Config, s: State, kid: Kid) {
    kid in s.published ==> s.published[kid] + cfg.Propagation() <= s.now
  }

  ghost predicate PropagationFacts(cfg: Config, s: State) {
    match s.phase
    case Propagating(k, until) => k in s.published && s.published[k] + cfg.Propagation() <= until
    case Minting(k, _) => Propagated(cfg, s, k)
    case Swapping(k, _) => Propagated(cfg, s, k)
    case Verifying(_, prev, _) => Propagated(cfg, s, prev)
    case RollingBack(_, prev, _) => Propagated(cfg, s, prev)
    case _ => true
  }

  /** No token was signed under a rotated-in key before verifiers had the propagation timeout to fetch it. */
  ghost predicate SignedAfterPropagation(cfg: Config, s: State) {
    forall t :: t in s.tokens && t.kid in s.published ==> s.published[t.kid] + cfg.Propagation() <= t.signedAt
  }

  ghost predicate PropagationInv(cfg: Config, s: State) {
    && Consistent(s.ring) && Propagated(cfg, s, s.ring.active)
    && PropagationFacts(cfg, s) && SignedAfterPropagation(cfg, s)
  }

  lemma GenerateKeepsPropagation(cfg: Config, s: State, o: Outcome, kid: Kid, key: Key)
    requires PropagationInv(cfg, s) && s.phase.Generating?
    ensures PropagationInv(cfg, AttemptStep(cfg, s, o, kid, key))
  {
  }

  lemma RollbackKeepsPropagation(cfg: Config, s: State, o: Outcome, kid: Kid, key: Key)
    requires PropagationInv(cfg, s) && s.phase.RollingBack?
    ensures PropagationInv(cfg, AttemptStep(cfg, s, o, kid, key))
  {
  }

  lemma AttemptKeepsPropagation(cfg: Config, s: State, o: Outcome, kid: Kid, key: Key)
    requires PropagationInv(cfg, s)
    ensures PropagationInv(cfg, AttemptStep(cfg, s, o, kid, key))
  {
    if s.phase.Generating? {
      GenerateKeepsPropagation(cfg, s, o, kid, key);
    } else if s.phase.RollingBack? {
      RollbackKeepsPropagation(cfg, s, o, kid, key);
    }
  }

  /** In every run, failures, rollbacks and lost acknowledgements included, signing waits for propagation. */
  lemma {:induction false} SigningWaitsForPropagation(cfg: Config, s: State, es: seq<Event>)
    requires PropagationInv(cfg, s)
    ensures PropagationInv(cfg, Run(cfg, s, es))
    decreases |es|
  {
    if es != [] {
      if es[0].Attempt? { AttemptKeepsPropagation(cfg, s, es[0].outcome, es[0].kid, es[0].key); }
      SigningWaitsForPropagation(cfg, Next(cfg, s, es[0]), es[1..]);
    }
  }

  /** `k` is published only since `since`, and every token under it but the `early` ones was signed since. */
  ghost predicate NewSince(s: State, k: Kid, since: int, early: set<Token>) {
    && since <= s.now
    && (k in s.ring.keys ==> k in s.published && since <= s.published[k])
    && (forall t :: t in s.tokens && t.kid == k && t !in early ==> k in s.published && since <= s.published[k])
  }

  lemma StepKeepsNew(cfg: Config, s: State, e: Event, k: Kid, since: int, early: set<Token>)
    requires Consistent(s.ring) && NewSince(s, k, since, early)
    ensures NewSince(Next(cfg, s, e), k, since, early)
  {
  }

  lemma {:induction false} RunKeepsNew(cfg: Config, s: State, es: seq<Event>, k: Kid, since: int, early: set<Token>)
    requires PropagationInv(cfg, s) && NewSince(s, k, since, early)
    ensures NewSince(Run(cfg, s, es), k, since, early)
    decreases |es|
  {
    if es != [] {
      StepKeepsNew(cfg, s, es[0], k, since, early);
      if es[0].Attempt? { AttemptKeepsPropagation(cfg, s, es[0].outcome, es[0].kid, es[0].key); }
      RunKeepsNew(cfg, Next(cfg, s, es[0]), es[1..], k, since, early);
    }
  }

  /**
    From any moment at which a key is not published, whatever rotations follow, no token is
    signed under it before the configured propagation timeout, or 30 s if it is zero, has passed.
   */
  lemma NoEarlySignature(cfg: Config, kid: Kid, key: Key, now: int, before: seq<Event>, after: seq<Event>, t: Token)
    requires var s := Run(cfg, Initial(kid, key, now), before);
             t.kid !in s.ring.keys && t !in s.tokens && t in Run(cfg, s, after).tokens
    ensures var s := Run(cfg, Initial(kid, key, now), before);
            var wait := if cfg.propagationTimeout == 0 then 30
                        else if cfg.propagationTimeout < 0 then 0 else cfg.propagationTimeout;
            s.now + wait <= t.signedAt
  {
    var s := Run(cfg, Initial(kid, key, now), before);
    SigningWaitsForPropagation(cfg, Initial(kid, key, now), before);
    SigningWaitsForPropagation(cfg, s, after);
    RunKeepsNew(cfg, s, after, t.kid, s.now, s.tokens);
  }

  // ---- Lifetimes ----

  /** Every token outlives its signing by at most `ttl`. */
  ghost predicate LiveAtMost(s: State, ttl: int) {
    forall t :: t in s.tokens ==> t.signedAt <= s.now && t.exp <= t.signedAt + ttl
  }

  /** In a run without execution-scoped tokens, or with these only, their own lifetime bounds all tokens. */
  lemma {:induction false} LifetimeByKind(cfg: Config, s: State, es: seq<Event>, executionScoped: bool)
    requires LiveAtMost(s, if executionScoped then cfg.executionTtl else cfg.ttl)
    requires forall e :: e in es && e.Sign? ==> e.executionScoped == executionScoped
    ensures LiveAtMost(Run(cfg, s, es), if executionScoped then cfg.executionTtl else cfg.ttl)
    decreases |es|
  {
    if es != [] {
      assert es[0] in es && forall e :: e in es[1..] ==> e in es;
      LifetimeByKind(cfg, Next(cfg, s, es[0]), es[1..], executionScoped);
    }
  }

  // ---- How long the grace period must be ----

  /** `es` from `s` is spared by every rollback and yet loses a live token's key. */
  ghost predicate LosesToken(cfg: Config, s: State, es: seq<Event>) {
    RollbacksSpare(cfg, s, es) && !ContinuityThroughout(cfg, s, es)
  }

  lemma Precede(cfg: Config, s: State, e: Event, es: seq<Event>)
    requires !s.phase.RollingBack? && LosesToken(cfg, Next(cfg, s, e), es)
    ensures LosesToken(cfg, s, [e] + es)
  {
    assert ([e] + es)[1..] == es;
  }

  /** The end of a rotation: the old key is removed while a token signed under it is live. */
  lemma RemoveTooEarly(cfg: Config, s: State, t: Token, e: Event) returns (es: seq<Event>)
    requires s.phase.Removing? && t in s.tokens && t.kid == s.phase.kid && t.kid != s.ring.active && s.now < t.exp
    requires e == Attempt(Acked, "", 0)
    ensures LosesToken(cfg, s, es)
  {
    es := [e];
    assert t.kid !in Next(cfg, s, e).ring.keys;
    assert es[1..] == [];
    assert !ContinuityThroughout(cfg, Next(cfg, s, e), []);
  }

  /** From a rotation about to swap: sign, swap, verify, sit out the grace period, remove. */
  lemma SignJustBeforeSwap(cfg: Config, s: State, executionScoped: bool) returns (es: seq<Event>)
    requires s.phase.Swapping? && s.phase.newKid in s.ring.keys
    requires s.phase.newKid != s.ring.active && s.ring.active in s.ring.keys
    requires (if executionScoped then cfg.executionTtl else cfg.ttl) > cfg.Grace()
    ensures LosesToken(cfg, s, es)
  {
    var ok := Attempt(Acked, "", 0);
    var sign := Sign(s.now, executionScoped);
    var s1 := Next(cfg, s, sign);
    var s2 := Next(cfg, s1, ok);
    var s3 := Next(cfg, s2, ok);
    var s4 := Next(cfg, s3, Tick(cfg.Grace()));
    var s5 := Next(cfg, s4, Wake);
    var ttl := if executionScoped then cfg.executionTtl else cfg.ttl;
    var t := Token(s.ring.active, s.ring.keys[s.ring.active], s.now, s.now + ttl);
    es := RemoveTooEarly(cfg, s5, t, ok);
    Precede(cfg, s4, Wake, es);
    es := [Wake] + es;
    Precede(cfg, s3, Tick(cfg.Grace()), es);
    es := [Tick(cfg.Grace())] + es;
    Precede(cfg, s2, ok, es);
    es := [ok] + es;
    Precede(cfg, s1, ok, es);
    es := [ok] + es;
    Precede(cfg, s, sign, es);
    es := [sign] + es;
  }

  lemma ShortGraceLosesToken(cfg: Config, kid: Kid, key: Key, now: int) returns (es: seq<Event>)
    requires cfg.LongestTtl() > cfg.Grace()
    ensures LosesToken(cfg, Initial(kid, key, now), es)
  {
    var s0 := Initial(kid, key, now);
    var generate := Attempt(Acked, kid + "'", key);
    assert |kid + "'"| != |kid|;
    var s1 := Next(cfg, s0, Start);
    var s2 := Next(cfg, s1, generate);
    var s3 := Next(cfg, s2, Tick(cfg.Propagation()));
    var s4 := Next(cfg, s3, Wake);
    var s5 := Next(cfg, s4, Attempt(Acked, "", 0));
    es := SignJustBeforeSwap(cfg, s5, cfg.executionTtl > cfg.Grace());
    Precede(cfg, s4, Attempt(Acked, "", 0), es);
    es := [Attempt(Acked, "", 0)] + es;
    Precede(cfg, s3, Wake, es);
    es := [Wake] + es;
    Precede(cfg, s2, Tick(cfg.Propagation()), es);
    es := [Tick(cfg.Propagation())] + es;
    Precede(cfg, s1, generate, es);
    es := [generate] + es;
    Precede(cfg, s0, Start, es);
    es := [Start] + es;
  }

  /** No run from `s` loses a live token's key, save through a rollback that does not spare it. */
  ghost predicate NeverLosesToken(cfg: Config, s: State) {
    forall es :: !LosesToken(cfg, s, es)
  }

  /**
    A grace period is safe, for every run from a fresh keyring, exactly when it is at least
    both token lifetimes; the configured one counts, or five minutes if it is zero.
   */
  lemma GraceIsSafeIff(cfg: Config, kid: Kid, key: Key, now: int)
    ensures NeverLosesToken(cfg, Initial(kid, key, now)) <==> cfg.LongestTtl() <= cfg.Grace()
    ensures var grace := if cfg.gracePeriod == 0 then 300 else if cfg.gracePeriod < 0 then 0 else cfg.gracePeriod;
            NeverLosesToken(cfg, Initial(kid, key, now)) <==> cfg.ttl <= grace && cfg.executionTtl <= grace
  {
    var s := Initial(kid, key, now);
    if cfg.LongestTtl() <= cfg.Grace() {
      forall es ensures !LosesToken(cfg, s, es) {
        ContinuityIff(cfg, s, es);
      }
    } else {
      var es := ShortGraceLosesToken(cfg, kid, key, now);
    }
  }

  /** With the shipped defaults, five minutes for both, only a rollback can take a live token's key. */
  lemma DefaultsAreSafe(kid: Kid, key: Key, now: int, es: seq<Event>)
    ensures var cfg, s := Config(0, 0, 300, 30), Initial(kid, key, now);
            ContinuityThroughout(cfg, s, es) <==> RollbacksSpare(cfg, s, es)
  {
    ContinuityIff(Config(0, 0, DEFAULT_TTL, DEFAULT_EXECUTION_TTL), Initial(kid, key, now), es);
  }

  // ---- A rollback can take a live token's key ----

  /** Continuity holds up to the last event, which is a rollback that removes the key of a live token. */
  ghost predicate LostToRollback(cfg: Config, s: State, es: seq<Event>)
    decreases |es|
  {
    && es != [] && Continuity(s)
    && if |es| == 1 then !RollbackSpares(s, es[0]) else LostToRollback(cfg, Next(cfg, s, es[0]), es[1..])
  }

  lemma {:induction false} LostToRollbackBreaks(cfg: Config, s: State, es: seq<Event>)
    requires LostToRollback(cfg, s, es)
    ensures !ContinuityThroughout(cfg, s, es)
    decreases |es|
  {
    if |es| == 1 {
      UnsparingRollbackBreaks(cfg, s, es[0]);
      assert !ContinuityThroughout(cfg, Next(cfg, s, es[0]), es[1..]);
    } else {
      LostToRollbackBreaks(cfg, Next(cfg, s, es[0]), es[1..]);
    }
  }

  lemma PrecedeLoss(cfg: Config, s: State, e: Event, es: seq<Event>)
    requires Continuity(s) && LostToRollback(cfg, Next(cfg, s, e), es)
    ensures LostToRollback(cfg, s, [e] + es)
  {
    assert ([e] + es)[1..] == es;
  }

  /** With a live token signed under the new key: verification fails three times and the rollback gets through. */
  lemma FailVerification(cfg: Config, s: State, t: Token) returns (es: seq<Event>)
    requires Continuity(s) && s.phase.Verifying? && s.phase.tries == 0 && s.phase.oldKid in s.ring.keys
    requires s.phase.oldKid != s.phase.newKid && t in s.tokens && t.kid == s.phase.newKid && s.now < t.exp
    ensures LostToRollback(cfg, s, es)
  {
    var fail, ok := Attempt(Failed, "", 0), Attempt(Acked, "", 0);
    var s1 := Next(cfg, s, fail);
    var s2 := Next(cfg, s1, fail);
    var s3 := Next(cfg, s2, fail);
    assert t in s3.tokens && !RollbackSpares(s3, ok);
    assert LostToRollback(cfg, s3, [ok]);
    PrecedeLoss(cfg, s2, fail, [ok]);
    PrecedeLoss(cfg, s1, fail, [fail] + [ok]);
    PrecedeLoss(cfg, s, fail, [fail] + ([fail] + [ok]));
    es := [fail] + ([fail] + ([fail] + [ok]));
  }

  /** From a rotation about to swap: swap, sign under the new key, fail verification. */
  lemma SignJustAfterSwap(cfg: Config, s: State) returns (es: seq<Event>)
    requires Continuity(s) && s.phase.Swapping? && s.phase.newKid in s.ring.keys
    requires s.phase.newKid != s.ring.active && s.ring.active in s.ring.keys && cfg.LongestTtl() > 0
    ensures LostToRollback(cfg, s, es)
  {
    var k, ok := s.phase.newKid, Attempt(Acked, "", 0);
    var s1 := Next(cfg, s, ok);
    var sign := Sign(s.now, cfg.executionTtl > 0);
    var s2 := Next(cfg, s1, sign);
    var ttl := if cfg.executionTtl > 0 then cfg.executionTtl else cfg.ttl;
    es := FailVerification(cfg, s2, Token(k, s.ring.keys[k], s.now, s.now + ttl));
    PrecedeLoss(cfg, s1, sign, es);
    PrecedeLoss(cfg, s, ok, [sign] + es);
    es := [ok] + ([sign] + es);
  }

  /** A failing run from a fresh keyring, whenever some token lives at all and however long the grace period. */
  lemma RollbackLosesToken(cfg: Config, kid: Kid, key: Key, now: int) returns (es: seq<Event>)
    requires cfg.LongestTtl() > 0
    ensures LostToRollback(cfg, Initial(kid, key, now), es)
    ensures !ContinuityThroughout(cfg, Initial(kid, key, now), es)
  {
    var generate, wait, ok := Attempt(Acked, kid + "'", key), Tick(cfg.Propagation()), Attempt(Acked, "", 0);
    assert |kid + "'"| != |kid|;
    var s0 := Initial(kid, key, now);
    var s1 := Next(cfg, s0, Start);
    var s2 := Next(cfg, s1, generate);
    var s3 := Next(cfg, s2, wait);
    var s4 := Next(cfg, s3, Wake);
    es := SignJustAfterSwap(cfg, Next(cfg, s4, ok));
    PrecedeLoss(cfg, s4, ok, es);
    PrecedeLoss(cfg, s3, Wake, [ok] + es);
    PrecedeLoss(cfg, s2, wait, [Wake] + ([ok] + es));
    PrecedeLoss(cfg, s1, generate, [wait] + ([Wake] + ([ok] + es)));
    PrecedeLoss(cfg, s0, Start, [generate] + ([wait] + ([Wake] + ([ok] + es))));
    es := [Start] + ([generate] + ([wait] + ([Wake] + ([ok] + es))));
    LostToRollbackBreaks(cfg, s0, es);
  }

  lemma {:induction false} DeadTokensAreSpared(cfg: Config, s: State, es: seq<Event>)
    requires Inv(cfg, s) && cfg.LongestTtl() <= 0
    ensures RollbacksSpare(cfg, s, es)
    decreases |es|
  {
    if es != [] {
      assert RollbackSpares(s, es[0]);
      StepKeepsInv(cfg, s, es[0]);
      DeadTokensAreSpared(cfg, Next(cfg, s, es[0]), es[1..]);
    }
  }

  ghost predicate NeverBreaks(cfg: Config, s: State) {
    forall es :: ContinuityThroughout(cfg, s, es)
  }

  /** So no configuration keeps continuity in all runs, except those whose tokens are never valid. */
  lemma AlwaysContinuousIff(cfg: Config, kid: Kid, key: Key, now: int)
    ensures NeverBreaks(cfg, Initial(kid, key, now)) <==> cfg.LongestTtl() <= 0
  {
    var s := Initial(kid, key, now);
    if cfg.LongestTtl() <= 0 {
      forall es ensures ContinuityThroughout(cfg, s, es) {
        DeadTokensAreSpared(cfg, s, es);
        ContinuityIff(cfg, s, es);
      }
    } else {
      var es := RollbackLosesToken(cfg, kid, key, now);
    }
  }

  // ---- Keys that no rotation removes any more ----

  ghost predicate Names(p: Phase, k: Kid) {
    match p
    case Propagating(n, _) => k == n
    case Minting(n, _) => k == n
    case Swapping(n, _) => k == n
    case Verifying(n, o, _) => k == n || k == o
    case InGrace(n, o, _) => k == n || k == o
    case Removing(n, _) => k == n
    case RollingBack(n, o, _) => k == n || k == o
    case _ => false
  }

  /** `k` is published, but it does not sign and the rotation under way does not know it. */
  ghost predicate Stranded(s: State, k: Kid) {
    k in s.ring.keys && k != s.ring.active && !Names(s.phase, k)
  }

  lemma StepKeepsStranded(cfg: Config, s: State, e: Event, k: Kid)
    requires Stranded(s, k)
    ensures Stranded(Next(cfg, s, e), k) && Next(cfg, s, e).ring.keys[k] == s.ring.keys[k]
  {
  }

  /** A stranded key stays published, with its material, through every later run and all its rotations. */
  lemma {:induction false} StrandedForever(cfg: Config, s: State, es: seq<Event>, k: Kid)
    requires Stranded(s, k)
    ensures Stranded(Run(cfg, s, es), k) && Run(cfg, s, es).ring.keys[k] == s.ring.keys[k]
    decreases |es|
  {
    if es != [] {
      StepKeepsStranded(cfg, s, es[0], k);
      StrandedForever(cfg, Next(cfg, s, es[0]), es[1..], k);
    }
  }

  /** One lost swap acknowledgement strands the formerly active key, whatever follows. */
  lemma LostSwapStrandsOldKey(cfg: Config, s: State, es: seq<Event>)
    requires Consistent(s.ring) && s.phase.Swapping? && s.phase.newKid in s.ring.keys
    requires s.phase.newKid != s.ring.active
    ensures var end := Run(cfg, AttemptStep(cfg, s, Lost, "", 0), es);
            Stranded(end, s.ring.active) && end.ring.keys[s.ring.active] == s.ring.keys[s.ring.active]
  {
    StrandedForever(cfg, AttemptStep(cfg, s, Lost, "", 0), es, s.ring.active);
  }

  /** A cancelled wait strands the key it was for: the new one, or after the swap the old one. */
  lemma CancelStrandsKey(cfg: Config, s: State, k: Kid, es: seq<Event>)
    requires k in s.ring.keys && k != s.ring.active
    requires (s.phase.Propagating? && k == s.phase.newKid) || (s.phase.InGrace? && k == s.phase.oldKid)
    ensures var end := Run(cfg, Next(cfg, s, Cancel), es);
            Stranded(end, k) && end.ring.keys[k] == s.ring.keys[k]
  {
    StrandedForever(cfg, Next(cfg, s, Cancel), es, k);
  }

  /** One lost generation acknowledgement strands the key it published, whatever follows. */
  lemma LostGenerationStrandsKey(cfg: Config, s: State, kid: Kid, key: Key, es: seq<Event>)
    requires Consistent(s.ring) && s.phase.Generating? && FreshKid(s, kid)
    ensures var end := Run(cfg, AttemptStep(cfg, s, Lost, kid, key), es);
            Stranded(end, kid) && end.ring.keys[kid] == key
  {
    StrandedForever(cfg, AttemptStep(cfg, s, Lost, kid, key), es, kid);
  }

  // ---- A swap that is reported as failed ----

  ghost function Attempts(os: seq<Outcome>): (es: seq<Event>)
    ensures |es| == |os| && forall i :: 0 <= i < |os| ==> es[i] == Attempt(os[i], "", 0)
  {
    seq(|os|, i requires 0 <= i < |os| => Attempt(os[i], "", 0))
  }

  lemma RunAttempt(cfg: Config, s: State, os: seq<Outcome>)
    requires os != []
    ensures Run(cfg, s, Attempts(os)) == Run(cfg, AttemptStep(cfg, s, os[0], "", 0), Attempts(os[1..]))
  {
    assert Attempts(os)[1..] == Attempts(os[1..]);
  }

  /** Swap attempts without an acknowledgement: the new key is active afterwards exactly if one of them was lost. */
  lemma {:induction false} SwapUnacknowledged(cfg: Config, s: State, k: Kid, n: nat, os: seq<Outcome>)
    requires s.phase == Swapping(k, n) && n < MAX_ATTEMPTS && k in s.ring.keys
    requires n + |os| == MAX_ATTEMPTS && forall i :: 0 <= i < |os| ==> !os[i].Acked?
    ensures Run(cfg, s, Attempts(os)) ==
            s.(ring := if Lost in os then s.ring.(active := k) else s.ring, phase := Removing(k, 0))
    decreases |os|
  {
    RunAttempt(cfg, s, os);
    var s' := AttemptStep(cfg, s, os[0], "", 0);
    assert Lost in os <==> os[0] == Lost || Lost in os[1..];
    if n + 1 < MAX_ATTEMPTS {
      SwapUnacknowledged(cfg, s', k, n + 1, os[1..]);
    } else {
      assert os[1..] == [];
    }
  }

  /** The compensation that follows removes the new key if an attempt takes effect, but never an active one. */
  lemma {:induction false} RemovalRuns(cfg: Config, s: State, k: Kid, n: nat, os: seq<Outcome>)
    requires s.phase == Removing(k, n) && n < MAX_ATTEMPTS && n + |os| == MAX_ATTEMPTS
    ensures Run(cfg, s, Attempts(os)) ==
            s.(ring := if Acked in os || Lost in os then Removed(s.ring, k) else s.ring, phase := Idle)
    decreases |os|
  {
    RunAttempt(cfg, s, os);
    var s' := AttemptStep(cfg, s, os[0], "", 0);
    assert forall o :: o in os <==> os[0] == o || o in os[1..];
    if s'.phase == Idle {
      IdleStays(cfg, s', os[1..]);
    } else {
      RemovalRuns(cfg, s', k, n + 1, os[1..]);
    }
  }

  lemma {:induction false} IdleStays(cfg: Config, s: State, os: seq<Outcome>)
    requires s.phase == Idle
    ensures Run(cfg, s, Attempts(os)) == s
    decreases |os|
  {
    if os != [] {
      RunAttempt(cfg, s, os);
      IdleStays(cfg, s, os[1..]);
    }
  }

  lemma {:induction false} RunSplits(cfg: Config, s: State, xs: seq<Event>, ys: seq<Event>)
    ensures Run(cfg, s, xs + ys) == Run(cfg, Run(cfg, s, xs), ys)
    decreases |xs|
  {
    if xs == [] {
      assert xs + ys == ys;
    } else {
      assert (xs + ys)[1..] == xs[1..] + ys;
      RunSplits(cfg, Next(cfg, s, xs[0]), xs[1..], ys);
    }
  }

  /**
    However the three attempts of a failed swap and the three of its compensation end: the new
    key is left active exactly if a swap acknowledgement was lost, and then it also stays
    published; otherwise it is removed exactly if a compensation attempt takes effect.
   */
  lemma FailedSwapOutcome(cfg: Config, s: State, k: Kid, swaps: seq<Outcome>, removals: seq<Outcome>)
    requires s.phase == Swapping(k, 0) && k in s.ring.keys
    requires |swaps| == 3 && |removals| == 3 && Acked !in swaps
    ensures Run(cfg, s, Attempts(swaps) + Attempts(removals)) ==
            s.(phase := Idle, ring :=
              if Lost in swaps then s.ring.(active := k)
              else if Acked in removals || Lost in removals then Removed(s.ring, k)
              else s.ring)
  {
    RunSplits(cfg, s, Attempts(swaps), Attempts(removals));
    SwapUnacknowledged(cfg, s, k, 0, swaps);
    RemovalRuns(cfg, Run(cfg, s, Attempts(swaps)), k, 0, removals);
  }

  /** Three generation attempts without effect end the rotation and change nothing. */
  lemma {:induction false} FailedGenerateOutcome(cfg: Config, s: State, n: nat, os: seq<Outcome>)
    requires s.phase == Generating(n) && n + |os| == 3 && os != [] && forall o :: o in os ==> !TakesEffect(o)
    ensures Run(cfg, s, Attempts(os)) == s.(phase := Idle)
    decreases |os|
  {
    RunAttempt(cfg, s, os);
    assert os[0] in os && forall o :: o in os[1..] ==> o in os;
    if n + 1 < MAX_ATTEMPTS {
      FailedGenerateOutcome(cfg, s.(phase := Generating(n + 1)), n + 1, os[1..]);
    } else {
      assert os[1..] == [];
    }
  }

  /** However the attempts of a failed mint and its compensation end, only the new key can go. */
  lemma FailedMintOutcome(cfg: Config, s: State, k: Kid, mints: seq<Outcome>, removals: seq<Outcome>)
    requires s.phase == Minting(k, 0) && |mints| == 3 && |removals| == 3 && Acked !in mints
    ensures Run(cfg, s, Attempts(mints) + Attempts(removals)) ==
            s.(phase := Idle, ring := if Acked in removals || Lost in removals then Removed(s.ring, k) else s.ring)
  {
    RunSplits(cfg, s, Attempts(mints), Attempts(removals));
    MintUnacknowledged(cfg, s, k, 0, mints);
    RemovalRuns(cfg, s.(phase := Removing(k, 0)), k, 0, removals);
  }

  lemma {:induction false} MintUnacknowledged(cfg: Config, s: State, k: Kid, n: nat, os: seq<Outcome>)
    requires s.phase == Minting(k, n) && n < MAX_ATTEMPTS
    requires n + |os| == MAX_ATTEMPTS && Acked !in os
    ensures Run(cfg, s, Attempts(os)) == s.(phase := Removing(k, 0))
    decreases |os|
  {
    RunAttempt(cfg, s, os);
    assert os[0] in os && forall o :: o in os[1..] ==> o in os;
    if n + 1 < MAX_ATTEMPTS {
      MintUnacknowledged(cfg, s.(phase := Minting(k, n + 1)), k, n + 1, os[1..]);
    } else {
      assert os[1..] == [];
    }
  }

  lemma {:induction false} VerifyUnacknowledged(cfg: Config, s: State, k: Kid, prev: Kid, n: nat, os: seq<Outcome>)
    requires s.phase == Verifying(k, prev, n) && n < MAX_ATTEMPTS
    requires n + |os| == MAX_ATTEMPTS && Acked !in os
    ensures Run(cfg, s, Attempts(os)) == s.(phase := RollingBack(k, prev, 0))
    decreases |os|
  {
    RunAttempt(cfg, s, os);
    assert os[0] in os && forall o :: o in os[1..] ==> o in os;
    if n + 1 < MAX_ATTEMPTS {
      VerifyUnacknowledged(cfg, s.(phase := Verifying(k, prev, n + 1)), k, prev, n + 1, os[1..]);
    } else {
      assert os[1..] == [];
    }
  }

  lemma RollbackAttempt(cfg: Config, s: State, k: Kid, prev: Kid, n: nat, o: Outcome)
    requires s.phase == RollingBack(k, prev, n) && n < MAX_ATTEMPTS && prev in s.ring.keys && k != prev
    ensures var s' := AttemptStep(cfg, s, o, "", 0);
            && s' == s.(ring := s'.ring, phase := s'.phase)
            && s'.phase == (if o.Acked? || n + 1 == MAX_ATTEMPTS then Idle else RollingBack(k, prev, n + 1))
            && s'.ring == if TakesEffect(o) then Ring(prev, s.ring.keys - {k})
                          else if o.Half? then s.ring.(active := prev) else s.ring
  {
  }

  /** Rollback attempts: full effect if one takes effect, reactivation only if some stop halfway, else none. */
  lemma {:induction false} RollbackRuns(cfg: Config, s: State, k: Kid, prev: Kid, n: nat, os: seq<Outcome>)
    requires s.phase == RollingBack(k, prev, n) && n < MAX_ATTEMPTS && n + |os| == MAX_ATTEMPTS
    requires prev in s.ring.keys && k != prev
    ensures Run(cfg, s, Attempts(os)) ==
            s.(phase := Idle, ring :=
              if Acked in os || Lost in os then Ring(prev, s.ring.keys - {k})
              else if Half in os then s.ring.(active := prev) else s.ring)
    decreases |os|
  {
    RunAttempt(cfg, s, os);
    RollbackAttempt(cfg, s, k, prev, n, os[0]);
    var s' := AttemptStep(cfg, s, os[0], "", 0);
    assert forall o :: o in os <==> os[0] == o || o in os[1..];
    if s'.phase == Idle {
      IdleStays(cfg, s', os[1..]);
    } else {
      assert (s.ring.keys - {k}) - {k} == s.ring.keys - {k};
      RollbackRuns(cfg, s', k, prev, n + 1, os[1..]);
    }
  }

  /** However the attempts of a failed verification and its rollback end. */
  lemma FailedVerifyOutcome(cfg: Config, s: State, k: Kid, prev: Kid, verifies: seq<Outcome>, rollbacks: seq<Outcome>)
    requires s.phase == Verifying(k, prev, 0) && prev in s.ring.keys && k != prev
    requires |verifies| == 3 && |rollbacks| == 3 && Acked !in verifies
    ensures Run(cfg, s, Attempts(verifies) + Attempts(rollbacks)) ==
            s.(phase := Idle, ring :=
              if Acked in rollbacks || Lost in rollbacks then Ring(prev, s.ring.keys - {k})
              else if Half in rollbacks then s.ring.(active := prev) else s.ring)
  {
    RunSplits(cfg, s, Attempts(verifies), Attempts(rollbacks));
    VerifyUnacknowledged(cfg, s, k, prev, 0, verifies);
    RollbackRuns(cfg, s.(phase := RollingBack(k, prev, 0)), k, prev, 0, rollbacks);
  }

  // ---- A rotation without failures ----

  lemma RunCons(cfg: Config, s: State, e: Event, es: seq<Event>)
    ensures Run(cfg, s, [e] + es) == Run(cfg, Next(cfg, s, e), es)
  {
    assert ([e] + es)[1..] == es;
  }

  /** Swap, verify, sit out the grace period, remove. */
  function FinishEvents(cfg: Config): seq<Event> {
    var ok := Attempt(Acked, "", 0);
    [ok] + ([ok] + ([Tick(cfg.Grace())] + ([Wake] + ([ok] + []))))
  }

  /** From the swap on: the new key signs, and after the grace period the old one is gone. */
  lemma SmoothFinish(cfg: Config, s: State, k: Kid)
    requires s.phase == Swapping(k, 0) && k in s.ring.keys && k != s.ring.active
    ensures Run(cfg, s, FinishEvents(cfg)) ==
            State(Ring(k, s.ring.keys - {s.ring.active}), s.now + cfg.Grace(), s.tokens, Idle, s.published)
  {
    var ok, wait := Attempt(Acked, "", 0), Tick(cfg.Grace());
    var s1 := s.(ring := s.ring.(active := k), phase := Verifying(k, s.ring.active, 0));
    var s2 := s1.(phase := InGrace(k, s.ring.active, s.now + cfg.Grace()));
    var s3 := s2.(now := s.now + cfg.Grace());
    var s4 := s3.(phase := Removing(s.ring.active, 0));
    RunCons(cfg, s, ok, [ok] + ([wait] + ([Wake] + ([ok] + []))));
    RunCons(cfg, s1, ok, [wait] + ([Wake] + ([ok] + [])));
    RunCons(cfg, s2, wait, [Wake] + ([ok] + []));
    RunCons(cfg, s3, Wake, [ok] + []);
    RunCons(cfg, s4, ok, []);
  }

  /** The state of a rotation that has just published `k`. */
  function Publishing(cfg: Config, s: State, k: Kid, key: Key): State {
    State(Added(s.ring, k, key), s.now, s.tokens, Propagating(k, s.now + cfg.Propagation()), s.published[k := s.now])
  }

  lemma SmoothGenerate(cfg: Config, s: State, k: Kid, key: Key, rest: seq<Event>)
    requires s.phase == Idle && FreshKid(s, k)
    ensures Run(cfg, s, [Start] + ([Attempt(Acked, k, key)] + rest)) == Run(cfg, Publishing(cfg, s, k, key), rest)
  {
    RunCons(cfg, s, Start, [Attempt(Acked, k, key)] + rest);
    RunCons(cfg, s.(phase := Generating(0)), Attempt(Acked, k, key), rest);
  }

  lemma WaitAndMint(cfg: Config, s: State, k: Kid)
    requires s.phase == Propagating(k, s.now + cfg.Propagation())
    ensures Next(cfg, Next(cfg, Next(cfg, s, Tick(cfg.Propagation())), Wake), Attempt(Acked, "", 0)) ==
            s.(now := s.now + cfg.Propagation(), phase := Swapping(k, 0))
  {
  }

  lemma SmoothWait(cfg: Config, s: State, k: Kid, rest: seq<Event>)
    requires s.phase == Propagating(k, s.now + cfg.Propagation())
    ensures var ok, wait := Attempt(Acked, "", 0), Tick(cfg.Propagation());
            Run(cfg, s, [wait] + ([Wake] + ([ok] + rest))) ==
            Run(cfg, s.(now := s.now + cfg.Propagation(), phase := Swapping(k, 0)), rest)
  {
    var ok, wait := Attempt(Acked, "", 0), Tick(cfg.Propagation());
    WaitAndMint(cfg, s, k);
    var s1 := Next(cfg, s, wait);
    var s2 := Next(cfg, s1, Wake);
    RunCons(cfg, s, wait, [Wake] + ([ok] + rest));
    RunCons(cfg, s1, Wake, [ok] + rest);
    RunCons(cfg, s2, ok, rest);
  }

  /** Start, generate, wait for propagation, mint; then FinishEvents. */
  function RotationEvents(cfg: Config, k: Kid, key: Key): seq<Event> {
    [Start] + ([Attempt(Acked, k, key)]
    + ([Tick(cfg.Propagation())] + ([Wake] + ([Attempt(Acked, "", 0)] + FinishEvents(cfg)))))
  }

  lemma SmoothToSwap(cfg: Config, s: State, k: Kid, key: Key)
    requires s.phase == Idle && FreshKid(s, k)
    ensures Run(cfg, s, RotationEvents(cfg, k, key)) ==
            Run(cfg, Publishing(cfg, s, k, key).(now := s.now + cfg.Propagation(), phase := Swapping(k, 0)),
                FinishEvents(cfg))
  {
    var tail := [Tick(cfg.Propagation())] + ([Wake] + ([Attempt(Acked, "", 0)] + FinishEvents(cfg)));
    SmoothGenerate(cfg, s, k, key, tail);
    SmoothWait(cfg, Publishing(cfg, s, k, key), k, FinishEvents(cfg));
  }

  /** A rotation without failures: the old set minus the old key plus the new one, which signs. */
  lemma SmoothRotation(cfg: Config, s: State, k: Kid, key: Key)
    requires s.phase == Idle && Consistent(s.ring) && FreshKid(s, k)
    ensures var end := Run(cfg, s, RotationEvents(cfg, k, key));
            && end.ring == Ring(k, s.ring.keys[k := key] - {s.ring.active}) && end.phase == Idle
            && end.now == s.now + cfg.Propagation() + cfg.Grace() && end.tokens == s.tokens
  {
    SmoothToSwap(cfg, s, k, key);
    SmoothFinish(cfg, Publishing(cfg, s, k, key).(now := s.now + cfg.Propagation(), phase := Swapping(k, 0)), k);
  }
}
