/**
  Replay memories with lazy pruning: the nonce tracker of pkg/exchange/execution.go and the
  SET `jti` store of pkg/signals/receiver.go (`jti` as in section 2.2 of RFC 8417).
  Times are integer seconds from a non-decreasing clock.
 */
module Replay {
  import opened Basics

  datatype Call = Call(id: string, at: int)

  function CallTime(c: Call): int {
    c.at
  }

  // ---- Nonces ----

  const EXECUTION_SCOPE_TTL: nat := 30
  const MAX_AGE: nat := 2 * EXECUTION_SCOPE_TTL
  const NONCE_HIGH_WATER_MARK: nat := 10000
  const CLEANUP_INTERVAL: nat := 100

  datatype Nonces = Nonces(seen: map<string, int>, ops: nat)

  function Fresh(seen: map<string, int>, now: int): map<string, int> {
    map k | k in seen && now - seen[k] <= MAX_AGE :: seen[k]
  }

  /** The next call starts with a clean-up pass: every hundredth one does, and every one while the memory is large. */
  predicate CleansUp(n: Nonces) {
    |n.seen| >= NONCE_HIGH_WATER_MARK || (n.ops + 1) % CLEANUP_INTERVAL == 0
  }

  /** The memory that a call looks its nonce up in. */
  function Consulted(n: Nonces, now: int): map<string, int> {
    if CleansUp(n) then Fresh(n.seen, now) else n.seen
  }

  predicate Accepts(n: Nonces, c: Call) {
    c.id !in Consulted(n, c.at)
  }

  function Checked(n: Nonces, c: Call): Nonces {
    var seen := Consulted(n, c.at);
    Nonces(if c.id in seen then seen else seen[c.id := c.at], n.ops + 1)
  }

  /** The acceptance times of `id` over a run, in order. */
  function Acceptances(n: Nonces, calls: seq<Call>, id: string): seq<int>
    decreases |calls|
  {
    if calls == [] then []
    else
      (if calls[0].id == id && Accepts(n, calls[0]) then [calls[0].at] else [])
      + Acceptances(Checked(n, calls[0]), calls[1..], id)
  }

  /** Remembered times are in the past. */
  ghost predicate Past(n: Nonces, now: int) {
    forall k :: k in n.seen ==> n.seen[k] <= now
  }

  /** If `id` was last accepted at `t`, it is still remembered or at least MAX_AGE has passed. */
  ghost predicate LastAccepted(n: Nonces, id: string, t: int, now: int) {
    if id in n.seen then n.seen[id] == t else now - t > MAX_AGE
  }

  lemma CheckKeepsMemory(n: Nonces, c: Call, id: string, t: int, from: int)
    requires from <= c.at && Past(n, from) && LastAccepted(n, id, t, from)
    ensures Past(Checked(n, c), c.at)
    ensures c.id == id && Accepts(n, c) ==> c.at - t > MAX_AGE && LastAccepted(Checked(n, c), id, c.at, c.at)
    ensures !(c.id == id && Accepts(n, c)) ==> LastAccepted(Checked(n, c), id, t, c.at)
  {
  }

  /** Successive times in `ts` are more than MAX_AGE apart. */
  ghost predicate Spaced(ts: seq<int>) {
    forall i, j :: 0 <= i < j < |ts| ==> ts[j] - ts[i] > MAX_AGE
  }

  ghost predicate AllAfter(ts: seq<int>, t: int) {
    forall i :: 0 <= i < |ts| ==> ts[i] - t > MAX_AGE
  }

  lemma SpacedCons(t: int, ts: seq<int>)
    requires Spaced(ts) && AllAfter(ts, t)
    ensures Spaced([t] + ts)
  {
  }

  /** Every later acceptance of `id` comes more than MAX_AGE after `t`, and so do successive ones. */
  lemma {:induction false} AcceptancesSpaced(n: Nonces, calls: seq<Call>, id: string, t: int, from: int)
    requires ClockRuns(calls, CallTime, from) && Past(n, from) && LastAccepted(n, id, t, from)
    ensures AllAfter(Acceptances(n, calls, id), t) && Spaced(Acceptances(n, calls, id))
    decreases |calls|
  {
    if calls != [] {
      var c := calls[0];
      CheckKeepsMemory(n, c, id, t, from);
      var rest := Acceptances(Checked(n, c), calls[1..], id);
      if c.id == id && Accepts(n, c) {
        AcceptancesSpaced(Checked(n, c), calls[1..], id, c.at, c.at);
        SpacedCons(c.at, rest);
        assert Acceptances(n, calls, id) == [c.at] + rest;
      } else {
        AcceptancesSpaced(Checked(n, c), calls[1..], id, t, c.at);
        assert Acceptances(n, calls, id) == rest;
      }
    }
  }

  /** Over any run from an empty tracker, two acceptances of one nonce are more than MAX_AGE apart. */
  lemma {:induction false} OneAcceptancePerWindow(n: Nonces, calls: seq<Call>, id: string, from: int)
    requires ClockRuns(calls, CallTime, from) && Past(n, from) && id !in n.seen
    ensures Spaced(Acceptances(n, calls, id))
    ensures var ts := Acceptances(n, calls, id); forall i, j :: 0 <= i < j < |ts| ==> ts[j] - ts[i] > 60
    decreases |calls|
  {
    if calls != [] {
      var c := calls[0];
      if c.id == id {
        assert Past(Checked(n, c), c.at) && LastAccepted(Checked(n, c), id, c.at, c.at);
        AcceptancesSpaced(Checked(n, c), calls[1..], id, c.at, c.at);
        SpacedCons(c.at, Acceptances(Checked(n, c), calls[1..], id));
      } else {
        OneAcceptancePerWindow(Checked(n, c), calls[1..], id, c.at);
      }
    }
  }

  /** An execution-scoped token, minted some time after its nonce was accepted. */
  datatype ScopedToken = ScopedToken(acceptedAt: int, issuedAt: int, expiresAt: int)

  ghost predicate MintedFor(t: ScopedToken, acceptedAt: int, ttl: int, delay: int) {
    t.acceptedAt == acceptedAt && acceptedAt <= t.issuedAt <= acceptedAt + delay && t.expiresAt == t.issuedAt + ttl
  }

  predicate ValidAt(t: ScopedToken, now: int) {
    t.issuedAt <= now < t.expiresAt
  }

  /**
    If lifetime plus check-to-sign delay is at most MAX_AGE, no two tokens minted for one nonce
    are valid at the same moment.
   */
  lemma OneLiveTokenPerNonce(calls: seq<Call>, id: string, from: int, i: nat, j: nat, a: ScopedToken, b: ScopedToken,
                             ttl: int, delay: int, now: int)
    requires ClockRuns(calls, CallTime, from) && ttl + delay <= 60
    requires i < j < |Acceptances(Nonces(map[], 0), calls, id)|
    requires MintedFor(a, Acceptances(Nonces(map[], 0), calls, id)[i], ttl, delay)
    requires MintedFor(b, Acceptances(Nonces(map[], 0), calls, id)[j], ttl, delay)
    ensures !(ValidAt(a, now) && ValidAt(b, now))
  {
    OneAcceptancePerWindow(Nonces(map[], 0), calls, id, from);
  }

  /** A nonce never accepted before is accepted: nothing is refused but a replay. */
  lemma {:induction false} FreshNonceIsAccepted(n: Nonces, calls: seq<Call>, c: Call)
    requires c.id !in n.seen && forall x :: x in calls ==> x.id != c.id
    ensures Accepts(NoncesAfter(n, calls), c)
    decreases |calls|
  {
    if calls != [] {
      assert calls[0] in calls && forall x :: x in calls[1..] ==> x in calls;
      FreshNonceIsAccepted(Checked(n, calls[0]), calls[1..], c);
    }
  }

  function NoncesAfter(n: Nonces, calls: seq<Call>): Nonces
    decreases |calls|
  {
    if calls == [] then n else NoncesAfter(Checked(n, calls[0]), calls[1..])
  }

  // ---- How long a nonce is refused ----

  /** A remembered nonce is accepted exactly by a call that cleans up and comes more than 60 s later. */
  lemma RememberedAcceptedIff(n: Nonces, c: Call)
    requires c.id in n.seen
    ensures Accepts(n, c) <==>
            (|n.seen| >= 10000 || (n.ops + 1) % 100 == 0) && c.at - n.seen[c.id] > 60
  {
  }

  /** Some call of the run starts with a clean-up pass later than `deadline`. */
  ghost predicate CleanedAfter(n: Nonces, calls: seq<Call>, deadline: int)
    decreases |calls|
  {
    calls != [] &&
    ((CleansUp(n) && calls[0].at > deadline) || CleanedAfter(Checked(n, calls[0]), calls[1..], deadline))
  }

  lemma {:induction false} ForgottenStaysForgotten(n: Nonces, calls: seq<Call>, c: Call)
    requires c.id !in n.seen && Acceptances(n, calls, c.id) == []
    ensures Accepts(NoncesAfter(n, calls), c)
    decreases |calls|
  {
    if calls != [] {
      ForgottenStaysForgotten(Checked(n, calls[0]), calls[1..], c);
    }
  }

  lemma {:induction false} RememberedUntilPass(n: Nonces, calls: seq<Call>, c: Call)
    requires c.id in n.seen && Acceptances(n, calls, c.id) == []
    ensures Accepts(NoncesAfter(n, calls), c) <==> CleanedAfter(n, calls + [c], n.seen[c.id] + MAX_AGE)
    decreases |calls|
  {
    var deadline := n.seen[c.id] + MAX_AGE;
    if calls == [] {
      assert ([] + [c])[1..] == [];
      assert !CleanedAfter(Checked(n, c), [], deadline);
    } else {
      assert (calls + [c])[0] == calls[0] && (calls + [c])[1..] == calls[1..] + [c];
      if CleansUp(n) && calls[0].at > deadline {
        ForgottenStaysForgotten(Checked(n, calls[0]), calls[1..], c);
      } else {
        RememberedUntilPass(Checked(n, calls[0]), calls[1..], c);
      }
    }
  }

  /**
    Pruning is lazy. A nonce last accepted with call `a` is accepted again if and only if some
    clean-up pass since then, the one of the asking call included, ran more than MAX_AGE after `a`.
   */
  lemma AcceptedAgainIff(n: Nonces, a: Call, calls: seq<Call>, c: Call)
    requires a.id == c.id && Accepts(n, a) && Acceptances(Checked(n, a), calls, c.id) == []
    ensures Accepts(NoncesAfter(Checked(n, a), calls), c) <==>
            CleanedAfter(Checked(n, a), calls + [c], a.at + 60)
  {
    RememberedUntilPass(Checked(n, a), calls, c);
  }

  lemma {:induction false} PassAtHundredth(n: Nonces, calls: seq<Call>, deadline: int, i: nat)
    requires i < |calls| && forall j :: 0 <= j <= i ==> calls[j].at > deadline
    requires (n.ops + 1 + i) % CLEANUP_INTERVAL == 0
    ensures CleanedAfter(n, calls, deadline)
    decreases i
  {
    if i > 0 { PassAtHundredth(Checked(n, calls[0]), calls[1..], deadline, i - 1); }
  }

  lemma PassWithinHundred(n: Nonces, calls: seq<Call>, deadline: int)
    requires |calls| == CLEANUP_INTERVAL && forall x :: x in calls ==> x.at > deadline
    ensures CleanedAfter(n, calls, deadline)
  {
    PassAtHundredth(n, calls, deadline, CLEANUP_INTERVAL - 1 - n.ops % CLEANUP_INTERVAL);
  }

  /** So after MAX_AGE a nonce is refused at most another ninety-nine calls long. */
  lemma RefusalIsBounded(n: Nonces, a: Call, early: seq<Call>, late: seq<Call>, c: Call)
    requires a.id == c.id && Accepts(n, a) && Acceptances(Checked(n, a), early + late, c.id) == []
    requires |late| == 99 && forall x :: x in late + [c] ==> x.at > a.at + 60
    ensures Accepts(NoncesAfter(Checked(n, a), early + late), c)
  {
    AcceptedAgainIff(n, a, early + late, c);
    PassWithinHundred(NoncesAfter(Checked(n, a), early), late + [c], a.at + MAX_AGE);
    PassLater(Checked(n, a), early, late + [c], a.at + MAX_AGE);
    assert early + (late + [c]) == (early + late) + [c];
  }

  lemma {:induction false} PassLater(n: Nonces, early: seq<Call>, late: seq<Call>, deadline: int)
    requires CleanedAfter(NoncesAfter(n, early), late, deadline)
    ensures CleanedAfter(n, early + late, deadline)
    decreases |early|
  {
    if early == [] {
      assert early + late == late;
    } else {
      assert (early + late)[1..] == early[1..] + late;
      PassLater(Checked(n, early[0]), early[1..], late, deadline);
    }
  }

  /** Without such calls it is refused however late it comes. */
  lemma StaleNonceMayBeRefused(id: string, t: int, late: int)
    ensures !Accepts(NoncesAfter(Nonces(map[], 0), [Call(id, t)]), Call(id, late))
  {
    var c := Call(id, t);
    assert [c][1..] == [];
    assert NoncesAfter(Nonces(map[], 0), [c]) == Nonces(map[id := t], 1);
    assert |map[id := t]| == 1;
  }

  class NonceTracker {
    var seen: map<string, int>
    var ops: nat

    ghost function State(): Nonces
      reads this
    {
      Nonces(seen, ops)
    }

    constructor ()
      ensures State() == Nonces(map[], 0)
    {
      seen, ops := map[], 0;
    }

    method Check(nonce: string, now: int) returns (ok: bool)
      modifies this
      ensures ok == Accepts(old(State()), Call(nonce, now))
      ensures State() == Checked(old(State()), Call(nonce, now))
    {
      ops := ops + 1;
      if |seen| >= NONCE_HIGH_WATER_MARK || ops % CLEANUP_INTERVAL == 0 {
        CleanupLocked(now);
      }
      if nonce in seen { return false; }
      seen := seen[nonce := now];
      return true;
    }

    method CleanupLocked(now: int)
      modifies this`seen
      ensures seen == Fresh(old(seen), now)
    {
      var pending := seen.Keys;
      while pending != {}
        invariant pending <= seen.Keys <= old(seen).Keys
        invariant forall k :: k in seen ==> seen[k] == old(seen)[k]
        invariant forall k :: k in old(seen) && k !in pending ==> (k in seen <==> now - old(seen)[k] <= MAX_AGE)
        decreases pending
      {
        var k :| k in pending;
        pending := pending - {k};
        if now - seen[k] > MAX_AGE { seen := seen - {k}; }
      }
    }
  }

  // ---- Event ids ----

  const JTI_CLEANUP_INTERVAL: nat := 256

  datatype Jtis = Jtis(seen: map<string, int>, writes: nat)

  predicate IsDuplicate(ttl: int, seen: map<string, int>, c: Call) {
    ttl != 0 && c.id != "" && c.id in seen && c.at < seen[c.id]
  }

  function Unexpired(seen: map<string, int>, now: int): map<string, int> {
    map k | k in seen && now <= seen[k] :: seen[k]
  }

  /** checkAndMarkJTI on values; `prunes` false gives the memory that never forgets. */
  function Marked(ttl: int, s: Jtis, c: Call, prunes: bool): Jtis {
    if ttl == 0 || c.id == "" || IsDuplicate(ttl, s.seen, c) then s
    else
      var seen := s.seen[c.id := c.at + ttl];
      if s.writes + 1 >= JTI_CLEANUP_INTERVAL then Jtis(if prunes then Unexpired(seen, c.at) else seen, 0)
      else Jtis(seen, s.writes + 1)
  }

  function Verdicts(ttl: int, s: Jtis, calls: seq<Call>, prunes: bool): seq<bool>
    decreases |calls|
  {
    if calls == [] then []
    else [IsDuplicate(ttl, s.seen, calls[0])] + Verdicts(ttl, Marked(ttl, s, calls[0], prunes), calls[1..], prunes)
  }

  /** `pruned` lacks only ids of `full` whose memory has run out by `now`. */
  ghost predicate LacksOnlyRunOut(pruned: map<string, int>, full: map<string, int>, now: int) {
    && (forall k :: k in pruned ==> k in full && pruned[k] == full[k])
    && (forall k :: k in full && k !in pruned ==> full[k] <= now)
  }

  /** For every non-decreasing clock the store answers exactly as one that never prunes. */
  lemma {:induction false} JtiPruningIsUnobservable(ttl: int, s: Jtis, full: Jtis, calls: seq<Call>, from: int)
    requires ClockRuns(calls, CallTime, from) && LacksOnlyRunOut(s.seen, full.seen, from) && s.writes == full.writes
    ensures Verdicts(ttl, s, calls, true) == Verdicts(ttl, full, calls, false)
    decreases |calls|
  {
    if calls != [] {
      var c := calls[0];
      assert IsDuplicate(ttl, s.seen, c) == IsDuplicate(ttl, full.seen, c);
      JtiPruningIsUnobservable(ttl, Marked(ttl, s, c, true), Marked(ttl, full, c, false), calls[1..], c.at);
    }
  }

  /** The history-based meaning: was `c.id` accepted less than `ttl` ago? `accepted` lists all acceptances. */
  ghost predicate SeenWithin(ttl: int, accepted: seq<Call>, c: Call) {
    ttl != 0 && c.id != "" && exists a :: a in accepted && a.id == c.id && c.at < a.at + ttl
  }

  /** `accepted` extended by `c` if the store accepts and marks it. */
  function Extended(ttl: int, s: Jtis, accepted: seq<Call>, c: Call): seq<Call> {
    if ttl == 0 || c.id == "" || IsDuplicate(ttl, s.seen, c) then accepted else accepted + [c]
  }

  /** `accepted` extended by the calls of a run that the pruning store accepts and marks. */
  function AcceptedCalls(ttl: int, s: Jtis, accepted: seq<Call>, calls: seq<Call>): seq<Call>
    decreases |calls|
  {
    if calls == [] then accepted
    else AcceptedCalls(ttl, Marked(ttl, s, calls[0], true), Extended(ttl, s, accepted, calls[0]), calls[1..])
  }

  /** The store tells the acceptances that still matter at `now`. */
  ghost predicate Reflects(ttl: int, seen: map<string, int>, accepted: seq<Call>, now: int) {
    && (forall a :: a in accepted ==> a.at <= now && (now < a.at + ttl ==> a.id in seen && a.at + ttl <= seen[a.id]))
    && (forall k :: k in seen ==> exists a :: a in accepted && a.id == k && seen[k] == a.at + ttl)
  }

  lemma ReflectsLater(ttl: int, seen: map<string, int>, accepted: seq<Call>, now: int, later: int)
    requires Reflects(ttl, seen, accepted, now) && now <= later
    ensures Reflects(ttl, seen, accepted, later)
  {
  }

  /** Looking up the store is looking up the history. */
  lemma StoreTellsHistory(ttl: int, seen: map<string, int>, accepted: seq<Call>, c: Call)
    requires Reflects(ttl, seen, accepted, c.at)
    ensures IsDuplicate(ttl, seen, c) <==> SeenWithin(ttl, accepted, c)
  {
  }

  lemma MarkReflects(ttl: int, s: Jtis, accepted: seq<Call>, c: Call, from: int)
    requires from <= c.at && Reflects(ttl, s.seen, accepted, from)
    requires ttl != 0 && c.id != "" && !IsDuplicate(ttl, s.seen, c)
    ensures Reflects(ttl, Marked(ttl, s, c, true).seen, accepted + [c], c.at)
  {
    var s' := Marked(ttl, s, c, true);
    forall a | a in accepted + [c]
      ensures a.at <= c.at && (c.at < a.at + ttl ==> a.id in s'.seen && a.at + ttl <= s'.seen[a.id])
    {
      assert a in accepted || a == c;
    }
    forall k | k in s'.seen ensures exists a :: a in accepted + [c] && a.id == k && s'.seen[k] == a.at + ttl {
      if k == c.id {
        assert c in accepted + [c];
      } else {
        var a :| a in accepted && a.id == k && s.seen[k] == a.at + ttl;
        assert a in accepted + [c];
      }
    }
  }

  lemma StepReflects(ttl: int, s: Jtis, accepted: seq<Call>, c: Call, from: int)
    requires from <= c.at && Reflects(ttl, s.seen, accepted, from)
    ensures Reflects(ttl, Marked(ttl, s, c, true).seen, Extended(ttl, s, accepted, c), c.at)
  {
    if ttl == 0 || c.id == "" || IsDuplicate(ttl, s.seen, c) {
      ReflectsLater(ttl, s.seen, accepted, from, c.at);
    } else {
      MarkReflects(ttl, s, accepted, c, from);
    }
  }

  lemma {:induction false} RunReflects(ttl: int, s: Jtis, accepted: seq<Call>, calls: seq<Call>, last: Call, from: int)
    requires ClockRuns(calls + [last], CallTime, from) && Reflects(ttl, s.seen, accepted, from)
    ensures Reflects(ttl, JtisAfter(ttl, s, calls).seen, AcceptedCalls(ttl, s, accepted, calls), last.at)
    decreases |calls|
  {
    if calls == [] {
      ReflectsLater(ttl, s.seen, accepted, from, last.at);
    } else {
      var c := calls[0];
      assert (calls + [last])[0] == c && (calls + [last])[1..] == calls[1..] + [last];
      StepReflects(ttl, s, accepted, c, from);
      RunReflects(ttl, Marked(ttl, s, c, true), Extended(ttl, s, accepted, c), calls[1..], last, c.at);
    }
  }

  /** A call is refused exactly when its id was accepted less than `ttl` ago, for every run. */
  lemma DuplicateIffSeenWithin(ttl: int, s: Jtis, accepted: seq<Call>, calls: seq<Call>, last: Call, from: int)
    requires ClockRuns(calls + [last], CallTime, from) && Reflects(ttl, s.seen, accepted, from)
    ensures IsDuplicate(ttl, JtisAfter(ttl, s, calls).seen, last) <==>
            SeenWithin(ttl, AcceptedCalls(ttl, s, accepted, calls), last)
  {
    RunReflects(ttl, s, accepted, calls, last, from);
    StoreTellsHistory(ttl, JtisAfter(ttl, s, calls).seen, AcceptedCalls(ttl, s, accepted, calls), last);
  }

  function JtisAfter(ttl: int, s: Jtis, calls: seq<Call>): Jtis
    decreases |calls|
  {
    if calls == [] then s else JtisAfter(ttl, Marked(ttl, s, calls[0], true), calls[1..])
  }

  class JtiStore {
    var jtiSeen: map<string, int>
    var jtiWriteCount: nat
    const jtiTtl: int

    ghost function State(): Jtis
      reads this
    {
      Jtis(jtiSeen, jtiWriteCount)
    }

    constructor (ttl: int)
      ensures State() == Jtis(map[], 0) && jtiTtl == ttl
    {
      jtiSeen, jtiWriteCount, jtiTtl := map[], 0, ttl;
    }

    method CheckAndMark(jti: string, now: int) returns (duplicate: bool)
      modifies this
      ensures duplicate == IsDuplicate(jtiTtl, old(jtiSeen), Call(jti, now))
      ensures State() == Marked(jtiTtl, old(State()), Call(jti, now), true)
    {
      if jtiTtl == 0 || jti == "" { return false; }
      if jti in jtiSeen && now < jtiSeen[jti] { return true; }
      jtiSeen := jtiSeen[jti := now + jtiTtl];
      jtiWriteCount := jtiWriteCount + 1;
      if jtiWriteCount >= JTI_CLEANUP_INTERVAL {
        Prune(now);
        jtiWriteCount := 0;
      }
      return false;
    }

    method Prune(now: int)
      modifies this`jtiSeen
      ensures jtiSeen == Unexpired(old(jtiSeen), now)
    {
      var pending := jtiSeen.Keys;
      while pending != {}
        invariant pending <= jtiSeen.Keys <= old(jtiSeen).Keys
        invariant forall k :: k in jtiSeen ==> jtiSeen[k] == old(jtiSeen)[k]
        invariant forall k :: k in old(jtiSeen) && k !in pending ==> (k in jtiSeen <==> now <= old(jtiSeen)[k])
        decreases pending
      {
        var k :| k in pending;
        pending := pending - {k};
        if now > jtiSeen[k] { jtiSeen := jtiSeen - {k}; }
      }
    }
  }
}
