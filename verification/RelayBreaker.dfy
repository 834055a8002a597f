/**
  The per-peer circuit breaker of pkg/federation/relay.go under concurrent relay calls.
  A call checks the peer's status and, unless it is down, starts an attempt; attempts
  finish later, in any order.
 */
module RelayBreaker {

  const CIRCUIT_BREAKER_THRESHOLD: nat := 5

  datatype Status = Healthy | Degraded | Down

  /** One peer: its recorded state, and the attempts begun, in flight and finished. */
  datatype Peer = Peer(status: Status, consecutiveErrors: nat, relayedCount: nat, errorCount: nat,
                       started: nat, inFlight: nat, finished: nat)

  function NewPeer(): Peer {
    Peer(Healthy, 0, 0, 0, 0, 0, 0)
  }

  datatype Event =
    | Relay(peer: string)              // the breaker check of one relay call
    | Finish(peer: string, ok: bool)   // one in-flight attempt ends

  function Begun(p: Peer): Peer {
    if p.status.Down? then p else p.(started := p.started + 1, inFlight := p.inFlight + 1)
  }

  function Finished(p: Peer, ok: bool): Peer {
    if p.inFlight == 0 then p
    else
      var q := p.(inFlight := p.inFlight - 1, finished := p.finished + 1);
      if ok then q.(relayedCount := p.relayedCount + 1, consecutiveErrors := 0, status := Healthy)
      else
        q.(errorCount := p.errorCount + 1, consecutiveErrors := p.consecutiveErrors + 1,
           status := if p.consecutiveErrors + 1 >= CIRCUIT_BREAKER_THRESHOLD then Down else Degraded)
  }

  type Peers = map<string, Peer>

  function Step(ps: Peers, e: Event): Peers {
    if e.peer !in ps then ps
    else
      match e
      case Relay(id) => ps[id := Begun(ps[id])]
      case Finish(id, ok) => ps[id := Finished(ps[id], ok)]
  }

  function Run(ps: Peers, es: seq<Event>): Peers
    decreases |es|
  {
    if es == [] then ps else Run(Step(ps, es[0]), es[1..])
  }

  function StatusFor(consecutiveErrors: nat): Status {
    if consecutiveErrors == 0 then Healthy
    else if consecutiveErrors < CIRCUIT_BREAKER_THRESHOLD then Degraded
    else Down
  }

  /** The status tells the error run, every finished attempt is counted once, and none is lost. */
  ghost predicate PeerInv(p: Peer) {
    && p.status == StatusFor(p.consecutiveErrors)
    && p.relayedCount + p.errorCount == p.finished
    && p.finished + p.inFlight == p.started
    && p.consecutiveErrors <= p.errorCount
  }

  ghost predicate Inv(ps: Peers) {
    forall id :: id in ps ==> PeerInv(ps[id])
  }

  /** The breaker invariant holds in every interleaving of relay calls and finishing attempts. */
  lemma {:induction false} BreakerInvariant(ps: Peers, es: seq<Event>)
    requires Inv(ps)
    ensures Inv(Run(ps, es)) && Run(ps, es).Keys == ps.Keys
    decreases |es|
  {
    if es != [] {
      BreakerInvariant(Step(ps, es[0]), es[1..]);
    }
  }

  // ---- The recorded state and the history of attempts ----

  /** How the attempts of `id` that finish during the run end, in order, after those in `past`. */
  function Outcomes(ps: Peers, es: seq<Event>, id: string, past: seq<bool>): seq<bool>
    decreases |es|
  {
    if es == [] then past
    else
      var ends := es[0].Finish? && es[0].peer == id && id in ps && ps[id].inFlight > 0;
      Outcomes(Step(ps, es[0]), es[1..], id, if ends then past + [es[0].ok] else past)
  }

  /** How many failures the history ends with. */
  function TrailingFailures(h: seq<bool>): nat {
    if h == [] || h[|h| - 1] then 0 else 1 + TrailingFailures(h[..|h| - 1])
  }

  /** The last `n` attempts failed. */
  predicate LastFailed(h: seq<bool>, n: nat) {
    n <= |h| && forall i :: |h| - n <= i < |h| ==> !h[i]
  }

  lemma {:induction false} TrailingFailuresCount(h: seq<bool>, n: nat)
    ensures TrailingFailures(h) >= n <==> LastFailed(h, n)
    decreases n
  {
    if n > 0 && h != [] {
      TrailingFailuresCount(h[..|h| - 1], n - 1);
    }
  }

  ghost predicate Tells(p: Peer, h: seq<bool>) {
    && p.consecutiveErrors == TrailingFailures(h)
    && p.relayedCount == multiset(h)[true] && p.errorCount == multiset(h)[false]
  }

  lemma FinishTells(p: Peer, h: seq<bool>, ok: bool)
    requires Tells(p, h) && p.inFlight > 0
    ensures Tells(Finished(p, ok), h + [ok])
  {
    assert (h + [ok])[..|h|] == h;
  }

  lemma {:induction false} RunTells(ps: Peers, es: seq<Event>, id: string, past: seq<bool>)
    requires id in ps && Tells(ps[id], past)
    ensures id in Run(ps, es) && Tells(Run(ps, es)[id], Outcomes(ps, es, id, past))
    decreases |es|
  {
    if es != [] {
      var ends := es[0].Finish? && es[0].peer == id && ps[id].inFlight > 0;
      if ends { FinishTells(ps[id], past, es[0].ok); }
      RunTells(Step(ps, es[0]), es[1..], id, if ends then past + [es[0].ok] else past);
    }
  }

  /**
    In every interleaving the counters are those of the finished attempts, the error run is the
    number of failures they end with, and the peer is down exactly if the last five failed.
   */
  lemma DownIffLastFiveFailed(ps: Peers, es: seq<Event>, id: string)
    requires id in ps && ps[id] == NewPeer()
    ensures var h := Outcomes(ps, es, id, []);
            && id in Run(ps, es) && Tells(Run(ps, es)[id], h)
            && (Run(ps, es)[id].status.Down? <==> LastFailed(h, 5))
            && (Run(ps, es)[id].status.Healthy? <==> !LastFailed(h, 1))
  {
    var h := Outcomes(ps, es, id, []);
    RunTells(ps, es, id, []);
    OnePeerInvariant(ps, es, id);
    TrailingFailuresCount(h, CIRCUIT_BREAKER_THRESHOLD);
    TrailingFailuresCount(h, 1);
  }

  lemma {:induction false} OnePeerInvariant(ps: Peers, es: seq<Event>, id: string)
    requires id in ps && PeerInv(ps[id])
    ensures id in Run(ps, es) && PeerInv(Run(ps, es)[id])
    decreases |es|
  {
    if es != [] { OnePeerInvariant(Step(ps, es[0]), es[1..], id); }
  }

  // ---- The open breaker ----

  /** A peer that is down with nothing in flight is never attempted again and never changes. */
  lemma {:induction false} DownIsForever(ps: Peers, es: seq<Event>, id: string)
    requires id in ps && ps[id].status.Down? && ps[id].inFlight == 0
    ensures id in Run(ps, es) && Run(ps, es)[id] == ps[id]
    decreases |es|
  {
    if es != [] {
      DownIsForever(Step(ps, es[0]), es[1..], id);
    }
  }

  /** Until an attempt succeeds, a down peer starts nothing, and its error run grows at most by what was in flight. */
  lemma {:induction false} DownOnlyDrains(ps: Peers, es: seq<Event>, id: string)
    requires Inv(ps) && id in ps && ps[id].status.Down?
    requires forall e :: e in es ==> e != Finish(id, true)
    ensures id in Run(ps, es)
    ensures var p := Run(ps, es)[id];
            && p.status.Down? && p.started == ps[id].started
            && p.consecutiveErrors + p.inFlight == ps[id].consecutiveErrors + ps[id].inFlight
    decreases |es|
  {
    if es != [] {
      assert es[0] in es && forall e :: e in es[1..] ==> e in es;
      DownOnlyDrains(Step(ps, es[0]), es[1..], id);
    }
  }

  /** A late success revives a down peer: the breaker is not latched while attempts are in flight. */
  lemma LateSuccessRevives(ps: Peers, id: string)
    requires id in ps && ps[id].status.Down? && ps[id].inFlight > 0
    ensures id in Run(ps, [Finish(id, true), Relay(id)])
    ensures Run(ps, [Finish(id, true), Relay(id)])[id].started == ps[id].started + 1
  {
    var es := [Finish(id, true), Relay(id)];
    var revived := Step(ps, es[0]);
    assert es[1..] == [Relay(id)];
    assert [Relay(id)][1..] == [];
    assert Run(revived, [Relay(id)]) == Run(Step(revived, Relay(id)), []);
  }

  // ---- The relay's bookkeeping, object by object ----

  class PeerSignalState {
    var status: Status
    var consecutiveErrors: nat
    var relayedCount: nat
    var errorCount: nat
    ghost var started: nat
    ghost var inFlight: nat
    ghost var finished: nat

    ghost function State(): Peer
      reads this
    {
      Peer(status, consecutiveErrors, relayedCount, errorCount, started, inFlight, finished)
    }

    constructor ()
      ensures State() == NewPeer() && PeerInv(State())
    {
      status, consecutiveErrors, relayedCount, errorCount := Healthy, 0, 0, 0;
      started, inFlight, finished := 0, 0, 0;
    }

    /** The check before an attempt; `attempt` tells whether one was started. */
    method Check() returns (attempt: bool)
      modifies this
      ensures attempt <==> !old(status).Down?
      ensures State() == Begun(old(State()))
    {
      attempt := !status.Down?;
      if attempt {
        started, inFlight := started + 1, inFlight + 1;
      }
    }

    /** The update after an attempt. */
    method Complete(ok: bool)
      requires inFlight > 0
      modifies this
      ensures State() == Finished(old(State()), ok)
    {
      inFlight, finished := inFlight - 1, finished + 1;
      if !ok {
        errorCount := errorCount + 1;
        consecutiveErrors := consecutiveErrors + 1;
        if consecutiveErrors >= CIRCUIT_BREAKER_THRESHOLD {
          status := Down;
        } else {
          status := Degraded;
        }
      } else {
        relayedCount := relayedCount + 1;
        consecutiveErrors := 0;
        status := Healthy;
      }
    }
  }
}
