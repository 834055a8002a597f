/**
  Receiving revocation signals from peer fabrics (pkg/federation/inbound.go): identity and
  trust checks, expiry, duplicate suppression, and application to the local index.
 */
module Inbound {
  import opened Basics
  import opened Revocation
  import opened DedupWindow

  const DEFAULT_MAX_TTL: nat := 86400 // 24 hours, in seconds

  datatype Signal = Signal(source: string, certFabric: string, subject: string, reason: string,
                           expiresAt: Option<int>, eventJti: string)

  datatype Verdict =
    | MtlsRequired
    | PeerIdentityMismatch
    | UntrustedPeer
    | InvalidSignal
    | SignalExpired
    | Duplicate
    | Applied

  /** The checks that precede duplicate suppression; None lets the signal through. */
  function Refusal(requireMtls: bool, trusted: set<string>, s: Signal, now: int): Option<Verdict> {
    if requireMtls && s.certFabric == "" then Some(MtlsRequired)
    else if s.certFabric != "" && s.source != s.certFabric then Some(PeerIdentityMismatch)
    else if s.source !in trusted then Some(UntrustedPeer)
    else if s.subject == "" then Some(InvalidSignal)
    else if s.expiresAt.Some? && s.expiresAt.value < now then Some(SignalExpired)
    else None
  }

  /** The signal comes with a certificate of its source, or with none where none is required. */
  predicate Authentic(requireMtls: bool, s: Signal) {
    if s.certFabric == "" then !requireMtls else s.certFabric == s.source
  }

  /** What each refusal means, and that a signal passes exactly if it is authentic, trusted, named and current. */
  lemma RefusalMeans(requireMtls: bool, trusted: set<string>, s: Signal, now: int)
    ensures var r := Refusal(requireMtls, trusted, s, now);
            var known := Authentic(requireMtls, s) && s.source in trusted;
            var past := s.expiresAt.Some? && s.expiresAt.value < now;
            && (r == Some(MtlsRequired) <==> requireMtls && s.certFabric == "")
            && (r == Some(PeerIdentityMismatch) <==> s.certFabric != "" && s.certFabric != s.source)
            && (r == Some(UntrustedPeer) <==> Authentic(requireMtls, s) && s.source !in trusted)
            && (r == Some(InvalidSignal) <==> known && s.subject == "")
            && (r == Some(SignalExpired) <==> known && s.subject != "" && past)
            && (r.None? <==> known && s.subject != "" && !past)
  {
  }

  /** The checks with duplicate suppression; `order` lists the remembered ids. */
  function Admission(requireMtls: bool, trusted: set<string>, order: seq<string>, s: Signal, now: int)
    : Option<Verdict>
  {
    if Refusal(requireMtls, trusted, s, now).Some? then Refusal(requireMtls, trusted, s, now)
    else if s.eventJti != "" && s.eventJti in order then Some(Duplicate)
    else None
  }

  /** The event id that the dedup block records: none for an empty one. */
  function IdOf(s: Signal): seq<string> {
    if s.eventJti == "" then [] else [s.eventJti]
  }

  /** The remembered ids after letting `s` through. */
  function Remembered(capacity: nat, order: seq<string>, s: Signal): seq<string>
    requires capacity >= 1
  {
    if s.eventJti == "" then order else Accepted(capacity, order, s.eventJti)
  }

  function ReasonOf(s: Signal): string {
    "federated:" + s.reason + " from:" + s.source
  }

  /** A signal without expiry gets the default, so federated revocations are never permanent. */
  function EffectiveExpiry(s: Signal, now: int): int {
    if s.expiresAt.None? then now + DEFAULT_MAX_TTL else s.expiresAt.value
  }

  class InboundHandler {
    const requireMtls: bool
    const trustedPeers: set<string>
    const filter: Filter
    const index: RevocationIndex? // null: no revocation service is configured
    var dedupHits: nat
    var received: map<string, nat>

    ghost predicate Valid()
      reads this, filter, index
    {
      filter.Valid() && (index != null ==> index.Valid()) && received.Keys == trustedPeers
    }

    ghost function Entries(): Index
      reads index
    {
      if index == null then map[] else index.entries
    }

    constructor (requireMtls: bool, peers: set<string>, filter: Filter, index: RevocationIndex?)
      requires filter.Valid() && (index != null ==> index.Valid())
      ensures Valid() && dedupHits == 0
      ensures this.requireMtls == requireMtls && this.trustedPeers == peers
      ensures this.filter == filter && this.index == index
    {
      this.requireMtls, this.trustedPeers, this.filter, this.index := requireMtls, peers, filter, index;
      dedupHits := 0;
      received := map p | p in peers :: 0;
    }

    /**
      A refused signal or a remembered duplicate leaves the index alone; any other signal
      revokes its subject, with an expiry that has not passed, and nothing else.
     */
    method ReceiveRevocation(s: Signal, now: int) returns (v: Verdict)
      requires Valid()
      modifies this, filter, index
      ensures Valid()
      ensures Refusal(requireMtls, trustedPeers, s, now).Some? ==>
                v == Refusal(requireMtls, trustedPeers, s, now).value && filter.accepted == old(filter.accepted)
      ensures v == Duplicate <==>
                && Refusal(requireMtls, trustedPeers, s, now).None?
                && s.eventJti != "" && s.eventJti in old(filter.seenOrder)
      ensures v != Applied ==> Entries() == old(Entries()) && received == old(received)
      ensures v == Applied ==> Authentic(requireMtls, s) && s.source in trustedPeers && s.subject != ""
      ensures v == Applied ==>
                && AppliedTo(old(Entries()), s, now)
                && received == old(received)[s.source := old(received)[s.source] + 1]
      ensures v == Applied || v == Duplicate <==> Refusal(requireMtls, trustedPeers, s, now).None?
      ensures v == Applied && s.eventJti != "" ==> filter.accepted == old(filter.accepted) + [s.eventJti]
      ensures dedupHits == old(dedupHits) + if v == Duplicate then 1 else 0
    {
      var refusal := Admit(s, now);
      if refusal.Some? { return refusal.value; }
      Apply(s, EffectiveExpiry(s, now), now);
      return Applied;
    }

    /** The part up to and including the dedup block; None lets the signal through to the index. */
    method Admit(s: Signal, now: int) returns (refusal: Option<Verdict>)
      requires filter.Valid()
      modifies this`dedupHits, filter
      ensures filter.Valid()
      ensures refusal == Admission(requireMtls, trustedPeers, old(filter.seenOrder), s, now)
      ensures filter.seenOrder == if refusal.None? then Remembered(filter.maxSeen, old(filter.seenOrder), s)
                                  else old(filter.seenOrder)
      ensures filter.accepted == old(filter.accepted) + if refusal.None? then IdOf(s) else []
      ensures dedupHits == old(dedupHits) + if refusal == Some(Duplicate) then 1 else 0
    {
      if requireMtls && s.certFabric == "" { return Some(MtlsRequired); }
      if s.certFabric != "" && s.source != s.certFabric { return Some(PeerIdentityMismatch); }
      if s.source !in trustedPeers { return Some(UntrustedPeer); }
      if s.subject == "" { return Some(InvalidSignal); }
      var expiry := if s.expiresAt.None? then now + DEFAULT_MAX_TTL else s.expiresAt.value;
      if expiry < now { return Some(SignalExpired); }
      if s.eventJti != "" {
        var isNew := filter.Offer(s.eventJti);
        if !isNew {
          dedupHits := dedupHits + 1;
          return Some(Duplicate);
        }
      }
      return None;
    }

    /** The configured index revokes the signal's subject, unexpired, and is otherwise `before`. */
    ghost predicate AppliedTo(before: Index, s: Signal, now: int)
      reads index
    {
      index != null ==>
        && s.subject in Active(index.entries, now)
        && index.entries[s.subject].expiresAt == (if s.expiresAt.Some? then s.expiresAt else Some(now + 86400))
        && index.entries[s.subject].reason == "federated:" + s.reason + " from:" + s.source
        && index.entries - {s.subject} == before - {s.subject}
    }

    /** The part after the dedup block, at whatever time it comes to run. */
    method Apply(s: Signal, expiry: int, now: int)
      requires index != null ==> index.Valid()
      requires s.source in received
      modifies this`received, index
      ensures index != null ==> index.Valid()
      ensures index != null ==> Entries() == Revoked(old(Entries()), s.subject, ReasonOf(s), Some(expiry), now)
      ensures received == old(received)[s.source := old(received)[s.source] + 1]
    {
      if index != null {
        var _ := index.Revoke(s.subject, ReasonOf(s), Some(expiry), now);
      }
      received := received[s.source := received[s.source] + 1];
    }
  }

  /** Redelivering an event whose id is among the last M + 1 - E accepted ones never touches the index. */
  method Redeliver(h: InboundHandler, s: Signal, i: nat, now: int) returns (v: Verdict)
    requires h.Valid() && i < |h.filter.accepted| && h.filter.accepted[i] == s.eventJti && s.eventJti != ""
    requires |h.filter.accepted| - i <= h.filter.maxSeen + 1 - EvictCount(h.filter.maxSeen)
    modifies h, h.filter, h.index
    ensures v != Applied && h.Entries() == old(h.Entries())
  {
    RedeliveryIsSuppressed(h.filter.maxSeen, h.filter.accepted, h.filter.seenOrder, i);
    v := h.ReceiveRevocation(s, now);
  }
}
