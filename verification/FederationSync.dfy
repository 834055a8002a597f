/**
  Hash-based revocation reconciliation between fabrics (pkg/federation/sync.go): one pull
  cycle with its counters, and what any sequence of pulls among any number of fabrics achieves.
 */
module FederationSync {
  import opened Basics
  import opened Revocation

  // ---- One pull ----

  /** When the puller cleans up and when the peer exports. */
  datatype Timing = Timing(cleanedAt: int, exportedAt: int)

  /** Clean up at one time, compare digests, and on a mismatch merge what the peer exports at another. */
  ghost function TimedPull(hash: Hasher, local: Index, peer: Index, t: Timing): Index
    requires WellKeyed(local) && WellKeyed(peer)
  {
    var cleaned := Active(local, t.cleanedAt);
    if hash(Listing(cleaned)) == hash(Listing(peer)) then cleaned
    else Merged(cleaned, Listing(Active(peer, t.exportedAt)))
  }

  /** A pull yields the peer's exported entries overridden by the local ones that survive the clean-up. */
  lemma TimedPullIsUnion(hash: Hasher, local: Index, peer: Index, t: Timing)
    requires WellKeyed(local) && WellKeyed(peer) && Injective(hash)
    ensures TimedPull(hash, local, peer, t) == Active(peer, t.exportedAt) + Active(local, t.cleanedAt)
    ensures WellKeyed(TimedPull(hash, local, peer, t))
  {
    MergedListing(Active(local, t.cleanedAt), Active(peer, t.exportedAt));
    if hash(Listing(Active(local, t.cleanedAt))) == hash(Listing(peer)) {
      ListingDeterminesIndex(Active(local, t.cleanedAt), peer);
    }
  }

  /**
    A subject that the peer revokes at `at` is missed exactly if the puller's own entry for it
    outlived the clean-up and has expired by `at`; nothing that the puller revokes is lost.
   */
  lemma TimedPullMissesIff(hash: Hasher, local: Index, peer: Index, t: Timing, at: int, k: string)
    requires WellKeyed(local) && WellKeyed(peer) && Injective(hash)
    requires t.cleanedAt <= at && t.exportedAt <= at
    ensures k in Active(peer, at) ==>
              (k !in Active(TimedPull(hash, local, peer, t), at) <==>
               k in Active(local, t.cleanedAt) && k !in Active(local, at))
    ensures k !in Active(peer, at) ==>
              (k in Active(TimedPull(hash, local, peer, t), at) <==> k in Active(local, at))
  {
    TimedPullIsUnion(hash, local, peer, t);
  }

  /** A pull at one instant. */
  ghost function Pulled(hash: Hasher, local: Index, peer: Index, now: int): Index
    requires WellKeyed(local) && WellKeyed(peer)
  {
    TimedPull(hash, local, peer, Timing(now, now))
  }

  /** It yields the peer's active entries overridden by the local ones. */
  lemma PullIsUnion(hash: Hasher, local: Index, peer: Index, now: int)
    requires WellKeyed(local) && WellKeyed(peer) && Injective(hash)
    ensures Pulled(hash, local, peer, now) == Active(peer, now) + Active(local, now)
    ensures WellKeyed(Pulled(hash, local, peer, now))
    ensures Active(Pulled(hash, local, peer, now), now) == Pulled(hash, local, peer, now)
  {
    TimedPullIsUnion(hash, local, peer, Timing(now, now));
  }

  /**
    Without the clean-up that precedes the pull, an expired local entry keeps its subject out;
    after the clean-up the subject is revoked exactly if the peer revokes it.
   */
  lemma ExpiredEntryBlocksImport(local: Index, peer: Index, now: int, k: string)
    requires WellKeyed(local) && WellKeyed(peer) && k in local && Expired(local[k], now)
    ensures k !in Active(Merged(local, Listing(Active(peer, now))), now)
    ensures k in Active(Merged(Active(local, now), Listing(Active(peer, now))), now) <==> k in Active(peer, now)
  {
    MergedListing(local, Active(peer, now));
    MergedListing(Active(local, now), Active(peer, now));
  }

  // ---- Any number of fabrics ----

  datatype Pull = Pull(puller: nat, peer: nat)

  ghost predicate Fleet(fs: seq<Index>) {
    forall i :: 0 <= i < |fs| ==> WellKeyed(fs[i])
  }

  ghost predicate Among(ps: seq<Pull>, n: nat) {
    forall i :: 0 <= i < |ps| ==> ps[i].puller < n && ps[i].peer < n
  }

  ghost function PullStep(hash: Hasher, fs: seq<Index>, p: Pull, now: int): seq<Index>
    requires Fleet(fs) && p.puller < |fs| && p.peer < |fs|
  {
    fs[p.puller := Pulled(hash, fs[p.puller], fs[p.peer], now)]
  }

  lemma StepKeepsFleet(hash: Hasher, fs: seq<Index>, p: Pull, now: int)
    requires Fleet(fs) && p.puller < |fs| && p.peer < |fs| && Injective(hash)
    ensures Fleet(PullStep(hash, fs, p, now))
  {
    PullIsUnion(hash, fs[p.puller], fs[p.peer], now);
  }

  ghost function PullAll(hash: Hasher, fs: seq<Index>, ps: seq<Pull>, now: int): (r: seq<Index>)
    requires Fleet(fs) && Among(ps, |fs|) && Injective(hash)
    ensures Fleet(r) && |r| == |fs|
    decreases |ps|
  {
    if ps == [] then fs
    else
      StepKeepsFleet(hash, fs, ps[0], now);
      PullAll(hash, PullStep(hash, fs, ps[0], now), ps[1..], now)
  }

  /** Whose initial knowledge has reached each fabric: a pull joins the puller's sources with the peer's. */
  ghost function Sources(know: seq<set<nat>>, ps: seq<Pull>): (r: seq<set<nat>>)
    requires Among(ps, |know|)
    ensures |r| == |know|
    decreases |ps|
  {
    if ps == [] then know
    else Sources(know[ps[0].puller := know[ps[0].puller] + know[ps[0].peer]], ps[1..])
  }

  ghost predicate HeldByOneOf(origin: seq<Index>, sources: set<nat>, k: string, now: int) {
    exists j :: j in sources && j < |origin| && k in Active(origin[j], now)
  }

  /** `e` is the active entry of one of the origins. */
  ghost predicate EntryOfOneOf(origin: seq<Index>, sources: set<nat>, e: Entry, now: int) {
    exists j :: j in sources && j < |origin| && e.subject in Active(origin[j], now) && origin[j][e.subject] == e
  }

  /** `m` actively holds exactly the subjects of the origins in `sources`, with an origin's entry for each. */
  ghost predicate Holds(origin: seq<Index>, m: Index, sources: set<nat>, now: int) {
    && (forall k :: k in Active(m, now) <==> HeldByOneOf(origin, sources, k, now))
    && (forall k :: k in Active(m, now) ==> EntryOfOneOf(origin, sources, m[k], now))
  }

  ghost predicate Tracks(origin: seq<Index>, fs: seq<Index>, know: seq<set<nat>>, now: int) {
    && |fs| == |origin| && |know| == |origin|
    && forall i :: 0 <= i < |fs| ==> Holds(origin, fs[i], know[i], now)
  }

  lemma PullJoinsSources(hash: Hasher, origin: seq<Index>, local: Index, peer: Index, ls: set<nat>, ps: set<nat>,
                         now: int)
    requires WellKeyed(local) && WellKeyed(peer) && Injective(hash)
    requires Holds(origin, local, ls, now) && Holds(origin, peer, ps, now)
    ensures Holds(origin, Pulled(hash, local, peer, now), ls + ps, now)
  {
    PullIsUnion(hash, local, peer, now);
    var m := Pulled(hash, local, peer, now);
    forall k ensures k in Active(m, now) <==> HeldByOneOf(origin, ls + ps, k, now) {
      assert HeldByOneOf(origin, ls + ps, k, now) <==>
             HeldByOneOf(origin, ls, k, now) || HeldByOneOf(origin, ps, k, now);
    }
    forall k | k in Active(m, now) ensures EntryOfOneOf(origin, ls + ps, m[k], now) {
      assert EntryOfOneOf(origin, ls, m[k], now) || EntryOfOneOf(origin, ps, m[k], now);
    }
  }

  lemma TracksStep(hash: Hasher, origin: seq<Index>, fs: seq<Index>, know: seq<set<nat>>, p: Pull, now: int)
    requires Fleet(fs) && Injective(hash) && Tracks(origin, fs, know, now)
    requires p.puller < |fs| && p.peer < |fs|
    ensures Tracks(origin, PullStep(hash, fs, p, now), know[p.puller := know[p.puller] + know[p.peer]], now)
  {
    PullJoinsSources(hash, origin, fs[p.puller], fs[p.peer], know[p.puller], know[p.peer], now);
  }

  lemma {:induction false} TracksRun(hash: Hasher, origin: seq<Index>, fs: seq<Index>, know: seq<set<nat>>,
                                     ps: seq<Pull>, now: int)
    requires Fleet(fs) && Injective(hash) && Tracks(origin, fs, know, now) && Among(ps, |fs|)
    ensures Tracks(origin, PullAll(hash, fs, ps, now), Sources(know, ps), now)
    decreases |ps|
  {
    if ps != [] {
      StepKeepsFleet(hash, fs, ps[0], now);
      TracksStep(hash, origin, fs, know, ps[0], now);
      var know' := know[ps[0].puller := know[ps[0].puller] + know[ps[0].peer]];
      TracksRun(hash, origin, PullStep(hash, fs, ps[0], now), know', ps[1..], now);
    }
  }

  /** At the start each fabric knows its own revocations. */
  ghost function Selves(n: nat): seq<set<nat>> {
    seq(n, i => {i})
  }

  /**
    Exact information flow: after any pulls in any order, a fabric revokes a subject exactly
    when some fabric whose knowledge reached it revoked that subject at the start. Nothing is
    lost and nothing is invented.
   */
  lemma InformationFlow(hash: Hasher, fs: seq<Index>, ps: seq<Pull>, now: int)
    requires Fleet(fs) && Injective(hash) && Among(ps, |fs|)
    ensures Tracks(fs, PullAll(hash, fs, ps, now), Sources(Selves(|fs|), ps), now)
  {
    forall i | 0 <= i < |fs| ensures Holds(fs, fs[i], Selves(|fs|)[i], now) {
      assert i in Selves(|fs|)[i];
    }
    TracksRun(hash, fs, fs, Selves(|fs|), ps, now);
  }

  /** Sources only grow, and a pull brings in what the peer knew. */
  lemma {:induction false} SourcesGrow(know: seq<set<nat>>, ps: seq<Pull>, i: nat)
    requires Among(ps, |know|) && i < |know|
    ensures know[i] <= Sources(know, ps)[i]
    decreases |ps|
  {
    if ps != [] {
      SourcesGrow(know[ps[0].puller := know[ps[0].puller] + know[ps[0].peer]], ps[1..], i);
    }
  }

  lemma {:induction false} PullBringsPeer(know: seq<set<nat>>, ps: seq<Pull>, i: nat, j: nat)
    requires Among(ps, |know|) && i < |know| && j < |know| && j in know[j]
    requires Pull(i, j) in ps
    ensures j in Sources(know, ps)[i]
    decreases |ps|
  {
    var know' := know[ps[0].puller := know[ps[0].puller] + know[ps[0].peer]];
    if ps[0] == Pull(i, j) {
      SourcesGrow(know', ps[1..], i);
    } else {
      PullBringsPeer(know', ps[1..], i, j);
    }
  }

  ghost predicate EveryonePulledFromEveryone(ps: seq<Pull>, n: nat) {
    forall i: nat, j: nat :: i < n && j < n && i != j ==> Pull(i, j) in ps
  }

  lemma EveryoneKnowsEveryone(ps: seq<Pull>, n: nat, i: nat, j: nat)
    requires Among(ps, n) && EveryonePulledFromEveryone(ps, n) && i < n && j < n
    ensures j in Sources(Selves(n), ps)[i]
  {
    if i == j { SourcesGrow(Selves(n), ps, i); } else { PullBringsPeer(Selves(n), ps, i, j); }
  }

  ghost predicate RevokedSomewhere(fs: seq<Index>, k: string, now: int) {
    exists j :: 0 <= j < |fs| && k in Active(fs[j], now)
  }

  /** Once everyone has pulled from everyone, in any order, all revoke the same subjects: the union. */
  lemma FederationConverges(hash: Hasher, fs: seq<Index>, ps: seq<Pull>, now: int)
    requires Fleet(fs) && Injective(hash) && Among(ps, |fs|) && EveryonePulledFromEveryone(ps, |fs|)
    ensures forall i, k :: 0 <= i < |fs| ==>
              (k in Active(PullAll(hash, fs, ps, now)[i], now) <==> RevokedSomewhere(fs, k, now))
  {
    InformationFlow(hash, fs, ps, now);
    var know := Sources(Selves(|fs|), ps);
    forall i, j | 0 <= i < |fs| && 0 <= j < |fs| ensures j in know[i] {
      EveryoneKnowsEveryone(ps, |fs|, i, j);
    }
    forall i, k | 0 <= i < |fs|
      ensures k in Active(PullAll(hash, fs, ps, now)[i], now) <==> RevokedSomewhere(fs, k, now)
    {
      assert Holds(fs, PullAll(hash, fs, ps, now)[i], know[i], now);
      assert RevokedSomewhere(fs, k, now) <==> HeldByOneOf(fs, know[i], k, now);
    }
  }

  // ---- How long agreement lasts ----

  /** All fabrics revoke the same subjects at `at`. */
  ghost predicate SameSubjects(rs: seq<Index>, at: int) {
    forall i, j, k :: 0 <= i < |rs| && 0 <= j < |rs| && k in Active(rs[i], at) ==> k in Active(rs[j], at)
  }

  /** All fabrics hold the same active entries at `at`. */
  ghost predicate SameEntries(rs: seq<Index>, at: int) {
    forall i, j :: 0 <= i < |rs| && 0 <= j < |rs| ==> Active(rs[i], at) == Active(rs[j], at)
  }

  /** Fabrics that revoke a subject at `now` give it the same expiry. */
  ghost predicate ExpiriesAgree(fs: seq<Index>, now: int) {
    forall i, j, k :: 0 <= i < |fs| && 0 <= j < |fs| && k in Active(fs[i], now) && k in Active(fs[j], now)
      ==> fs[i][k].expiresAt == fs[j][k].expiresAt
  }

  /** Fabrics that revoke a subject at `now` hold the same entry for it. */
  ghost predicate EntriesAgree(fs: seq<Index>, now: int) {
    forall i, j, k :: 0 <= i < |fs| && 0 <= j < |fs| && k in Active(fs[i], now) && k in Active(fs[j], now)
      ==> fs[i][k] == fs[j][k]
  }

  /** A fabric keeps its own active entries, whatever it pulls. */
  lemma {:induction false} OwnEntryIsKept(hash: Hasher, fs: seq<Index>, ps: seq<Pull>, now: int, i: nat, k: string)
    requires Fleet(fs) && Injective(hash) && Among(ps, |fs|) && i < |fs| && k in Active(fs[i], now)
    ensures k in PullAll(hash, fs, ps, now)[i] && PullAll(hash, fs, ps, now)[i][k] == fs[i][k]
    decreases |ps|
  {
    if ps != [] {
      PullIsUnion(hash, fs[ps[0].puller], fs[ps[0].peer], now);
      OwnEntryIsKept(hash, PullStep(hash, fs, ps[0], now), ps[1..], now, i, k);
    }
  }

  /** Once everyone has pulled from everyone, an active entry of one fabric has an active counterpart at every other. */
  lemma Counterpart(hash: Hasher, fs: seq<Index>, ps: seq<Pull>, now: int, i: nat, j: nat, k: string)
    returns (a: nat, b: nat)
    requires Fleet(fs) && Injective(hash) && Among(ps, |fs|) && EveryonePulledFromEveryone(ps, |fs|)
    requires i < |fs| && j < |fs| && k in Active(PullAll(hash, fs, ps, now)[i], now)
    ensures a < |fs| && k in Active(fs[a], now) && PullAll(hash, fs, ps, now)[i][k] == fs[a][k]
    ensures b < |fs| && k in Active(fs[b], now)
    ensures k in PullAll(hash, fs, ps, now)[j] && PullAll(hash, fs, ps, now)[j][k] == fs[b][k]
  {
    FederationConverges(hash, fs, ps, now);
    InformationFlow(hash, fs, ps, now);
    var rs, know := PullAll(hash, fs, ps, now), Sources(Selves(|fs|), ps);
    assert RevokedSomewhere(fs, k, now);
    assert k in Active(rs[j], now);
    assert EntryOfOneOf(fs, know[i], rs[i][k], now) && EntryOfOneOf(fs, know[j], rs[j][k], now);
    a :| a in know[i] && a < |fs| && k in Active(fs[a], now) && fs[a][k] == rs[i][k];
    b :| b in know[j] && b < |fs| && k in Active(fs[b], now) && fs[b][k] == rs[j][k];
  }

  /** The time just after the earlier of two different expiries tells the entries apart. */
  lemma ExpiriesSplit(a: Entry, b: Entry, now: int) returns (later: int)
    requires !Expired(a, now) && !Expired(b, now) && a.expiresAt != b.expiresAt
    ensures now <= later && Expired(a, later) != Expired(b, later)
  {
    later := if a.expiresAt.None? || (b.expiresAt.Some? && b.expiresAt.value < a.expiresAt.value)
    then b.expiresAt.value + 1 else a.expiresAt.value + 1;
  }

  /**
    Once everyone has pulled from everyone, the fabrics revoke the same subjects at every later
    time if and only if no two of them started with different expiries for one subject: a pull
    never replaces an entry the puller holds, so different expiries stay and tell.
   */
  lemma AgreementLastsIff(hash: Hasher, fs: seq<Index>, ps: seq<Pull>, now: int)
    requires Fleet(fs) && Injective(hash) && Among(ps, |fs|) && EveryonePulledFromEveryone(ps, |fs|)
    ensures (forall later :: now <= later ==> SameSubjects(PullAll(hash, fs, ps, now), later))
            <==> ExpiriesAgree(fs, now)
  {
    if ExpiriesAgree(fs, now) {
      forall later | now <= later ensures SameSubjects(PullAll(hash, fs, ps, now), later) {
        EqualExpiriesLast(hash, fs, ps, now, later);
      }
    } else {
      var later := UnequalExpiriesShow(hash, fs, ps, now);
    }
  }

  lemma EqualExpiriesLast(hash: Hasher, fs: seq<Index>, ps: seq<Pull>, now: int, later: int)
    requires Fleet(fs) && Injective(hash) && Among(ps, |fs|) && EveryonePulledFromEveryone(ps, |fs|)
    requires ExpiriesAgree(fs, now) && now <= later
    ensures SameSubjects(PullAll(hash, fs, ps, now), later)
  {
    var rs := PullAll(hash, fs, ps, now);
    forall i, j, k | 0 <= i < |rs| && 0 <= j < |rs| && k in Active(rs[i], later) ensures k in Active(rs[j], later) {
      var a, b := Counterpart(hash, fs, ps, now, i, j, k);
    }
  }

  lemma UnequalExpiriesShow(hash: Hasher, fs: seq<Index>, ps: seq<Pull>, now: int) returns (later: int)
    requires Fleet(fs) && Injective(hash) && Among(ps, |fs|) && !ExpiriesAgree(fs, now)
    ensures now <= later && !SameSubjects(PullAll(hash, fs, ps, now), later)
  {
    var i, j, k :| 0 <= i < |fs| && 0 <= j < |fs| && k in Active(fs[i], now) && k in Active(fs[j], now)
      && fs[i][k].expiresAt != fs[j][k].expiresAt;
    OwnEntryIsKept(hash, fs, ps, now, i, k);
    OwnEntryIsKept(hash, fs, ps, now, j, k);
    later := ExpiriesSplit(fs[i][k], fs[j][k], now);
    var rs := PullAll(hash, fs, ps, now);
    assert k in Active(rs[i], later) <==> k !in Active(rs[j], later);
  }

  /**
    The entries themselves, with reason and revocation time, are the same everywhere if and only
    if no two fabrics started with different entries for a subject; the clock does not matter.
   */
  lemma EntriesEqualIff(hash: Hasher, fs: seq<Index>, ps: seq<Pull>, now: int)
    requires Fleet(fs) && Injective(hash) && Among(ps, |fs|) && EveryonePulledFromEveryone(ps, |fs|)
    ensures SameEntries(PullAll(hash, fs, ps, now), now) <==> EntriesAgree(fs, now)
    ensures SameEntries(PullAll(hash, fs, ps, now), now)
            <==> forall later :: now <= later ==> SameEntries(PullAll(hash, fs, ps, now), later)
  {
    var rs := PullAll(hash, fs, ps, now);
    if EntriesAgree(fs, now) {
      forall later | now <= later ensures SameEntries(rs, later) {
        EqualEntriesLast(hash, fs, ps, now, later);
      }
    } else {
      var i, j, k :| 0 <= i < |fs| && 0 <= j < |fs| && k in Active(fs[i], now) && k in Active(fs[j], now)
        && fs[i][k] != fs[j][k];
      OwnEntryIsKept(hash, fs, ps, now, i, k);
      OwnEntryIsKept(hash, fs, ps, now, j, k);
      assert k in Active(rs[i], now) && Active(rs[i], now)[k] != Active(rs[j], now)[k];
    }
  }

  lemma EqualEntriesLast(hash: Hasher, fs: seq<Index>, ps: seq<Pull>, now: int, later: int)
    requires Fleet(fs) && Injective(hash) && Among(ps, |fs|) && EveryonePulledFromEveryone(ps, |fs|)
    requires EntriesAgree(fs, now) && now <= later
    ensures SameEntries(PullAll(hash, fs, ps, now), later)
  {
    var rs := PullAll(hash, fs, ps, now);
    forall i, j, k | 0 <= i < |rs| && 0 <= j < |rs| && k in Active(rs[i], later)
      ensures k in Active(rs[j], later) && rs[i][k] == rs[j][k]
    {
      var a, b := Counterpart(hash, fs, ps, now, i, j, k);
    }
    forall i, j | 0 <= i < |rs| && 0 <= j < |rs| ensures Active(rs[i], later) == Active(rs[j], later) {
      assert forall k :: k in Active(rs[i], later) <==> k in Active(rs[j], later);
    }
  }

  // ---- Pulls spread over time ----

  ghost predicate Within(ts: seq<Timing>, from: int, until: int) {
    forall i :: 0 <= i < |ts| ==>
      from <= ts[i].cleanedAt <= until && from <= ts[i].exportedAt <= until
  }

  ghost function TimedPullAll(hash: Hasher, fs: seq<Index>, ps: seq<Pull>, ts: seq<Timing>): (r: seq<Index>)
    requires Fleet(fs) && Among(ps, |fs|) && Injective(hash) && |ts| == |ps|
    ensures Fleet(r) && |r| == |fs|
    decreases |ps|
  {
    if ps == [] then fs
    else
      TimedPullIsUnion(hash, fs[ps[0].puller], fs[ps[0].peer], ts[0]);
      var pulled := TimedPull(hash, fs[ps[0].puller], fs[ps[0].peer], ts[0]);
      TimedPullAll(hash, fs[ps[0].puller := pulled], ps[1..], ts[1..])
  }

  lemma {:induction false} ConstantTiming(hash: Hasher, fs: seq<Index>, ps: seq<Pull>, ts: seq<Timing>, now: int)
    requires Fleet(fs) && Among(ps, |fs|) && Injective(hash) && |ts| == |ps|
    requires forall i :: 0 <= i < |ts| ==> ts[i] == Timing(now, now)
    ensures TimedPullAll(hash, fs, ps, ts) == PullAll(hash, fs, ps, now)
    decreases |ps|
  {
    if ps != [] {
      StepKeepsFleet(hash, fs, ps[0], now);
      ConstantTiming(hash, PullStep(hash, fs, ps[0], now), ps[1..], ts[1..], now);
    }
  }

  /** At `until`, `m` revokes exactly what its sources do; all it held since `from` are entries of theirs. */
  ghost predicate HoldsUntil(origin: seq<Index>, m: Index, sources: set<nat>, from: int, until: int) {
    && (forall k :: k in Active(m, until) <==> HeldByOneOf(origin, sources, k, until))
    && (forall k :: k in Active(m, from) ==> EntryOfOneOf(origin, sources, m[k], from))
  }

  ghost predicate TracksUntil(origin: seq<Index>, fs: seq<Index>, know: seq<set<nat>>, from: int, until: int) {
    && |fs| == |origin| && |know| == |origin|
    && forall i :: 0 <= i < |fs| ==> HoldsUntil(origin, fs[i], know[i], from, until)
  }

  /** With equal expiries no entry that outlives the clean-up hides one that lives longer. */
  lemma NothingIsHidden(origin: seq<Index>, local: Index, peer: Index, ls: set<nat>, ps: set<nat>,
                        from: int, cleanedAt: int, until: int, k: string)
    requires WellKeyed(local) && WellKeyed(peer) && ExpiriesAgree(origin, from) && from <= cleanedAt <= until
    requires HoldsUntil(origin, local, ls, from, until) && HoldsUntil(origin, peer, ps, from, until)
    requires k in Active(peer, until) && k in Active(local, cleanedAt)
    ensures k in Active(local, until)
  {
    var i := OriginOf(origin, local, ls, from, until, k);
    var j := OriginOf(origin, peer, ps, from, until, k);
    assert origin[i][k].expiresAt == origin[j][k].expiresAt;
  }

  lemma OriginOf(origin: seq<Index>, m: Index, sources: set<nat>, from: int, until: int, k: string) returns (j: nat)
    requires WellKeyed(m) && HoldsUntil(origin, m, sources, from, until) && k in Active(m, from)
    ensures j < |origin| && k in Active(origin[j], from) && origin[j][k] == m[k]
  {
    assert EntryOfOneOf(origin, sources, m[k], from);
    j :| j in sources && j < |origin| && m[k].subject in Active(origin[j], from) && origin[j][m[k].subject] == m[k];
  }

  lemma TimedPullJoinsSources(hash: Hasher, origin: seq<Index>, local: Index, peer: Index, ls: set<nat>, ps: set<nat>,
                              t: Timing, from: int, until: int)
    requires WellKeyed(local) && WellKeyed(peer) && Injective(hash) && ExpiriesAgree(origin, from)
    requires from <= t.cleanedAt <= until && from <= t.exportedAt <= until
    requires HoldsUntil(origin, local, ls, from, until) && HoldsUntil(origin, peer, ps, from, until)
    ensures HoldsUntil(origin, TimedPull(hash, local, peer, t), ls + ps, from, until)
  {
    TimedPullIsUnion(hash, local, peer, t);
    var m := TimedPull(hash, local, peer, t);
    forall k ensures k in Active(m, until) <==> HeldByOneOf(origin, ls + ps, k, until) {
      TimedPullMissesIff(hash, local, peer, t, until, k);
      if k in Active(peer, until) && k in Active(local, t.cleanedAt) {
        NothingIsHidden(origin, local, peer, ls, ps, from, t.cleanedAt, until, k);
      }
      assert HeldByOneOf(origin, ls + ps, k, until) <==>
             HeldByOneOf(origin, ls, k, until) || HeldByOneOf(origin, ps, k, until);
    }
    forall k | k in Active(m, from) ensures EntryOfOneOf(origin, ls + ps, m[k], from) {
      if k in Active(local, t.cleanedAt) {
        assert k in Active(local, from);
        assert EntryOfOneOf(origin, ls, m[k], from);
      } else {
        assert k in Active(peer, from);
        assert EntryOfOneOf(origin, ps, m[k], from);
      }
    }
  }

  lemma {:induction false} TracksTimedRun(hash: Hasher, origin: seq<Index>, fs: seq<Index>, know: seq<set<nat>>,
                                          ps: seq<Pull>, ts: seq<Timing>, from: int, until: int)
    requires Fleet(fs) && Injective(hash) && Among(ps, |fs|) && |ts| == |ps| && Within(ts, from, until)
    requires ExpiriesAgree(origin, from) && TracksUntil(origin, fs, know, from, until)
    ensures TracksUntil(origin, TimedPullAll(hash, fs, ps, ts), Sources(know, ps), from, until)
    decreases |ps|
  {
    if ps != [] {
      var i, j := ps[0].puller, ps[0].peer;
      TimedPullIsUnion(hash, fs[i], fs[j], ts[0]);
      TimedPullJoinsSources(hash, origin, fs[i], fs[j], know[i], know[j], ts[0], from, until);
      var fs' := fs[i := TimedPull(hash, fs[i], fs[j], ts[0])];
      TracksTimedRun(hash, origin, fs', know[i := know[i] + know[j]], ps[1..], ts[1..], from, until);
    }
  }

  /**
    The information flow of pulls spread over any period, with any time between the clean-up and
    the export of each: it is exact at the end if no two fabrics started with different expiries.
   */
  lemma TimedInformationFlow(hash: Hasher, fs: seq<Index>, ps: seq<Pull>, ts: seq<Timing>, from: int, until: int)
    requires Fleet(fs) && Injective(hash) && Among(ps, |fs|) && |ts| == |ps| && Within(ts, from, until)
    requires ExpiriesAgree(fs, from)
    ensures TracksUntil(fs, TimedPullAll(hash, fs, ps, ts), Sources(Selves(|fs|), ps), from, until)
  {
    forall i | 0 <= i < |fs| ensures HoldsUntil(fs, fs[i], Selves(|fs|)[i], from, until) {
      assert i in Selves(|fs|)[i];
    }
    TracksTimedRun(hash, fs, fs, Selves(|fs|), ps, ts, from, until);
  }

  lemma TimedUnion(hash: Hasher, fs: seq<Index>, ps: seq<Pull>, ts: seq<Timing>, from: int, until: int)
    requires Fleet(fs) && Injective(hash) && Among(ps, |fs|) && |ts| == |ps| && Within(ts, from, until)
    requires EveryonePulledFromEveryone(ps, |fs|) && ExpiriesAgree(fs, from)
    ensures forall i, k :: 0 <= i < |fs| ==>
              (k in Active(TimedPullAll(hash, fs, ps, ts)[i], until) <==> RevokedSomewhere(fs, k, until))
  {
    TimedInformationFlow(hash, fs, ps, ts, from, until);
    var know := Sources(Selves(|fs|), ps);
    forall i, k | 0 <= i < |fs|
      ensures k in Active(TimedPullAll(hash, fs, ps, ts)[i], until) <==> RevokedSomewhere(fs, k, until)
    {
      assert HoldsUntil(fs, TimedPullAll(hash, fs, ps, ts)[i], know[i], from, until);
      forall j | 0 <= j < |fs| ensures j in know[i] { EveryoneKnowsEveryone(ps, |fs|, i, j); }
      assert RevokedSomewhere(fs, k, until) <==> HeldByOneOf(fs, know[i], k, until);
    }
  }

  /** However the pulls are timed from `from` on, all fabrics end up revoking the same subjects. */
  ghost predicate ConvergesHoweverTimed(hash: Hasher, fs: seq<Index>, ps: seq<Pull>, from: int)
    requires Fleet(fs) && Injective(hash) && Among(ps, |fs|)
  {
    forall ts, until :: |ts| == |ps| && Within(ts, from, until) && from <= until ==>
      SameSubjects(TimedPullAll(hash, fs, ps, ts), until)
  }

  /** Pulls of everyone from everyone converge under every timing iff no two fabrics started with different expiries. */
  lemma ConvergesHoweverTimedIff(hash: Hasher, fs: seq<Index>, ps: seq<Pull>, from: int)
    requires Fleet(fs) && Injective(hash) && Among(ps, |fs|) && EveryonePulledFromEveryone(ps, |fs|)
    ensures ConvergesHoweverTimed(hash, fs, ps, from) <==> ExpiriesAgree(fs, from)
  {
    if ExpiriesAgree(fs, from) {
      forall ts, until | |ts| == |ps| && Within(ts, from, until) && from <= until
        ensures SameSubjects(TimedPullAll(hash, fs, ps, ts), until)
      {
        TimedUnion(hash, fs, ps, ts, from, until);
        var rs := TimedPullAll(hash, fs, ps, ts);
        forall i, j, k | 0 <= i < |rs| && 0 <= j < |rs| && k in Active(rs[i], until)
          ensures k in Active(rs[j], until)
        {
          assert RevokedSomewhere(fs, k, until);
        }
      }
    } else {
      var later := UnequalExpiriesShow(hash, fs, ps, from);
      var ts := seq(|ps|, _ => Timing(from, from));
      ConstantTiming(hash, fs, ps, ts, from);
      assert Within(ts, from, later);
    }
  }

  // ---- The syncer object ----

  datatype PeerState = PeerState(syncCount: nat, mismatchCount: nat, fullSyncCount: nat, errorCount: nat,
                                 peerHash: Digest, localHash: Digest)

  /** What the peer's two endpoints return; None is a transport, status, decoding or size failure. */
  datatype PeerReplies = PeerReplies(digest: Option<Digest>, snapshot: Option<Option<Snapshot>>)

  datatype SyncResult = InSync | Reconciled | SyncFailed

  /** Every call ended in exactly one way: in sync, reconciled, or with an error. */
  ghost predicate Balanced(s: PeerState, calls: nat) {
    && s.fullSyncCount <= s.mismatchCount <= s.syncCount
    && (s.syncCount - s.mismatchCount) + s.fullSyncCount + s.errorCount == calls
  }

  /** How one call with result `r` moves a peer's counters; `checked` tells whether the peer's digest arrived. */
  ghost predicate Counted(before: PeerState, after: PeerState, checked: bool, r: SyncResult) {
    && after.syncCount == before.syncCount + (if checked then 1 else 0)
    && after.mismatchCount == before.mismatchCount + (if checked && r != InSync then 1 else 0)
    && after.fullSyncCount == before.fullSyncCount + (if r == Reconciled then 1 else 0)
    && after.errorCount == before.errorCount + (if r == SyncFailed then 1 else 0)
  }

  class Syncer {
    var states: map<string, PeerState>
    const index: RevocationIndex
    ghost var calls: map<string, nat>

    ghost predicate Valid()
      reads this, index
    {
      && index.Valid()
      && calls.Keys == states.Keys
      && forall p :: p in states ==> Balanced(states[p], calls[p])
    }

    constructor (peers: set<string>, index: RevocationIndex)
      requires index.Valid()
      ensures Valid() && states.Keys == peers && this.index == index
    {
      this.states := map p | p in peers :: PeerState(0, 0, 0, 0, "", "");
      this.calls := map p | p in peers :: 0;
      this.index := index;
    }

    /** syncWithPeer: clean up, compare digests, reconcile on a mismatch. */
    method SyncWithPeer(peer: string, replies: PeerReplies, now: int) returns (result: SyncResult)
      requires Valid() && peer in states
      modifies this, index
      ensures Valid() && calls == old(calls)[peer := old(calls)[peer] + 1]
      ensures states == old(states)[peer := states[peer]]
      ensures Counted(old(states)[peer], states[peer], replies.digest.Some?, result)
      ensures replies.digest.None? ==> result == SyncFailed
      ensures replies.digest.Some? ==>
                (result == InSync <==> replies.digest.value == index.hash(Listing(Active(old(index.entries), now))))
      ensures result == SyncFailed <==>
                || replies.digest.None?
                || (result != InSync && ExportFailed(replies.snapshot))
      ensures index.entries ==
                if result == Reconciled
                then Merged(Active(old(index.entries), now), replies.snapshot.value.value.entries)
                else Active(old(index.entries), now)
      ensures replies.digest.Some? ==> states[peer].localHash == index.hash(Listing(index.entries))
      ensures replies.digest.Some? ==> states[peer].peerHash == replies.digest.value
      ensures replies.digest.None? ==>
                states[peer] == old(states)[peer].(errorCount := old(states)[peer].errorCount + 1)
    {
      var s := states[peer];
      var _ := index.Cleanup(now);
      var localHash := index.Hash();
      calls := calls[peer := calls[peer] + 1];
      if replies.digest.None? {
        states := states[peer := s.(errorCount := s.errorCount + 1)];
        return SyncFailed;
      }
      s := s.(syncCount := s.syncCount + 1, localHash := localHash, peerHash := replies.digest.value);
      if localHash == replies.digest.value {
        states := states[peer := s];
        return InSync;
      }
      s := s.(mismatchCount := s.mismatchCount + 1);
      var ok := MergeExport(replies.snapshot);
      if !ok {
        states := states[peer := s.(errorCount := s.errorCount + 1)];
        return SyncFailed;
      }
      var newHash := index.Hash();
      states := states[peer := s.(fullSyncCount := s.fullSyncCount + 1, localHash := newHash)];
      return Reconciled;
    }

    ghost predicate ExportFailed(reply: Option<Option<Snapshot>>) {
      reply.None? || ImportFailure(index.hash, reply.value).Some?
    }

    method MergeExport(reply: Option<Option<Snapshot>>) returns (ok: bool)
      requires index.Valid()
      modifies index
      ensures index.Valid()
      ensures ok <==> !ExportFailed(reply)
      ensures index.entries == if ok then Merged(old(index.entries), reply.value.value.entries) else old(index.entries)
    {
      if reply.None? { return false; }
      var err := index.Import(reply.value);
      return err.None?;
    }
  }

  /**
    One cycle against a live peer's endpoints is exactly one pull. It fails only if the digests
    differ and the export is over the size limit, which `fits` tells; then it just cleans up.
   */
  method PullFromPeer(s: Syncer, peer: string, remote: RevocationIndex, t: Timing, fits: bool)
    returns (result: SyncResult)
    requires s.Valid() && peer in s.states && remote.Valid() && remote != s.index && remote.hash == s.index.hash
    modifies s, s.index
    ensures s.Valid()
    ensures var cleaned := Active(old(s.index.entries), t.cleanedAt);
            result == SyncFailed <==> !fits && s.index.hash(Listing(cleaned)) != remote.hash(Listing(remote.entries))
    ensures s.index.entries == if result == SyncFailed then Active(old(s.index.entries), t.cleanedAt)
                               else TimedPull(s.index.hash, old(s.index.entries), remote.entries, t)
    ensures remote.entries == old(remote.entries)
  {
    var digest := remote.Hash();
    var data := remote.Export(t.exportedAt);
    var snapshot := if fits then Some(Some(data)) else None;
    result := s.SyncWithPeer(peer, PeerReplies(Some(digest), snapshot), t.cleanedAt);
  }
}
