/**
  The hash-chained ECT audit ledger of pkg/audit/ledger.go (section 7 of
  draft-nennemann-wimse-ect-00). Hashing is a parameter; it may fail on an entry.
 */
module Ledger {
  import opened Basics

  datatype Entry = Entry(sequence: nat, jti: string, prevHash: string, ectToken: string, issuer: string,
                         subject: string, toolId: string, execAct: string, workflowId: string, recordedAt: Option<int>)

  type EntryHasher = Entry -> Option<string>

  ghost predicate CollisionFree(hash: EntryHasher) {
    forall a, b :: hash(a).Some? && hash(a) == hash(b) ==> a == b
  }

  predicate LinkOk(hash: EntryHasher, es: seq<Entry>, i: nat)
    requires i < |es|
  {
    if i == 0 then es[0].prevHash == "" else hash(es[i - 1]) == Some(es[i].prevHash)
  }

  predicate EntryOk(hash: EntryHasher, es: seq<Entry>, i: nat)
    requires i < |es|
  {
    es[i].sequence == i + 1 && LinkOk(hash, es, i) && hash(es[i]).Some?
  }

  /** What Verify accepts. */
  ghost predicate ChainOk(hash: EntryHasher, es: seq<Entry>) {
    forall i :: 0 <= i < |es| ==> EntryOk(hash, es, i)
  }

  // ---- Tamper evidence ----

  /** Verified ledgers that share an entry anywhere share its position and everything before it. */
  lemma {:induction false} SharedEntryFixesHistory(hash: EntryHasher, a: seq<Entry>, b: seq<Entry>, i: nat, j: nat)
    requires CollisionFree(hash) && ChainOk(hash, a) && ChainOk(hash, b)
    requires i < |a| && j < |b| && a[i] == b[j]
    ensures i == j && a[..i + 1] == b[..i + 1]
    decreases i
  {
    assert EntryOk(hash, a, i) && EntryOk(hash, b, j);
    if i > 0 {
      assert EntryOk(hash, a, i - 1) && EntryOk(hash, b, i - 1);
      SharedEntryFixesHistory(hash, a, b, i - 1, i - 1);
      assert a[..i + 1] == a[..i] + [a[i]] && b[..i + 1] == b[..i] + [b[i]];
    }
  }

  /** Two verified ledgers with the same last entry are the same ledger. */
  lemma LastEntryFixesLedger(hash: EntryHasher, a: seq<Entry>, b: seq<Entry>)
    requires CollisionFree(hash) && ChainOk(hash, a) && ChainOk(hash, b)
    requires |a| > 0 && |b| > 0 && a[|a| - 1] == b[|b| - 1]
    ensures a == b
  {
    SharedEntryFixesHistory(hash, a, b, |a| - 1, |b| - 1);
  }

  /** Hence any change to a verified ledger that keeps its head is caught. */
  lemma TamperingIsCaught(hash: EntryHasher, genuine: seq<Entry>, forged: seq<Entry>)
    requires CollisionFree(hash) && ChainOk(hash, genuine) && genuine != forged
    requires |genuine| > 0 && |forged| > 0 && hash(genuine[|genuine| - 1]) == hash(forged[|forged| - 1])
    ensures !ChainOk(hash, forged)
  {
    assert EntryOk(hash, genuine, |genuine| - 1);
    if ChainOk(hash, forged) {
      LastEntryFixesLedger(hash, genuine, forged);
      assert false;
    }
  }

  /**
    Verify does not look at the recorded head digest. So replacing one entry goes unnoticed
    exactly if it is the last one and its replacement keeps sequence number and link and hashes.
   */
  lemma EditPassesIff(hash: EntryHasher, es: seq<Entry>, i: nat, e: Entry)
    requires CollisionFree(hash) && ChainOk(hash, es) && i < |es|
    ensures ChainOk(hash, es[i := e]) <==>
            || e == es[i]
            || (i == |es| - 1 && e.sequence == es[i].sequence && e.prevHash == es[i].prevHash && hash(e).Some?)
  {
    var edited := es[i := e];
    assert EntryOk(hash, es, i);
    assert e == es[i] ==> edited == es;
    if ChainOk(hash, edited) {
      assert EntryOk(hash, edited, i);
      if i + 1 < |es| {
        assert EntryOk(hash, es, i + 1) && EntryOk(hash, edited, i + 1);
      }
    } else {
      var j :| 0 <= j < |edited| && !EntryOk(hash, edited, j);
      assert EntryOk(hash, es, j);
    }
  }

  /** Cutting off the end goes unnoticed as well. */
  lemma TruncationPasses(hash: EntryHasher, es: seq<Entry>, n: nat)
    requires ChainOk(hash, es) && n <= |es|
    ensures ChainOk(hash, es[..n])
  {
    forall i | 0 <= i < n ensures EntryOk(hash, es[..n], i) {
      assert EntryOk(hash, es, i);
    }
  }

  // ---- Appending ----

  datatype LedgerState = LedgerState(entries: seq<Entry>, index: map<string, nat>, lastHash: string, lastSequence: nat)

  function Empty(): LedgerState {
    LedgerState([], map[], "", 0)
  }

  datatype AppendError = DuplicateJti(jti: string) | HashFailed

  function Stamped(s: LedgerState, e: Entry, now: int): Entry {
    e.(sequence := s.lastSequence + 1, prevHash := s.lastHash,
       recordedAt := if e.recordedAt.None? then Some(now) else e.recordedAt)
  }

  function AppendFailure(hash: EntryHasher, s: LedgerState, e: Entry, now: int): Option<AppendError> {
    if e.jti in s.index then Some(DuplicateJti(e.jti))
    else if hash(Stamped(s, e, now)).None? then Some(HashFailed)
    else None
  }

  function Appended(hash: EntryHasher, s: LedgerState, e: Entry, now: int): LedgerState {
    if AppendFailure(hash, s, e, now).Some? then s
    else
      var stamped := Stamped(s, e, now);
      LedgerState(s.entries + [stamped], s.index[e.jti := |s.entries|], hash(stamped).value, s.lastSequence + 1)
  }

  /** Verified chain, gap-free numbering, and an index that finds each id at its one position. */
  ghost predicate Inv(hash: EntryHasher, s: LedgerState) {
    && ChainOk(hash, s.entries)
    && s.lastSequence == |s.entries|
    && (s.entries == [] ==> s.lastHash == "")
    && (s.entries != [] ==> hash(s.entries[|s.entries| - 1]) == Some(s.lastHash))
    && (forall i :: 0 <= i < |s.entries| ==> s.entries[i].jti in s.index && s.index[s.entries[i].jti] == i)
    && (forall jti :: jti in s.index ==> s.index[jti] < |s.entries| && s.entries[s.index[jti]].jti == jti)
  }

  lemma AppendKeepsInv(hash: EntryHasher, s: LedgerState, e: Entry, now: int)
    requires Inv(hash, s)
    ensures Inv(hash, Appended(hash, s, e, now))
  {
    var s' := Appended(hash, s, e, now);
    forall i | 0 <= i < |s'.entries| ensures EntryOk(hash, s'.entries, i) {
      if i < |s.entries| { assert EntryOk(hash, s.entries, i); }
    }
  }

  /** `x` records `e`: the caller's own claims, its place in the chain, and a time if the caller gave none. */
  ghost predicate Records(x: Entry, e: Entry, sequence: nat, prevHash: string, now: int) {
    && x.jti == e.jti && x.ectToken == e.ectToken && x.issuer == e.issuer && x.subject == e.subject
    && x.toolId == e.toolId && x.execAct == e.execAct && x.workflowId == e.workflowId
    && x.sequence == sequence && x.prevHash == prevHash
    && x.recordedAt == if e.recordedAt.Some? then e.recordedAt else Some(now)
  }

  /** An append is accepted exactly if no entry has its id and what it records can be hashed. */
  lemma AppendAcceptedIff(hash: EntryHasher, s: LedgerState, e: Entry, now: int, x: Entry)
    requires Inv(hash, s) && Records(x, e, |s.entries| + 1, s.lastHash, now)
    ensures AppendFailure(hash, s, e, now).None? <==>
            (forall i :: 0 <= i < |s.entries| ==> s.entries[i].jti != e.jti) && hash(x).Some?
    ensures AppendFailure(hash, s, e, now) == Some(DuplicateJti(e.jti)) <==>
            exists i :: 0 <= i < |s.entries| && s.entries[i].jti == e.jti
    ensures AppendFailure(hash, s, e, now).Some? ==> Appended(hash, s, e, now) == s
    ensures AppendFailure(hash, s, e, now).None? ==> Appended(hash, s, e, now).entries == s.entries + [x]
  {
    assert x == Stamped(s, e, now);
  }

  /** The entry of an id. */
  function Found(s: LedgerState, jti: string): Option<Entry> {
    if jti in s.index && s.index[jti] < |s.entries| then Some(s.entries[s.index[jti]]) else None
  }

  /** What was appended is found under its id, as recorded then, after whatever is appended later. */
  lemma AppendedIsFound(hash: EntryHasher, s: LedgerState, e: Entry, now: int, x: Entry, later: seq<(Entry, int)>)
    requires Inv(hash, s) && Records(x, e, |s.entries| + 1, s.lastHash, now)
    requires AppendFailure(hash, s, e, now).None?
    ensures Found(Run(hash, Appended(hash, s, e, now), later), e.jti) == Some(x)
  {
    AppendAcceptedIff(hash, s, e, now, x);
    AppendKeepsInv(hash, s, e, now);
    var s' := Appended(hash, s, e, now);
    RunsVerify(hash, s', later);
    var end := Run(hash, s', later);
    assert end.entries[|s.entries|] == s'.entries[|s.entries|] == x;
  }

  function Run(hash: EntryHasher, s: LedgerState, es: seq<(Entry, int)>): LedgerState
    decreases |es|
  {
    if es == [] then s else Run(hash, Appended(hash, s, es[0].0, es[0].1), es[1..])
  }

  /** Every ledger that appends reach verifies and keeps all it held: history is only extended. */
  lemma {:induction false} RunsVerify(hash: EntryHasher, s: LedgerState, es: seq<(Entry, int)>)
    requires Inv(hash, s)
    ensures Inv(hash, Run(hash, s, es)) && s.entries <= Run(hash, s, es).entries
    decreases |es|
  {
    if es != [] {
      AppendKeepsInv(hash, s, es[0].0, es[0].1);
      RunsVerify(hash, Appended(hash, s, es[0].0, es[0].1), es[1..]);
    }
  }

  // ---- The ledger object ----

  datatype Violation = SequenceGap(at: nat) | ChainBroken(at: nat) | Unhashable(at: nat)

  class ECTLedger {
    var entries: seq<Entry>
    var index: map<string, nat>
    var lastHash: string
    var lastSequence: nat
    const hash: EntryHasher

    ghost function State(): LedgerState
      reads this
    {
      LedgerState(entries, index, lastHash, lastSequence)
    }

    ghost predicate Valid()
      reads this
    {
      Inv(hash, State())
    }

    constructor (hash: EntryHasher)
      ensures Valid() && State() == Empty()
    {
      entries, index, lastHash, lastSequence := [], map[], "", 0;
      this.hash := hash;
    }

    method Append(e: Entry, now: int) returns (sequence: nat, err: Option<AppendError>)
      requires Valid()
      modifies this
      ensures Valid()
      ensures err == AppendFailure(hash, old(State()), e, now)
      ensures State() == Appended(hash, old(State()), e, now)
      ensures sequence == if err.None? then |entries| else 0
      ensures err.None? ==>
                && |entries| == |old(entries)| + 1 && entries[..|old(entries)|] == old(entries)
                && Records(entries[|old(entries)|], e, |entries|, old(lastHash), now)
    {
      sequence, err := AppendRaw(e, now);
      AppendKeepsInv(hash, old(State()), e, now);
    }

    /** Append's body; it needs nothing of the ledger's state. */
    method AppendRaw(e: Entry, now: int) returns (sequence: nat, err: Option<AppendError>)
      modifies this
      ensures err == AppendFailure(hash, old(State()), e, now)
      ensures State() == Appended(hash, old(State()), e, now)
      ensures sequence == if err.None? then lastSequence else 0
    {
      if e.jti in index {
        return 0, Some(DuplicateJti(e.jti));
      }
      lastSequence := lastSequence + 1;
      var entry := e.(sequence := lastSequence, prevHash := lastHash);
      if entry.recordedAt.None? { entry := entry.(recordedAt := Some(now)); }
      var h := hash(entry);
      if h.None? {
        lastSequence := lastSequence - 1;
        return 0, Some(HashFailed);
      }
      lastHash := h.value;
      index := index[e.jti := |entries|];
      entries := entries + [entry];
      return lastSequence, None;
    }

    method Lookup(jti: string) returns (e: Option<Entry>)
      requires Valid()
      ensures e.Some? ==> e.value.jti == jti && e.value in entries
      ensures e.None? ==> forall x :: x in entries ==> x.jti != jti
      ensures e == Found(State(), jti)
    {
      if jti !in index { return None; }
      return Some(entries[index[jti]]);
    }

    /** Accepts exactly the intact chains; otherwise names the first position that is wrong. */
    method Verify() returns (v: Option<Violation>)
      ensures v.None? <==> ChainOk(hash, entries)
      ensures v.Some? ==> v.value.at < |entries| && !EntryOk(hash, entries, v.value.at)
      ensures v.Some? ==> forall i :: 0 <= i < v.value.at ==> EntryOk(hash, entries, i)
    {
      var prevHash := "";
      for i := 0 to |entries|
        invariant forall j :: 0 <= j < i ==> EntryOk(hash, entries, j)
        invariant if i == 0 then prevHash == "" else hash(entries[i - 1]) == Some(prevHash)
      {
        var h := hash(entries[i]);
        assert EntryOk(hash, entries, i) <==>
               entries[i].sequence == i + 1 && entries[i].prevHash == prevHash && h.Some?;
        if entries[i].sequence != i + 1 { return Some(SequenceGap(i)); }
        if entries[i].prevHash != prevHash { return Some(ChainBroken(i)); }
        if h.None? { return Some(Unhashable(i)); }
        prevHash := h.value;
      }
      return None;
    }
  }
}
