/**
  The rotation saga of pkg/lifecycle/rotation_workflow.go run once over a keyring, with
  retried activities and compensations. `oracle` decides how each attempt ends and `draw`
  gives the key pair each generation attempt produces.
 */
module RotationSaga {
  import opened Basics
  import opened Keyrings
  import opened RotationActivities

  datatype Activity =
    | EmitInitiated | Generate | Propagate | Mint | Swap | Verify | Grace
    | RemoveNew | RemoveOld | Rollback

  type Oracle = (Activity, nat) -> Outcome

  datatype SagaResult =
    | NotStarted
    | GenerateFailed
    | Interrupted(newKid: Kid)
    | MintFailed(newKid: Kid)
    | SwapFailed(newKid: Kid)
    | VerifyFailed(newKid: Kid)
    | GraceInterrupted(newKid: Kid)
    | Completed(newKid: Kid)

  // ---- What the attempts at one activity come to ----

  /** Some attempt of `a` gets through. */
  ghost predicate Succeeds(oracle: Oracle, a: Activity) {
    exists i: nat :: i < MAX_ATTEMPTS && oracle(a, i).Acked?
  }

  /** There are three attempts. */
  lemma ThreeAttempts(oracle: Oracle, a: Activity)
    ensures Succeeds(oracle, a) <==> oracle(a, 0).Acked? || oracle(a, 1).Acked? || oracle(a, 2).Acked?
    ensures Effective(oracle, a) <==> exists i :: 0 <= i < 3 && (oracle(a, i).Acked? || oracle(a, i).Lost?)
  {
  }

  /** Some attempt of `a` takes effect, reported or not. */
  ghost predicate Effective(oracle: Oracle, a: Activity) {
    exists i: nat :: i < MAX_ATTEMPTS && TakesEffect(oracle(a, i))
  }

  /** Attempt `i` of `a` is made: none before it was acknowledged. */
  ghost predicate Made(oracle: Oracle, a: Activity, i: nat) {
    i < MAX_ATTEMPTS && forall j: nat :: j < i ==> !oracle(a, j).Acked?
  }

  /** An attempt of `a` is made whose acknowledgement is lost. */
  ghost predicate LosesAck(oracle: Oracle, a: Activity) {
    exists i: nat :: Made(oracle, a, i) && oracle(a, i).Lost?
  }

  /** Some rollback attempt stops halfway. */
  ghost predicate HalfDone(oracle: Oracle) {
    exists i: nat :: i < MAX_ATTEMPTS && oracle(Rollback, i).Half?
  }

  /** The ids that generation attempts published without telling the workflow. */
  ghost function Orphans(oracle: Oracle, draw: nat -> (Kid, Key)): set<Kid> {
    OrphansBefore(oracle, draw, MAX_ATTEMPTS)
  }

  ghost function OrphansBefore(oracle: Oracle, draw: nat -> (Kid, Key), n: nat): set<Kid> {
    set i: nat | i < n && Made(oracle, Generate, i) && oracle(Generate, i).Lost? :: draw(i).0
  }

  // ---- The activities ----

  /** An activity without effect on the keyring. */
  method TryPlain(oracle: Oracle, a: Activity) returns (ok: bool)
    ensures ok <==> Succeeds(oracle, a)
  {
    for i := 0 to MAX_ATTEMPTS
      invariant forall j: nat :: j < i ==> !oracle(a, j).Acked?
    {
      if oracle(a, i).Acked? { return true; }
    }
    return false;
  }

  /** Publishes the key of the acknowledged attempt and of every attempt that lost its acknowledgement. */
  method TryGenerate(kr: Keyring, oracle: Oracle, draw: nat -> (Kid, Key)) returns (kid: Option<Kid>)
    requires forall i :: draw(i).0 !in kr.keys
    modifies kr
    ensures kr.activeKid == old(kr.activeKid)
    ensures forall k :: k in old(kr.keys) ==> k in kr.keys && kr.keys[k] == old(kr.keys)[k]
    ensures kid.Some? <==> Succeeds(oracle, Generate)
    ensures kid.Some? ==> kid.value in kr.keys && exists i: nat ::
              Made(oracle, Generate, i) && oracle(Generate, i).Acked? && draw(i) == (kid.value, kr.keys[kid.value])
    ensures kr.keys.Keys == old(kr.keys.Keys) + Orphans(oracle, draw) + (if kid.Some? then {kid.value} else {})
  {
    for i := 0 to MAX_ATTEMPTS
      invariant kr.activeKid == old(kr.activeKid)
      invariant forall k :: k in old(kr.keys) ==> k in kr.keys && kr.keys[k] == old(kr.keys)[k]
      invariant forall j: nat :: j < i ==> !oracle(Generate, j).Acked?
      invariant kr.keys.Keys == old(kr.keys.Keys) + OrphansBefore(oracle, draw, i)
    {
      OrphansStep(oracle, draw, i);
      if TakesEffect(oracle(Generate, i)) {
        var _ := kr.AddKey(draw(i).0, Some(draw(i).1));
        if oracle(Generate, i).Acked? {
          assert draw(i) == (draw(i).0, kr.keys[draw(i).0]);
          AckedIsLast(oracle, draw, i);
          return Some(draw(i).0);
        }
      }
    }
    return None;
  }

  lemma OrphansStep(oracle: Oracle, draw: nat -> (Kid, Key), i: nat)
    requires Made(oracle, Generate, i)
    ensures OrphansBefore(oracle, draw, i + 1) ==
            OrphansBefore(oracle, draw, i) + (if oracle(Generate, i).Lost? then {draw(i).0} else {})
  {
  }

  lemma AckedIsLast(oracle: Oracle, draw: nat -> (Kid, Key), i: nat)
    requires Made(oracle, Generate, i) && oracle(Generate, i).Acked?
    ensures Orphans(oracle, draw) == OrphansBefore(oracle, draw, i)
  {
    assert forall j: nat :: Made(oracle, Generate, j) ==> j <= i;
  }

  /** Activates `newKid`; reports the key that was active just before the acknowledged attempt. */
  method TrySwap(kr: Keyring, oracle: Oracle, newKid: Kid) returns (oldKid: Option<Kid>)
    requires newKid in kr.keys
    modifies kr
    ensures kr.keys == old(kr.keys)
    ensures oldKid.Some? <==> Succeeds(oracle, Swap)
    ensures kr.activeKid == if oldKid.Some? || LosesAck(oracle, Swap) then newKid else old(kr.activeKid)
    ensures oldKid.Some? ==> oldKid.value == if LosesAck(oracle, Swap) then newKid else old(kr.activeKid)
  {
    ghost var lost := false;
    for i := 0 to MAX_ATTEMPTS
      invariant kr.keys == old(kr.keys)
      invariant forall j: nat :: j < i ==> !oracle(Swap, j).Acked?
      invariant lost <==> exists j: nat :: j < i && oracle(Swap, j).Lost?
      invariant kr.activeKid == if lost then newKid else old(kr.activeKid)
    {
      if TakesEffect(oracle(Swap, i)) {
        var previous := kr.activeKid;
        var err := kr.ActivateKey(newKid);
        if oracle(Swap, i).Acked? && err.None? {
          LostBefore(oracle, Swap, i);
          return Some(previous);
        }
        lost := true;
      }
    }
    LostBefore(oracle, Swap, MAX_ATTEMPTS);
    return None;
  }

  lemma LostBefore(oracle: Oracle, a: Activity, n: nat)
    requires n <= MAX_ATTEMPTS && forall j: nat :: j < n ==> !oracle(a, j).Acked?
    requires n == MAX_ATTEMPTS || oracle(a, n).Acked?
    ensures LosesAck(oracle, a) <==> exists j: nat :: j < n && oracle(a, j).Lost?
  {
    assert forall j: nat :: Made(oracle, a, j) ==> j <= n;
    assert forall j: nat :: j < n ==> Made(oracle, a, j);
  }

  method TryRemove(kr: Keyring, oracle: Oracle, a: Activity, kid: Kid)
    modifies kr
    ensures kr.State() == if Effective(oracle, a) then Removed(old(kr.State()), kid) else old(kr.State())
  {
    for i := 0 to MAX_ATTEMPTS
      invariant kr.State() == if exists j: nat :: j < i && TakesEffect(oracle(a, j))
                              then Removed(old(kr.State()), kid) else old(kr.State())
    {
      if TakesEffect(oracle(a, i)) {
        var err := kr.RemoveKey(kid);
        if oracle(a, i).Acked? && err.None? { return; }
      }
    }
  }

  /** RollbackToKey: reactivate the old key, then remove the new one. */
  method TryRollback(kr: Keyring, oracle: Oracle, oldKid: Kid, newKid: Kid)
    requires oldKid in kr.keys && kr.activeKid == newKid
    modifies kr
    ensures kr.State() == if Effective(oracle, Rollback) then Removed(Activated(old(kr.State()), oldKid), newKid)
                          else if HalfDone(oracle) then Activated(old(kr.State()), oldKid)
                          else old(kr.State())
  {
    for i := 0 to MAX_ATTEMPTS
      invariant kr.State() == if exists j: nat :: j < i && TakesEffect(oracle(Rollback, j))
                              then Removed(Activated(old(kr.State()), oldKid), newKid)
                              else if exists j: nat :: j < i && oracle(Rollback, j).Half?
                              then Activated(old(kr.State()), oldKid)
                              else old(kr.State())
    {
      if !oracle(Rollback, i).Failed? {
        var err := kr.ActivateKey(oldKid);
        if TakesEffect(oracle(Rollback, i)) {
          if err.None? { err := kr.RemoveKey(newKid); }
          if oracle(Rollback, i).Acked? && err.None? { return; }
        }
      }
    }
  }

  /** VerifyNewKey: the new key is the active one. */
  method TryVerify(kr: Keyring, oracle: Oracle, newKid: Kid) returns (ok: bool)
    ensures ok <==> kr.activeKid == newKid && Succeeds(oracle, Verify)
  {
    if kr.activeKid != newKid { return false; }
    ok := TryPlain(oracle, Verify);
  }

  // ---- The whole saga ----

  /** Which steps got through decides the result. */
  ghost predicate EndsAt(oracle: Oracle, r: SagaResult) {
    var generated := Succeeds(oracle, EmitInitiated) && Succeeds(oracle, Generate);
    var minted := generated && oracle(Propagate, 0).Acked? && Succeeds(oracle, Mint);
    var verified := minted && Succeeds(oracle, Swap) && Succeeds(oracle, Verify);
    match r
    case NotStarted => !Succeeds(oracle, EmitInitiated)
    case GenerateFailed => Succeeds(oracle, EmitInitiated) && !Succeeds(oracle, Generate)
    case Interrupted(_) => generated && !oracle(Propagate, 0).Acked?
    case MintFailed(_) => generated && oracle(Propagate, 0).Acked? && !Succeeds(oracle, Mint)
    case SwapFailed(_) => minted && !Succeeds(oracle, Swap)
    case VerifyFailed(_) => minted && Succeeds(oracle, Swap) && !Succeeds(oracle, Verify)
    case GraceInterrupted(_) => verified && !oracle(Grace, 0).Acked?
    case Completed(_) => verified && oracle(Grace, 0).Acked?
  }

  /** The key that the workflow was told about. */
  ghost function NewKids(r: SagaResult): set<Kid> {
    if r.NotStarted? || r.GenerateFailed? then {} else {r.newKid}
  }

  /** The compensation removed the new key; with the new key active it is refused. */
  ghost predicate NewKeyTakenBack(oracle: Oracle, r: SagaResult) {
    || (r.MintFailed? && Effective(oracle, RemoveNew))
    || (r.SwapFailed? && Effective(oracle, RemoveNew) && !LosesAck(oracle, Swap))
    || (r.VerifyFailed? && Effective(oracle, Rollback) && !LosesAck(oracle, Swap))
  }

  /** The rotation ended with the new key signing, reported as a success or not. */
  ghost predicate NewKeySigns(oracle: Oracle, r: SagaResult) {
    || r.Completed? || r.GraceInterrupted?
    || (r.SwapFailed? && LosesAck(oracle, Swap))
    || (r.VerifyFailed? && (LosesAck(oracle, Swap) || (!Effective(oracle, Rollback) && !HalfDone(oracle))))
  }

  /**
    The old key left the published set. A swap retried after a lost acknowledgement reports the
    new key as the old one, so the real one stays (RotationProtocol.LostSwapStrandsOldKey).
   */
  ghost predicate OldKeyRetired(oracle: Oracle, r: SagaResult) {
    r.Completed? && Effective(oracle, RemoveOld) && !LosesAck(oracle, Swap)
  }

  /** Steps 6 to 8, with the new key active: verify or roll back, sit out the grace period, remove the old key. */
  method FinishRotation(kr: Keyring, oracle: Oracle, oldKid: Kid, newKid: Kid) returns (r: SagaResult)
    requires oldKid in kr.keys && newKid in kr.keys && kr.activeKid == newKid
    modifies kr
    ensures Consistent(kr.State())
    ensures r == if !Succeeds(oracle, Verify) then VerifyFailed(newKid)
                 else if !oracle(Grace, 0).Acked? then GraceInterrupted(newKid) else Completed(newKid)
    ensures r.VerifyFailed? ==>
              kr.State() == if Effective(oracle, Rollback) then Removed(Activated(old(kr.State()), oldKid), newKid)
                            else if HalfDone(oracle) then Activated(old(kr.State()), oldKid)
                            else old(kr.State())
    ensures r.GraceInterrupted? ==> kr.State() == old(kr.State())
    ensures r.Completed? ==>
              kr.State() == if Effective(oracle, RemoveOld) then Removed(old(kr.State()), oldKid) else old(kr.State())
  {
    var ok := TryVerify(kr, oracle, newKid);
    if !ok {
      TryRollback(kr, oracle, oldKid, newKid);
      return VerifyFailed(newKid);
    }
    if !oracle(Grace, 0).Acked? { return GraceInterrupted(newKid); }
    TryRemove(kr, oracle, RemoveOld, oldKid);
    return Completed(newKid);
  }

  /** Steps 5 to 8, from a published key that is not active yet. */
  method SwapAndFinish(kr: Keyring, oracle: Oracle, newKid: Kid) returns (r: SagaResult)
    requires Consistent(kr.State()) && newKid in kr.keys && newKid != kr.activeKid
    modifies kr
    ensures Consistent(kr.State())
    ensures NewKids(r) == {newKid}
    ensures r == if !Succeeds(oracle, Swap) then SwapFailed(newKid)
                 else if !Succeeds(oracle, Verify) then VerifyFailed(newKid)
                 else if !oracle(Grace, 0).Acked? then GraceInterrupted(newKid) else Completed(newKid)
    ensures kr.activeKid == if NewKeySigns(oracle, r) then newKid else old(kr.activeKid)
    ensures kr.keys == old(kr.keys)
                       - (if NewKeyTakenBack(oracle, r) then {newKid} else {})
                       - (if OldKeyRetired(oracle, r) then {old(kr.activeKid)} else {})
  {
    var swapped := TrySwap(kr, oracle, newKid);
    if swapped.None? {
      TryRemove(kr, oracle, RemoveNew, newKid);
      return SwapFailed(newKid);
    }
    var oldKid := swapped.value;
    r := FinishRotation(kr, oracle, oldKid, newKid);
  }

  /** What a saga that ended with `r` makes of the keyring; `orphans` are the ids it was not told about. */
  ghost predicate Leaves(before: Ring, after: Ring, oracle: Oracle, orphans: set<Kid>, r: SagaResult) {
    && after.active == (if NewKeySigns(oracle, r) then r.newKid else before.active)
    && after.keys.Keys == before.keys.Keys + orphans + NewKids(r)
                          - (if NewKeyTakenBack(oracle, r) then {r.newKid} else {})
                          - (if OldKeyRetired(oracle, r) then {before.active} else {})
    && forall k :: k in before.keys && k in after.keys ==> after.keys[k] == before.keys[k]
  }

  /** No key that the saga added stays published: none was orphaned, and the new one, if any, was taken back. */
  ghost predicate NothingStays(oracle: Oracle, orphans: set<Kid>, r: SagaResult) {
    orphans <= NewKids(r) && (NewKids(r) != {} ==> NewKeyTakenBack(oracle, r))
  }

  /** Exactly when a rotation leaves the keyring as it was. */
  lemma RestoresIff(before: Ring, after: Ring, oracle: Oracle, orphans: set<Kid>, r: SagaResult)
    requires Leaves(before, after, oracle, orphans, r) && Consistent(before)
    requires (orphans + NewKids(r)) !! before.keys.Keys
    ensures after == before <==> NothingStays(oracle, orphans, r)
  {
    if NothingStays(oracle, orphans, r) {
      assert after.keys.Keys == before.keys.Keys;
      assert after.keys == before.keys;
    }
  }

  /**
    The saga's outcome, for every way its attempts may end: which key signs, which ids are
    published, that no key material changes, that the signing key is always published, and
    exactly when a rotation leaves the keyring as it was.
   */
  method RotationWorkflow(kr: Keyring, oracle: Oracle, draw: nat -> (Kid, Key)) returns (r: SagaResult)
    requires Consistent(kr.State())
    requires forall i :: draw(i).0 !in kr.keys
    modifies kr
    ensures EndsAt(oracle, r) && Consistent(kr.State())
    ensures NewKids(r) != {} ==> r.newKid !in old(kr.keys) && exists i: nat ::
              && Made(oracle, Generate, i) && oracle(Generate, i).Acked? && draw(i).0 == r.newKid
              && (r.newKid in kr.keys ==> kr.keys[r.newKid] == draw(i).1)
    ensures var orphans := if r.NotStarted? then {} else Orphans(oracle, draw);
            && Leaves(old(kr.State()), kr.State(), oracle, orphans, r)
            && (kr.State() == old(kr.State()) <==> NothingStays(oracle, orphans, r))
  {
    ghost var orphans := Orphans(oracle, draw);
    ghost var before := kr.State();
    var ok := TryPlain(oracle, EmitInitiated);
    if !ok { return NotStarted; }

    var generated := TryGenerate(kr, oracle, draw);
    if generated.None? {
      RestoresIff(before, kr.State(), oracle, orphans, GenerateFailed);
      return GenerateFailed;
    }
    var newKid := generated.value;

    if !oracle(Propagate, 0).Acked? {
      RestoresIff(before, kr.State(), oracle, orphans, Interrupted(newKid));
      return Interrupted(newKid);
    }

    ok := TryPlain(oracle, Mint);
    if !ok {
      TryRemove(kr, oracle, RemoveNew, newKid);
      RestoresIff(before, kr.State(), oracle, orphans, MintFailed(newKid));
      return MintFailed(newKid);
    }

    r := SwapAndFinish(kr, oracle, newKid);
    RestoresIff(before, kr.State(), oracle, orphans, r);
  }
}
