/**
  On-behalf-of exchange (pkg/exchange/delegation.go and the delegation steps of
  pkg/exchange/engine.go): the `actor_token` of section 2.1 of RFC 8693 delegates to a
  child token. Tokens are records of claims; the policy's decision is an input.
 */
module Delegation {
  import opened Basics

  /** The claims that delegation reads and writes. */
  datatype Claims = Claims(subject: string, depth: Option<int>, caps: Option<seq<string>>, blastRadius: Option<string>,
                           obo: Option<seq<string>>)

  /** What the policy grants the requesting workload. */
  datatype Decision = Decision(workload: string, caps: Option<seq<string>>, blastRadius: Option<string>)

  datatype DelegationError =
    | MissingSubject
    | DepthExhausted
    | CapabilityNotHeld(cap: string)
    | BlastRadiusExceeds(requested: string, parent: string)

  // ---- Parsing the actor token ----

  /** -1 stands for "no depth claim": unrestricted. */
  function DepthOf(t: Claims): int {
    if t.depth.Some? then t.depth.value else -1
  }

  function CapsOf(caps: Option<seq<string>>): seq<string> {
    if caps.Some? then caps.value else []
  }

  function RadiusOf(r: Option<string>): string {
    if r.Some? then r.value else ""
  }

  function OboOf(t: Claims): seq<string> {
    if t.obo.Some? then t.obo.value else []
  }

  // ---- Blast radius ----

  function LevelOf(word: string): Option<nat> {
    if word == "function" then Some(0)
    else if word == "service" then Some(1)
    else if word == "namespace" then Some(2)
    else if word == "cluster" || word == "workspace" then Some(3)
    else if word == "trust_domain" then Some(4)
    else if word == "fabric" then Some(5)
    else None
  }

  /** The part before the first colon, or all of it. */
  function Prefix(br: string): string {
    if br == "" || br[0] == ':' then "" else [br[0]] + Prefix(br[1..])
  }

  lemma {:induction false} PrefixAt(br: string, i: nat)
    requires i <= |br| && forall j :: 0 <= j < i ==> br[j] != ':'
    requires i == |br| || br[i] == ':'
    ensures Prefix(br) == br[..i]
  {
    if i > 0 { PrefixAt(br[1..], i - 1); }
  }

  /** parseBlastRadiusLevel: scan for a colon. */
  method ParseBlastRadiusLevel(br: string) returns (level: Option<nat>)
    ensures level == LevelOf(Prefix(br))
  {
    for i := 0 to |br|
      invariant forall j :: 0 <= j < i ==> br[j] != ':'
    {
      if br[i] == ':' {
        PrefixAt(br, i);
        return LevelOf(br[..i]);
      }
    }
    PrefixAt(br, |br|);
    assert br[..|br|] == br;
    return LevelOf(br);
  }

  /** Same level or narrower; unknown levels compare by equality only. */
  predicate NarrowerOrEqual(child: string, parent: string) {
    var c, p := LevelOf(Prefix(child)), LevelOf(Prefix(parent));
    if c.None? || p.None? then child == parent else c.value <= p.value
  }

  /** The comparison is a preorder, so narrowing composes. */
  lemma NarrowingIsPreorder(a: string, b: string, c: string)
    ensures NarrowerOrEqual(a, a)
    ensures NarrowerOrEqual(a, b) && NarrowerOrEqual(b, c) ==> NarrowerOrEqual(a, c)
  {
  }

  /** The levels from the narrowest to the broadest; a cluster and a workspace rank the same. */
  ghost predicate HasRank(word: string, rank: nat) {
    || (word == "function" && rank == 0)
    || (word == "service" && rank == 1)
    || (word == "namespace" && rank == 2)
    || (word == "cluster" && rank == 3)
    || (word == "workspace" && rank == 3)
    || (word == "trust_domain" && rank == 4)
    || (word == "fabric" && rank == 5)
  }

  /** A level with or without the name of what it is limited to. */
  function Qualified(word: string, name: Option<string>): string {
    if name.None? then word else word + ":" + name.value
  }

  lemma QualifiedPrefix(word: string, name: Option<string>)
    requires forall i :: 0 <= i < |word| ==> word[i] != ':'
    ensures Prefix(Qualified(word, name)) == word
  {
    PrefixAt(Qualified(word, name), |word|);
    assert Qualified(word, name)[..|word|] == word;
  }

  lemma RankIsLevel(word: string, rank: nat, name: Option<string>)
    requires HasRank(word, rank)
    ensures LevelOf(Prefix(Qualified(word, name))) == Some(rank)
  {
    QualifiedPrefix(word, name);
  }

  /** Whatever they are limited to, a level is within another exactly if it ranks no higher. */
  lemma LevelsAreOrdered(a: string, i: nat, p: Option<string>, b: string, j: nat, q: Option<string>)
    requires HasRank(a, i) && HasRank(b, j)
    ensures NarrowerOrEqual(Qualified(a, p), Qualified(b, q)) <==> i <= j
  {
    RankIsLevel(a, i, p);
    RankIsLevel(b, j, q);
  }

  /** A radius of no known level is within another only if it is the same, and so the other way round. */
  lemma UnknownLevelsCompareByEquality(a: string, p: Option<string>, other: string)
    requires (forall r :: !HasRank(a, r)) && forall i :: 0 <= i < |a| ==> a[i] != ':'
    ensures NarrowerOrEqual(Qualified(a, p), other) <==> Qualified(a, p) == other
    ensures NarrowerOrEqual(other, Qualified(a, p)) <==> Qualified(a, p) == other
  {
    QualifiedPrefix(a, p);
    UnrankedHasNoLevel(a);
  }

  lemma UnrankedHasNoLevel(word: string)
    requires forall r :: !HasRank(word, r)
    ensures LevelOf(word).None?
  {
    assert !HasRank(word, 0) && !HasRank(word, 1) && !HasRank(word, 2);
    assert !HasRank(word, 3) && !HasRank(word, 4) && !HasRank(word, 5);
  }

  // ---- One exchange ----

  function FirstMissingCap(held: seq<string>, requested: seq<string>): (r: Option<string>)
    ensures r.None? <==> forall c :: c in requested ==> c in held
    ensures r.Some? ==> r.value in requested && r.value !in held
  {
    if requested == [] then None
    else if requested[0] !in held then Some(requested[0])
    else FirstMissingCap(held, requested[1..])
  }

  function Refusal(parent: Claims, d: Decision): Option<DelegationError> {
    var held, requested := CapsOf(parent.caps), CapsOf(d.caps);
    var radius, wanted := RadiusOf(parent.blastRadius), RadiusOf(d.blastRadius);
    if parent.subject == "" then Some(MissingSubject)
    else if DepthOf(parent) == 0 then Some(DepthExhausted)
    else if held != [] && requested != [] && FirstMissingCap(held, requested).Some? then
      Some(CapabilityNotHeld(FirstMissingCap(held, requested).value))
    else if radius != "" && wanted != "" && !NarrowerOrEqual(wanted, radius) then
      Some(BlastRadiusExceeds(wanted, radius))
    else None
  }

  /** validateDelegation, with its lookup set and loops. */
  method ValidateDelegation(parent: Claims, d: Decision) returns (err: Option<DelegationError>)
    ensures err == Refusal(parent, d)
  {
    if parent.subject == "" { return Some(MissingSubject); }
    if DepthOf(parent) == 0 { return Some(DepthExhausted); }
    var held, requested := CapsOf(parent.caps), CapsOf(d.caps);
    if |held| > 0 && |requested| > 0 {
      var parentSet := set c | c in held;
      for i := 0 to |requested|
        invariant FirstMissingCap(held, requested) == FirstMissingCap(held, requested[i..])
      {
        if requested[i] !in parentSet { return Some(CapabilityNotHeld(requested[i])); }
        assert requested[i..][1..] == requested[i + 1..];
      }
    }
    var radius, wanted := RadiusOf(parent.blastRadius), RadiusOf(d.blastRadius);
    if radius != "" && wanted != "" && !NarrowerOrEqual(wanted, radius) {
      return Some(BlastRadiusExceeds(wanted, radius));
    }
    return None;
  }

  // ---- When a delegation is refused ----

  /** The token names a subject and has depth left, or no depth claim. */
  ghost predicate MayDelegate(parent: Claims) {
    parent.subject != "" && parent.depth != Some(0)
  }

  /** Requested capability `i` is the first that a parent with capabilities does not hold. */
  ghost predicate MissingCapAt(parent: Claims, d: Decision, i: int) {
    && parent.caps.Some? && parent.caps.value != [] && d.caps.Some?
    && 0 <= i < |d.caps.value| && d.caps.value[i] !in parent.caps.value
    && forall j :: 0 <= j < i ==> d.caps.value[j] in parent.caps.value
  }

  ghost predicate CapsGranted(parent: Claims, d: Decision) {
    parent.caps.Some? && parent.caps.value != [] && d.caps.Some? ==>
      forall c :: c in d.caps.value ==> c in parent.caps.value
  }

  ghost predicate RadiusGranted(parent: Claims, d: Decision) {
    parent.blastRadius.Some? && parent.blastRadius.value != "" && d.blastRadius.Some? && d.blastRadius.value != "" ==>
      NarrowerOrEqual(d.blastRadius.value, parent.blastRadius.value)
  }

  /** A delegation is granted exactly if the parent may delegate and covers what is requested. */
  lemma GrantedIff(parent: Claims, d: Decision)
    ensures Refusal(parent, d).None? <==> MayDelegate(parent) && CapsGranted(parent, d) && RadiusGranted(parent, d)
    ensures Refusal(parent, d) == Some(MissingSubject) <==> parent.subject == ""
    ensures Refusal(parent, d) == Some(DepthExhausted) <==> parent.subject != "" && parent.depth == Some(0)
    ensures MayDelegate(parent) && CapsGranted(parent, d) && !RadiusGranted(parent, d) ==>
              Refusal(parent, d) == Some(BlastRadiusExceeds(d.blastRadius.value, parent.blastRadius.value))
  {
  }

  lemma {:induction false} FirstMissingCapAt(held: seq<string>, requested: seq<string>, i: nat)
    requires i < |requested| && requested[i] !in held && forall j :: 0 <= j < i ==> requested[j] in held
    ensures FirstMissingCap(held, requested) == Some(requested[i])
  {
    if i > 0 { FirstMissingCapAt(held, requested[1..], i - 1); }
  }

  /** The first capability that the parent does not hold is named. */
  lemma MissingCapIsNamed(parent: Claims, d: Decision, i: nat)
    requires MayDelegate(parent) && MissingCapAt(parent, d, i)
    ensures Refusal(parent, d) == Some(CapabilityNotHeld(d.caps.value[i]))
  {
    FirstMissingCapAt(parent.caps.value, d.caps.value, i);
  }

  /** Between known levels, with nothing else in the way, the broader one is refused and no other. */
  lemma WiderRadiusIsRefused(parent: Claims, d: Decision, a: string, i: nat, p: Option<string>,
                             b: string, j: nat, q: Option<string>)
    requires MayDelegate(parent) && CapsGranted(parent, d) && HasRank(a, i) && HasRank(b, j)
    requires d.blastRadius == Some(Qualified(a, p)) && parent.blastRadius == Some(Qualified(b, q))
    ensures Refusal(parent, d) ==
            if i <= j then None else Some(BlastRadiusExceeds(d.blastRadius.value, parent.blastRadius.value))
  {
    LevelsAreOrdered(a, i, p, b, j, q);
    GrantedIff(parent, d);
  }

  // ---- The child ----

  /** The child token: the decision's caps and radius, one depth less, and the delegator appended to the chain. */
  function Child(parent: Claims, d: Decision): Claims {
    var depth := if DepthOf(parent) < 0 then -1 else DepthOf(parent) - 1;
    Claims(d.workload, if depth >= 0 then Some(depth) else None, d.caps, d.blastRadius,
           Some(OboOf(parent) + [parent.subject]))
  }

  // ---- Chains of any length ----

  /** Each token is the child of the one before it under the matching decision. */
  ghost predicate IsChain(ts: seq<Claims>, ds: seq<Decision>) {
    && |ts| == |ds| + 1
    && forall i, j :: 0 <= i && j == i + 1 && j < |ts| ==> Refusal(ts[i], ds[i]).None? && ts[j] == Child(ts[i], ds[i])
  }

  function Subjects(ts: seq<Claims>): seq<string> {
    seq(|ts|, i requires 0 <= i < |ts| => ts[i].subject)
  }

  /**
    Conservation: a chain from a token of depth d >= 0 has at most d exchanges; after k of
    them the depth is d - k, depth plus chain length is unchanged, and the on-behalf-of list
    is the root's followed by every delegator in order.
   */
  lemma {:induction false} DelegationConserves(ts: seq<Claims>, ds: seq<Decision>, k: nat)
    requires IsChain(ts, ds) && DepthOf(ts[0]) >= 0 && k <= |ds|
    ensures && k <= DepthOf(ts[0])
            && DepthOf(ts[k]) == DepthOf(ts[0]) - k
            && DepthOf(ts[k]) + |OboOf(ts[k])| == DepthOf(ts[0]) + |OboOf(ts[0])|
            && OboOf(ts[k]) == OboOf(ts[0]) + Subjects(ts[..k])
  {
    if k > 0 {
      DelegationConserves(ts, ds, k - 1);
      assert ts[k] == Child(ts[k - 1], ds[k - 1]) && Refusal(ts[k - 1], ds[k - 1]).None?;
      SubjectsSnoc(ts, k);
    }
  }

  lemma SubjectsSnoc(ts: seq<Claims>, k: nat)
    requires 0 < k <= |ts|
    ensures Subjects(ts[..k]) == Subjects(ts[..k - 1]) + [ts[k - 1].subject]
  {
  }

  function Workloads(ds: seq<Decision>): seq<string> {
    seq(|ds|, i requires 0 <= i < |ds| => ds[i].workload)
  }

  lemma {:induction false} SubjectsAreWorkloads(ts: seq<Claims>, ds: seq<Decision>, k: nat)
    requires IsChain(ts, ds) && 0 < k <= |ts|
    ensures Subjects(ts[..k]) == [ts[0].subject] + Workloads(ds[..k - 1])
  {
    if k > 1 {
      SubjectsAreWorkloads(ts, ds, k - 1);
      SubjectsSnoc(ts, k);
      assert ts[k - 1] == Child(ts[k - 2], ds[k - 2]);
      assert Workloads(ds[..k - 1]) == Workloads(ds[..k - 2]) + [ds[k - 2].workload];
    }
  }

  /** Read off the decisions: the chain names the root's subject, then each workload that went on to delegate. */
  lemma ChainNamesWorkloads(ts: seq<Claims>, ds: seq<Decision>, k: nat)
    requires IsChain(ts, ds) && 0 < k <= |ds|
    ensures ts[k].subject == ds[k - 1].workload
    ensures ts[k].caps == ds[k - 1].caps && ts[k].blastRadius == ds[k - 1].blastRadius
    ensures OboOf(ts[k]) == OboOf(ts[0]) + ([ts[0].subject] + Workloads(ds[..k - 1]))
  {
    if DepthOf(ts[0]) >= 0 { DelegationConserves(ts, ds, k); } else { UnrestrictedStaysUnrestricted(ts, ds, k); }
    SubjectsAreWorkloads(ts, ds, k);
    assert ts[k] == Child(ts[k - 1], ds[k - 1]);
  }

  /** A token without a depth claim delegates without limit: no descendant has one either. */
  lemma {:induction false} UnrestrictedStaysUnrestricted(ts: seq<Claims>, ds: seq<Decision>, k: nat)
    requires IsChain(ts, ds) && DepthOf(ts[0]) < 0 && k <= |ds|
    ensures DepthOf(ts[k]) < 0 && OboOf(ts[k]) == OboOf(ts[0]) + Subjects(ts[..k])
  {
    if k > 0 {
      UnrestrictedStaysUnrestricted(ts, ds, k - 1);
      assert ts[k] == Child(ts[k - 1], ds[k - 1]);
      SubjectsSnoc(ts, k);
    }
  }

  // ---- Narrowing ----

  ghost predicate CapsWithin(child: Claims, root: Claims) {
    forall c :: c in CapsOf(child.caps) ==> c in CapsOf(root.caps)
  }

  /** The child carries no radius or one no broader than the root's. */
  ghost predicate RadiusWithin(child: Claims, root: Claims) {
    || RadiusOf(child.blastRadius) == ""
    || NarrowerOrEqual(RadiusOf(child.blastRadius), RadiusOf(root.blastRadius))
  }

  /** The first `k` tokens all carry capabilities. */
  ghost predicate CapsCarried(ts: seq<Claims>, k: nat)
    requires k <= |ts|
  {
    forall i :: 0 <= i < k ==> CapsOf(ts[i].caps) != []
  }

  /** The first `k` tokens all carry a blast radius. */
  ghost predicate RadiusCarried(ts: seq<Claims>, k: nat)
    requires k <= |ts|
  {
    forall i :: 0 <= i < k ==> RadiusOf(ts[i].blastRadius) != ""
  }

  /** While every delegating token carries capabilities, they never widen; likewise the radius. */
  lemma {:induction false} NarrowingIsTransitive(ts: seq<Claims>, ds: seq<Decision>, k: nat)
    requires IsChain(ts, ds) && k <= |ds|
    ensures CapsCarried(ts, k) ==> CapsWithin(ts[k], ts[0])
    ensures RadiusCarried(ts, k) ==> RadiusWithin(ts[k], ts[0])
  {
    if k > 0 {
      NarrowingIsTransitive(ts, ds, k - 1);
      assert ts[k] == Child(ts[k - 1], ds[k - 1]) && Refusal(ts[k - 1], ds[k - 1]).None?;
      NarrowingIsPreorder(RadiusOf(ts[k].blastRadius), RadiusOf(ts[k - 1].blastRadius), RadiusOf(ts[0].blastRadius));
    } else {
      NarrowingIsPreorder(RadiusOf(ts[0].blastRadius), "", "");
    }
  }

  /** A capability outside any given list. */
  function Foreign(caps: seq<string>): string {
    if caps == [] then "+" else Foreign(caps[1..]) + caps[0]
  }

  lemma {:induction false} ForeignIsLonger(caps: seq<string>, c: string)
    requires c in caps
    ensures |Foreign(caps)| > |c|
  {
    if c != caps[0] { ForeignIsLonger(caps[1..], c); } else { ForeignIsNonEmpty(caps[1..]); }
  }

  lemma {:induction false} ForeignIsNonEmpty(caps: seq<string>)
    ensures |Foreign(caps)| > 0
  {
    if caps != [] { ForeignIsNonEmpty(caps[1..]); }
  }

  lemma ForeignIsOutside(caps: seq<string>)
    ensures Foreign(caps) !in caps
  {
    if Foreign(caps) in caps {
      ForeignIsLonger(caps, Foreign(caps));
      assert false;
    }
  }

  /**
    What a delegating token confines: its accepted children all stay within the root's
    capabilities exactly when it carries some capabilities and they lie within the root's.
    A token without capabilities lets its child take any.
   */
  lemma ChildrenConfinedIff(root: Claims, parent: Claims)
    requires parent.subject != "" && DepthOf(parent) != 0
    ensures (forall d :: Refusal(parent, d).None? ==> CapsWithin(Child(parent, d), root))
            <==> CapsOf(parent.caps) != [] && CapsWithin(parent, root)
  {
    var held := CapsOf(parent.caps);
    if held == [] {
      ForeignIsOutside(CapsOf(root.caps));
      var d := Decision("", Some([Foreign(CapsOf(root.caps))]), None);
      assert Refusal(parent, d).None?;
      assert Foreign(CapsOf(root.caps)) in CapsOf(Child(parent, d).caps);
    } else if !CapsWithin(parent, root) {
      var d := Decision("", parent.caps, None);
      assert Refusal(parent, d).None?;
      assert !CapsWithin(Child(parent, d), root);
    } else {
      forall d | Refusal(parent, d).None? ensures CapsWithin(Child(parent, d), root) {
        assert CapsOf(d.caps) != [] ==> FirstMissingCap(held, CapsOf(d.caps)).None?;
      }
    }
  }

  /** The same for blast radius, among children that carry one. */
  lemma ChildrenRadiusConfinedIff(root: Claims, parent: Claims)
    requires parent.subject != "" && DepthOf(parent) != 0
    ensures (forall d :: Refusal(parent, d).None? && RadiusOf(d.blastRadius) != "" ==>
               NarrowerOrEqual(RadiusOf(Child(parent, d).blastRadius), RadiusOf(root.blastRadius)))
            <==> RadiusOf(parent.blastRadius) != ""
                 && NarrowerOrEqual(RadiusOf(parent.blastRadius), RadiusOf(root.blastRadius))
  {
    var held, bound := RadiusOf(parent.blastRadius), RadiusOf(root.blastRadius);
    if held == "" {
      var wide := "+" + bound;
      UnknownRadius(bound);
      var d := Decision("", None, Some(wide));
      assert Refusal(parent, d).None? && !NarrowerOrEqual(RadiusOf(Child(parent, d).blastRadius), bound);
    } else if !NarrowerOrEqual(held, bound) {
      NarrowingIsPreorder(held, "", "");
      var d := Decision("", None, Some(held));
      assert Refusal(parent, d).None? && !NarrowerOrEqual(RadiusOf(Child(parent, d).blastRadius), bound);
    } else {
      forall d | Refusal(parent, d).None? && RadiusOf(d.blastRadius) != ""
        ensures NarrowerOrEqual(RadiusOf(Child(parent, d).blastRadius), bound)
      {
        NarrowingIsPreorder(RadiusOf(d.blastRadius), held, bound);
      }
    }
  }

  lemma UnknownRadius(bound: string)
    ensures !NarrowerOrEqual("+" + bound, bound)
  {
    var wide := "+" + bound;
    assert Prefix(wide) == ['+'] + Prefix(wide[1..]);
    assert Prefix(wide)[0] == '+';
    assert |wide| != |bound|;
  }

  // ---- What a root confines, over chains of any length ----

  /** No descendant of `root`, however far, holds a capability outside the root's. */
  ghost predicate CapsConfined(root: Claims) {
    forall ts: seq<Claims>, ds, k: nat :: IsChain(ts, ds) && ts[0] == root && k <= |ds| ==> CapsWithin(ts[k], root)
  }

  /** No descendant of `root`, however far, carries a radius broader than the root's. */
  ghost predicate RadiusConfined(root: Claims) {
    forall ts: seq<Claims>, ds, k: nat :: IsChain(ts, ds) && ts[0] == root && k <= |ds| ==> RadiusWithin(ts[k], root)
  }

  /** Every descendant of `root`, however far, still carries a radius as narrow as the root's. */
  ghost predicate RadiusKept(root: Claims) {
    forall ts: seq<Claims>, ds, k: nat :: IsChain(ts, ds) && ts[0] == root && k <= |ds| ==>
      NarrowerOrEqual(RadiusOf(ts[k].blastRadius), RadiusOf(root.blastRadius))
  }

  /** The token cannot delegate at all. */
  predicate Barren(t: Claims) {
    t.subject == "" || DepthOf(t) == 0
  }

  /** A chain from a barren token is the token alone; from a token of depth 1 it has at most one exchange. */
  lemma ShortChains(ts: seq<Claims>, ds: seq<Decision>)
    requires IsChain(ts, ds)
    ensures Barren(ts[0]) ==> ds == []
    ensures DepthOf(ts[0]) == 1 ==> |ds| <= 1
  {
    if ds != [] {
      assert ts[1] == Child(ts[0], ds[0]) && Refusal(ts[0], ds[0]).None?;
      if |ds| > 1 {
        assert ts[2] == Child(ts[1], ds[1]) && Refusal(ts[1], ds[1]).None?;
      }
    }
  }

  /** Where a side names no capabilities and a side names no radius, nothing is compared. */
  lemma NothingCompared(parent: Claims, d: Decision)
    requires !Barren(parent)
    requires CapsOf(parent.caps) == [] || CapsOf(d.caps) == []
    requires RadiusOf(parent.blastRadius) == "" || RadiusOf(d.blastRadius) == ""
    ensures Refusal(parent, d).None? && IsChain([parent, Child(parent, d)], [d])
  {
  }

  lemma TwoHops(root: Claims, d: Decision, e: Decision)
    requires Refusal(root, d).None? && Refusal(Child(root, d), e).None?
    ensures IsChain([root, Child(root, d), Child(Child(root, d), e)], [d, e])
  {
  }

  /**
    A decision without capabilities skips the subset check and leaves the child unbounded. So a
    root confines the capabilities of all its descendants exactly when it cannot delegate, or
    may delegate once only and carries capabilities itself.
   */
  lemma CapsConfinedIff(root: Claims)
    ensures CapsConfined(root) <==> Barren(root) || (DepthOf(root) == 1 && CapsOf(root.caps) != [])
  {
    if Barren(root) || (DepthOf(root) == 1 && CapsOf(root.caps) != []) {
      forall ts: seq<Claims>, ds, k: nat | IsChain(ts, ds) && ts[0] == root && k <= |ds|
        ensures CapsWithin(ts[k], root)
      {
        ShortChains(ts, ds);
        NarrowingIsTransitive(ts, ds, k);
      }
    } else {
      CapsEscape(root);
    }
  }

  lemma CapsEscape(root: Claims)
    requires !Barren(root) && !(DepthOf(root) == 1 && CapsOf(root.caps) != [])
    ensures !CapsConfined(root)
  {
    var outside := Foreign(CapsOf(root.caps));
    ForeignIsOutside(CapsOf(root.caps));
    var bare, any := Decision("w", None, None), Decision("w", Some([outside]), None);
    if CapsOf(root.caps) == [] {
      NothingCompared(root, any);
      var ts := [root, Child(root, any)];
      assert IsChain(ts, [any]) && outside in CapsOf(ts[1].caps);
    } else {
      NothingCompared(root, bare);
      NothingCompared(Child(root, bare), any);
      TwoHops(root, bare, any);
      var ts := [root, Child(root, bare), Child(Child(root, bare), any)];
      assert IsChain(ts, [bare, any]) && outside in CapsOf(ts[2].caps);
    }
  }

  /** The same for the radius. */
  lemma RadiusConfinedIff(root: Claims)
    ensures RadiusConfined(root) <==> Barren(root) || (DepthOf(root) == 1 && RadiusOf(root.blastRadius) != "")
  {
    if Barren(root) || (DepthOf(root) == 1 && RadiusOf(root.blastRadius) != "") {
      forall ts: seq<Claims>, ds, k: nat | IsChain(ts, ds) && ts[0] == root && k <= |ds|
        ensures RadiusWithin(ts[k], root)
      {
        ShortChains(ts, ds);
        NarrowingIsTransitive(ts, ds, k);
      }
    } else if RadiusOf(root.blastRadius) == "" {
      RadiusEscapesAtOnce(root, Broader(root));
    } else {
      RadiusEscapesLater(root, Broader(root));
    }
  }

  /** A radius that is not within the root's. */
  function Broader(root: Claims): (wide: string)
    ensures wide != "" && !NarrowerOrEqual(wide, RadiusOf(root.blastRadius))
  {
    UnknownRadius(RadiusOf(root.blastRadius));
    "+" + RadiusOf(root.blastRadius)
  }

  lemma RadiusEscapesAtOnce(root: Claims, wide: string)
    requires !Barren(root) && RadiusOf(root.blastRadius) == "" && wide != ""
    requires !NarrowerOrEqual(wide, RadiusOf(root.blastRadius))
    ensures !RadiusConfined(root) && !RadiusKept(root)
  {
    var d := Decision("w", None, Some(wide));
    NothingCompared(root, d);
    TooBroad([root, Child(root, d)], [d], 1, wide);
  }

  lemma RadiusEscapesLater(root: Claims, wide: string)
    requires !Barren(root) && DepthOf(root) != 1 && wide != ""
    requires !NarrowerOrEqual(wide, RadiusOf(root.blastRadius))
    ensures !RadiusConfined(root)
  {
    var d, e := Decision("w", None, None), Decision("w", None, Some(wide));
    NothingCompared(root, d);
    NothingCompared(Child(root, d), e);
    TwoHops(root, d, e);
    TooBroad([root, Child(root, d), Child(Child(root, d), e)], [d, e], 2, wide);
  }

  lemma TooBroad(ts: seq<Claims>, ds: seq<Decision>, k: nat, wide: string)
    requires IsChain(ts, ds) && k <= |ds| && ts[k].blastRadius == Some(wide) && wide != ""
    requires !NarrowerOrEqual(wide, RadiusOf(ts[0].blastRadius))
    ensures !RadiusConfined(ts[0]) && !RadiusKept(ts[0])
  {
    assert !RadiusWithin(ts[k], ts[0]);
    NotKept(ts, ds, k);
  }

  lemma NotKept(ts: seq<Claims>, ds: seq<Decision>, k: nat)
    requires IsChain(ts, ds) && k <= |ds|
    requires !NarrowerOrEqual(RadiusOf(ts[k].blastRadius), RadiusOf(ts[0].blastRadius))
    ensures !RadiusKept(ts[0])
  {
  }

  lemma NoRadiusIsUnknown(bound: string)
    requires bound != ""
    ensures !NarrowerOrEqual("", bound)
  {
  }

  /** A decision without a radius drops it, so only a root that cannot delegate never has it dropped. */
  lemma RadiusKeptIff(root: Claims)
    ensures RadiusKept(root) <==> Barren(root)
  {
    if Barren(root) {
      forall ts: seq<Claims>, ds, k: nat | IsChain(ts, ds) && ts[0] == root && k <= |ds|
        ensures NarrowerOrEqual(RadiusOf(ts[k].blastRadius), RadiusOf(root.blastRadius))
      {
        ShortChains(ts, ds);
        NarrowingIsPreorder(RadiusOf(root.blastRadius), "", "");
      }
    } else if RadiusOf(root.blastRadius) == "" {
      RadiusEscapesAtOnce(root, Broader(root));
    } else {
      RadiusIsDropped(root);
    }
  }

  lemma RadiusIsDropped(root: Claims)
    requires !Barren(root) && RadiusOf(root.blastRadius) != ""
    ensures !RadiusKept(root)
  {
    var d := Decision("w", None, None);
    NothingCompared(root, d);
    NoRadiusIsUnknown(RadiusOf(root.blastRadius));
    NotKept([root, Child(root, d)], [d], 1);
  }
}
