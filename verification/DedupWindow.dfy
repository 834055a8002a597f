/**
  The bounded FIFO duplicate filter shared by pkg/federation/relay.go and
  pkg/federation/inbound.go: a set of ids, their order, and eviction of the oldest tenth.
 */
module DedupWindow {
  import opened Basics

  function EvictCount(capacity: nat): (e: nat)
    requires capacity >= 1
    ensures 1 <= e <= capacity
  {
    if capacity / 10 == 0 then 1 else capacity / 10
  }

  lemma {:induction false} ProductGap(p: nat, q: nat, e: nat)
    ensures p < q ==> p * e + e <= q * e
  {
    if p < q {
      ProductGap(p, q - 1, e);
      assert q * e == (q - 1) * e + e;
    }
  }

  lemma RemainderIsUnique(k: nat, e: nat, q: nat, r: nat)
    requires k == q * e + r && r < e
    ensures k % e == r
  {
    ProductGap(q, k / e, e);
    ProductGap(k / e, q, e);
    assert k == e * (k / e) + k % e;
  }

  lemma RemainderStep(k: nat, e: nat)
    requires e >= 1
    ensures (k + 1) % e == if k % e + 1 == e then 0 else k % e + 1
  {
    var q, r := k / e, k % e;
    assert k == q * e + r;
    if r + 1 == e {
      assert (q + 1) * e == q * e + e;
      RemainderIsUnique(k + 1, e, q + 1, 0);
    } else {
      RemainderIsUnique(k + 1, e, q, r + 1);
    }
  }

  /** How many of `n` ids a list of capacity `m` keeps that, when over it, drops its oldest `e`. */
  function Sawtooth(m: nat, e: nat, n: nat): (length: nat)
    requires 1 <= e <= m
    ensures length <= m && length <= n
  {
    if n <= m then n else m + 1 - e + (n - m - 1) % e
  }

  lemma SawtoothStep(m: nat, e: nat, n: nat)
    requires 1 <= e <= m
    ensures Sawtooth(m, e, n + 1) == if Sawtooth(m, e, n) == m then m + 1 - e else Sawtooth(m, e, n) + 1
  {
    if n > m {
      RemainderStep(n - m - 1, e);
      assert n - m - 1 + 1 == n + 1 - m - 1;
    } else if n == m {
      RemainderIsUnique(0, e, 0, 0);
    }
  }

  /** How many ids are remembered after `n` acceptances: all of them, then a sawtooth between M+1-E and M. */
  function WindowLength(capacity: nat, n: nat): nat
    requires capacity >= 1
  {
    Sawtooth(capacity, EvictCount(capacity), n)
  }

  /** One acceptance grows the window by one and, past capacity, drops the oldest E ids. */
  lemma WindowStep(capacity: nat, n: nat)
    requires capacity >= 1
    ensures WindowLength(capacity, n) <= capacity && WindowLength(capacity, n) <= n
    ensures var grown := WindowLength(capacity, n) + 1;
            WindowLength(capacity, n + 1) == if grown > capacity then grown - EvictCount(capacity) else grown
  {
    SawtoothStep(capacity, EvictCount(capacity), n);
  }

  // ---- Runs ----

  ghost predicate IsSuffix(s: seq<string>, of: seq<string>) {
    |s| <= |of| && s == of[|of| - |s|..]
  }

  lemma SuffixGrows(s: seq<string>, of: seq<string>, x: string)
    requires IsSuffix(s, of)
    ensures IsSuffix(s + [x], of + [x])
  {
  }

  lemma SuffixShrinks(s: seq<string>, of: seq<string>, drop: nat)
    requires IsSuffix(s, of) && drop <= |s|
    ensures IsSuffix(s[drop..], of)
  {
  }

  lemma DistinctGrows(s: seq<string>, x: string)
    requires NoDuplicates(s) && x !in s
    ensures NoDuplicates(s + [x])
  {
  }

  lemma DistinctShrinks(s: seq<string>, drop: nat)
    requires NoDuplicates(s) && drop <= |s|
    ensures NoDuplicates(s[drop..])
  {
  }

  /** `accepted` is every non-empty id let through so far, oldest first; `order` is its remembered end. */
  ghost predicate Remembers(capacity: nat, accepted: seq<string>, order: seq<string>)
    requires capacity >= 1
  {
    |order| == WindowLength(capacity, |accepted|) && IsSuffix(order, accepted) && NoDuplicates(order)
  }

  /** The window always covers the last min(n, M + 1 - E) acceptances and never more than M. */
  lemma WindowBounds(capacity: nat, n: nat)
    requires capacity >= 1
    ensures WindowLength(capacity, n) <= capacity
    ensures WindowLength(capacity, n) >=
            if n < capacity + 1 - EvictCount(capacity) then n else capacity + 1 - EvictCount(capacity)
  {
    WindowStep(capacity, n);
  }

  /** Both bounds are attained, before and right after an eviction. */
  lemma WindowBoundsAttained(capacity: nat)
    requires capacity >= 1
    ensures WindowLength(capacity, capacity) == capacity
    ensures WindowLength(capacity, capacity + 1) == capacity + 1 - EvictCount(capacity)
  {
    WindowStep(capacity, capacity);
  }

  lemma SuffixHolds(s: seq<string>, of: seq<string>, i: nat)
    requires IsSuffix(s, of) && |of| - |s| <= i < |of|
    ensures of[i] in s
  {
    assert s[i - (|of| - |s|)] == of[i];
  }

  /** Redelivery within the guaranteed window is recognised. */
  lemma RedeliveryIsSuppressed(capacity: nat, accepted: seq<string>, order: seq<string>, i: nat)
    requires capacity >= 1 && Remembers(capacity, accepted, order)
    requires i < |accepted| && |accepted| - i <= capacity + 1 - EvictCount(capacity)
    ensures accepted[i] in order
  {
    WindowBounds(capacity, |accepted|);
    SuffixHolds(order, accepted, i);
  }

  /** In terms of the capacity alone: an id among the last nine tenths of a full window is remembered. */
  lemma NineTenthsAreRemembered(capacity: nat, accepted: seq<string>, order: seq<string>, i: nat)
    requires capacity >= 1 && Remembers(capacity, accepted, order)
    requires i < |accepted| && 10 * (|accepted| - i) <= 9 * capacity
    ensures accepted[i] in order
  {
    assert EvictCount(capacity) == 1 || 10 * EvictCount(capacity) <= capacity;
    RedeliveryIsSuppressed(capacity, accepted, order, i);
  }

  /** One acceptance past capacity leaves all but a tenth; a window of less than twenty drops one at a time. */
  lemma EvictionDropsATenth(capacity: nat)
    requires capacity >= 1
    ensures WindowLength(capacity, capacity + 1) == capacity + 1 - (if capacity < 20 then 1 else capacity / 10)
  {
    WindowBoundsAttained(capacity);
  }

  /** Accepting `jti`, in terms of the order list alone. */
  function Accepted(capacity: nat, order: seq<string>, jti: string): seq<string>
    requires capacity >= 1
  {
    var grown := order + [jti];
    if |grown| > capacity then grown[EvictCount(capacity)..] else grown
  }

  lemma AcceptKeepsWindow(capacity: nat, accepted: seq<string>, order: seq<string>, jti: string)
    requires capacity >= 1 && Remembers(capacity, accepted, order) && jti !in order
    ensures Remembers(capacity, accepted + [jti], Accepted(capacity, order, jti))
  {
    WindowStep(capacity, |accepted|);
    SuffixGrows(order, accepted, jti);
    DistinctGrows(order, jti);
    var e := EvictCount(capacity);
    if |order| + 1 > capacity {
      SuffixShrinks(order + [jti], accepted + [jti], e);
      DistinctShrinks(order + [jti], e);
    }
  }

  /** The answers of the filter over a run, `accepted` extended by what it let through, and what it remembers. */
  function Run(capacity: nat, accepted: seq<string>, order: seq<string>, ids: seq<string>)
    : (seq<bool>, seq<string>, seq<string>)
    requires capacity >= 1
    decreases |ids|
  {
    if ids == [] then ([], accepted, order)
    else
      var jti := ids[0];
      var known := jti != "" && jti in order;
      var (answers, acc, end) :=
        if jti == "" || known then Run(capacity, accepted, order, ids[1..])
        else Run(capacity, accepted + [jti], Accepted(capacity, order, jti), ids[1..]);
      ([!known] + answers, acc, end)
  }

  /** In every run the remembered ids are the last WindowLength(n) of the n accepted ones, without repetition. */
  lemma {:induction false} RunRemembersWindow(capacity: nat, accepted: seq<string>, order: seq<string>,
                                              ids: seq<string>)
    requires capacity >= 1 && Remembers(capacity, accepted, order)
    ensures Remembers(capacity, Run(capacity, accepted, order, ids).1, Run(capacity, accepted, order, ids).2)
    decreases |ids|
  {
    if ids != [] {
      if ids[0] == "" || ids[0] in order {
        RunRemembersWindow(capacity, accepted, order, ids[1..]);
      } else {
        AcceptKeepsWindow(capacity, accepted, order, ids[0]);
        RunRemembersWindow(capacity, accepted + [ids[0]], Accepted(capacity, order, ids[0]), ids[1..]);
      }
    }
  }

  // ---- The filter object ----

  class Filter {
    var seen: set<string>
    var seenOrder: seq<string>
    const maxSeen: nat
    ghost var accepted: seq<string>

    ghost predicate Valid()
      reads this
    {
      && maxSeen >= 1
      && Remembers(maxSeen, accepted, seenOrder)
      && seen == (set id | id in seenOrder)
    }

    constructor (maxSeen: nat)
      requires maxSeen >= 1
      ensures Valid() && accepted == [] && this.maxSeen == maxSeen
    {
      this.maxSeen := maxSeen;
      seen, seenOrder, accepted := {}, [], [];
    }

    /** The dedup block of RelayRevocation and ReceiveRevocation. */
    method Offer(jti: string) returns (isNew: bool)
      requires Valid()
      modifies this
      ensures Valid() && |seenOrder| <= maxSeen
      ensures isNew <==> jti == "" || jti !in old(seenOrder)
      ensures seenOrder == if jti != "" && isNew then Accepted(maxSeen, old(seenOrder), jti) else old(seenOrder)
      ensures accepted == if jti != "" && isNew then old(accepted) + [jti] else old(accepted)
    {
      isNew := jti == "" || jti !in seen;
      if jti != "" && isNew {
        Record(jti);
      }
    }

    /** Record an unknown id and evict the oldest if over capacity. */
    method Record(jti: string)
      requires Valid() && jti !in seenOrder
      modifies this
      ensures Valid()
      ensures seenOrder == Accepted(maxSeen, old(seenOrder), jti)
      ensures accepted == old(accepted) + [jti]
    {
      AcceptKeepsWindow(maxSeen, accepted, seenOrder, jti);
      Insert(jti);
      accepted := accepted + [jti];
    }

    method Insert(jti: string)
      requires maxSeen >= 1 && NoDuplicates(seenOrder) && seen == (set id | id in seenOrder) && jti !in seenOrder
      modifies this`seen, this`seenOrder
      ensures seenOrder == Accepted(maxSeen, old(seenOrder), jti)
      ensures seen == (set id | id in seenOrder)
    {
      DistinctGrows(seenOrder, jti);
      seen := seen + {jti};
      seenOrder := seenOrder + [jti];
      DistinctSize(seenOrder);
      assert seen == (set id | id in seenOrder);
      if |seen| > maxSeen {
        EvictOldest();
      }
    }

    /** evictOldestLocked: forget the oldest tenth, at least one. */
    method EvictOldest()
      requires maxSeen >= 1 && NoDuplicates(seenOrder) && seen == (set id | id in seenOrder)
      modifies this`seen, this`seenOrder
      ensures var evict, size := EvictCount(maxSeen), |old(seenOrder)|;
              seenOrder == old(seenOrder)[if evict <= size then evict else size..]
      ensures seen == (set id | id in seenOrder)
    {
      var evict := EvictCount(maxSeen);
      if evict > |seenOrder| { evict := |seenOrder|; }
      for i := 0 to evict
        invariant seenOrder == old(seenOrder)
        invariant seen == (set id | id in seenOrder[i..])
      {
        assert seenOrder[i..] == [seenOrder[i]] + seenOrder[i + 1..];
        seen := seen - {seenOrder[i]};
      }
      seenOrder := seenOrder[evict..];
    }
  }

  lemma {:induction false} DistinctSize(s: seq<string>)
    requires NoDuplicates(s)
    ensures |set x | x in s| == |s|
    decreases |s|
  {
    if s != [] {
      DistinctSize(s[1..]);
      assert (set x | x in s) == (set x | x in s[1..]) + {s[0]};
    }
  }
}
