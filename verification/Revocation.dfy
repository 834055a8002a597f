/**
  The in-memory revocation index of pkg/signals/revocation.go: entries with an optional
  expiry, lazy clean-up, and a canonical export that other fabrics import.
 */
module Revocation {
  import opened Basics

  /** `expiresAt` None is Go's zero time: the entry never expires. */
  datatype Entry = Entry(subject: string, reason: string, revokedAt: int, expiresAt: Option<int>, eventJti: string)

  type Index = map<string, Entry>
  type Digest = string
  type Hasher = seq<Entry> -> Digest

  predicate Expired(e: Entry, now: int) {
    e.expiresAt.Some? && now > e.expiresAt.value
  }

  /** The entries that still count at `now`. */
  function Active(m: Index, now: int): Index {
    map k | k in m && !Expired(m[k], now) :: m[k]
  }

  predicate WellKeyed(m: Index) {
    forall k :: k in m ==> m[k].subject == k
  }

  // ---- The order of subjects ----

  predicate Less(a: string, b: string) {
    b != "" && (a == "" || a[0] < b[0] || (a[0] == b[0] && Less(a[1..], b[1..])))
  }

  lemma {:induction false} LessTransitive(a: string, b: string, c: string)
    requires Less(a, b) && Less(b, c)
    ensures Less(a, c)
  {
    if a != "" && a[0] == b[0] && b[0] == c[0] {
      LessTransitive(a[1..], b[1..], c[1..]);
    }
  }

  lemma {:induction false} LessAsymmetric(a: string, b: string)
    requires Less(a, b)
    ensures !Less(b, a) && a != b
  {
    if a != "" && a[0] == b[0] {
      LessAsymmetric(a[1..], b[1..]);
    }
  }

  lemma {:induction false} LessTotal(a: string, b: string)
    requires a != b
    ensures Less(a, b) || Less(b, a)
  {
    if a != "" && b != "" && a[0] == b[0] {
      assert a == [a[0]] + a[1..] && b == [b[0]] + b[1..];
      LessTotal(a[1..], b[1..]);
    }
  }

  /** Byte by byte: a proper prefix, or the smaller character where the two first differ. */
  ghost predicate DiffersBelow(a: string, b: string, i: int) {
    0 <= i <= |a| && i < |b| && a[..i] == b[..i] && (i == |a| || a[i] < b[i])
  }

  lemma {:induction false} LessIsLexicographic(a: string, b: string)
    ensures Less(a, b) <==> exists i :: DiffersBelow(a, b, i)
  {
    if Less(a, b) {
      var i := DifferingPosition(a, b);
    }
    forall i | DiffersBelow(a, b, i) ensures Less(a, b) {
      BelowIsLess(a, b, i);
    }
  }

  lemma {:induction false} DifferingPosition(a: string, b: string) returns (i: nat)
    requires Less(a, b)
    ensures DiffersBelow(a, b, i)
  {
    i := 0;
    if a != "" && a[0] == b[0] {
      i := DifferingPosition(a[1..], b[1..]);
      assert a == [a[0]] + a[1..] && b == [b[0]] + b[1..];
      assert a[..i + 1] == [a[0]] + a[1..][..i] && b[..i + 1] == [b[0]] + b[1..][..i];
      i := i + 1;
    }
  }

  lemma {:induction false} BelowIsLess(a: string, b: string, i: nat)
    requires DiffersBelow(a, b, i)
    ensures Less(a, b)
  {
    if i > 0 {
      assert a[0] == a[..i][0] && b[0] == b[..i][0];
      assert a[1..][..i - 1] == a[..i][1..] && b[1..][..i - 1] == b[..i][1..];
      BelowIsLess(a[1..], b[1..], i - 1);
    }
  }

  // ---- Canonical listings ----

  ghost predicate Sorted(s: seq<Entry>) {
    forall i, j :: 0 <= i < j < |s| ==> Less(s[i].subject, s[j].subject)
  }

  /** `s` is the index written out in subject order. */
  ghost predicate IsListing(m: Index, s: seq<Entry>) {
    && Sorted(s)
    && (forall e :: e in s ==> e.subject in m && m[e.subject] == e)
    && (forall k :: k in m ==> m[k] in s)
  }

  /** Sorted sequences with the same elements are equal: the map's iteration order does not show. */
  lemma {:induction false} SortedUnique(s: seq<Entry>, t: seq<Entry>)
    requires Sorted(s) && Sorted(t) && forall e :: e in s <==> e in t
    ensures s == t
    decreases |s|
  {
    assert |t| > 0 ==> t[0] in t;
    if s != [] {
      assert s[0] in s && s[0] in t;
      assert t[0] in t && t[0] in s;
      SameHead(s, t);
      forall e ensures e in s[1..] <==> e in t[1..] {
        TailMembers(s, e);
        TailMembers(t, e);
      }
      SortedUnique(s[1..], t[1..]);
      assert s == [s[0]] + s[1..] && t == [t[0]] + t[1..];
    }
  }

  lemma SameHead(s: seq<Entry>, t: seq<Entry>)
    requires Sorted(s) && Sorted(t) && |s| > 0 && |t| > 0 && s[0] in t && t[0] in s
    ensures s[0] == t[0]
  {
    var i :| 0 <= i < |s| && s[i] == t[0];
    var j :| 0 <= j < |t| && t[j] == s[0];
    if i > 0 && j > 0 {
      LessAsymmetric(s[0].subject, s[i].subject);
      assert false;
    }
  }

  lemma TailMembers(s: seq<Entry>, e: Entry)
    requires Sorted(s) && |s| > 0
    ensures e in s[1..] <==> e in s && e != s[0]
  {
    if e in s[1..] {
      var i :| 0 < i < |s| && s[i] == e;
      LessAsymmetric(s[0].subject, s[i].subject);
    }
  }

  /** Place `e` before the first greater subject. */
  function Insert(s: seq<Entry>, e: Entry): seq<Entry> {
    if s == [] || Less(e.subject, s[0].subject) then [e] + s else [s[0]] + Insert(s[1..], e)
  }

  lemma {:induction false} InsertSorts(s: seq<Entry>, e: Entry)
    requires Sorted(s) && forall x :: x in s ==> x.subject != e.subject
    ensures Sorted(Insert(s, e))
    ensures forall x :: x in Insert(s, e) <==> x in s || x == e
    decreases |s|
  {
    if s == [] {
    } else if Less(e.subject, s[0].subject) {
      forall j | 0 < j < |s| ensures Less(e.subject, s[j].subject) {
        LessTransitive(e.subject, s[0].subject, s[j].subject);
      }
    } else {
      LessTotal(e.subject, s[0].subject);
      InsertSorts(s[1..], e);
      var r := Insert(s[1..], e);
      assert forall x :: x in s <==> x == s[0] || x in s[1..];
      forall j | 0 <= j < |r| ensures Less(s[0].subject, r[j].subject) {
        assert r[j] in r;
      }
    }
  }

  lemma {:induction false} ListingExists(m: Index) returns (s: seq<Entry>)
    requires WellKeyed(m)
    ensures IsListing(m, s)
    decreases |m.Keys|
  {
    if m == map[] {
      s := [];
    } else {
      var k :| k in m;
      var rest := m - {k};
      assert rest.Keys == m.Keys - {k};
      var tail := ListingExists(rest);
      InsertSorts(tail, m[k]);
      s := Insert(tail, m[k]);
      forall j | j in m ensures m[j] in s {
        if j != k { assert rest[j] in tail; }
      }
    }
  }

  /** The listing of `m`; SortedUnique makes it the only one. */
  ghost function Listing(m: Index): (s: seq<Entry>)
    requires WellKeyed(m)
    ensures IsListing(m, s)
  {
    assert exists s :: IsListing(m, s) by {
      var s := ListingExists(m);
    }
    var s :| IsListing(m, s);
    s
  }

  lemma ListingUnique(m: Index, s: seq<Entry>)
    requires WellKeyed(m) && IsListing(m, s)
    ensures s == Listing(m)
  {
    SortedUnique(s, Listing(m));
  }

  /** Two indexes with one listing are the same index. */
  lemma ListingDeterminesIndex(a: Index, b: Index)
    requires WellKeyed(a) && WellKeyed(b) && Listing(a) == Listing(b)
    ensures a == b
  {
    forall k ensures k in a <==> k in b {
      if k in a { assert a[k] in Listing(b); }
      if k in b { assert b[k] in Listing(a); }
    }
    forall k | k in a ensures a[k] == b[k] {
      assert a[k] in Listing(b);
    }
  }

  ghost predicate Injective(hash: Hasher) {
    forall s, t :: hash(s) == hash(t) ==> s == t
  }

  // ---- Export and import ----

  datatype Snapshot = Snapshot(entries: seq<Entry>, count: nat, digest: Digest)

  datatype ImportError = Unparsable | IntegrityFailed(expected: Digest, got: Digest)

  /** `data` None stands for bytes that do not parse. */
  function ImportFailure(hash: Hasher, data: Option<Snapshot>): Option<ImportError> {
    if data.None? then Some(Unparsable)
    else if data.value.digest != hash(data.value.entries) then
      Some(IntegrityFailed(hash(data.value.entries), data.value.digest))
    else None
  }

  /** A snapshot is accepted exactly if it parses and carries the digest of its entries. */
  lemma ImportAcceptsIff(hash: Hasher, data: Option<Snapshot>)
    ensures ImportFailure(hash, data).None? <==> data.Some? && data.value.digest == hash(data.value.entries)
    ensures ImportFailure(hash, data) == Some(Unparsable) <==> data.None?
    ensures data.Some? && data.value.digest != hash(data.value.entries) ==>
              ImportFailure(hash, data) == Some(IntegrityFailed(hash(data.value.entries), data.value.digest))
  {
  }

  /** Additive merge: an existing subject keeps its entry. */
  function Merged(m: Index, es: seq<Entry>): Index
    decreases |es|
  {
    if es == [] then m
    else Merged(if es[0].subject in m then m else m[es[0].subject := es[0]], es[1..])
  }

  /** No earlier entry of `es` has the subject of entry `i`. */
  ghost predicate FirstOfSubject(es: seq<Entry>, i: int) {
    0 <= i < |es| && forall j :: 0 <= j < i ==> es[j].subject != es[i].subject
  }

  /**
    Merging any list into `m` adds the listed subjects that `m` lacks, each with the first entry
    listed for it, and alters nothing else.
   */
  lemma {:induction false} MergedIsUnion(m: Index, es: seq<Entry>)
    ensures forall k :: k in Merged(m, es) <==> k in m || exists e :: e in es && e.subject == k
    ensures forall k :: k in m ==> Merged(m, es)[k] == m[k]
    ensures forall i :: FirstOfSubject(es, i) && es[i].subject !in m ==> Merged(m, es)[es[i].subject] == es[i]
    decreases |es|
  {
    if es != [] {
      var m' := if es[0].subject in m then m else m[es[0].subject := es[0]];
      MergedIsUnion(m', es[1..]);
      assert forall e :: e in es <==> e == es[0] || e in es[1..];
      forall i | 0 <= i < |es| ensures es[i].subject in Merged(m, es) {
        assert es[i] == es[0] || es[i] in es[1..];
      }
      forall i | FirstOfSubject(es, i) && es[i].subject !in m ensures Merged(m, es)[es[i].subject] == es[i] {
        if i > 0 {
          assert es[i] == es[1..][i - 1];
          assert forall j :: 0 <= j < i - 1 ==> es[1..][j] == es[j + 1];
          assert FirstOfSubject(es[1..], i - 1);
        }
      }
    }
  }

  lemma SortedListsSubjectsOnce(es: seq<Entry>)
    requires Sorted(es)
    ensures forall i :: 0 <= i < |es| ==> FirstOfSubject(es, i)
  {
    forall i, j | 0 <= j < i < |es| ensures es[j].subject != es[i].subject {
      LessAsymmetric(es[j].subject, es[i].subject);
    }
  }

  lemma MergedListing(m: Index, x: Index)
    requires WellKeyed(m) && WellKeyed(x)
    ensures Merged(m, Listing(x)) == x + m
    ensures WellKeyed(Merged(m, Listing(x)))
  {
    MergedIsUnion(m, Listing(x));
    SortedListsSubjectsOnce(Listing(x));
    forall k ensures k in Merged(m, Listing(x)) <==> k in x + m {
      if k in x { assert x[k] in Listing(x); }
    }
    forall k | k in x && k !in m ensures Merged(m, Listing(x))[k] == x[k] {
      var i :| 0 <= i < |Listing(x)| && Listing(x)[i] == x[k];
      assert FirstOfSubject(Listing(x), i);
    }
  }

  function SnapshotOf(hash: Hasher, es: seq<Entry>): Snapshot {
    Snapshot(es, |es|, hash(es))
  }

  /**
    Import accepts every export, and into an empty index it yields exactly the source's
    unexpired entries. After a clean-up at the same instant, Hash is the digest in the export.
   */
  lemma ExportImportRoundTrip(hash: Hasher, source: Index, now: int)
    requires WellKeyed(source)
    ensures var es := Listing(Active(source, now));
            && ImportFailure(hash, Some(SnapshotOf(hash, es))).None?
            && Merged(map[], es) == Active(source, now)
            && SnapshotOf(hash, Listing(Active(Active(source, now), now))).digest == hash(Listing(Active(source, now)))
  {
    var x := Active(source, now);
    MergedListing(map[], x);
    assert x + map[] == x;
    assert Active(x, now) == x;
  }

  lemma {:induction false} NothingToMerge(m: Index, es: seq<Entry>)
    requires forall e :: e in es ==> e.subject in m
    ensures Merged(m, es) == m
    decreases |es|
  {
    if es != [] {
      assert es[0] in es && forall e :: e in es[1..] ==> e in es;
      NothingToMerge(m, es[1..]);
    }
  }

  /** Import is additive, and for every list that it accepts importing twice is importing once. */
  lemma ImportIsIdempotent(m: Index, es: seq<Entry>)
    ensures forall k :: k in m ==> k in Merged(m, es) && Merged(m, es)[k] == m[k]
    ensures Merged(Merged(m, es), es) == Merged(m, es)
  {
    MergedIsUnion(m, es);
    NothingToMerge(Merged(m, es), es);
  }

  /** If the digests of the peer and of the cleaned local index agree, the skipped import would change nothing. */
  lemma MatchingDigestsNeedNoImport(hash: Hasher, local: Index, peer: Index, now: int)
    requires WellKeyed(local) && WellKeyed(peer) && Injective(hash)
    requires hash(Listing(Active(local, now))) == hash(Listing(peer))
    ensures Active(local, now) == peer
    ensures Merged(Active(local, now), Listing(Active(peer, now))) == Active(local, now)
  {
    ListingDeterminesIndex(Active(local, now), peer);
    MergedListing(Active(local, now), Active(peer, now));
    assert Active(peer, now) == peer;
  }

  // ---- When cleaning up is unobservable ----

  datatype Event =
    | Revoke(subject: string, reason: string, expiresAt: Option<int>, at: int)
    | Import(es: seq<Entry>, at: int) // a snapshot that passed the digest check
    | Clean(at: int)
    | Ask(subject: string, at: int)

  function Answer(m: Index, subject: string, now: int): Option<Entry> {
    if subject in m && !Expired(m[subject], now) then Some(m[subject]) else None
  }

  function Revoked(m: Index, subject: string, reason: string, expiresAt: Option<int>, now: int): Index {
    if subject == "" then m else m[subject := Entry(subject, reason, now, expiresAt, "")]
  }

  /** The index after an event; `cleans` tells whether clean-up events really remove entries. */
  function After(m: Index, e: Event, cleans: bool): Index {
    match e
    case Revoke(s, r, x, at) => Revoked(m, s, r, x, at)
    case Import(es, at) => Merged(m, es)
    case Clean(at) => if cleans then Active(m, at) else m
    case Ask(s, at) => m
  }

  // ---- How long a revocation lasts ----

  /** A revocation without expiry holds for ever, one with an expiry up to and including that time. */
  ghost predicate InForce(e: Entry, now: int) {
    e.expiresAt.None? || now <= e.expiresAt.value
  }

  /** After revoking `s` exactly that entry is answered, while it is in force; other subjects are as before. */
  lemma RevokedWhileInForce(m: Index, s: string, r: string, x: Option<int>, at: int, k: string, later: int)
    requires s != ""
    ensures var e := Entry(s, r, at, x, "");
            Answer(Revoked(m, s, r, x, at), s, later) == if x.None? || later <= x.value then Some(e) else None
    ensures k != s ==> Answer(Revoked(m, s, r, x, at), k, later) == Answer(m, k, later)
  {
  }

  /** The entry that governs `s` after a history, given the one before it: read off the events alone. */
  ghost function Governing(es: seq<Event>, s: string, g: Option<Entry>): Option<Entry>
    decreases |es|
  {
    if es == [] then g
    else
      var next :=
        match es[0]
        case Revoke(k, r, x, at) => if k == s && s != "" then Some(Entry(s, r, at, x, "")) else g
        case Import(list, at) =>
          if g.None? && FirstListed(list, s).Some? then Some(list[FirstListed(list, s).value]) else g
        case Clean(at) => if g.Some? && !InForce(g.value, at) then None else g
        case Ask(_, _) => g;
      Governing(es[1..], s, next)
  }

  ghost function AfterAll(m: Index, es: seq<Event>): Index
    decreases |es|
  {
    if es == [] then m else AfterAll(After(m, es[0], true), es[1..])
  }

  ghost function EntryFor(m: Index, s: string): Option<Entry> {
    if s in m then Some(m[s]) else None
  }

  lemma StepGoverns(m: Index, e: Event, s: string)
    ensures EntryFor(After(m, e, true), s) == Governing([e], s, EntryFor(m, s))
  {
    assert [e][1..] == [];
    if e.Import? {
      MergedIsUnion(m, e.es);
      var first := FirstListed(e.es, s);
      if first.Some? { assert e.es[first.value] in e.es; }
    }
  }

  lemma GoverningSteps(e: Event, es: seq<Event>, s: string, g: Option<Entry>)
    ensures Governing([e] + es, s, g) == Governing(es, s, Governing([e], s, g))
  {
    assert ([e] + es)[1..] == es && [e][1..] == [];
  }

  /** After any history a subject is revoked exactly if its governing entry is in force, with that entry. */
  lemma {:induction false} RevokedIffGoverned(m: Index, es: seq<Event>, s: string, now: int)
    ensures var g := Governing(es, s, EntryFor(m, s));
            Answer(AfterAll(m, es), s, now) == if g.Some? && InForce(g.value, now) then g else None
    decreases |es|
  {
    if es != [] {
      assert es == [es[0]] + es[1..];
      StepGoverns(m, es[0], s);
      GoverningSteps(es[0], es[1..], s, EntryFor(m, s));
      RevokedIffGoverned(After(m, es[0], true), es[1..], s, now);
    }
  }

  // ---- Histories with and without clean-up ----

  /** The answers of a history. */
  function Answers(m: Index, es: seq<Event>, cleans: bool): seq<Option<Entry>>
    decreases |es|
  {
    if es == [] then []
    else
      (if es[0].Ask? then [Answer(m, es[0].subject, es[0].at)] else [])
      + Answers(After(m, es[0], cleans), es[1..], cleans)
  }

  function EventTime(e: Event): int {
    e.at
  }

  /** No question asked at `now` tells `a` from `b`. */
  ghost predicate SameAnswers(a: Index, b: Index, now: int) {
    forall s :: Answer(a, s, now) == Answer(b, s, now)
  }

  /** After no event of the history would any question tell the cleaned index from the one that never cleans. */
  ghost predicate SameThroughout(pruned: Index, ideal: Index, es: seq<Event>)
    decreases |es|
  {
    es != [] ==>
      var pruned', ideal' := After(pruned, es[0], true), After(ideal, es[0], false);
      SameAnswers(pruned', ideal', es[0].at) && SameThroughout(pruned', ideal', es[1..])
  }

  /** Each unexpired entry that is first listed for its subject finds the subject in both indexes or in neither. */
  ghost predicate ImportFits(a: Index, b: Index, es: seq<Entry>, now: int) {
    forall i :: FirstOfSubject(es, i) && !Expired(es[i], now) ==> (es[i].subject in a <==> es[i].subject in b)
  }

  /** Every import of the history fits. */
  ghost predicate ImportsFit(pruned: Index, ideal: Index, es: seq<Event>)
    decreases |es|
  {
    es != [] ==>
      && (es[0].Import? ==> ImportFits(pruned, ideal, es[0].es, es[0].at))
      && ImportsFit(After(pruned, es[0], true), After(ideal, es[0], false), es[1..])
  }

  /** The first entry listed for `k`. */
  function FirstListed(es: seq<Entry>, k: string): (r: Option<nat>)
    ensures r.Some? ==> FirstOfSubject(es, r.value) && es[r.value].subject == k
    ensures r.None? ==> forall e :: e in es ==> e.subject != k
  {
    if es == [] then None
    else if es[0].subject == k then Some(0)
    else
      var rest := FirstListed(es[1..], k);
      assert forall e :: e in es ==> e == es[0] || e in es[1..];
      assert rest.Some? ==> forall j :: 0 < j <= rest.value ==> es[j] == es[1..][j - 1];
      if rest.None? then None else Some(rest.value + 1)
  }

  /** What a merged index answers: its own entry's answer, else the first listed one's. */
  lemma MergedAnswer(m: Index, es: seq<Entry>, k: string, now: int)
    ensures var first := FirstListed(es, k);
            Answer(Merged(m, es), k, now) ==
            if k in m then Answer(m, k, now)
            else if first.Some? && !Expired(es[first.value], now) then Some(es[first.value])
            else None
  {
    MergedIsUnion(m, es);
    var first := FirstListed(es, k);
    if first.Some? { assert es[first.value] in es; }
  }

  /** An import keeps two indexes that answer alike indistinguishable exactly if it fits. */
  lemma ImportStepIff(a: Index, b: Index, es: seq<Entry>, now: int)
    requires SameAnswers(a, b, now)
    ensures SameAnswers(Merged(a, es), Merged(b, es), now) <==> ImportFits(a, b, es, now)
  {
    if ImportFits(a, b, es, now) {
      forall k ensures Answer(Merged(a, es), k, now) == Answer(Merged(b, es), k, now) {
        assert Answer(a, k, now) == Answer(b, k, now);
        MergedAnswer(a, es, k, now);
        MergedAnswer(b, es, k, now);
      }
    } else {
      var i :| FirstOfSubject(es, i) && !Expired(es[i], now) && (es[i].subject in a <==> es[i].subject !in b);
      var k := es[i].subject;
      assert FirstListed(es, k) == Some(i) by { FirstIsFirst(es, i); }
      MergedAnswer(a, es, k, now);
      MergedAnswer(b, es, k, now);
      assert Answer(a, k, now) == Answer(b, k, now);
      assert Answer(Merged(a, es), k, now) != Answer(Merged(b, es), k, now);
    }
  }

  lemma FirstIsFirst(es: seq<Entry>, i: nat)
    requires FirstOfSubject(es, i)
    ensures FirstListed(es, es[i].subject) == Some(i)
  {
    assert es[i] in es;
  }

  lemma SameAnswersLater(a: Index, b: Index, now: int, later: int)
    requires SameAnswers(a, b, now) && now <= later
    ensures SameAnswers(a, b, later)
  {
    forall k ensures Answer(a, k, later) == Answer(b, k, later) {
      assert Answer(a, k, now) == Answer(b, k, now);
    }
  }

  lemma SameAfterOthers(a: Index, b: Index, e: Event)
    requires SameAnswers(a, b, e.at) && !e.Import?
    ensures SameAnswers(After(a, e, true), After(b, e, false), e.at)
  {
    forall k ensures Answer(After(a, e, true), k, e.at) == Answer(After(b, e, false), k, e.at) {
      assert Answer(a, k, e.at) == Answer(b, k, e.at);
    }
  }

  lemma StepIff(a: Index, b: Index, e: Event)
    requires SameAnswers(a, b, e.at)
    ensures SameAnswers(After(a, e, true), After(b, e, false), e.at) <==>
            (e.Import? ==> ImportFits(a, b, e.es, e.at))
  {
    if e.Import? { ImportStepIff(a, b, e.es, e.at); } else { SameAfterOthers(a, b, e); }
  }

  /**
    Over any history with a non-decreasing clock, clean-up is unobservable at every moment if
    and only if each import fits: no unexpired entry meets an expired one of its subject that
    was cleaned up on one side only.
   */
  lemma {:induction false} CleanupUnobservableIff(pruned: Index, ideal: Index, from: int, es: seq<Event>)
    requires SameAnswers(pruned, ideal, from) && ClockRuns(es, EventTime, from)
    ensures SameThroughout(pruned, ideal, es) <==> ImportsFit(pruned, ideal, es)
    decreases |es|
  {
    if es != [] {
      SameAnswersLater(pruned, ideal, from, es[0].at);
      StepIff(pruned, ideal, es[0]);
      var pruned', ideal' := After(pruned, es[0], true), After(ideal, es[0], false);
      if SameAnswers(pruned', ideal', es[0].at) {
        CleanupUnobservableIff(pruned', ideal', es[0].at, es[1..]);
      }
    }
  }

  /** The answers of such a history are those of an index that never cleans up. */
  lemma {:induction false} FittingImportsAnswerAlike(pruned: Index, ideal: Index, from: int, es: seq<Event>)
    requires SameAnswers(pruned, ideal, from) && ClockRuns(es, EventTime, from) && ImportsFit(pruned, ideal, es)
    ensures Answers(pruned, es, true) == Answers(ideal, es, false)
    decreases |es|
  {
    if es != [] {
      SameAnswersLater(pruned, ideal, from, es[0].at);
      StepIff(pruned, ideal, es[0]);
      FittingImportsAnswerAlike(After(pruned, es[0], true), After(ideal, es[0], false), es[0].at, es[1..]);
    }
  }

  /** In particular so are those of every history without imports. */
  lemma CleanupIsUnobservable(pruned: Index, ideal: Index, from: int, es: seq<Event>)
    requires SameAnswers(pruned, ideal, from) && ClockRuns(es, EventTime, from)
    requires forall e :: e in es ==> !e.Import?
    ensures Answers(pruned, es, true) == Answers(ideal, es, false)
  {
    ImportFreeFits(pruned, ideal, es);
    FittingImportsAnswerAlike(pruned, ideal, from, es);
  }

  lemma {:induction false} ImportFreeFits(pruned: Index, ideal: Index, es: seq<Event>)
    requires forall e :: e in es ==> !e.Import?
    ensures ImportsFit(pruned, ideal, es)
    decreases |es|
  {
    if es != [] {
      assert es[0] in es && forall e :: e in es[1..] ==> e in es;
      ImportFreeFits(After(pruned, es[0], true), After(ideal, es[0], false), es[1..]);
    }
  }

  /**
    Cleaning up right before an import makes no difference to any later question exactly if no
    unexpired entry that is first listed for its subject meets an expired one.
   */
  lemma CleanupBeforeImportIff(m: Index, es: seq<Entry>, now: int)
    ensures SameAnswers(Merged(Active(m, now), es), Merged(m, es), now) <==>
            forall i :: FirstOfSubject(es, i) && !Expired(es[i], now) ==>
              !(es[i].subject in m && Expired(m[es[i].subject], now))
  {
    assert SameAnswers(Active(m, now), m, now);
    ImportStepIff(Active(m, now), m, es, now);
  }

  // ---- The index object ----

  class RevocationIndex {
    var entries: Index
    const hash: Hasher

    ghost predicate Valid()
      reads this
    {
      WellKeyed(entries)
    }

    constructor (hash: Hasher)
      ensures Valid() && entries == map[] && this.hash == hash
    {
      entries := map[];
      this.hash := hash;
    }

    method Revoke(subject: string, reason: string, expiresAt: Option<int>, now: int) returns (ok: bool)
      requires Valid()
      modifies this
      ensures Valid()
      ensures ok <==> subject != ""
      ensures ok ==> entries == old(entries)[subject := Entry(subject, reason, now, expiresAt, "")]
      ensures !ok ==> entries == old(entries)
      ensures entries == Revoked(old(entries), subject, reason, expiresAt, now)
    {
      if subject == "" { return false; }
      entries := entries[subject := Entry(subject, reason, now, expiresAt, "")];
      return true;
    }

    method IsRevoked(subject: string, now: int) returns (entry: Option<Entry>)
      ensures entry == Answer(entries, subject, now)
      ensures entry.Some? <==> subject in Active(entries, now)
      ensures entry.Some? <==> subject in entries && InForce(entries[subject], now)
      ensures entry.Some? ==> entry.value == entries[subject]
    {
      if subject !in entries || Expired(entries[subject], now) { return None; }
      return Some(entries[subject]);
    }

    method Cleanup(now: int) returns (removed: nat)
      requires Valid()
      modifies this
      ensures Valid()
      ensures entries == Active(old(entries), now)
      ensures forall k :: k in entries <==> k in old(entries) && InForce(old(entries)[k], now)
      ensures removed == |old(entries)| - |entries|
    {
      removed := 0;
      var pending := entries.Keys;
      while pending != {}
        invariant pending <= entries.Keys <= old(entries).Keys
        invariant forall k :: k in entries ==> entries[k] == old(entries)[k]
        invariant forall k :: k in old(entries) && k !in pending ==> (k in entries <==> !Expired(old(entries)[k], now))
        invariant removed == |old(entries).Keys| - |entries.Keys|
        decreases pending
      {
        var k :| k in pending;
        pending := pending - {k};
        if Expired(entries[k], now) {
          assert (entries - {k}).Keys == entries.Keys - {k};
          entries := entries - {k};
          removed := removed + 1;
        }
      }
    }

    /** Collect all entries, or those active at a time, in whatever order the map yields them; then sort. */
    method Collect(at: Option<int>) returns (es: seq<Entry>)
      requires Valid()
      ensures es == Listing(if at.None? then entries else Active(entries, at.value))
    {
      ghost var chosen := if at.None? then entries else Active(entries, at.value);
      es := [];
      var pending := entries.Keys;
      while pending != {}
        invariant pending <= entries.Keys
        invariant Sorted(es)
        invariant forall e :: e in es <==> e.subject in chosen && e.subject !in pending && chosen[e.subject] == e
        decreases pending
      {
        var k :| k in pending;
        pending := pending - {k};
        if at.None? || !Expired(entries[k], at.value) {
          InsertSorts(es, entries[k]);
          es := Insert(es, entries[k]);
        }
      }
      assert forall k :: k in chosen ==> chosen[k].subject == k;
      ListingUnique(chosen, es);
    }

    method Export(now: int) returns (data: Snapshot)
      requires Valid()
      ensures data == SnapshotOf(hash, Listing(Active(entries, now)))
      ensures Sorted(data.entries) && data.count == |data.entries| && data.digest == hash(data.entries)
      ensures forall e :: e in data.entries <==>
                e.subject in entries && entries[e.subject] == e && InForce(e, now)
    {
      var es := Collect(Some(now));
      data := Snapshot(es, |es|, hash(es));
      forall e: Entry | e.subject in entries && entries[e.subject] == e && InForce(e, now) ensures e in es {
        assert e.subject in Active(entries, now);
      }
    }

    method Hash() returns (digest: Digest)
      requires Valid()
      ensures digest == hash(Listing(entries))
    {
      var es := Collect(None);
      digest := hash(es);
    }

    method Import(data: Option<Snapshot>) returns (err: Option<ImportError>)
      requires Valid()
      modifies this
      ensures Valid()
      ensures err == ImportFailure(hash, data)
      ensures err.None? <==> data.Some? && data.value.digest == hash(data.value.entries)
      ensures entries == if err.None? then Merged(old(entries), data.value.entries) else old(entries)
      ensures forall k :: k in old(entries) ==> k in entries && entries[k] == old(entries)[k]
    {
      err := ImportFailure(hash, data);
      if err.Some? { return; }
      var es := data.value.entries;
      for i := 0 to |es|
        invariant Valid()
        invariant Merged(entries, es[i..]) == Merged(old(entries), es)
        invariant forall k :: k in old(entries) ==> k in entries && entries[k] == old(entries)[k]
      {
        assert es[i..][1..] == es[i + 1..];
        if es[i].subject !in entries {
          entries := entries[es[i].subject := es[i]];
        }
      }
    }
  }
}
