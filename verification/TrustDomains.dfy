/**
  Lists of trust domains, seen name by name: the edits that the convergence applier makes
  and how they act on the entries of one name.
 */
module TrustDomains {
  import opened Basics

  datatype Domain = Domain(name: string, kind: string, issuer: string, jwksUrl: string, enabled: bool)

  /** The sublist of entries called `n`. */
  function Named(ds: seq<Domain>, n: string): seq<Domain> {
    if ds == [] then [] else (if ds[0].name == n then [ds[0]] else []) + Named(ds[1..], n)
  }

  lemma {:induction false} NamedMembers(ds: seq<Domain>, n: string)
    ensures forall d :: d in Named(ds, n) <==> d in ds && d.name == n
    decreases |ds|
  {
    if ds != [] {
      assert ds == [ds[0]] + ds[1..];
      NamedMembers(ds[1..], n);
    }
  }

  lemma {:induction false} NamedAppend(a: seq<Domain>, b: seq<Domain>, n: string)
    ensures Named(a + b, n) == Named(a, n) + Named(b, n)
    decreases |a|
  {
    if a == [] {
      assert a + b == b;
    } else {
      assert (a + b)[1..] == a[1..] + b;
      NamedAppend(a[1..], b, n);
    }
  }

  /** A list is determined, up to order, by its entries name by name. */
  lemma {:induction false} CountByName(ds: seq<Domain>, d: Domain)
    ensures multiset(ds)[d] == multiset(Named(ds, d.name))[d]
    decreases |ds|
  {
    if ds != [] {
      assert ds == [ds[0]] + ds[1..];
      CountByName(ds[1..], d);
    }
  }

  lemma SameNamesSameList(a: seq<Domain>, b: seq<Domain>)
    requires forall n :: Named(a, n) == Named(b, n)
    ensures multiset(a) == multiset(b)
  {
    forall d ensures multiset(a)[d] == multiset(b)[d] {
      CountByName(a, d);
      CountByName(b, d);
    }
  }

  lemma {:induction false} NamedLength(a: seq<Domain>, b: seq<Domain>, n: string)
    requires multiset(a) == multiset(b)
    ensures |Named(a, n)| == |Named(b, n)|
  {
    NamedMembers(a, n);
    NamedMembers(b, n);
    forall d ensures multiset(Named(a, n))[d] == multiset(Named(b, n))[d] {
      if d.name == n {
        CountByName(a, d);
        CountByName(b, d);
      }
    }
    assert multiset(Named(a, n)) == multiset(Named(b, n));
    assert |multiset(Named(a, n))| == |Named(a, n)| && |multiset(Named(b, n))| == |Named(b, n)|;
  }

  ghost predicate UniqueNames(ds: seq<Domain>) {
    forall i, j :: 0 <= i < j < |ds| ==> ds[i].name != ds[j].name
  }

  lemma {:induction false} UniqueNamed(ds: seq<Domain>, d: Domain)
    requires UniqueNames(ds) && d in ds
    ensures Named(ds, d.name) == [d]
    decreases |ds|
  {
    assert ds == [ds[0]] + ds[1..];
    if d == ds[0] {
      NamedMembers(ds[1..], d.name);
      NonEmptyHasMember(Named(ds[1..], d.name));
    } else {
      UniqueNamed(ds[1..], d);
    }
  }

  // ---- Edits ----

  /** Replace the first entry of the same name, or append. */
  function Upserted(ds: seq<Domain>, d: Domain): (r: seq<Domain>)
    ensures r != []
  {
    if ds == [] then [d]
    else if ds[0].name == d.name then [d] + ds[1..]
    else [ds[0]] + Upserted(ds[1..], d)
  }

  lemma {:induction false} UpsertByName(ds: seq<Domain>, d: Domain, n: string)
    ensures Named(Upserted(ds, d), n) == if n == d.name then Upserted(Named(ds, n), d) else Named(ds, n)
    decreases |ds|
  {
    if ds == [] {
      assert Named([d], n) == (if d.name == n then [d] else []) + Named([], n);
    } else if ds[0].name == d.name {
      assert ([d] + ds[1..])[1..] == ds[1..];
      if n == d.name {
        assert Named(ds, n)[1..] == Named(ds[1..], n);
      }
    } else {
      assert ([ds[0]] + Upserted(ds[1..], d))[1..] == Upserted(ds[1..], d);
      UpsertByName(ds[1..], d, n);
      assert [] + Named(ds[1..], n) == Named(ds[1..], n);
    }
  }

  /** Drop every entry called `name`. */
  function Without(ds: seq<Domain>, name: string): seq<Domain> {
    if ds == [] then [] else (if ds[0].name == name then [] else [ds[0]]) + Without(ds[1..], name)
  }

  lemma {:induction false} WithoutByName(ds: seq<Domain>, name: string, n: string)
    ensures Named(Without(ds, name), n) == if n == name then [] else Named(ds, n)
    decreases |ds|
  {
    if ds != [] {
      WithoutByName(ds[1..], name, n);
      NamedAppend(if ds[0].name == name then [] else [ds[0]], Without(ds[1..], name), n);
      assert Named([ds[0]], n) == (if ds[0].name == n then [ds[0]] else []) + Named([], n);
    }
  }

  lemma EmptyByName(ds: seq<Domain>)
    requires forall n :: Named(ds, n) == []
    ensures ds == []
  {
    if ds != [] {
      NamedMembers(ds, ds[0].name);
      assert false;
    }
  }

  lemma {:induction false} UpsertedAt(ds: seq<Domain>, d: Domain, i: nat)
    requires i <= |ds| && forall j :: 0 <= j < i ==> ds[j].name != d.name
    ensures i == |ds| ==> Upserted(ds, d) == ds + [d]
    ensures i < |ds| && ds[i].name == d.name ==> Upserted(ds, d) == ds[i := d]
    decreases |ds|
  {
    if i > 0 {
      UpsertedAt(ds[1..], d, i - 1);
      assert ds == [ds[0]] + ds[1..];
    }
  }

  /** applyTrustDomainChange's loop. */
  method Upsert(ds: seq<Domain>, d: Domain) returns (r: seq<Domain>)
    ensures r == Upserted(ds, d)
  {
    for i := 0 to |ds|
      invariant forall j :: 0 <= j < i ==> ds[j].name != d.name
    {
      if ds[i].name == d.name {
        UpsertedAt(ds, d, i);
        return ds[i := d];
      }
    }
    UpsertedAt(ds, d, |ds|);
    return ds + [d];
  }

  lemma {:induction false} WithoutSnoc(ds: seq<Domain>, d: Domain, name: string)
    ensures Without(ds + [d], name) == Without(ds, name) + if d.name == name then [] else [d]
    decreases |ds|
  {
    if ds == [] {
      assert [] + [d] == [d];
    } else {
      assert (ds + [d])[1..] == ds[1..] + [d];
      WithoutSnoc(ds[1..], d, name);
    }
  }

  lemma FoundByName(ds: seq<Domain>, name: string)
    ensures Named(ds, name) != [] <==> exists j :: 0 <= j < |ds| && ds[j].name == name
  {
    NamedMembers(ds, name);
    if j :| 0 <= j < |ds| && ds[j].name == name {
      assert ds[j] in Named(ds, name);
    }
    assert |Named(ds, name)| > 0 ==> Named(ds, name)[0] in Named(ds, name);
  }

  /** removeTrustDomain's loop. */
  method Remove(ds: seq<Domain>, name: string) returns (r: seq<Domain>, found: bool)
    ensures r == Without(ds, name)
    ensures found <==> Named(ds, name) != []
  {
    r, found := [], false;
    for i := 0 to |ds|
      invariant r == Without(ds[..i], name)
      invariant found <==> exists j :: 0 <= j < i && ds[j].name == name
    {
      WithoutSnoc(ds[..i], ds[i], name);
      assert ds[..i + 1] == ds[..i] + [ds[i]];
      if ds[i].name == name {
        found := true;
      } else {
        r := r + [ds[i]];
      }
    }
    assert ds[..|ds|] == ds;
    FoundByName(ds, name);
  }
}
