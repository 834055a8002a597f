/** The signing keyring of pkg/exchange/keyring.go: many published keys, one active. */
module Keyrings {
  import opened Basics

  type Kid = string
  type Key = nat // stands for the key material

  datatype Ring = Ring(active: Kid, keys: map<Kid, Key>)

  datatype KeyError = MissingKid | BadKeyMaterial | KeyNotFound(kid: Kid) | CannotRemoveActive(kid: Kid)

  /** The active key is published, so everything signed can be verified at signing time. */
  ghost predicate Consistent(r: Ring) {
    r.active in r.keys
  }

  function Added(r: Ring, kid: Kid, key: Key): Ring {
    r.(keys := r.keys[kid := key])
  }

  function ActivateError(r: Ring, kid: Kid): Option<KeyError> {
    if kid in r.keys then None else Some(KeyNotFound(kid))
  }

  function Activated(r: Ring, kid: Kid): Ring {
    if kid in r.keys then r.(active := kid) else r
  }

  function RemoveError(r: Ring, kid: Kid): Option<KeyError> {
    if kid == r.active then Some(CannotRemoveActive(kid)) else None
  }

  function Removed(r: Ring, kid: Kid): Ring {
    if kid == r.active then r else r.(keys := r.keys - {kid})
  }

  class Keyring {
    var activeKid: Kid
    var keys: map<Kid, Key>

    ghost function State(): Ring
      reads this
    {
      Ring(activeKid, keys)
    }

    constructor (kid: Kid, key: Key)
      ensures State() == Ring(kid, map[kid := key])
    {
      activeKid, keys := kid, map[kid := key];
    }

    /** Publishes a key; `key` None stands for key material that does not import. */
    method AddKey(kid: Kid, key: Option<Key>) returns (err: Option<KeyError>)
      modifies this
      ensures err == if key.None? then Some(BadKeyMaterial) else None
      ensures State() == if key.None? then old(State()) else Added(old(State()), kid, key.value)
      ensures activeKid == old(activeKid) && keys == if key.None? then old(keys) else old(keys)[kid := key.value]
      ensures old(Consistent(State())) ==> Consistent(State())
    {
      if key.None? {
        return Some(BadKeyMaterial);
      }
      keys := keys[kid := key.value];
      return None;
    }

    method ActivateKey(kid: Kid) returns (err: Option<KeyError>)
      modifies this
      ensures err == ActivateError(old(State()), kid)
      ensures State() == Activated(old(State()), kid)
      ensures err == if kid in old(keys) then None else Some(KeyNotFound(kid))
      ensures keys == old(keys) && activeKid == if err.None? then kid else old(activeKid)
      ensures old(Consistent(State())) ==> Consistent(State())
    {
      if kid !in keys {
        return Some(KeyNotFound(kid));
      }
      activeKid := kid;
      return None;
    }

    method RemoveKey(kid: Kid) returns (err: Option<KeyError>)
      modifies this
      ensures err == RemoveError(old(State()), kid)
      ensures State() == Removed(old(State()), kid)
      ensures err == if kid == old(activeKid) then Some(CannotRemoveActive(kid)) else None
      ensures activeKid == old(activeKid) && keys == if err.None? then old(keys) - {kid} else old(keys)
      ensures old(Consistent(State())) ==> Consistent(State())
    {
      if kid == activeKid {
        return Some(CannotRemoveActive(kid));
      }
      keys := keys - {kid};
      return None;
    }
  }

  /** NewKeyring refuses an initial key without an id. */
  method NewKeyring(kid: Kid, key: Key) returns (ring: Option<Keyring>)
    ensures ring.None? <==> kid == ""
    ensures ring.Some? ==>
              && fresh(ring.value) && ring.value.State() == Ring(kid, map[kid := key])
              && Consistent(ring.value.State())
  {
    if kid == "" {
      return None;
    }
    var r := new Keyring(kid, key);
    return Some(r);
  }
}
