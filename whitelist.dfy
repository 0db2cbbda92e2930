/**
 * The whitelist gate shared by the contracts: a global enable flag kept in
 * instance storage (key `WL_EN`) and an address-to-bool marker kept in
 * persistent storage (key `(WL_ADR, address)`). An address may call a guarded
 * function when enforcement is off or the address carries a marker.
 */
module Whitelist {

  datatype Option<T> = None | Some(value: T)

  /** The persistent markers after `set(&(WL_ADR, a), &true)`. */
  function Inserted<Address(==)>(m: map<Address, bool>, a: Address): (r: map<Address, bool>)
    ensures r.Keys == m.Keys + {a}
    ensures r[a]
    ensures forall b :: b in m && b != a ==> r[b] == m[b]
  {
    m[a := true]
  }

  /** The persistent markers after `remove(&(WL_ADR, a))`. */
  function Deleted<Address(==)>(m: map<Address, bool>, a: Address): (r: map<Address, bool>)
    ensures r.Keys == m.Keys - {a}
    ensures forall b :: b in r ==> r[b] == m[b]
  {
    m - {a}
  }

  /** A marker only ever holds `true`. */
  ghost predicate OnlyTrueMarkers<Address>(m: map<Address, bool>)
  {
    forall a :: a in m ==> m[a]
  }

  lemma InsertedKeepsOnlyTrue<Address>(m: map<Address, bool>, a: Address)
    requires OnlyTrueMarkers(m)
    ensures OnlyTrueMarkers(Inserted(m, a))
  {
  }

  lemma DeletedKeepsOnlyTrue<Address>(m: map<Address, bool>, a: Address)
    requires OnlyTrueMarkers(m)
    ensures OnlyTrueMarkers(Deleted(m, a))
  {
  }

  /** Adding an address that is already whitelisted changes nothing. */
  lemma InsertIdempotent<Address>(m: map<Address, bool>, a: Address)
    ensures Inserted(Inserted(m, a), a) == Inserted(m, a)
  {
  }

  /** `add(a); remove(a); add(a)` ends where a single `add(a)` does. */
  lemma InsertDeleteInsert<Address>(m: map<Address, bool>, a: Address)
    ensures Inserted(Deleted(Inserted(m, a), a), a) == Inserted(m, a)
  {
  }

  /** The two storages of one contract as far as the whitelist uses them. */
  class WhitelistStorage<Address(==, !new)> {
    /** Instance storage under `WL_EN`; `None` until the flag is first set. */
    var flag: Option<bool>
    /** Persistent storage under `(WL_ADR, address)`. */
    var members: map<Address, bool>

    ghost predicate Valid()
      reads this
    {
      OnlyTrueMarkers(members)
    }

    /** A contract whose storage holds neither key yet. */
    constructor ()
      ensures Valid()
      ensures flag == None && members == map[]
    {
      flag := None;
      members := map[];
    }

    /** `set_whitelist_enabled`: unconditional overwrite of the flag. */
    method SetWhitelistEnabled(enabled: bool)
      requires Valid()
      modifies this
      ensures Valid()
      ensures flag == Some(enabled) && members == old(members)
      ensures IsWhitelistEnabled() == enabled
      ensures forall a :: IsWhitelisted(a) == old(IsWhitelisted(a))
    {
      flag := Some(enabled);
    }

    /** `is_whitelist_enabled`: the stored flag, `false` when it was never set. */
    function IsWhitelistEnabled(): (r: bool)
      reads this
      ensures flag == None ==> !r
      ensures r <==> flag == Some(true)
    {
      match flag
      case Some(b) => b
      case None => false
    }

    /** `add_to_whitelist`: writes the marker `true` for `address`. */
    method AddToWhitelist(address: Address)
      requires Valid()
      modifies this
      ensures Valid()
      ensures members == Inserted(old(members), address) && flag == old(flag)
      ensures IsWhitelisted(address)
      ensures forall a :: a != address ==> IsWhitelisted(a) == old(IsWhitelisted(a))
      ensures IsWhitelistEnabled() == old(IsWhitelistEnabled())
    {
      InsertedKeepsOnlyTrue(members, address);
      members := Inserted(members, address);
    }

    /** `remove_from_whitelist`: deletes the marker of `address`, if any. */
    method RemoveFromWhitelist(address: Address)
      requires Valid()
      modifies this
      ensures Valid()
      ensures members == Deleted(old(members), address) && flag == old(flag)
      ensures !IsWhitelisted(address)
      ensures forall a :: a != address ==> IsWhitelisted(a) == old(IsWhitelisted(a))
      ensures IsWhitelistEnabled() == old(IsWhitelistEnabled())
    {
      DeletedKeepsOnlyTrue(members, address);
      members := Deleted(members, address);
    }

    /** `is_whitelisted`: the stored marker, `false` when there is none. */
    function IsWhitelisted(address: Address): (r: bool)
      reads this
      ensures address !in members ==> !r
      ensures Valid() ==> (r <==> address in members)
    {
      if address in members then members[address] else false
    }

    /** `require_whitelisted`: every address passes while enforcement is off. */
    function RequireWhitelisted(address: Address): (r: bool)
      reads this
      ensures !IsWhitelistEnabled() ==> r
      ensures IsWhitelistEnabled() ==> r == IsWhitelisted(address)
    {
      !IsWhitelistEnabled() || IsWhitelisted(address)
    }
  }

  /**
   * A caller's run through the gate: fresh storage with enforcement off, then
   * on with an empty whitelist, then one address added, then enforcement
   * switched off and on again without losing membership, then the address removed.
   */
  method GateScenarios<Address(==, !new)>(addr1: Address, addr2: Address)
    requires addr1 != addr2
  {
    var w := new WhitelistStorage<Address>();
    assert !w.IsWhitelistEnabled();
    assert w.RequireWhitelisted(addr1);

    w.SetWhitelistEnabled(true);
    assert !w.RequireWhitelisted(addr1);
    w.AddToWhitelist(addr1);
    assert w.RequireWhitelisted(addr1);
    assert !w.RequireWhitelisted(addr2);

    // Switching enforcement off and on again keeps the membership.
    w.SetWhitelistEnabled(false);
    assert w.RequireWhitelisted(addr2);
    w.SetWhitelistEnabled(true);
    assert w.RequireWhitelisted(addr1) && !w.RequireWhitelisted(addr2);

    w.RemoveFromWhitelist(addr1);
    assert !w.RequireWhitelisted(addr1);
  }
}
