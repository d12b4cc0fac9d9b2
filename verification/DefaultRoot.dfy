/** Library roots while explicit roles and one default destination are added and removed again. */
module DefaultRoot {
  import opened KeysetScan
  import opened Options

  datatype LegacyRoot = LegacyRoot(path: string, enabled: bool)

  datatype Root = Root(path: string, enabled: bool, allowReferenced: bool, allowManaged: bool, isDefault: bool)

  datatype Schema = Legacy(legacy: map<int, LegacyRoot>) | Managed(roots: map<int, Root>)

  type Roots = map<int, Root>

  // ----- Selection of the legacy default -----

  function Eligible(roots: Roots): set<int> {
    set id | id in roots && roots[id].enabled && roots[id].allowManaged
  }

  function AtConfiguredPath(roots: Roots, comicsDirectory: Option<string>): set<int> {
    set id | id in Eligible(roots) && comicsDirectory == Some(roots[id].path)
  }

  /** The eligible root at the configured directory with the lowest id, or else the eligible root
      with the lowest id. */
  function SelectedDefault(roots: Roots, comicsDirectory: Option<string>): (selected: Option<int>)
    ensures selected.None? <==> Eligible(roots) == {}
    ensures selected.Some? ==> selected.value in Eligible(roots)
  {
    if AtConfiguredPath(roots, comicsDirectory) != {} then Some(Least(AtConfiguredPath(roots, comicsDirectory)))
    else if Eligible(roots) != {} then Some(Least(Eligible(roots)))
    else None
  }

  // ----- Upgrade and downgrade of the rows -----

  function WithRoles(legacy: map<int, LegacyRoot>): Roots {
    map id | id in legacy :: Root(legacy[id].path, legacy[id].enabled, true, true, false)
  }

  function Upgraded(legacy: map<int, LegacyRoot>, comicsDirectory: Option<string>): Roots {
    var roots := WithRoles(legacy);
    var selected := SelectedDefault(roots, comicsDirectory);
    map id | id in roots :: roots[id].(isDefault := selected == Some(id))
  }

  function WithoutRoles(roots: Roots): map<int, LegacyRoot> {
    map id | id in roots :: LegacyRoot(roots[id].path, roots[id].enabled)
  }

  function Defaults(roots: Roots): set<int> {
    set id | id in roots && roots[id].isDefault
  }

  /** The unique index on the default column. */
  ghost predicate AtMostOneDefault(roots: Roots) {
    forall i, j | i in Defaults(roots) && j in Defaults(roots) :: i == j
  }

  /** Every role can be dropped, and the default is the one the legacy selection would make. */
  predicate IsRepresentable(roots: Roots, comicsDirectory: Option<string>) {
    && (forall id | id in roots :: roots[id].allowReferenced && roots[id].allowManaged)
    && Defaults(roots) == match SelectedDefault(roots, comicsDirectory) case None => {} case Some(id) => {id}
  }

  /** An upgraded table has one default when some root is enabled, and none otherwise. */
  lemma UpgradeSelectsOneDefault(legacy: map<int, LegacyRoot>, comicsDirectory: Option<string>)
    ensures AtMostOneDefault(Upgraded(legacy, comicsDirectory))
    ensures Defaults(Upgraded(legacy, comicsDirectory)) != {} <==> exists id :: id in legacy && legacy[id].enabled
    ensures forall id | id in Defaults(Upgraded(legacy, comicsDirectory)) ::
              legacy[id].enabled &&
              forall other | other in legacy && legacy[other].enabled ::
                (comicsDirectory == Some(legacy[other].path) ==>
                   comicsDirectory == Some(legacy[id].path) && id <= other)
                && (comicsDirectory == Some(legacy[id].path) || id <= other)
  {
    var roots := WithRoles(legacy);
    var selected := SelectedDefault(roots, comicsDirectory);
    assert forall id | id in legacy && legacy[id].enabled :: id in Eligible(roots);
    if selected.Some? {
      assert selected.value in Defaults(Upgraded(legacy, comicsDirectory));
    }
    forall other | other in legacy && legacy[other].enabled && comicsDirectory == Some(legacy[other].path)
      ensures other in AtConfiguredPath(roots, comicsDirectory)
    {
    }
  }

  /** The selection looks at eligibility and paths only. */
  lemma SameSelection(a: Roots, b: Roots, comicsDirectory: Option<string>)
    requires a.Keys == b.Keys
    requires forall id | id in a :: a[id].(isDefault := false) == b[id].(isDefault := false)
    ensures SelectedDefault(a, comicsDirectory) == SelectedDefault(b, comicsDirectory)
  {
    assert forall id | id in a :: a[id].path == b[id].path && a[id].enabled == b[id].enabled
                               && a[id].allowManaged == b[id].allowManaged;
    assert Eligible(a) == Eligible(b);
    assert AtConfiguredPath(a, comicsDirectory) == AtConfiguredPath(b, comicsDirectory);
  }

  lemma UpgradeIsRepresentable(legacy: map<int, LegacyRoot>, comicsDirectory: Option<string>)
    ensures IsRepresentable(Upgraded(legacy, comicsDirectory), comicsDirectory)
  {
    SameSelection(Upgraded(legacy, comicsDirectory), WithRoles(legacy), comicsDirectory);
  }

  class LibraryRoots {
    var schema: Schema

    constructor (legacy: map<int, LegacyRoot>)
      ensures schema == Legacy(legacy)
    {
      schema := Legacy(legacy);
    }

    method Upgrade(comicsDirectory: Option<string>)
      requires schema.Legacy?
      modifies this
      ensures schema == Managed(Upgraded(old(schema).legacy, comicsDirectory))
    {
      schema := Managed(WithRoles(schema.legacy));
      var selected := SelectedDefault(schema.roots, comicsDirectory);
      if selected.Some? {
        schema := Managed(schema.roots[selected.value := schema.roots[selected.value].(isDefault := true)]);
      }
    }

    /** Drops the roles, or refuses and leaves the table alone. */
    method Downgrade(comicsDirectory: Option<string>) returns (ok: bool)
      requires schema.Managed? && AtMostOneDefault(schema.roots)
      modifies this
      ensures ok <==> IsRepresentable(old(schema).roots, comicsDirectory)
      ensures schema == if ok then Legacy(WithoutRoles(old(schema).roots)) else old(schema)
    {
      var roots := schema.roots;
      if !(forall id | id in roots :: roots[id].allowReferenced && roots[id].allowManaged) {
        return false;
      }
      var selected := SelectedDefault(roots, comicsDirectory);
      var defaults := Defaults(roots);
      var current := if defaults == {} then None else Some(Least(defaults));
      if current != selected {
        return false;
      }
      assert current.Some? ==> defaults == {current.value};
      schema := Legacy(WithoutRoles(roots));
      ok := true;
    }

    /** Upgrading and then downgrading always succeeds and restores the legacy table. */
    method UpgradeAndDowngrade(comicsDirectory: Option<string>) returns (ok: bool)
      requires schema.Legacy?
      modifies this
      ensures ok && schema == old(schema)
    {
      ghost var legacy := schema.legacy;
      UpgradeSelectsOneDefault(legacy, comicsDirectory);
      UpgradeIsRepresentable(legacy, comicsDirectory);
      Upgrade(comicsDirectory);
      ok := Downgrade(comicsDirectory);
      assert WithoutRoles(Upgraded(legacy, comicsDirectory)) == legacy;
    }
  }

  // ----- Round trips -----

  /** The downgrade accepts exactly the tables that upgrading the downgraded rows would rebuild. */
  lemma AcceptedIffRebuilt(roots: Roots, comicsDirectory: Option<string>)
    ensures IsRepresentable(roots, comicsDirectory) <==> Upgraded(WithoutRoles(roots), comicsDirectory) == roots
  {
    var legacy := WithoutRoles(roots);
    if IsRepresentable(roots, comicsDirectory) {
      SameSelection(WithRoles(legacy), roots, comicsDirectory);
      var rebuilt := Upgraded(legacy, comicsDirectory);
      forall id | id in roots ensures rebuilt[id] == roots[id] {
        assert roots[id].isDefault <==> id in Defaults(roots);
      }
      assert rebuilt == roots;
    }
    if Upgraded(legacy, comicsDirectory) == roots {
      UpgradeIsRepresentable(legacy, comicsDirectory);
    }
  }
}
