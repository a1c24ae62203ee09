/**
  Startup reconciliation of the action catalog with the actions table, and
  provisioning of an organisation's superuser role.

  The catalog is the list of values of the compiled action enumeration; it is an
  input here, a sequence of distinct action ids.
 */
module ActionSync {
  import opened Db

  /** Catalog ids the actions table does not hold yet (`actionsToAdd`). */
  function ActionsToAdd(catalog: seq<string>, stored: seq<string>): (r: seq<string>)
    ensures forall id :: id in r <==> id in catalog && id !in stored
    ensures Distinct(catalog) ==> Distinct(r)
  {
    Exclude(catalog, stored)
  }

  /** Stored ids the catalog no longer lists (`actionsToRemove`). */
  function ActionsToRemove(catalog: seq<string>, stored: seq<string>): (r: seq<string>)
    ensures forall id :: id in r <==> id in stored && id !in catalog
    ensures Distinct(stored) ==> Distinct(r)
  {
    Exclude(stored, catalog)
  }

  /** The two diff lists never name the same id. */
  lemma DiffIsDisjoint(catalog: seq<string>, stored: seq<string>)
    ensures forall id :: !(id in ActionsToAdd(catalog, stored) && id in ActionsToRemove(catalog, stored))
  {
  }

  /** The ids to add keep the catalog's order: the diff of a catalog split in two is
      the diff of the first part followed by the diff of the second. */
  lemma {:induction false} ActionsToAddKeepsCatalogOrder(c1: seq<string>, c2: seq<string>, stored: seq<string>)
    ensures ActionsToAdd(c1 + c2, stored) == ActionsToAdd(c1, stored) + ActionsToAdd(c2, stored)
  {
    if c1 == [] {
      assert c1 + c2 == c2;
    } else {
      assert (c1 + c2)[0] == c1[0] && (c1 + c2)[1..] == c1[1..] + c2;
      ActionsToAddKeepsCatalogOrder(c1[1..], c2, stored);
    }
  }

  /** The actions table after `ensureActions`: the missing ids are appended, then the
      retired ids are deleted. */
  function Reconciled(catalog: seq<string>, stored: seq<string>): (r: seq<string>)
    ensures forall id :: id in r <==> id in catalog
  {
    Exclude(stored + ActionsToAdd(catalog, stored), ActionsToRemove(catalog, stored))
  }

  /** Excluding nothing keeps a sequence as it is. */
  lemma {:induction false} ExcludeNothing(xs: seq<string>)
    ensures Exclude(xs, []) == xs
  {
    if xs != [] {
      ExcludeNothing(xs[1..]);
    }
  }

  /** Two duplicate-free sequences with no common element concatenate to a
      duplicate-free sequence. */
  lemma DisjointConcatDistinct(xs: seq<string>, ys: seq<string>)
    requires Distinct(xs) && Distinct(ys)
    requires forall x :: x in xs ==> x !in ys
    ensures Distinct(xs + ys)
  {
    forall i, j | 0 <= i < j < |xs + ys| ensures (xs + ys)[i] != (xs + ys)[j] {
      if j < |xs| {
        assert (xs + ys)[i] == xs[i] && (xs + ys)[j] == xs[j];
      } else if i < |xs| {
        assert (xs + ys)[i] == xs[i] && (xs + ys)[j] == ys[j - |xs|];
        assert ys[j - |xs|] in ys;
      } else {
        assert (xs + ys)[i] == ys[i - |xs|] && (xs + ys)[j] == ys[j - |xs|];
      }
    }
  }

  /** After reconciliation the actions table holds every catalog id once and nothing else. */
  lemma ReconciledIsCatalog(catalog: seq<string>, stored: seq<string>)
    requires Distinct(catalog) && Distinct(stored)
    ensures Distinct(Reconciled(catalog, stored))
    ensures forall id :: id in Reconciled(catalog, stored) <==> id in catalog
  {
    DisjointConcatDistinct(stored, ActionsToAdd(catalog, stored));
  }

  /** Reconciliation is idempotent: a second run with the same catalog finds nothing to
      add and nothing to remove, and leaves the table as the first run left it. */
  lemma ReconcileIdempotent(catalog: seq<string>, stored: seq<string>)
    requires Distinct(catalog) && Distinct(stored)
    ensures ActionsToAdd(catalog, Reconciled(catalog, stored)) == []
    ensures ActionsToRemove(catalog, Reconciled(catalog, stored)) == []
    ensures Reconciled(catalog, Reconciled(catalog, stored)) == Reconciled(catalog, stored)
  {
    var once := Reconciled(catalog, stored);
    ReconciledIsCatalog(catalog, stored);
    ExcludeCovered(catalog, once);
    ExcludeCovered(once, catalog);
    assert once + [] == once;
    ExcludeNothing(once);
  }

  /** When the diff is empty, reconciliation writes nothing. */
  lemma NothingToDoNoWrites(catalog: seq<string>, stored: seq<string>)
    requires ActionsToAdd(catalog, stored) == [] && ActionsToRemove(catalog, stored) == []
    ensures Reconciled(catalog, stored) == stored
  {
    assert stored + [] == stored;
    ExcludeNothing(stored);
  }

  /** The rows of the roles table marked as superuser roles (`defaultRoles`). */
  function SuperuserRoles(roles: seq<Role>): (r: seq<Role>)
    ensures forall x :: x in r <==> x in roles && x.isSuperuserRole
  {
    if roles == [] then []
    else if roles[0].isSuperuserRole then [roles[0]] + SuperuserRoles(roles[1..])
    else SuperuserRoles(roles[1..])
  }

  /** One grant of `actionId` per listed role, carrying that role's organisation
      (`defaultRoles.map(role => ({ roleId, actionId, orgId }))`). */
  function FanOut(roles: seq<Role>, actionId: string): (r: seq<RoleAction>)
    ensures |r| == |roles|
    ensures forall k :: 0 <= k < |r| ==> r[k] == RoleAction(roles[k].roleId, actionId, roles[k].orgId)
  {
    if roles == [] then []
    else [RoleAction(roles[0].roleId, actionId, roles[0].orgId)] + FanOut(roles[1..], actionId)
  }

  /**
    `ensureActions`. As the source is written, the grant fan-out runs only when there
    is no superuser role, so the list it inserts is always empty: no grant row is added,
    and, when every existing grant names a stored action, a newly added action is
    granted to no role.
   */
  method EnsureActions(db: Database, catalog: seq<string>)
    requires db.Valid() && Distinct(catalog)
    modifies db
    ensures db.Valid()
    ensures db.actions == Reconciled(catalog, old(db.actions))
    ensures forall id :: id in db.actions <==> id in catalog
    ensures db.roleActions == WithoutActions(old(db.roleActions), ActionsToRemove(catalog, old(db.actions)))
    ensures forall g :: g in db.roleActions ==> g in old(db.roleActions)
    ensures db.roles == old(db.roles) && db.users == old(db.users) && db.nextRoleId == old(db.nextRoleId)
    ensures old(db.GrantsReferToActions()) ==> db.GrantsReferToActions()
    ensures old(db.GrantsReferToActions()) ==>
              forall g :: g in db.roleActions ==> g.actionId !in ActionsToAdd(catalog, old(db.actions))
    ensures ActionsToAdd(catalog, old(db.actions)) == [] && ActionsToRemove(catalog, old(db.actions)) == [] ==>
              db.actions == old(db.actions) && db.roleActions == old(db.roleActions)
  {
    var stored := db.actions;
    var toAdd := ActionsToAdd(catalog, stored);
    var toRemove := ActionsToRemove(catalog, stored);
    var defaultRoles := SuperuserRoles(db.roles);

    for i := 0 to |toAdd|
      invariant db.Valid()
      invariant db.actions == stored + toAdd[..i]
      invariant db.roleActions == old(db.roleActions)
      invariant db.roles == old(db.roles) && db.users == old(db.users) && db.nextRoleId == old(db.nextRoleId)
    {
      assert toAdd[i] !in toAdd[..i];
      db.InsertAction(toAdd[i]);
      if |defaultRoles| == 0 {
        db.InsertRoleActions(FanOut(defaultRoles, toAdd[i]));
      }
    }
    assert toAdd[..|toAdd|] == toAdd;

    if |toRemove| > 0 {
      db.DeleteActions(toRemove);
      db.DeleteGrantsOfActions(toRemove);
    } else {
      ExcludeNothing(stored + toAdd);
      NoActionsRemovedKeepsGrants(db.roleActions);
    }
    ReconciledIsCatalog(catalog, stored);
    if toAdd == [] && toRemove == [] {
      NothingToDoNoWrites(catalog, stored);
    }
  }

  /** Deleting the grants of no action keeps every grant row. */
  lemma {:induction false} NoActionsRemovedKeepsGrants(grants: seq<RoleAction>)
    ensures WithoutActions(grants, []) == grants
  {
    if grants != [] {
      NoActionsRemovedKeepsGrants(grants[1..]);
    }
  }

  /** The grants `createSuperuserRole` inserts: one per stored action, for the new role
      and its organisation. */
  function SuperuserGrants(roleId: nat, actions: seq<string>, orgId: string): (r: seq<RoleAction>)
    ensures |r| == |actions|
    ensures forall k :: 0 <= k < |r| ==> r[k] == RoleAction(roleId, actions[k], orgId)
  {
    if actions == [] then []
    else [RoleAction(roleId, actions[0], orgId)] + SuperuserGrants(roleId, actions[1..], orgId)
  }

  /** The new superuser role receives exactly one grant per stored action, all for its
      own organisation, and nothing else. */
  lemma {:induction false} SuperuserGrantsOnePerAction(roleId: nat, actions: seq<string>, orgId: string)
    requires Distinct(actions)
    ensures forall g :: multiset(SuperuserGrants(roleId, actions, orgId))[g]
                        == if g.roleId == roleId && g.orgId == orgId && g.actionId in actions then 1 else 0
  {
    if actions != [] {
      var rest := actions[1..];
      assert Distinct(rest) by {
        forall i, j | 0 <= i < j < |rest| ensures rest[i] != rest[j] {
          assert rest[i] == actions[i + 1] && rest[j] == actions[j + 1];
        }
      }
      assert actions[0] !in rest by {
        forall j | 0 <= j < |rest| ensures rest[j] != actions[0] {
          assert rest[j] == actions[j + 1];
        }
      }
      assert forall a :: a in actions <==> a == actions[0] || a in rest by {
        assert actions == [actions[0]] + rest;
      }
      SuperuserGrantsOnePerAction(roleId, rest, orgId);
    }
  }

  const SuperuserName := "Superuser"
  const SuperuserDescription := "Superuser role with all actions"

  /**
    `createSuperuserRole`: inserts the organisation's superuser role, then one grant
    per stored action. Returns the new role id, or nothing when there is no action
    to grant (the role is created all the same).
   */
  method CreateSuperuserRole(db: Database, orgId: string) returns (result: Option<nat>)
    requires db.Valid()
    modifies db
    ensures db.Valid()
    ensures var roleId := old(db.nextRoleId);
            && (forall r :: r in old(db.roles) ==> r.roleId != roleId)
            && db.roles == old(db.roles) + [Role(roleId, orgId, true, SuperuserName, SuperuserDescription)]
            && db.roleActions == old(db.roleActions) + SuperuserGrants(roleId, old(db.actions), orgId)
            && result == (if old(db.actions) == [] then None else Some(roleId))
            && (forall g: RoleAction :: g.roleId == roleId ==>
                  multiset(db.roleActions)[g] == if g.orgId == orgId && g.actionId in db.actions then 1 else 0)
    ensures db.actions == old(db.actions) && db.users == old(db.users)
    ensures old(db.GrantsReferToActions()) ==> db.GrantsReferToActions()
  {
    var roleId := db.InsertRole(orgId, true, SuperuserName, SuperuserDescription);
    var actionIds := db.actions;
    SuperuserGrantsOnePerAction(roleId, actionIds, orgId);
    if |actionIds| == 0 {
      return None;
    }
    db.InsertRoleActions(SuperuserGrants(roleId, actionIds, orgId));
    result := Some(roleId);
  }
}
