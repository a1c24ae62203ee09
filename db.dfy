/**
  In-memory model of the database tables that the access-control core reads and
  writes: `actions`, `roles`, `roleActions` (grants) and `users`. Each table is a
  sequence of rows; every ORM select, insert and delete used by the core is an
  explicit operation on these sequences.
 */
module Db {

  datatype Option<T> = None | Some(value: T)

  /** A row of the roles table. */
  datatype Role = Role(roleId: nat, orgId: string, isSuperuserRole: bool, name: string, description: string)

  /** A row of the roleActions table: role `roleId` of organisation `orgId` may perform `actionId`. */
  datatype RoleAction = RoleAction(roleId: nat, actionId: string, orgId: string)

  /** A row of the users table, reduced to the columns the core reads. */
  datatype User = User(userId: string, email: string, emailVerified: bool)

  predicate Distinct<T(==)>(s: seq<T>) {
    forall i, j :: 0 <= i < j < |s| ==> s[i] != s[j]
  }

  /** The ids in `xs` that do not occur in `ys`, in the order of `xs`
      (`xs.filter(x => !ys.includes(x))`, and the rows a `notInArray` filter keeps). */
  function Exclude(xs: seq<string>, ys: seq<string>): (r: seq<string>)
    ensures forall x :: x in r <==> x in xs && x !in ys
    ensures Distinct(xs) ==> Distinct(r)
  {
    if xs == [] then []
    else if xs[0] in ys then Exclude(xs[1..], ys)
    else [xs[0]] + Exclude(xs[1..], ys)
  }

  /** When every id of `xs` occurs in `ys`, nothing is left. */
  lemma {:induction false} ExcludeCovered(xs: seq<string>, ys: seq<string>)
    requires forall x :: x in xs ==> x in ys
    ensures Exclude(xs, ys) == []
  {
    if xs != [] {
      assert forall x :: x in xs[1..] ==> x in xs;
      ExcludeCovered(xs[1..], ys);
    }
  }

  /** The grant rows that survive `DELETE ... WHERE actionId IN ids`. */
  function WithoutActions(grants: seq<RoleAction>, ids: seq<string>): (r: seq<RoleAction>)
    ensures forall g :: multiset(r)[g] == if g.actionId in ids then 0 else multiset(grants)[g]
    ensures forall g :: g in r <==> g in grants && g.actionId !in ids
  {
    if grants == [] then []
    else
      assert grants == [grants[0]] + grants[1..];
      if grants[0].actionId in ids then WithoutActions(grants[1..], ids)
      else [grants[0]] + WithoutActions(grants[1..], ids)
  }

  predicate Matches(g: RoleAction, roleId: nat, actionId: string) {
    g.roleId == roleId && g.actionId == actionId
  }

  /** The grant rows that `DELETE ... WHERE roleId = r AND actionId = a` removes. */
  function GrantsMatching(grants: seq<RoleAction>, roleId: nat, actionId: string): (r: seq<RoleAction>)
    ensures forall g :: multiset(r)[g] == if Matches(g, roleId, actionId) then multiset(grants)[g] else 0
    ensures forall g :: g in r <==> g in grants && Matches(g, roleId, actionId)
  {
    if grants == [] then []
    else
      assert grants == [grants[0]] + grants[1..];
      if Matches(grants[0], roleId, actionId) then [grants[0]] + GrantsMatching(grants[1..], roleId, actionId)
      else GrantsMatching(grants[1..], roleId, actionId)
  }

  /** The grant rows that survive `DELETE ... WHERE roleId = r AND actionId = a`. */
  function GrantsWithout(grants: seq<RoleAction>, roleId: nat, actionId: string): (r: seq<RoleAction>)
    ensures forall g :: multiset(r)[g] == if Matches(g, roleId, actionId) then 0 else multiset(grants)[g]
    ensures forall g :: g in r <==> g in grants && !Matches(g, roleId, actionId)
  {
    if grants == [] then []
    else
      assert grants == [grants[0]] + grants[1..];
      if Matches(grants[0], roleId, actionId) then GrantsWithout(grants[1..], roleId, actionId)
      else [grants[0]] + GrantsWithout(grants[1..], roleId, actionId)
  }

  /** A filtered delete splits the table: the rows it returns and the rows it keeps
      together are the table before the delete. */
  lemma DeleteSplitsTable(grants: seq<RoleAction>, roleId: nat, actionId: string)
    ensures multiset(GrantsMatching(grants, roleId, actionId)) + multiset(GrantsWithout(grants, roleId, actionId))
         == multiset(grants)
  {
  }

  /** When no row matches, the filtered delete keeps the table exactly as it was. */
  lemma {:induction false} NothingMatchedNothingRemoved(grants: seq<RoleAction>, roleId: nat, actionId: string)
    requires GrantsMatching(grants, roleId, actionId) == []
    ensures GrantsWithout(grants, roleId, actionId) == grants
  {
    if grants != [] {
      assert grants[0] in grants;
      assert !Matches(grants[0], roleId, actionId);
      assert forall g :: g in grants[1..] ==> g in grants;
      assert GrantsMatching(grants[1..], roleId, actionId) == [];
      NothingMatchedNothingRemoved(grants[1..], roleId, actionId);
    }
  }

  /**
    The database. Each field is one table; the ORM statements of the core are the
    methods below, and each changes only the table it names.
   */
  class Database {
    var actions: seq<string>
    var roles: seq<Role>
    var roleActions: seq<RoleAction>
    var users: seq<User>
    /** The next value of the roles table's generated `roleId` column. */
    var nextRoleId: nat

    /** Key constraints: `actionId` is the actions table's primary key, role ids are
        generated (positive, below the next one) and every grant names a generated role id. */
    ghost predicate Valid()
      reads this
    {
      Distinct(actions)
      && 0 < nextRoleId
      && (forall r :: r in roles ==> 0 < r.roleId < nextRoleId)
      && (forall g :: g in roleActions ==> g.roleId < nextRoleId)
    }

    /** Referential integrity of grants: every grant names a stored action. */
    ghost predicate GrantsReferToActions()
      reads this
    {
      forall g :: g in roleActions ==> g.actionId in actions
    }

    constructor ()
      ensures Valid() && GrantsReferToActions()
      ensures actions == [] && roles == [] && roleActions == [] && users == []
    {
      actions, roles, roleActions, users := [], [], [], [];
      nextRoleId := 1;
    }

    /** `INSERT INTO actions (actionId)`; the primary key forbids a second row for an id. */
    method InsertAction(actionId: string)
      requires Valid() && actionId !in actions
      modifies this`actions
      ensures Valid()
      ensures actions == old(actions) + [actionId]
    {
      actions := actions + [actionId];
    }

    /** `DELETE FROM actions WHERE actionId IN ids`. */
    method DeleteActions(ids: seq<string>)
      requires Valid()
      modifies this`actions
      ensures Valid()
      ensures actions == Exclude(old(actions), ids)
    {
      actions := Exclude(actions, ids);
    }

    /** `INSERT INTO roles`; returns the generated `roleId`. */
    method InsertRole(orgId: string, isSuperuserRole: bool, name: string, description: string) returns (roleId: nat)
      requires Valid()
      modifies this`roles, this`nextRoleId
      ensures Valid()
      ensures roleId == old(nextRoleId) && nextRoleId == roleId + 1
      ensures forall r :: r in old(roles) ==> r.roleId != roleId
      ensures roles == old(roles) + [Role(roleId, orgId, isSuperuserRole, name, description)]
    {
      roleId := nextRoleId;
      roles := roles + [Role(roleId, orgId, isSuperuserRole, name, description)];
      nextRoleId := nextRoleId + 1;
    }

    /** `INSERT INTO roleActions VALUES rows`; each row must name a generated role id. */
    method InsertRoleActions(rows: seq<RoleAction>)
      requires Valid()
      requires forall g :: g in rows ==> g.roleId < nextRoleId
      modifies this`roleActions
      ensures Valid()
      ensures roleActions == old(roleActions) + rows
    {
      roleActions := roleActions + rows;
    }

    /** `DELETE FROM roleActions WHERE actionId IN ids`. */
    method DeleteGrantsOfActions(ids: seq<string>)
      requires Valid()
      modifies this`roleActions
      ensures Valid()
      ensures roleActions == WithoutActions(old(roleActions), ids)
    {
      roleActions := WithoutActions(roleActions, ids);
    }

    /** `DELETE FROM roleActions WHERE roleId = r AND actionId = a RETURNING *`. */
    method DeleteGrant(roleId: nat, actionId: string) returns (deleted: seq<RoleAction>)
      requires Valid()
      modifies this`roleActions
      ensures Valid()
      ensures deleted == GrantsMatching(old(roleActions), roleId, actionId)
      ensures roleActions == GrantsWithout(old(roleActions), roleId, actionId)
    {
      deleted := GrantsMatching(roleActions, roleId, actionId);
      roleActions := GrantsWithout(roleActions, roleId, actionId);
    }
  }
}
