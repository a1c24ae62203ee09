# Role-based access control of the tunnel/resource manager server, in Dafny

This project models the access-control core of the server: the startup routine that
reconciles the compiled catalog of action ids with the `actions` table, the provisioning
of an organisation's superuser role, the middleware that admits a request only for an
existing, email-verified user, and the handler that revokes an action from a role.

The database is modelled in memory (`db.dfy`, module `Db`): class `Database` holds the
tables `actions`, `roles`, `roleActions` (grants) and `users` as sequences of rows, and
each ORM statement the core issues is a method that changes only the table it names.
`Database.Valid()` holds the key constraints (action ids unique, generated role ids);
`Database.GrantsReferToActions()` is referential integrity of grants, which reconciliation
and provisioning preserve.

- `ensure_actions.dfy` (module `ActionSync`): `EnsureActions` inserts the catalog ids that
  are missing, one at a time, then deletes the retired ids and every grant of them.
  As the source is written, the per-action grant fan-out runs only when there is no
  superuser role, so the list it inserts is always empty. The model keeps that behaviour:
  `EnsureActions` guarantees that no grant row is ever added, so, when every existing
  grant names a stored action, a newly added action is granted to no role, not even to
  existing superuser roles. `CreateSuperuserRole` inserts
  the "Superuser" role and one grant per stored action.
- `verify_user.dfy` (module `VerifyUser`): `VerifySessionUserMiddleware`, a method on a
  request object whose `user` and `session` fields it writes.
- `remove_role_action.dfy` (module `RoleRoutes`): the two request schemas and
  `RemoveRoleAction`.

Inputs that stand for code outside the model: the catalog (the values of the action
enumeration, a sequence of distinct ids), the answer of the session collaborator
(`SessionLookup`), the answer of the permission oracle (`permitted`) and JavaScript's
`Number` conversion (`toNumber`, None for NaN and the infinities).

## Model

| member | source | states |
|---|---|---|
| `Db.Exclude` | server/db/ensureActions.ts:12-13 | the result holds exactly the ids of the first list that the second does not hold, without duplicates when the first has none |
| `Db.ExcludeCovered` | server/db/ensureActions.ts:12-13 | when every id of the first list occurs in the second, the diff is empty |
| `Db.WithoutActions` | server/db/ensureActions.ts:35 | deleting the grants of a list of actions removes every row of those actions and keeps every other row with its multiplicity |
| `Db.GrantsMatching` | server/routers/role/removeRoleAction.ts:52-54 | the rows a delete by (roleId, actionId) returns are exactly the rows with that role id and action id, whatever their organisation, with their multiplicity |
| `Db.GrantsWithout` | server/routers/role/removeRoleAction.ts:52-54 | after the delete by (roleId, actionId) no row with that pair remains and every other row is kept with its multiplicity |
| `Db.DeleteSplitsTable` | server/routers/role/removeRoleAction.ts:52-54 | the rows deleted and the rows kept together make up the table before the delete |
| `Db.NothingMatchedNothingRemoved` | server/routers/role/removeRoleAction.ts:56-63 | when no row matches, the table after the delete is the table before it |
| `Db.Database.InsertAction` | server/db/ensureActions.ts:23 | appends one action row; requires the id to be new (primary key) and keeps the key constraints |
| `Db.Database.DeleteActions` | server/db/ensureActions.ts:34 | the actions table keeps exactly the ids not in the list |
| `Db.Database.InsertRole` | server/db/ensureActions.ts:41-52 | appends one role row with a generated id that no existing role has and returns that id |
| `Db.Database.InsertRoleActions` | server/db/ensureActions.ts:61-63 | appends the given grant rows and nothing else |
| `Db.Database.DeleteGrantsOfActions` | server/db/ensureActions.ts:35 | the grants table becomes the rows whose action is not in the list |
| `Db.Database.DeleteGrant` | server/routers/role/removeRoleAction.ts:52-54 | returns the matching rows and leaves the non-matching ones |
| `ActionSync.ActionsToAdd` | server/db/ensureActions.ts:12 | the ids to add are exactly the catalog ids not stored, without duplicates when the catalog has none |
| `ActionSync.ActionsToRemove` | server/db/ensureActions.ts:13 | the ids to remove are exactly the stored ids the catalog does not list, without duplicates when the stored ids have none |
| `ActionSync.DiffIsDisjoint` | server/db/ensureActions.ts:12-13 | the ids to add and the ids to remove share no id |
| `ActionSync.ActionsToAddKeepsCatalogOrder` | server/db/ensureActions.ts:12 | the ids to add come in catalog order: the diff distributes over a split of the catalog |
| `ActionSync.Reconciled` | server/db/ensureActions.ts:22-36 | the actions table after the insert loop and the delete holds exactly the catalog ids, whatever was stored before |
| `ActionSync.ReconciledIsCatalog` | server/db/ensureActions.ts:22-36 | after reconciliation the actions table holds each catalog id exactly once and no other id |
| `ActionSync.ReconcileIdempotent` | server/db/ensureActions.ts:12-13 | a second reconciliation with the same catalog finds both diff lists empty and leaves the actions table as it is |
| `ActionSync.NothingToDoNoWrites` | server/db/ensureActions.ts:22-36 | with both diff lists empty the actions table is not changed |
| `ActionSync.ExcludeNothing` | server/db/ensureActions.ts:33 | removing an empty list of ids keeps the table, so the guard on an empty removal list changes nothing |
| `ActionSync.NoActionsRemovedKeepsGrants` | server/db/ensureActions.ts:33-36 | deleting the grants of no action keeps every grant row |
| `ActionSync.SuperuserRoles` | server/db/ensureActions.ts:15-19 | the selected roles are exactly the rows marked as superuser roles |
| `ActionSync.FanOut` | server/db/ensureActions.ts:27 | one grant of the action per listed role, carrying that role's id and organisation, so an empty role list gives no grant |
| `ActionSync.EnsureActions` | server/db/ensureActions.ts:7-37 | the actions table ends up holding exactly the catalog ids; grants of retired ids are deleted and every other grant, the roles and the users are unchanged; no grant row is added, so, when every existing grant names a stored action, new actions are granted to nobody; grant integrity is preserved; with nothing to add or remove nothing is written |
| `ActionSync.SuperuserGrants` | server/db/ensureActions.ts:62 | one grant per stored action, in table order, each for the new role, that action and the organisation |
| `ActionSync.SuperuserGrantsOnePerAction` | server/db/ensureActions.ts:54-63 | with distinct stored actions, the provisioning grants hold exactly one (role, action, organisation) per stored action and no other row |
| `ActionSync.CreateSuperuserRole` | server/db/ensureActions.ts:39-66 | adds exactly one role (fresh id, the organisation, superuser flag, name "Superuser"), then exactly one grant per stored action for that role and organisation; the new role holds no other grant; the actions table is unchanged; returns the role id, or nothing when there is no action |
| `VerifyUser.FindUser` | server/middlewares/verifyUser.ts:20-25 | finds the first users row with the id, and finds nothing exactly when no row has it |
| `VerifyUser.VerifySessionUserMiddleware` | server/middlewares/verifyUser.ts:10-41 | a missing session or user is Unauthorized with the request untouched; an unknown user id is BAD_REQUEST "User does not exist" with the request untouched; otherwise the user row and session are attached and the result is Proceed if the email is verified, else BAD_REQUEST "Email is not verified"; Proceed exactly for an authenticated, existing, verified user; the database is not changed |
| `RoleRoutes.ActionIdAccepted` | server/routers/role/removeRoleAction.ts:16-18 | any params object whose `actionId` is a string is accepted, whatever its other fields, and yields that string |
| `RoleRoutes.ActionIdRejected` | server/routers/role/removeRoleAction.ts:16-18 | params without `actionId`, with a non-string `actionId`, or that are not an object are refused |
| `RoleRoutes.ParseRoleId` | server/routers/role/removeRoleAction.ts:12-14 | a role id is accepted exactly when it is a string whose numeric conversion is a positive integer, and the parsed id is that integer |
| `RoleRoutes.RoleIdRejectsNonStrings` | server/routers/role/removeRoleAction.ts:13 | a missing or non-string role id is refused whatever the conversion would give |
| `RoleRoutes.RoleIdAcceptsPositiveIntegers` | server/routers/role/removeRoleAction.ts:13 | every text converting to a positive integer is accepted as that id, whatever the body's other fields |
| `RoleRoutes.RoleIdRejectsOthers` | server/routers/role/removeRoleAction.ts:13 | a text converting to zero, a negative or a fractional number is refused, whatever the body's other fields |
| `RoleRoutes.RemoveRoleAction` | server/routers/role/removeRoleAction.ts:20-71 | an invalid action id, then an invalid role id, is BAD_REQUEST whatever the permission; a denied permission is FORBIDDEN; otherwise the rows with that role id and action id are deleted whatever their organisation, and the result is NOT_FOUND when none matched, else OK; every result but OK leaves the grants table unchanged |
| `RoleRoutes.SecondRemovalNotFound` | server/routers/role/removeRoleAction.ts:52-63 | repeating the removal of the same (roleId, actionId) finds no row, so it is NOT_FOUND, and changes nothing |

## Left out

- Error messages: the BAD_REQUEST texts built from the schema errors, the NOT_FOUND text and the OK envelope of `removeRoleAction` are reduced to the status; the middleware's two BAD_REQUEST messages are kept.
- The `catch` branch that maps any thrown error to INTERNAL_SERVER_ERROR, and the absence of a transaction around the reconciliation statements: runtime failures and concurrent startups are not modelled.
- A catalog with duplicate values: `EnsureActions` requires distinct ids, as an enumeration's values are; a duplicate would hit the primary key of the actions table, an error path not modelled.
- VerifyUser.VerifySessionUserMiddleware: the users lookup is a pure read of the table, so "no lookup happens when unauthorized" is stated only as the outcome not depending on the users table in that case.
- The bodies of the permission oracle, of the session collaborator and of the action enumeration; they are inputs.
- How JavaScript's `Number` reads text (whitespace, hexadecimal, exponents, rounding of large values): `toNumber` is an input; only the positive-integer acceptance rule is modelled.
- The logger call when there is no action to grant, and the query-builder details (`.execute()`, `.returning()`, inserting an empty list of values).
- server/setup/scripts/1.0.0-beta5.ts (a configuration-file migration doing file I/O) is not part of this model.
