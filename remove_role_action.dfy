/**
  The handler that revokes one action from one role: it validates the request,
  asks the permission oracle, deletes the matching grant rows and reports whether
  anything was deleted.

  The permission oracle's answer is the input `permitted`; JavaScript's `Number`
  conversion of the role id text is the input `toNumber`, which answers None for
  NaN and the infinities and otherwise the number's value.
 */
module RoleRoutes {
  import opened Db

  /** A value of the request's params or body, as far as the validation looks at it:
      a string, an object with named fields, or anything else. */
  datatype Json = JString(s: string) | JObject(fields: map<string, Json>) | JOther

  /** The HTTP status the handler ends with (400, 403, 404, 200). */
  datatype Status = BadRequest | Forbidden | NotFound | Ok

  /** The string-typed field `key` of an object, if there is one. */
  function StringField(j: Json, key: string): Option<string> {
    if j.JObject? && key in j.fields && j.fields[key].JString? then Some(j.fields[key].s) else None
  }

  /** The schema applied to the params: an object whose `actionId` is a string. */
  function ParseActionId(params: Json): Option<string> {
    StringField(params, "actionId")
  }

  /** Any object whose `actionId` is a string is accepted, whatever its other fields,
      and the parsed action id is that string. */
  lemma ActionIdAccepted(fields: map<string, Json>, actionId: string)
    ensures ParseActionId(JObject(fields["actionId" := JString(actionId)])) == Some(actionId)
  {
  }

  /** A missing `actionId`, one that is not a string, or params that are not an object
      are refused. */
  lemma ActionIdRejected(fields: map<string, Json>, other: Json)
    requires !other.JString?
    ensures "actionId" !in fields ==> ParseActionId(JObject(fields)) == None
    ensures ParseActionId(JObject(fields["actionId" := other])) == None
    ensures forall s :: ParseActionId(JString(s)) == None
    ensures ParseActionId(JOther) == None
  {
  }

  predicate IsPositiveInteger(v: real) {
    v > 0.0 && v.Floor as real == v
  }

  /** The schema applied to the body: `roleId` is a string whose numeric conversion is
      an integer greater than zero; the parsed value is that integer. */
  function ParseRoleId(body: Json, toNumber: string -> Option<real>): (r: Option<nat>)
    ensures r.Some? <==> StringField(body, "roleId").Some? && toNumber(StringField(body, "roleId").value).Some?
                         && IsPositiveInteger(toNumber(StringField(body, "roleId").value).value)
    ensures r.Some? ==> r.value >= 1 && Some(r.value as real) == toNumber(StringField(body, "roleId").value)
  {
    match StringField(body, "roleId")
    case None => None
    case Some(text) =>
      match toNumber(text)
      case None => None
      case Some(v) => if IsPositiveInteger(v) then Some(v.Floor as nat) else None
  }

  /** A role id that is missing or not a string is refused, whatever its conversion. */
  lemma RoleIdRejectsNonStrings(fields: map<string, Json>, other: Json, toNumber: string -> Option<real>)
    requires !other.JString?
    ensures ParseRoleId(JObject(fields["roleId" := other]), toNumber) == None
    ensures "roleId" !in fields ==> ParseRoleId(JObject(fields), toNumber) == None
  {
  }

  /** Every positive integer is accepted as a role id when its text converts to it. */
  lemma RoleIdAcceptsPositiveIntegers(fields: map<string, Json>, text: string, n: nat, toNumber: string -> Option<real>)
    requires n >= 1 && toNumber(text) == Some(n as real)
    ensures ParseRoleId(JObject(fields["roleId" := JString(text)]), toNumber) == Some(n)
  {
  }

  /** Zero, negative and fractional numbers are refused as role ids. */
  lemma RoleIdRejectsOthers(fields: map<string, Json>, text: string, v: real, toNumber: string -> Option<real>)
    requires toNumber(text) == Some(v) && (v <= 0.0 || v.Floor as real != v)
    ensures ParseRoleId(JObject(fields["roleId" := JString(text)]), toNumber) == None
  {
  }

  /**
    `removeRoleAction`. The action id is validated first, then the role id, then the
    permission is consulted; only then are the grant rows with that role id and action
    id deleted, whatever their organisation. Nothing deleted is NOT_FOUND.
   */
  method RemoveRoleAction(db: Database, params: Json, body: Json, toNumber: string -> Option<real>, permitted: bool)
    returns (status: Status)
    requires db.Valid()
    modifies db`roleActions
    ensures db.Valid()
    ensures ParseActionId(params).None? ==> status == BadRequest
    ensures ParseActionId(params).Some? && ParseRoleId(body, toNumber).None? ==> status == BadRequest
    ensures ParseActionId(params).Some? && ParseRoleId(body, toNumber).Some? ==>
              var actionId, roleId := ParseActionId(params).value, ParseRoleId(body, toNumber).value;
              && (!permitted ==> status == Forbidden)
              && (permitted ==>
                    && db.roleActions == GrantsWithout(old(db.roleActions), roleId, actionId)
                    && status == if GrantsMatching(old(db.roleActions), roleId, actionId) == [] then NotFound else Ok)
    ensures status != Ok ==> db.roleActions == old(db.roleActions)
  {
    var parsedParams := ParseActionId(params);
    if parsedParams.None? {
      return BadRequest;
    }
    var actionId := parsedParams.value;

    var parsedBody := ParseRoleId(body, toNumber);
    if parsedBody.None? {
      return BadRequest;
    }
    var roleId := parsedBody.value;

    if !permitted {
      return Forbidden;
    }

    var deleted := db.DeleteGrant(roleId, actionId);
    if |deleted| == 0 {
      NothingMatchedNothingRemoved(old(db.roleActions), roleId, actionId);
      return NotFound;
    }
    status := Ok;
  }

  /** A second removal of the same grant, right after a successful one, finds nothing. */
  lemma SecondRemovalNotFound(grants: seq<RoleAction>, roleId: nat, actionId: string)
    ensures GrantsMatching(GrantsWithout(grants, roleId, actionId), roleId, actionId) == []
    ensures GrantsWithout(GrantsWithout(grants, roleId, actionId), roleId, actionId) == GrantsWithout(grants, roleId, actionId)
  {
    NothingMatchedNothingRemoved(GrantsWithout(grants, roleId, actionId), roleId, actionId);
  }
}
