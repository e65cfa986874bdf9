/** The HTTP handlers for a signed-in user's WebAuthn credentials: list, register
    and delete, over the credential table of the database. Every handler first
    requires a session user; every store failure becomes a 500 response. */
module CredentialRoutes {
  import opened Wrappers

  /** A row of the credential table. `id` is the table's generated key;
      `lastUsedAt` is None until it is first set. */
  datatype CredentialRow = CredentialRow(
    id: string,
    userId: string,
    credentialId: string,
    publicKey: string,
    deviceName: string,
    createdAt: int,
    lastUsedAt: Option<int>)

  /** The columns the list handler selects. */
  datatype CredentialSummary =
    CredentialSummary(id: string, deviceName: string, createdAt: int, lastUsedAt: Option<int>)

  /** The JSON body of a registration request; a field that is absent or null is
      None. */
  datatype RegistrationBody =
    RegistrationBody(credentialId: Option<string>, publicKey: Option<string>, deviceName: Option<string>)

  datatype ResponseBody =
    | ErrorMessage(error: string)
    | CredentialList(credentials: seq<CredentialSummary>)
    | Registered(id: string, deviceName: string)
    | Deleted

  datatype Response = Response(status: nat, body: ResponseBody)

  const Unauthorized: Response := Response(401, ErrorMessage("Unauthorized"))
  const UnknownDevice: string := "Unknown Device"

  /** A JavaScript truthiness test on an optional string field: present and non-empty. */
  predicate Present(field: Option<string>)
  {
    field.Some? && field.value != ""
  }

  /** `session?.user?.id` is truthy; `session` is that id, None when the session,
      its user or the id is missing. */
  predicate Authorized(session: Option<string>)
  {
    Present(session)
  }

  function Summary(row: CredentialRow): CredentialSummary
  {
    CredentialSummary(row.id, row.deviceName, row.createdAt, row.lastUsedAt)
  }

  /** `findMany({ where: { userId }, select: … })`: the summaries of the user's
      rows, in table order. */
  function ListFor(rows: seq<CredentialRow>, userId: string): (listed: seq<CredentialSummary>)
    ensures |listed| <= |rows|
    ensures forall row :: row in rows && row.userId == userId ==> Summary(row) in listed
    ensures forall s :: s in listed ==>
      exists row :: row in rows && row.userId == userId && Summary(row) == s
  {
    if rows == [] then []
    else
      var rest := ListFor(rows[1..], userId);
      assert forall row :: row in rows[1..] ==> row in rows;
      assert forall row :: row in rows ==> row == rows[0] || row in rows[1..];
      if rows[0].userId == userId then [Summary(rows[0])] + rest else rest
  }

  /** Listing distributes over concatenation: each of the user's rows gives one
      summary, in table order. */
  lemma {:induction false} ListForConcat(a: seq<CredentialRow>, b: seq<CredentialRow>, userId: string)
    ensures ListFor(a + b, userId) == ListFor(a, userId) + ListFor(b, userId)
    decreases |a|
  {
    if a == [] {
      assert a + b == b;
    } else {
      assert (a + b)[1..] == a[1..] + b;
      ListForConcat(a[1..], b, userId);
    }
  }

  /** A single row is listed exactly when it belongs to the user. */
  lemma ListForOne(row: CredentialRow, userId: string)
    ensures ListFor([row], userId) == if row.userId == userId then [Summary(row)] else []
  {
    assert [row][1..] == [];
  }

  /** The list never grows with rows of other users. */
  lemma {:induction false} ListForIgnoresOthers(rows: seq<CredentialRow>, row: CredentialRow, userId: string)
    requires row.userId != userId
    ensures ListFor(rows + [row], userId) == ListFor(rows, userId)
    ensures ListFor([row] + rows, userId) == ListFor(rows, userId)
    decreases |rows|
  {
    assert ([row] + rows)[1..] == rows;
    if rows == [] {
      assert rows + [row] == [row];
    } else {
      assert (rows + [row])[1..] == rows[1..] + [row];
      ListForIgnoresOthers(rows[1..], row, userId);
    }
  }

  /** The row `delete({ where: { id, userId } })` finds. */
  predicate Owns(rows: seq<CredentialRow>, id: string, userId: string)
  {
    exists i :: 0 <= i < |rows| && rows[i].id == id && rows[i].userId == userId
  }

  /** The table without the row keyed `id`. */
  function RemoveById(rows: seq<CredentialRow>, id: string): (kept: seq<CredentialRow>)
    ensures |kept| <= |rows|
    ensures forall row :: row in kept <==> row in rows && row.id != id
  {
    if rows == [] then []
    else if rows[0].id == id then RemoveById(rows[1..], id)
    else [rows[0]] + RemoveById(rows[1..], id)
  }

  /** Table keys are unique. */
  predicate UniqueIds(rows: seq<CredentialRow>)
  {
    forall i, j :: 0 <= i < j < |rows| ==> rows[i].id != rows[j].id
  }

  lemma UniqueTail(rows: seq<CredentialRow>)
    requires UniqueIds(rows) && rows != []
    ensures UniqueIds(rows[1..])
  {
    forall i, j | 0 <= i < j < |rows[1..]| ensures rows[1..][i].id != rows[1..][j].id {
      assert rows[1..][i] == rows[i + 1] && rows[1..][j] == rows[j + 1];
    }
  }

  /** Removing a key no row carries changes nothing. */
  lemma {:induction false} RemoveAbsentKey(rows: seq<CredentialRow>, id: string)
    requires forall i :: 0 <= i < |rows| ==> rows[i].id != id
    ensures RemoveById(rows, id) == rows
    decreases |rows|
  {
    if rows != [] {
      assert rows[0].id != id;
      forall i | 0 <= i < |rows[1..]| ensures rows[1..][i].id != id {
        assert rows[1..][i] == rows[i + 1];
      }
      RemoveAbsentKey(rows[1..], id);
      assert rows == [rows[0]] + rows[1..];
    }
  }

  /** Removing a key of a table with unique keys removes exactly one row. */
  lemma {:induction false} RemoveUniqueKey(rows: seq<CredentialRow>, id: string)
    requires UniqueIds(rows)
    requires exists i :: 0 <= i < |rows| && rows[i].id == id
    ensures |RemoveById(rows, id)| == |rows| - 1
    decreases |rows|
  {
    UniqueTail(rows);
    if rows[0].id == id {
      forall i | 0 <= i < |rows[1..]| ensures rows[1..][i].id != id {
        assert rows[1..][i] == rows[i + 1];
      }
      RemoveAbsentKey(rows[1..], id);
    } else {
      var i :| 0 <= i < |rows| && rows[i].id == id;
      assert rows[1..][i - 1] == rows[i];
      RemoveUniqueKey(rows[1..], id);
    }
  }

  /** `deviceName || "Unknown Device"`. */
  function StoredDeviceName(deviceName: Option<string>): (name: string)
    ensures name != ""
    ensures Present(deviceName) ==> name == deviceName.value
    ensures !Present(deviceName) ==> name == UnknownDevice
  {
    if Present(deviceName) then deviceName.value else UnknownDevice
  }

  /** The credential table shared by the three handlers. */
  class CredentialTable {
    var rows: seq<CredentialRow>

    predicate Valid()
      reads this
    {
      UniqueIds(rows)
    }

    constructor()
      ensures Valid() && rows == []
    {
      rows := [];
    }

    /** `GET`: the session user's credentials. */
    method Get(session: Option<string>) returns (response: Response)
      ensures !Authorized(session) ==> response == Unauthorized
      ensures Authorized(session) ==>
        response == Response(200, CredentialList(ListFor(rows, session.value)))
    {
      if !Authorized(session) {
        return Unauthorized;
      }
      var listed := ListFor(rows, session.value);
      response := Response(200, CredentialList(listed));
    }

    /** `POST`: stores a credential for the session user. `body` is None when
        the request body is not JSON or is the JSON value `null` (whose
        destructuring throws); both give the 500; `freshId` and `now` are the key and
        creation time the database assigns. */
    method Post(session: Option<string>, body: Option<RegistrationBody>, freshId: string, now: int)
      returns (response: Response)
      requires Valid()
      requires forall i :: 0 <= i < |rows| ==> rows[i].id != freshId
      modifies this
      ensures Valid()
      ensures !Authorized(session) ==> response == Unauthorized && rows == old(rows)
      ensures Authorized(session) && body.None? ==>
        response == Response(500, ErrorMessage("Failed to register credential")) && rows == old(rows)
      ensures (Authorized(session) && body.Some? &&
        !(Present(body.value.credentialId) && Present(body.value.publicKey))) ==>
        response == Response(400, ErrorMessage("Credential data required")) && rows == old(rows)
      ensures (Authorized(session) && body.Some? &&
        Present(body.value.credentialId) && Present(body.value.publicKey)) ==>
        var row := CredentialRow(freshId, session.value, body.value.credentialId.value,
                                 body.value.publicKey.value, StoredDeviceName(body.value.deviceName),
                                 now, None);
        rows == old(rows) + [row] && response == Response(200, Registered(row.id, row.deviceName))
    {
      if !Authorized(session) {
        return Unauthorized;
      }
      if body.None? {
        return Response(500, ErrorMessage("Failed to register credential"));
      }
      var data := body.value;
      if !Present(data.credentialId) || !Present(data.publicKey) {
        return Response(400, ErrorMessage("Credential data required"));
      }
      var row := CredentialRow(freshId, session.value, data.credentialId.value, data.publicKey.value,
                               StoredDeviceName(data.deviceName), now, None);
      rows := rows + [row];
      response := Response(200, Registered(row.id, row.deviceName));
    }

    /** `DELETE`: removes the session user's credential keyed by the `id` query
        parameter. A key that names no row of this user is a store error. */
    method Delete(session: Option<string>, idParam: Option<string>) returns (response: Response)
      requires Valid()
      modifies this
      ensures Valid()
      ensures !Authorized(session) ==> response == Unauthorized && rows == old(rows)
      ensures Authorized(session) && !Present(idParam) ==>
        response == Response(400, ErrorMessage("Credential ID required")) && rows == old(rows)
      ensures Authorized(session) && Present(idParam) && !Owns(old(rows), idParam.value, session.value) ==>
        response == Response(500, ErrorMessage("Failed to delete credential")) && rows == old(rows)
      ensures Authorized(session) && Present(idParam) && Owns(old(rows), idParam.value, session.value) ==>
        response == Response(200, Deleted) && rows == RemoveById(old(rows), idParam.value) &&
        |rows| == |old(rows)| - 1
      ensures forall row :: row in old(rows) && (row.userId != session.GetOr("") || !Present(idParam)) ==>
        row in rows
    {
      if !Authorized(session) {
        return Unauthorized;
      }
      if !Present(idParam) {
        return Response(400, ErrorMessage("Credential ID required"));
      }
      var id := idParam.value;
      if !Owns(rows, id, session.value) {
        return Response(500, ErrorMessage("Failed to delete credential"));
      }
      ghost var before := rows;
      RemovePreservesUnique(rows, id);
      RemoveUniqueKey(rows, id);
      rows := RemoveById(rows, id);
      forall row | row in before && row.userId != session.value ensures row in rows {
        var i :| 0 <= i < |before| && before[i].id == id && before[i].userId == session.value;
        var j :| 0 <= j < |before| && before[j] == row;
        assert i != j;
      }
      response := Response(200, Deleted);
    }
  }

  lemma {:induction false} RemovePreservesUnique(rows: seq<CredentialRow>, id: string)
    requires UniqueIds(rows)
    ensures UniqueIds(RemoveById(rows, id))
    decreases |rows|
  {
    if rows != [] {
      UniqueTail(rows);
      RemovePreservesUnique(rows[1..], id);
      if rows[0].id != id {
        // The head's key occurs nowhere in the filtered tail.
        var rest := RemoveById(rows[1..], id);
        forall k | 0 <= k < |rest| ensures rest[k].id != rows[0].id {
          assert rest[k] in rows[1..];
          var j :| 0 <= j < |rows[1..]| && rows[1..][j] == rest[k];
          assert rows[j + 1] == rest[k];
        }
      }
    }
  }
}
