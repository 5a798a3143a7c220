/**
 * The user directory the authentication service consults: records keyed by id,
 * looked up by email or id, and updated in place on withdrawal.
 */
module Users {
  import opened Wrappers

  datatype User = User(id: int, email: string, password: string, name: string, state: string)

  const WITHDRAWN: string := "WITHDRAWN"

  class UsersService {
    var records: map<int, User>

    /** The table's constraints: each record sits under its own id, and emails are unique. */
    ghost predicate Valid()
      reads this
    {
      && (forall id :: id in records ==> records[id].id == id)
      && (forall i, j :: i in records && j in records && records[i].email == records[j].email ==> i == j)
    }

    constructor (records: map<int, User>)
      ensures this.records == records
    {
      this.records := records;
    }

    /** Whether some record has this email. */
    predicate HasEmail(email: string)
      reads this
    {
      exists id :: id in records && records[id].email == email
    }

    method GetByEmail(email: string) returns (user: Option<User>)
      requires Valid()
      ensures user.Some? <==> HasEmail(email)
      ensures user.Some? ==> user.value.email == email && user.value.id in records && records[user.value.id] == user.value
    {
      if HasEmail(email) {
        var id :| id in records && records[id].email == email;
        user := Some(records[id]);
      } else {
        user := None;
      }
    }

    method GetById(id: int) returns (user: Option<User>)
      ensures user.Some? <==> id in records
      ensures user.Some? ==> user.value == records[id]
    {
      user := if id in records then Some(records[id]) else None;
    }

    /** Sets the state of the record with this id; no record, no change. */
    method UpdateById(id: int, state: string)
      modifies this
      ensures id in old(records) ==> records == old(records)[id := old(records)[id].(state := state)]
      ensures id !in old(records) ==> records == old(records)
    {
      if id in records {
        records := records[id := records[id].(state := state)];
      }
    }
  }
}
