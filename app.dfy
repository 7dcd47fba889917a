/** The service's state as the source keeps it: a list that the handlers
    append to, overwrite in place and replace by a filtered copy, and a counter
    that only goes up. Each handler is proved to do what the matching function
    of UserTable says. */
module App {
  import opened UserTable

  /** The linear search `next((u for u in users if u['id'] == user_id), None)`,
      returning the position it stops at. */
  method FindFirst(users: seq<User>, id: int) returns (r: Option<nat>)
    ensures r == Find(users, id)
  {
    var i := 0;
    while i < |users|
      invariant 0 <= i <= |users|
      invariant forall j :: 0 <= j < i ==> users[j].id != id
    {
      if users[i].id == id {
        FindIsFirst(users, id, i);
        return Some(i);
      }
      i := i + 1;
    }
    return None;
  }

  /** The list comprehension `[u for u in users if u['id'] != user_id]`. */
  method KeepOthers(users: seq<User>, id: int) returns (rest: seq<User>)
    ensures rest == Remove(users, id)
  {
    rest := [];
    var i := 0;
    while i < |users|
      invariant 0 <= i <= |users|
      invariant rest == Remove(users[..i], id)
    {
      assert users[..i + 1][..i] == users[..i];
      if users[i].id != id {
        rest := rest + [users[i]];
      }
      i := i + 1;
    }
    assert users[..|users|] == users;
  }

  /** The module-level `users` list and `next_user_id` counter. */
  class Store {
    var users: seq<User>
    var nextId: int

    function Snapshot(): Table
      reads this
    {
      Table(users, nextId)
    }

    predicate Valid()
      reads this
    {
      UserTable.Valid(Snapshot())
    }

    constructor ()
      ensures Snapshot() == Initial()
      ensures Valid()
    {
      users := Initial().users;
      nextId := Initial().nextId;
      new;
      InitialValid();
    }

    /** GET /users: every record, in insertion order. */
    method GetUsers() returns (r: seq<User>)
      ensures r == users
    {
      r := users;
    }

    /** GET /users/<id>. */
    method GetUser(id: int) returns (o: Outcome)
      ensures o == Get(Snapshot(), id)
      ensures o.Ok? ==> o.user in users && o.user.id == id
      ensures o == NotFound <==> !HasId(users, id)
    {
      var k := FindFirst(users, id);
      match k
      case Some(i) => o := Ok(users[i]);
      case None => o := NotFound;
    }

    /** POST /users. */
    method CreateUser(body: Option<Payload>) returns (o: Outcome)
      requires Valid()
      modifies this
      ensures Valid()
      ensures Reply(Snapshot(), o) == Create(old(Snapshot()), body)
    {
      if body.None? || body.value.name.None? || body.value.email.None? {
        return BadRequest;
      }
      var u := User(nextId, body.value.name.value, body.value.email.value);
      users := users + [u];
      nextId := nextId + 1;
      o := Created(u);
      CreatePreservesValid(old(Snapshot()), body);
    }

    /** PUT /users/<id>: the found record's name and email are overwritten
        where the body has them. */
    method UpdateUser(id: int, body: Option<Payload>) returns (o: Outcome)
      requires Valid()
      modifies this
      ensures Valid()
      ensures Reply(Snapshot(), o) == Update(old(Snapshot()), id, body)
    {
      var k := FindFirst(users, id);
      if k.None? {
        return NotFound;
      }
      if body.None? {
        // a JSON null body: `data.get` on None raises before anything is written
        return ServerError;
      }
      var i, data := k.value, body.value;
      var user := users[i];
      user := user.(name := if data.name.Some? then data.name.value else user.name);
      user := user.(email := if data.email.Some? then data.email.value else user.email);
      users := users[i := user];
      o := Ok(user);
      UpdatePreservesValid(old(Snapshot()), id, body);
    }

    /** DELETE /users/<id>: the list is replaced by the records with other ids;
        the counter is left alone. */
    method DeleteUser(id: int) returns (o: Outcome)
      requires Valid()
      modifies this
      ensures Valid()
      ensures Reply(Snapshot(), o) == Delete(old(Snapshot()), id)
    {
      var k := FindFirst(users, id);
      if k.None? {
        return NotFound;
      }
      users := KeepOthers(users, id);
      o := Deleted;
      DeletePreservesValid(old(Snapshot()), id);
    }
  }
}
