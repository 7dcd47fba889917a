/** The in-memory user table of the service, as values: the stored records, the
    id counter, and what each of the five request handlers does to them. The
    class in app.dfy keeps this state in fields and is proved against the
    functions here. */
module UserTable {

  datatype Option<+T> = None | Some(value: T)

  /** One stored record, the dictionary {"id", "name", "email"}. */
  datatype User = User(id: int, name: string, email: string)

  /** A JSON object request body: the two keys the handlers read, and every
      other key the client sent. `others` stands for the keys other than
      "name" and "email"; a value holding those keys there describes no JSON
      object, and the handlers treat the key as absent. */
  datatype Payload = Payload(name: Option<string>, email: Option<string>, others: map<string, string>)

  /** What a handler answers; `Status` gives the HTTP code. */
  datatype Outcome =
    | Listed(users: seq<User>)   // the whole table
    | Ok(user: User)             // one record
    | Created(user: User)        // the record just added
    | Deleted                    // "User deleted successfully"
    | BadRequest                 // "Invalid data. Name and Email required"
    | NotFound                   // "User not found"
    | ServerError                // an exception escaped the handler

  function Status(o: Outcome): int
  {
    match o
    case Listed(_) => 200
    case Ok(_) => 200
    case Created(_) => 201
    case Deleted => 200
    case BadRequest => 400
    case NotFound => 404
    case ServerError => 500
  }

  /** The module-level `users` list and the `next_user_id` counter. */
  datatype Table = Table(users: seq<User>, nextId: int)

  /** The state after a request, and the answer to it. */
  datatype Reply = Reply(table: Table, outcome: Outcome)

  /** The five routes, with the request body already decoded (None stands for
      a JSON `null` body). */
  datatype Request =
    | ListUsers
    | GetUser(id: int)
    | CreateUser(body: Option<Payload>)
    | UpdateUser(id: int, body: Option<Payload>)
    | DeleteUser(id: int)

  /** The table the process starts with: Alice and Bob, counter at 3. */
  function Initial(): Table
  {
    Table([User(1, "Alice", "alice@example.com"), User(2, "Bob", "bob@example.com")], 3)
  }

  predicate HasId(s: seq<User>, id: int)
  {
    exists i :: 0 <= i < |s| && s[i].id == id
  }

  /** The table invariant: every id is positive and below the counter, and no
      two records share an id. */
  predicate Valid(t: Table)
  {
    1 <= t.nextId &&
    (forall i :: 0 <= i < |t.users| ==> 1 <= t.users[i].id < t.nextId) &&
    (forall i, j :: 0 <= i < j < |t.users| ==> t.users[i].id != t.users[j].id)
  }

  /** The position of the first record with the given id, as the generator
      `next((u for u in users if u['id'] == user_id), None)` finds it. */
  function Find(s: seq<User>, id: int): (r: Option<nat>)
    ensures r.Some? ==> r.value < |s| && s[r.value].id == id
    ensures r.Some? ==> forall j :: 0 <= j < r.value ==> s[j].id != id
    ensures r.None? <==> forall j :: 0 <= j < |s| ==> s[j].id != id
  {
    if s == [] then None
    else if s[0].id == id then Some(0)
    else match Find(s[1..], id)
      case None => None
      case Some(k) => Some(k + 1)
  }

  /** `[u for u in users if u['id'] != user_id]`. */
  function Remove(s: seq<User>, id: int): (r: seq<User>)
    ensures |r| <= |s|
    ensures forall i :: 0 <= i < |r| ==> r[i].id != id
  {
    if s == [] then []
    else Remove(s[..|s| - 1], id) + (if s[|s| - 1].id == id then [] else [s[|s| - 1]])
  }

  /** `data.get('name', user['name'])` and `data.get('email', user['email'])`
      written over the record. */
  function Merge(u: User, p: Payload): User
  {
    User(u.id,
         if p.name.Some? then p.name.value else u.name,
         if p.email.Some? then p.email.value else u.email)
  }

  /** GET /users/<id>. */
  function Get(t: Table, id: int): (o: Outcome)
    ensures o.Ok? || o.NotFound?
    ensures o.Ok? ==> o.user in t.users && o.user.id == id
    ensures o.NotFound? <==> !HasId(t.users, id)
  {
    match Find(t.users, id)
    case Some(k) => Ok(t.users[k])
    case None => NotFound
  }

  /** POST /users. An empty object is falsy in the source, but it also lacks
      "name", so only the presence of the two keys decides. */
  function Create(t: Table, body: Option<Payload>): Reply
  {
    match body
    case Some(Payload(Some(name), Some(email), _)) =>
      var u := User(t.nextId, name, email);
      Reply(Table(t.users + [u], t.nextId + 1), Created(u))
    case _ => Reply(t, BadRequest)
  }

  /** PUT /users/<id>. The lookup comes first; a JSON `null` body only fails
      afterwards, when `.get` is called on None. */
  function Update(t: Table, id: int, body: Option<Payload>): Reply
  {
    match Find(t.users, id)
    case None => Reply(t, NotFound)
    case Some(k) =>
      match body
      case None => Reply(t, ServerError)
      case Some(p) =>
        var u := Merge(t.users[k], p);
        Reply(Table(t.users[k := u], t.nextId), Ok(u))
  }

  /** DELETE /users/<id>. */
  function Delete(t: Table, id: int): Reply
  {
    if Find(t.users, id).None? then Reply(t, NotFound)
    else Reply(Table(Remove(t.users, id), t.nextId), Deleted)
  }

  function Handle(t: Table, req: Request): Reply
  {
    match req
    case ListUsers => Reply(t, Listed(t.users))
    case GetUser(id) => Reply(t, Get(t, id))
    case CreateUser(body) => Create(t, body)
    case UpdateUser(id, body) => Update(t, id, body)
    case DeleteUser(id) => Delete(t, id)
  }

  /** The table after handling the requests one after the other. */
  function Run(t: Table, reqs: seq<Request>): Table
  {
    if reqs == [] then t
    else Handle(Run(t, reqs[..|reqs| - 1]), reqs[|reqs| - 1]).table
  }

  // ---------------------------------------------------------------- lookup

  /** The first index holding the id is what Find returns. */
  lemma FindIsFirst(s: seq<User>, id: int, k: nat)
    requires k < |s| && s[k].id == id
    requires forall j :: 0 <= j < k ==> s[j].id != id
    ensures Find(s, id) == Some(k)
  {
  }

  lemma InitialValid()
    ensures Valid(Initial())
  {
  }

  /** Neither read route changes the table; listing answers with every record
      in insertion order. */
  lemma ReadsLeaveTable(t: Table, id: int)
    ensures Handle(t, ListUsers) == Reply(t, Listed(t.users))
    ensures Handle(t, GetUser(id)).table == t
  {
  }

  /** A request answered with an error status (400, 404 or 500) leaves the
      table exactly as it was. */
  lemma ErrorsChangeNothing(t: Table, req: Request)
    requires Status(Handle(t, req).outcome) >= 400
    ensures Handle(t, req).table == t
  {
  }

  // ---------------------------------------------------------------- create

  /** Create answers BadRequest exactly when the body is `null` or lacks
      "name" or "email", and then changes nothing. Otherwise it appends one
      record numbered with the old counter, taking only name and email from
      the body, bumps the counter by one and answers with that record. */
  lemma CreateContract(t: Table, body: Option<Payload>)
    ensures var r := Create(t, body);
      (r.outcome == BadRequest <==> body.None? || body.value.name.None? || body.value.email.None?) &&
      (r.outcome == BadRequest ==> r.table == t) &&
      (r.outcome != BadRequest ==>
        var u := User(t.nextId, body.value.name.value, body.value.email.value);
        r.outcome == Created(u) && r.table == Table(t.users + [u], t.nextId + 1))
  {
  }

  /** Keys other than "name" and "email" are dropped. */
  lemma CreateIgnoresOtherKeys(t: Table, p: Payload, others: map<string, string>)
    ensures Create(t, Some(p)) == Create(t, Some(p.(others := others)))
  {
  }

  lemma CreatePreservesValid(t: Table, body: Option<Payload>)
    requires Valid(t)
    ensures Valid(Create(t, body).table)
    ensures Create(t, body).table.nextId >= t.nextId
  {
  }

  /** The id a successful create hands out is larger than every stored id. */
  lemma CreatedIdFresh(t: Table, body: Option<Payload>)
    requires Valid(t)
    requires Create(t, body).outcome.Created?
    ensures forall i :: 0 <= i < |t.users| ==> t.users[i].id < Create(t, body).outcome.user.id
    ensures !HasId(t.users, Create(t, body).outcome.user.id)
  {
  }

  /** The created record can be read back by its id. */
  lemma CreateThenGet(t: Table, body: Option<Payload>)
    requires Valid(t)
    requires Create(t, body).outcome.Created?
    ensures var r := Create(t, body); Get(r.table, r.outcome.user.id) == Ok(r.outcome.user)
  {
    var r := Create(t, body);
    var s := r.table.users;
    forall j | 0 <= j < |t.users| ensures s[j].id != r.outcome.user.id {
      assert s[j] == t.users[j];
    }
    FindIsFirst(s, r.outcome.user.id, |t.users|);
  }

  // ---------------------------------------------------------------- update

  /** An unknown id answers NotFound and changes nothing, whatever the body. */
  lemma UpdateAbsent(t: Table, id: int, body: Option<Payload>)
    requires !HasId(t.users, id)
    ensures Update(t, id, body) == Reply(t, NotFound)
  {
  }

  /** On a known id, only the first record with that id changes: it keeps its
      id and position, takes name and email from the body where the body has
      them, and is the answer. Every other record, the order and the counter
      stay as they were. A `null` body fails with nothing changed. */
  lemma UpdateContract(t: Table, id: int, body: Option<Payload>, k: nat)
    requires Find(t.users, id) == Some(k)
    ensures body.None? ==> Update(t, id, body) == Reply(t, ServerError)
    ensures body.Some? ==>
      var r := Update(t, id, body);
      var u := r.table.users[k];
      r.table.nextId == t.nextId && |r.table.users| == |t.users| &&
      r.outcome == Ok(u) &&
      u.id == id &&
      u.name == (if body.value.name.Some? then body.value.name.value else t.users[k].name) &&
      u.email == (if body.value.email.Some? then body.value.email.value else t.users[k].email) &&
      forall j :: 0 <= j < |t.users| && j != k ==> r.table.users[j] == t.users[j]
  {
  }

  lemma UpdatePreservesValid(t: Table, id: int, body: Option<Payload>)
    requires Valid(t)
    ensures Valid(Update(t, id, body).table)
    ensures Update(t, id, body).table.nextId == t.nextId
  {
  }

  /** After a successful update, reading the id gives the updated record. */
  lemma UpdateThenGet(t: Table, id: int, p: Payload)
    requires HasId(t.users, id)
    ensures var r := Update(t, id, Some(p)); Get(r.table, id) == r.outcome
  {
    var k := Find(t.users, id).value;
    var s := Update(t, id, Some(p)).table.users;
    FindIsFirst(s, id, k);
  }

  /** Sending the same update twice leaves the table as sending it once. */
  lemma UpdateIdempotent(t: Table, id: int, body: Option<Payload>)
    ensures var r := Update(t, id, body); Update(r.table, id, body) == r
  {
    match Find(t.users, id)
    case None =>
    case Some(k) =>
      if body.Some? {
        var s := Update(t, id, body).table.users;
        FindIsFirst(s, id, k);
      }
  }

  // ---------------------------------------------------------------- delete

  lemma {:induction false} RemoveAbsent(s: seq<User>, id: int)
    requires forall j :: 0 <= j < |s| ==> s[j].id != id
    ensures Remove(s, id) == s
  {
    if s != [] {
      RemoveAbsent(s[..|s| - 1], id);
      assert s == s[..|s| - 1] + [s[|s| - 1]];
    }
  }

  lemma {:induction false} RemoveConcat(a: seq<User>, b: seq<User>, id: int)
    ensures Remove(a + b, id) == Remove(a, id) + Remove(b, id)
  {
    if b == [] {
      assert a + b == a;
    } else {
      var init, last := b[..|b| - 1], b[|b| - 1];
      var tail := if last.id == id then [] else [last];
      RemoveConcat(a, init, id);
      assert (a + b)[..|a + b| - 1] == a + init;
      assert (a + b)[|a + b| - 1] == last;
      calc {
        Remove(a + b, id);
        Remove(a + init, id) + tail;
        (Remove(a, id) + Remove(init, id)) + tail;
        Remove(a, id) + (Remove(init, id) + tail);
        Remove(a, id) + Remove(b, id);
      }
    }
  }

  /** The filter keeps every record whose id differs, whether or not ids are
      unique. */
  lemma {:induction false} RemoveKeepsOthers(s: seq<User>, id: int, i: nat)
    requires i < |s| && s[i].id != id
    ensures s[i] in Remove(s, id)
  {
    if i < |s| - 1 {
      RemoveKeepsOthers(s[..|s| - 1], id, i);
    }
  }

  /** When ids are unique, deleting a present id removes exactly the record at
      its position and keeps the rest in order. */
  lemma RemoveExactly(t: Table, id: int, k: nat)
    requires Valid(t)
    requires Find(t.users, id) == Some(k)
    ensures Remove(t.users, id) == t.users[..k] + t.users[k + 1..]
  {
    var s := t.users;
    var before, after := s[..k], s[k + 1..];
    var mid := before + [s[k]];
    assert s == mid + after;
    RemoveConcat(mid, after, id);
    assert mid[..|mid| - 1] == before;
    assert Remove(mid, id) == Remove(before, id);
    RemoveAbsent(before, id);
    forall j | 0 <= j < |after| ensures after[j].id != id {
      assert after[j] == s[k + 1 + j];
    }
    RemoveAbsent(after, id);
  }

  /** An unknown id answers NotFound and changes nothing. */
  lemma DeleteAbsent(t: Table, id: int)
    requires !HasId(t.users, id)
    ensures Delete(t, id) == Reply(t, NotFound)
  {
  }

  /** On a known id, delete answers Deleted, drops exactly that record, keeps
      every other in its order and leaves the counter where it was, so the id
      is never handed out again. */
  lemma DeleteContract(t: Table, id: int, k: nat)
    requires Valid(t)
    requires Find(t.users, id) == Some(k)
    ensures Delete(t, id) == Reply(Table(t.users[..k] + t.users[k + 1..], t.nextId), Deleted)
  {
    RemoveExactly(t, id, k);
  }

  /** After a delete, reading the id answers NotFound. */
  lemma DeleteThenGet(t: Table, id: int)
    ensures Get(Delete(t, id).table, id) == NotFound
  {
  }

  lemma DeletePreservesValid(t: Table, id: int)
    requires Valid(t)
    ensures Valid(Delete(t, id).table)
    ensures Delete(t, id).table.nextId == t.nextId
  {
    match Find(t.users, id)
    case None =>
    case Some(k) =>
      RemoveExactly(t, id, k);
      var s := t.users;
      var r := s[..k] + s[k + 1..];
      assert forall i :: 0 <= i < |r| ==> r[i] == s[if i < k then i else i + 1];
  }

  // ---------------------------------------------------------------- traces

  /** Every request keeps the invariant and never lowers the counter. */
  lemma HandlePreservesValid(t: Table, req: Request)
    requires Valid(t)
    ensures Valid(Handle(t, req).table)
    ensures Handle(t, req).table.nextId >= t.nextId
  {
    match req
    case ListUsers =>
    case GetUser(_) =>
    case CreateUser(body) => CreatePreservesValid(t, body);
    case UpdateUser(id, body) => UpdatePreservesValid(t, id, body);
    case DeleteUser(id) => DeletePreservesValid(t, id);
  }

  lemma {:induction false} RunPreservesValid(t: Table, reqs: seq<Request>)
    requires Valid(t)
    ensures Valid(Run(t, reqs))
    ensures Run(t, reqs).nextId >= t.nextId
  {
    if reqs != [] {
      RunPreservesValid(t, reqs[..|reqs| - 1]);
      HandlePreservesValid(Run(t, reqs[..|reqs| - 1]), reqs[|reqs| - 1]);
    }
  }

  /** The counter after a prefix of a run is no larger than at its end. */
  lemma {:induction false} RunPrefixCounter(t: Table, reqs: seq<Request>, i: nat)
    requires Valid(t)
    requires i <= |reqs|
    ensures Run(t, reqs[..i]).nextId <= Run(t, reqs).nextId
  {
    if i < |reqs| {
      var init := reqs[..|reqs| - 1];
      assert init[..i] == reqs[..i];
      RunPrefixCounter(t, init, i);
      RunPreservesValid(t, init);
      HandlePreservesValid(Run(t, init), reqs[|reqs| - 1]);
    } else {
      assert reqs[..i] == reqs;
    }
  }

  /** Ids are never reused: after any run of requests from a valid table, the
      id a create hands out was held by no record at any point of the run. */
  lemma IdsNeverReused(t: Table, reqs: seq<Request>, body: Option<Payload>)
    requires Valid(t)
    requires Create(Run(t, reqs), body).outcome.Created?
    ensures forall i :: 0 <= i <= |reqs| ==>
      !HasId(Run(t, reqs[..i]).users, Create(Run(t, reqs), body).outcome.user.id)
  {
    var newId := Create(Run(t, reqs), body).outcome.user.id;
    forall i | 0 <= i <= |reqs| ensures !HasId(Run(t, reqs[..i]).users, newId) {
      RunPreservesValid(t, reqs[..i]);
      RunPrefixCounter(t, reqs, i);
    }
  }
}
