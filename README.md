# In-memory user table of the Flask users service

The service keeps its users in a module-level list of records `{id, name, email}`,
seeded with Alice (id 1) and Bob (id 2), and a counter `next_user_id` starting at 3.
Five HTTP handlers work on that state: list all users, get one by id, create,
partially update, and delete. This project models that state and those handlers.

- `user_table.dfy`, module `UserTable`: the records, the request bodies and the
  handler outcomes as datatypes (`Outcome` with `Status` mapping to 200, 201, 400,
  404 and 500). It also has the table invariant `Valid`, one pure function per handler
  (`Get`, `Create`, `Update`, `Delete`, plus `Handle` and `Run` for request sequences),
  and the lemmas about them.
- `app.dfy`, module `App`: the state as the source keeps it. `Store` is a class with
  a `users: seq<User>` field and a `nextId: int` field. Its handler methods append,
  overwrite in place and replace the list by a filtered copy. Each method is proved to
  produce exactly the reply and new table that the matching `UserTable` function
  gives, and to keep `Valid`. The linear search behind every by-id handler
  (`FindFirst`) and the filtering list comprehension of delete (`KeepOthers`) are
  loops proved against `Find` and `Remove`.

The table invariant says every id is at least 1 and below the counter, and no two
records share an id. It holds for the seed table. Every request preserves it, and no
request lowers the counter. So the id a create hands out was never held by any record
at any earlier point (`IdsNeverReused`).

## Model

| member | source | states |
|---|---|---|
| `UserTable.Initial` | app.py:6-12 | definition without its own `ensures`: the seed list (Alice with id 1, Bob with id 2) and counter 3; `InitialValid` states its contract |
| `UserTable.Status` | app.py:17-72 | definition without its own `ensures`: the HTTP code of each outcome (200, 201, 400, 404, 500); `ErrorsChangeNothing` states what the error codes promise |
| `UserTable.Create` | app.py:29-44 | definition without its own `ensures`; `CreateContract`, `CreateIgnoresOtherKeys`, `CreatePreservesValid`, `CreatedIdFresh` and `CreateThenGet` state its contract |
| `UserTable.Merge` | app.py:57-58 | definition without its own `ensures`: the two `data.get` writes with the record's old values as defaults; `UpdateContract` and `UpdateIdempotent` state its contract |
| `UserTable.Update` | app.py:48-60 | definition without its own `ensures`; `UpdateAbsent`, `UpdateContract`, `UpdatePreservesValid`, `UpdateThenGet` and `UpdateIdempotent` state its contract |
| `UserTable.Delete` | app.py:64-72 | definition without its own `ensures`; `DeleteAbsent`, `DeleteContract`, `DeleteThenGet` and `DeletePreservesValid` state its contract |
| `UserTable.Handle` | app.py:15-72 | definition without its own `ensures`: dispatch of a request to one of the five handlers; `ReadsLeaveTable`, `ErrorsChangeNothing` and `HandlePreservesValid` state its contract |
| `UserTable.Run` | app.py:15-72 | definition without its own `ensures`: the requests handled one after the other; `RunPreservesValid`, `RunPrefixCounter` and `IdsNeverReused` state its contract |
| `UserTable.InitialValid` | app.py:6-12 | the seed table (ids 1 and 2, counter 3) satisfies the invariant: unique positive ids, all below the counter |
| `UserTable.Find` | app.py:22 | the search returns the first position holding the id, and returns None exactly when no record has it |
| `UserTable.FindIsFirst` | app.py:22 | the first position holding the id is the one the search returns |
| `App.FindFirst` | app.py:22 | the loop scanning the list front to back returns what `Find` specifies |
| `UserTable.Get` | app.py:21-25 | get answers Ok with a stored record carrying the requested id, or NotFound exactly when no record has that id |
| `App.Store.GetUser` | app.py:21-25 | the handler's answer is `Get` of the current table; it reads without modifying |
| `App.Store.GetUsers` | app.py:16-17 | the handler answers with the whole list in insertion order |
| `UserTable.ReadsLeaveTable` | app.py:16-25 | listing answers with all records in order, and neither list nor get changes the table |
| `UserTable.ErrorsChangeNothing` | app.py:25-69 | any request answered with 400, 404 or 500 leaves the list and counter unchanged |
| `UserTable.CreateContract` | app.py:33-44 | BadRequest exactly when the body is `null` or lacks name or email, with nothing changed; otherwise exactly one record is appended, its id is the old counter and its name and email come from the body, the counter rises by 1, and the answer is that record |
| `UserTable.CreateIgnoresOtherKeys` | app.py:36-40 | keys other than name and email have no effect on create |
| `UserTable.CreatePreservesValid` | app.py:36-43 | create keeps ids unique and below the counter, and does not lower the counter |
| `UserTable.CreatedIdFresh` | app.py:37-43 | a created id is larger than every id already stored, so no stored record has it |
| `UserTable.CreateThenGet` | app.py:22-44 | after a create, getting the new id answers with the created record |
| `App.Store.CreateUser` | app.py:29-44 | the handler's new list, counter and answer are those of `Create`, and the invariant is kept |
| `UserTable.UpdateAbsent` | app.py:49-52 | update of an unknown id answers NotFound and changes nothing, whatever the body |
| `UserTable.UpdateContract` | app.py:49-60 | update of a known id changes only the first record with it: the id and position stay, name and email are taken from the body where it has them, the answer is the updated record, and other records, order and counter are unchanged; a JSON `null` body answers 500 with nothing changed |
| `UserTable.UpdatePreservesValid` | app.py:57-58 | update keeps the invariant and the counter |
| `UserTable.UpdateThenGet` | app.py:57-60 | after an update, getting the id answers with the updated record |
| `UserTable.UpdateIdempotent` | app.py:57-58 | sending the same update twice gives the same table and answer as sending it once |
| `App.Store.UpdateUser` | app.py:48-60 | the handler's in-place overwrite gives the table and answer of `Update`, and the invariant is kept |
| `UserTable.Remove` | app.py:71 | no record of the filtered list has the deleted id, and the list does not grow |
| `UserTable.RemoveAbsent` | app.py:71 | filtering out an id nobody holds leaves the list as it was |
| `UserTable.RemoveConcat` | app.py:71 | filtering distributes over concatenation, so the order of the kept records is the original order |
| `UserTable.RemoveKeepsOthers` | app.py:71 | every record with a different id survives the filter |
| `App.KeepOthers` | app.py:71 | the loop building the filtered list returns what `Remove` specifies |
| `UserTable.RemoveExactly` | app.py:66-71 | with unique ids, filtering out a present id removes exactly the record at its position and keeps the rest in order |
| `UserTable.DeleteAbsent` | app.py:66-69 | delete of an unknown id answers NotFound and changes nothing |
| `UserTable.DeleteContract` | app.py:66-72 | delete of a known id answers Deleted, leaves the list without exactly that record and the others in order, and leaves the counter unchanged |
| `UserTable.DeleteThenGet` | app.py:22-71 | after a delete, getting the id answers NotFound |
| `UserTable.DeletePreservesValid` | app.py:71 | delete keeps the invariant and the counter |
| `App.Store.DeleteUser` | app.py:64-72 | the handler's replacement of the list gives the table and answer of `Delete`, and the invariant is kept |
| `App.Store.constructor` | app.py:6-12 | the store starts as the seed table and satisfies the invariant |
| `UserTable.HandlePreservesValid` | app.py:15-72 | every handler keeps the invariant and never lowers the counter |
| `UserTable.RunPreservesValid` | app.py:15-72 | any sequence of requests keeps the invariant and never lowers the counter |
| `UserTable.RunPrefixCounter` | app.py:12-43 | the counter at any point of a run is at most the counter at its end |
| `UserTable.IdsNeverReused` | app.py:6-71 | after any sequence of requests, a created id was held by no record at any point of that sequence, deleted records included |

## Left out

- Flask routing, `jsonify`, `request.get_json()` and `app.run` are left out. A handler takes an already decoded body: `None` for a JSON `null` body, otherwise a `Payload`. It returns an `Outcome`, and `Status` gives that outcome's HTTP code.
- Request bodies that are JSON but not objects (arrays, strings, numbers) are left out. On such bodies the source's `in` and `.get` behave differently or raise.
- Field values are strings. The source stores whatever JSON value the client sent for `name` and `email`, including `null`, numbers and nested objects.
- PUT with a JSON `null` body: the source's `data.get` raises on `None` after the lookup has succeeded, and Flask answers 500. The model gives `ServerError` with the table unchanged.
- A missing, undecodable or non-JSON body is not modelled apart from `null`. How `request.get_json()` treats it depends on the route and the Flask version:
  - POST: `get_json` (app.py:31) rejects the body with 400 (Flask 2.1-2.2) or 415 (Flask 2.3 and later) before the check at app.py:33; the model answers `BadRequest` for `null`.
  - PUT to an unknown id: `get_json` is only reached after the lookup (app.py:54), so the answer is 404, as in the model.
  - PUT to a known id, Flask 2.1 and later: the source answers 400 or 415 where the model answers `ServerError`; the table is unchanged either way.
  - Flask before 2.1: `get_json` returns `None` for a body without a JSON content type, which is the model's `None`.
- Thread safety of the shared list and counter under concurrent requests is left out: the model is sequential.
- `models.py` is not part of this model. It is a declarative database and serialisation schema whose uniqueness and nullability the database library enforces, with random UUIDs and wall-clock timestamps.
- Pagination, age and email validation, soft delete and restore, and username or email uniqueness checks are not in this code and are not modelled.
