# Video API request handling, modelled in Dafny

This project models the request handlers of a small video CRUD service. The Flask
resource `resources/video.py` serves one entity, a video `(id, name, views, likes)`,
kept in a SQL table. The model turns that table into an immutable `map<int, Video>`.
Each handler becomes a pure function from the store and the request to a `Reply`. A
`Reply` holds the status code, the payload (empty, one record, a list, or an error) and
the store as it stands after the request.

Modules, leaf first:

- `Wrappers` (`wrappers.dfy`): `Option` and `Result`.
- `Records` (`records.dfy`): the stored `Video`, its wire form `VideoView`, and response
  marshalling (the `resource_fields` projection).
- `Args` (`args.dfy`): the two argument profiles. The creation profile
  (`video_put_args`) requires all three fields. The update profile
  (`video_update_args`) makes each field optional. This module also holds the partial
  merge, and the handler's `for`/`setattr` update loop, proved equal to the merge.
- `Storage` (`storage.dfy`): the table as a map, lookup by id, and the listing of all
  rows.
- `VideoResource` (`resource.dfy`): `abort_if_video_doesnt_exist` and the handlers
  `Video.get/put/patch/delete` and `VideosList.get/post`.
- `Properties` (`properties.dfy`): properties that span several requests, such as
  read-after-write, repeated writes, batches of creations and the walk-through example.

Every error reply (status 400, 404, 409 or 500) leaves the store unchanged. Every
successful write changes at most the key it targets.

Commit failure is an input to the model: the boolean `committed`. Failure means the
session rolls back and the reply is 500. The id that `post` receives from the database
is also an input, `newId`. If that id is already in the table, the insert breaks the
primary key, so the commit fails and the reply is 500 with the store unchanged.

Ids in request paths are `nat`: the route `/api/videos/<int:video_id>` (app.py:42) only
matches non-negative integers.

The handlers check in this order:

- `put` parses its body (video.py:117) before it looks up the id (video.py:119). A
  malformed body for an id that is already taken therefore yields 400, not 409.
- `patch` looks up the id (video.py:158) before it parses the body (video.py:159). A
  malformed body for an absent id therefore yields 404.

## Model

| member | source | states |
|---|---|---|
| `Records.Marshal` | resources/video.py:9-14 | the response view carries the key the record is stored under and exactly its name, views and likes |
| `Args.FirstRejected` | resources/video.py:17-26 | the parser reports nothing iff every argument is acceptable; otherwise it reports a refused argument, and every argument declared before it is accepted |
| `Args.ParseCreate` | resources/video.py:17-20 | the creation profile succeeds iff name, views and likes are all present and well typed, and then yields exactly those values; otherwise it names the first missing or mistyped argument |
| `Args.ParseUpdate` | resources/video.py:23-26 | the update profile fails only on a mistyped argument; on success each field is set iff it was supplied, with the supplied value |
| `Args.ApplyPatch` | resources/video.py:159-162 | walking the parsed items, skipping `None` and assigning the rest, yields the field-wise partial merge |
| `Args.MergeNoChange` | resources/video.py:159-161 | an update with every field `None` leaves the record unchanged |
| `Args.MergeIdempotent` | resources/video.py:159-162 | applying the same update twice equals applying it once |
| `Storage.Find` | resources/video.py:35 | lookup by primary key finds a record iff the key is stored, and then it finds the stored record |
| `Storage.All` | resources/video.py:197 | the listing holds one row per stored key, with no key twice, and each row matches the stored record |
| `VideoResource.AbortIfVideoDoesntExist` | resources/video.py:28-39 | yields the stored record iff the id is present; otherwise a 404 failure naming the id |
| `VideoResource.Get` | resources/video.py:83-86 | status 200 iff the id is stored, with exactly that record; otherwise 404 naming the id; the store never changes |
| `VideoResource.Put` | resources/video.py:117-129 | an incomplete body gives 400 naming a refused argument; a complete body for a taken id gives 409; a failed commit gives 500; all three leave the store unchanged; otherwise 201, the id maps to the supplied record and no other key changes |
| `VideoResource.Patch` | resources/video.py:158-168 | an absent id gives 404 and a mistyped argument 400; a failed commit gives 500; all leave the store unchanged; otherwise 200, each supplied field replaces the stored one, each omitted field keeps its value, and no other key changes |
| `VideoResource.Delete` | resources/video.py:189-192 | an absent id gives 404 with the store unchanged; otherwise 204 with an empty body and exactly that key removed |
| `VideoResource.List` | resources/video.py:196-198 | status 200 with a list that enumerates the store exactly once per record; the store is unchanged |
| `VideoResource.Post` | resources/video.py:221-229 | an incomplete body gives 400; a failed commit, including one whose assigned id is already taken, gives 500; both leave the store unchanged; otherwise 201 and the store gains exactly the new id, mapped to the supplied record |
| `Properties.GetAfterPut` | resources/video.py:122-129 | after a successful creation with an explicit id, reading that id returns 200 and the supplied name, views and likes |
| `Properties.GetAfterPost` | resources/video.py:222-229 | after a successful creation with an assigned id, reading that id returns the supplied record |
| `Properties.PutTwiceConflicts` | resources/video.py:119-121 | a second creation with the same id is a 409 and the first record survives |
| `Properties.CreateValidationIgnoresStore` | resources/video.py:117-121 | an incomplete creation body gets the same 400 reply whatever the store, the id or the commit outcome |
| `Properties.PatchOnlyViews` | resources/video.py:159-162 | updating only views changes only the views of that record |
| `Properties.PatchEmptyIsIdentity` | resources/video.py:158-168 | an update with no fields leaves the store unchanged, and when the commit succeeds it returns the stored record |
| `Properties.PatchIdempotent` | resources/video.py:158-168 | repeating a valid update yields the same reply and store as doing it once |
| `Properties.GetAfterDelete` | resources/video.py:189-192 | after a delete the id reads as 404, and a second delete is a 404 with no effect |
| `Properties.PutAllAddsEach` | resources/video.py:122-129 | N creations with distinct fresh ids add exactly N records, each as supplied, and keep every existing record |
| `Properties.ListAfterCreates` | resources/video.py:196-198 | listing after N such creations into an empty store returns exactly N records, one per creation |
| `Properties.Scenario` | resources/video.py:84-192 | create video 1, set its likes to 5, delete it, then read it: 201, 200 with the merged record, 204, 404 |

## Left out

- `app.py`: application construction, configuration, Swagger setup, route registration
  and `app.run`. The model has no route table. Each handler stands for its route,
  `/api/videos/<int:video_id>` or `/api/videos`. A path with a negative or non-numeric
  id never reaches a handler, so it is not modelled.
- The parser's `type=` conversions. The model does not compute them; a body field is
  only absent, supplied with a value on which the conversion raised (`Malformed`), or
  supplied with the converted value (`Given`). `str` on `name` never raises, so `name`
  is never `Malformed`: `{"name": 5}` is stored as `"5"`. `int` on `views` and `likes`
  also accepts values the model does not distinguish: it turns `3.7` into `3` and
  `true` into `1`. An explicit JSON `null` is treated as absent. For `patch` that is the code's own behaviour. For creation, the parser's
  default `nullable=True` would let a null through to the database, and what the table
  does with it depends on `models/video.py`, which is not part of this model.
- Error messages are kept as the `Failure` constructor and the id or field it names. The
  message text is not modelled.
- Marshalling to JSON is the identity projection onto `(id, name, views, likes)`.
- `VideoResource.Post`: the database picks the id, so the model takes it as the input
  `newId`. The actual auto-increment policy is not modelled.
- `VideoResource.Delete`: the code commits without `try`/`rollback`. A failing commit
  there would surface through the framework's generic error handler, which is outside
  this model, so `Delete` has no 500 path.
- Why a commit fails (constraint violation, connectivity) is not modelled. Only the
  outcome is, as the `committed` input.
- `views` and `likes` are unbounded integers. Any width limit the SQL column imposes is
  not modelled.
- The order in which `VideosList.get` returns rows is whatever the database chooses.
  `Storage.All` fixes no order and promises only an exact enumeration.
- Concurrency and races between simultaneous creations are left to the database's
  uniqueness constraint.
- The `print` calls in `get` and the docstrings are not modelled.
