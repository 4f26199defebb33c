/** The video resource: one pure function per request handler. Each takes the store (and
    whatever the request carries) and yields the status code, the response payload and the
    store as it stands once the request is over. The id in a request path is matched by an
    integer route converter, which accepts only non-negative numbers, hence `nat`. */
module VideoResource {
  import opened Wrappers
  import opened Records
  import opened Args
  import opened Storage

  const OK := 200
  const CREATED := 201
  const NO_CONTENT := 204
  const BAD_REQUEST := 400
  const NOT_FOUND := 404
  const CONFLICT := 409
  const SERVER_ERROR := 500

  /** Why a request was aborted; each carries what its message names. */
  datatype Failure =
    | NotFound(id: int)       // no video with that id
    | Conflict(id: int)       // a video with that id already exists
    | Invalid(field: Field)   // the argument the parser refused
    | StorageError            // the commit failed and was rolled back

  function StatusOf(f: Failure): int
  {
    match f
    case NotFound(_) => NOT_FOUND
    case Conflict(_) => CONFLICT
    case Invalid(_) => BAD_REQUEST
    case StorageError => SERVER_ERROR
  }

  /** A response body: nothing, one marshalled record, a list of them, or an error message. */
  datatype Payload = Empty | One(video: VideoView) | Many(videos: seq<VideoView>) | Error(failure: Failure)

  datatype Reply = Reply(status: int, payload: Payload, store: Store)

  /** An aborted request: the failure's status and message, the store as it was. */
  function Abort(s: Store, f: Failure): Reply
  {
    Reply(StatusOf(f), Error(f), s)
  }

  /** `abort_if_video_doesnt_exist`: the stored record, or a 404 naming the id. */
  function AbortIfVideoDoesntExist(s: Store, id: int): (r: Result<Video, Failure>)
    ensures r.Success? <==> id in s
    ensures r.Success? ==> r.value == s[id]
    ensures r.Failure? ==> r.error == NotFound(id) && StatusOf(r.error) == 404
  {
    match Find(s, id)
    case None => Failure(NotFound(id))
    case Some(v) => Success(v)
  }

  /** `GET /api/videos/<id>`. */
  function Get(s: Store, id: nat): (r: Reply)
    ensures r.store == s
    ensures id in s <==> r.status == 200
    ensures id in s ==> r.payload.One? && r.payload.video.id == id && Unmarshal(r.payload.video) == s[id]
    ensures id !in s ==> r.status == 404 && r.payload == Error(NotFound(id))
  {
    match AbortIfVideoDoesntExist(s, id)
    case Failure(f) => Abort(s, f)
    case Success(v) => Reply(OK, One(Marshal(id, v)), s)
  }

  /** `PUT /api/videos/<id>`: create under a client-chosen id. The body is parsed first,
      then the id is looked up (409 if taken), and only then is the record added. */
  function Put(s: Store, id: nat, b: Body, committed: bool): (r: Reply)
    ensures r.status >= 400 ==> r.store == s
    ensures !Complete(b) ==> r.status == 400 && r.store == s
    ensures r.status == 400 ==> r.payload.Error? && r.payload.failure.Invalid?
                                && Rejects(b, r.payload.failure.field, true)
    ensures Complete(b) && id in s ==> r.status == 409 && r.payload == Error(Conflict(id))
    ensures Complete(b) && id !in s && !committed ==> r.status == 500 && r.payload == Error(StorageError)
    ensures Complete(b) && id !in s && committed ==>
              && r.status == 201
              && id in r.store && r.store[id] == Video(b.name.value, b.views.value, b.likes.value)
              && OnlyKeyChanged(s, r.store, id)
              && r.payload == One(Marshal(id, r.store[id]))
  {
    match ParseCreate(b)
    case Failure(f) => Abort(s, Invalid(f))
    case Success(v) =>
      if Find(s, id).Some? then Abort(s, Conflict(id))
      else if !committed then Abort(s, StorageError)
      else Reply(CREATED, One(Marshal(id, v)), s[id := v])
  }

  /** `PATCH /api/videos/<id>`: the record must exist (404 first); the body is then parsed
      against the update profile and merged field by field, and the change committed.
      A field supplied in the body replaces the stored value; a field left out keeps it. */
  function Patch(s: Store, id: nat, b: Body, committed: bool): (r: Reply)
    ensures r.status >= 400 ==> r.store == s
    ensures id !in s ==> r.status == 404 && r.payload == Error(NotFound(id))
    ensures id in s && (b.views.Malformed? || b.likes.Malformed?) ==>
              r.status == 400 && r.payload.Error? && r.payload.failure.Invalid?
              && Rejects(b, r.payload.failure.field, false)
    ensures id in s && !b.views.Malformed? && !b.likes.Malformed? ==>
              if committed then
                && r.status == 200 && id in r.store
                && r.store[id].name == (if b.name.Given? then b.name.value else s[id].name)
                && r.store[id].views == (if b.views.Given? then b.views.value else s[id].views)
                && r.store[id].likes == (if b.likes.Given? then b.likes.value else s[id].likes)
                && OnlyKeyChanged(s, r.store, id)
                && r.payload == One(Marshal(id, r.store[id]))
              else r.status == 500 && r.payload == Error(StorageError)
  {
    match AbortIfVideoDoesntExist(s, id)
    case Failure(f) => Abort(s, f)
    case Success(v) =>
      match ParseUpdate(b)
      case Failure(f) => Abort(s, Invalid(f))
      case Success(p) =>
        var updated := Merge(v, p);
        if !committed then Abort(s, StorageError)
        else Reply(OK, One(Marshal(id, updated)), s[id := updated])
  }

  /** `DELETE /api/videos/<id>`: 404 if absent, otherwise the record is removed and the
      reply is 204 with an empty body. */
  function Delete(s: Store, id: nat): (r: Reply)
    ensures id !in s ==> r.status == 404 && r.payload == Error(NotFound(id)) && r.store == s
    ensures id in s ==> r.status == 204 && r.payload == Empty
    ensures id in s ==> id !in r.store && r.store.Keys == s.Keys - {id} && OnlyKeyChanged(s, r.store, id)
  {
    match AbortIfVideoDoesntExist(s, id)
    case Failure(f) => Abort(s, f)
    case Success(_) => Reply(NO_CONTENT, Empty, s - {id})
  }

  /** `GET /api/videos`: every stored record, marshalled, in the order storage lists them. */
  method List(s: Store) returns (r: Reply)
    ensures r.status == 200 && r.store == s
    ensures r.payload.Many? && Enumerates(r.payload.videos, s)
  {
    var rows := All(s);
    r := Reply(OK, Many(rows), s);
  }

  /** `POST /api/videos`: create under an id the storage layer assigns. `newId` is that
      id. An id already in the table breaks the primary key, so the commit fails and is
      rolled back, exactly like any other failed commit. */
  function Post(s: Store, b: Body, newId: int, committed: bool): (r: Reply)
    ensures r.status >= 400 ==> r.store == s
    ensures !Complete(b) ==> r.status == 400 && r.payload.Error? && r.payload.failure.Invalid?
                             && Rejects(b, r.payload.failure.field, true)
    ensures Complete(b) && (!committed || newId in s) ==>
              r.status == 500 && r.payload == Error(StorageError)
    ensures Complete(b) && committed && newId !in s ==>
              && r.status == 201
              && r.store.Keys == s.Keys + {newId}
              && r.store[newId] == Video(b.name.value, b.views.value, b.likes.value)
              && OnlyKeyChanged(s, r.store, newId)
              && r.payload == One(Marshal(newId, r.store[newId]))
  {
    match ParseCreate(b)
    case Failure(f) => Abort(s, Invalid(f))
    case Success(v) =>
      if !committed || newId in s then Abort(s, StorageError)
      else Reply(CREATED, One(Marshal(newId, v)), s[newId := v])
  }
}
