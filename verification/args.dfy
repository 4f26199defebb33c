/** The two argument profiles of the video resource: the creation profile, where `name`,
    `views` and `likes` are all required, and the update profile, where each is optional. */
module Args {
  import opened Wrappers
  import opened Records

  /** One argument of a request body as the parser sees it: not supplied (or null), supplied
      with a value on which the argument's type conversion raised, or supplied and converted. */
  datatype Arg<T> = Absent | Malformed | Given(value: T)

  /** The `name` argument is converted with `str`, which accepts every non-null value, so it
      is never refused for its type. */
  type NameArg = a: Arg<string> | !a.Malformed? witness Absent

  /** A request body; any keys other than these three are ignored by the parser. */
  datatype Body = Body(name: NameArg, views: Arg<int>, likes: Arg<int>)

  /** The declared arguments, in the order they are added to each parser. */
  datatype Field = Name | Views | Likes

  /** Position of an argument in the parser's declaration order. */
  function Rank(f: Field): nat
  {
    match f
    case Name => 0
    case Views => 1
    case Likes => 2
  }

  /** Does the parser refuse argument `f` of `b`? A wrongly typed value is always refused;
      a missing one only when the argument is declared required. */
  predicate Rejects(b: Body, f: Field, required: bool)
  {
    match f
    case Name => required && b.name.Absent?
    case Views => b.views.Malformed? || (required && b.views.Absent?)
    case Likes => b.likes.Malformed? || (required && b.likes.Absent?)
  }

  /** The argument the parser reports: it stops at the first refused argument in
      declaration order, and reports nothing when every argument is accepted. */
  function FirstRejected(b: Body, required: bool): (r: Option<Field>)
    ensures r.None? <==> forall f :: !Rejects(b, f, required)
    ensures r.Some? ==> Rejects(b, r.value, required)
    ensures r.Some? ==> forall f :: Rank(f) < Rank(r.value) ==> !Rejects(b, f, required)
  {
    if Rejects(b, Name, required) then Some(Name)
    else if Rejects(b, Views, required) then Some(Views)
    else if Rejects(b, Likes, required) then Some(Likes)
    else None
  }

  /** A body that passes the creation profile: all three arguments present and well typed. */
  predicate Complete(b: Body)
  {
    b.name.Given? && b.views.Given? && b.likes.Given?
  }

  /** The record a complete creation body describes. */
  function Supplied(b: Body): Video
    requires Complete(b)
  {
    Video(b.name.value, b.views.value, b.likes.value)
  }

  /** The creation profile (`video_put_args`): yields the record to create, or the first
      argument that is missing or wrongly typed. */
  function ParseCreate(b: Body): (r: Result<Video, Field>)
    ensures r.Success? <==> b.name.Given? && b.views.Given? && b.likes.Given?
    ensures r.Success? ==> r.value.name == b.name.value && r.value.views == b.views.value
                           && r.value.likes == b.likes.value
    ensures r.Failure? ==> Rejects(b, r.error, true)
    ensures r.Failure? ==> forall f :: Rank(f) < Rank(r.error) ==> !Rejects(b, f, true)
  {
    match FirstRejected(b, true)
    case Some(f) => Failure(f)
    case None =>
      assert !Rejects(b, Name, true) && !Rejects(b, Views, true) && !Rejects(b, Likes, true);
      Success(Supplied(b))
  }

  /** The parsed update arguments: `None` for each field to leave as stored. */
  datatype Update = Update(name: Option<string>, views: Option<int>, likes: Option<int>)

  /** The update that changes nothing. */
  const NoChange := Update(None, None, None)

  function Optional<T>(a: Arg<T>): Option<T>
  {
    if a.Given? then Some(a.value) else None
  }

  /** The update profile (`video_update_args`): every argument optional; only a wrongly
      typed value is refused. */
  function ParseUpdate(b: Body): (r: Result<Update, Field>)
    ensures r.Success? <==> !b.views.Malformed? && !b.likes.Malformed?
    ensures r.Success? ==> (r.value.name.Some? <==> b.name.Given?)
                           && (r.value.views.Some? <==> b.views.Given?)
                           && (r.value.likes.Some? <==> b.likes.Given?)
    ensures r.Success? && b.name.Given? ==> r.value.name.value == b.name.value
    ensures r.Success? && b.views.Given? ==> r.value.views.value == b.views.value
    ensures r.Success? && b.likes.Given? ==> r.value.likes.value == b.likes.value
    ensures r.Failure? ==> Rejects(b, r.error, false)
    ensures r.Failure? ==> forall f :: Rank(f) < Rank(r.error) ==> !Rejects(b, f, false)
  {
    match FirstRejected(b, false)
    case Some(f) => Failure(f)
    case None =>
      assert !Rejects(b, Name, false) && !Rejects(b, Views, false) && !Rejects(b, Likes, false);
      Success(Update(Optional(b.name), Optional(b.views), Optional(b.likes)))
  }

  /** Partial merge: each field the update carries replaces the stored one; each `None`
      keeps the stored value. */
  function Merge(v: Video, p: Update): Video
  {
    Video(
      if p.name.Some? then p.name.value else v.name,
      if p.views.Some? then p.views.value else v.views,
      if p.likes.Some? then p.likes.value else v.likes)
  }

  /** One `setattr` of the update loop. */
  datatype Setting = NameTo(name: string) | ViewsTo(views: int) | LikesTo(likes: int)

  function SetAttr(v: Video, s: Setting): Video
  {
    match s
    case NameTo(n) => v.(name := n)
    case ViewsTo(n) => v.(views := n)
    case LikesTo(n) => v.(likes := n)
  }

  /** The parsed update as the `(key, value)` items the handler iterates over, in
      declaration order, a `None` value standing for an argument that was not supplied. */
  function Items(p: Update): seq<Option<Setting>>
  {
    [ if p.name.Some? then Some(NameTo(p.name.value)) else None,
      if p.views.Some? then Some(ViewsTo(p.views.value)) else None,
      if p.likes.Some? then Some(LikesTo(p.likes.value)) else None ]
  }

  /** The first `i` items of the update applied. */
  function MergePrefix(v: Video, p: Update, i: nat): Video
  {
    Merge(v, Update(if 0 < i then p.name else None,
                   if 1 < i then p.views else None,
                   if 2 < i then p.likes else None))
  }

  /** The update loop as the handler runs it: walk the parsed items, skip every `None`,
      assign every other value onto the record. Its result is the partial merge. */
  method ApplyPatch(v: Video, p: Update) returns (r: Video)
    ensures r == Merge(v, p)
  {
    var items := Items(p);
    r := v;
    for i := 0 to |items|
      invariant r == MergePrefix(v, p, i)
    {
      if items[i].None? {
        continue;
      }
      r := SetAttr(r, items[i].value);
    }
  }

  /** An update with no fields leaves the record as it is. */
  lemma MergeNoChange(v: Video)
    ensures Merge(v, NoChange) == v
  {
  }

  /** Applying the same update twice is the same as applying it once. */
  lemma MergeIdempotent(v: Video, p: Update)
    ensures Merge(Merge(v, p), p) == Merge(v, p)
  {
  }
}
