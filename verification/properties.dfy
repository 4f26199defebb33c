/** Properties that relate several requests: what a later read observes after a write,
    what a repeated write does, and what a batch of creations leaves in the store. */
module Properties {
  import opened Records
  import opened Args
  import opened Storage
  import opened VideoResource

  /** A body that supplies every field. */
  function Full(name: string, views: int, likes: int): Body
  {
    Body(Given(name), Given(views), Given(likes))
  }

  /** A creation that succeeds is observed by a later read: the read returns 200 with the
      id and exactly the supplied name, views and likes. */
  lemma GetAfterPut(s: Store, id: nat, b: Body)
    requires Complete(b) && id !in s
    ensures Put(s, id, b, true).status == 201
    ensures var g := Get(Put(s, id, b, true).store, id);
            g.status == 200 && g.payload.One? && g.payload.video ==
              VideoView(id, b.name.value, b.views.value, b.likes.value)
  {
    var s' := Put(s, id, b, true).store;
    assert s'[id] == Supplied(b);
  }

  /** The same, for a creation whose id the storage layer assigns. */
  lemma GetAfterPost(s: Store, b: Body, newId: nat)
    requires Complete(b) && newId !in s
    ensures var g := Get(Post(s, b, newId, true).store, newId);
            g.status == 200 && g.payload.One? && g.payload.video ==
              VideoView(newId, b.name.value, b.views.value, b.likes.value)
  {
    var s' := Post(s, b, newId, true).store;
    assert s'[newId] == Supplied(b);
  }

  /** Repeating a creation with the same id is a conflict and leaves the first record. */
  lemma PutTwiceConflicts(s: Store, id: nat, b: Body, b': Body, committed: bool)
    requires Complete(b) && Complete(b') && id !in s
    ensures var s1 := Put(s, id, b, true).store;
            var r := Put(s1, id, b', committed);
            r.status == 409 && r.store == s1 && r.store[id] == Supplied(b)
  {
    var s1 := Put(s, id, b, true).store;
    assert s1[id] == Supplied(b);
  }

  /** Validation comes before any use of the store: an incomplete creation body gets the
      same reply whatever the store holds and whether or not the id is taken. */
  lemma CreateValidationIgnoresStore(s1: Store, s2: Store, id1: nat, id2: nat, newId: int, b: Body, c1: bool, c2: bool)
    requires !Complete(b)
    ensures Put(s1, id1, b, c1).status == Put(s2, id2, b, c2).status == 400
    ensures Put(s1, id1, b, c1).payload == Put(s2, id2, b, c2).payload
    ensures Post(s2, b, newId, c2).payload == Put(s1, id1, b, c1).payload
  {
  }

  /** Updating only `views` leaves `name` and `likes` as stored. */
  lemma PatchOnlyViews(s: Store, id: nat, views: int)
    requires id in s
    ensures var r := Patch(s, id, Body(Absent, Given(views), Absent), true);
            r.status == 200 && r.store == s[id := s[id].(views := views)]
  {
  }

  /** An update with no fields changes nothing: the store is as before whether or not the
      commit goes through, and on success the reply is the stored record itself. */
  lemma PatchEmptyIsIdentity(s: Store, id: nat, committed: bool)
    requires id in s
    ensures var r := Patch(s, id, Body(Absent, Absent, Absent), committed);
            && r.store == s
            && (committed ==> r.status == 200 && r.payload == One(Marshal(id, s[id])))
  {
    MergeNoChange(s[id]);
  }

  /** Repeating an update is the same as doing it once. */
  lemma PatchIdempotent(s: Store, id: nat, b: Body)
    requires id in s && !b.views.Malformed? && !b.likes.Malformed?
    ensures var once := Patch(s, id, b, true);
            Patch(once.store, id, b, true) == once
  {
    var p := ParseUpdate(b).value;
    MergeIdempotent(s[id], p);
    var s1 := Patch(s, id, b, true).store;
    assert s1 == s[id := Merge(s[id], p)];
    assert s1[id := Merge(s1[id], p)] == s1;
  }

  /** After a delete the id reads as absent, and a second delete is a 404 with no effect. */
  lemma GetAfterDelete(s: Store, id: nat)
    requires id in s
    ensures var s' := Delete(s, id).store;
            && Get(s', id).status == 404
            && Delete(s', id).status == 404 && Delete(s', id).store == s'
  {
  }

  /** Creations with explicit ids, applied in order; every commit succeeds. */
  function PutAll(s: Store, reqs: seq<(nat, Body)>): Store
    decreases |reqs|
  {
    if |reqs| == 0 then s
    else PutAll(Put(s, reqs[0].0, reqs[0].1, true).store, reqs[1..])
  }

  /** A batch of creations whose ids are distinct and not yet taken, and whose bodies are
      all complete. */
  ghost predicate FreshBatch(s: Store, reqs: seq<(nat, Body)>)
  {
    && (forall i :: 0 <= i < |reqs| ==> reqs[i].0 !in s && Complete(reqs[i].1))
    && (forall i, j :: 0 <= i < j < |reqs| ==> reqs[i].0 != reqs[j].0)
  }

  /** N creations with distinct fresh ids add exactly N records, each as supplied, and keep
      every record already stored. */
  lemma {:induction false} PutAllAddsEach(s: Store, reqs: seq<(nat, Body)>)
    requires FreshBatch(s, reqs)
    ensures |PutAll(s, reqs)| == |s| + |reqs|
    ensures forall k :: k in s ==> k in PutAll(s, reqs) && PutAll(s, reqs)[k] == s[k]
    ensures forall i :: 0 <= i < |reqs| ==>
              reqs[i].0 in PutAll(s, reqs) && PutAll(s, reqs)[reqs[i].0] == Supplied(reqs[i].1)
    ensures forall k :: k in PutAll(s, reqs) ==> k in s || exists i :: 0 <= i < |reqs| && reqs[i].0 == k
    decreases |reqs|
  {
    if |reqs| > 0 {
      var id := reqs[0].0;
      var s1 := Put(s, id, reqs[0].1, true).store;
      assert s1 == s[id := Supplied(reqs[0].1)];
      var rest := reqs[1..];
      assert FreshBatch(s1, rest) by {
        forall i | 0 <= i < |rest|
          ensures rest[i].0 !in s1
        {
          assert rest[i] == reqs[i + 1];
        }
      }
      PutAllAddsEach(s1, rest);
      assert PutAll(s, reqs) == PutAll(s1, rest);
      forall i | 0 <= i < |reqs|
        ensures reqs[i].0 in PutAll(s, reqs) && PutAll(s, reqs)[reqs[i].0] == Supplied(reqs[i].1)
      {
        if i > 0 {
          assert reqs[i] == rest[i - 1];
        }
      }
      forall k | k in PutAll(s, reqs)
        ensures k in s || exists i :: 0 <= i < |reqs| && reqs[i].0 == k
      {
        if k !in s1 {
          var j :| 0 <= j < |rest| && rest[j].0 == k;
          assert reqs[j + 1].0 == k;
        } else if k !in s {
          assert reqs[0].0 == k;
        }
      }
    }
  }

  /** Listing after N creations with distinct ids into an empty store returns exactly N
      records, each one as it was created. */
  lemma ListAfterCreates(reqs: seq<(nat, Body)>, rows: seq<VideoView>)
    requires FreshBatch(map[], reqs)
    requires Enumerates(rows, PutAll(map[], reqs))
    ensures |rows| == |reqs|
    ensures forall i :: 0 <= i < |reqs| ==>
              exists j :: 0 <= j < |rows| && rows[j] == Marshal(reqs[i].0, Supplied(reqs[i].1))
  {
    PutAllAddsEach(map[], reqs);
    var s := PutAll(map[], reqs);
    forall i | 0 <= i < |reqs|
      ensures exists j :: 0 <= j < |rows| && rows[j] == Marshal(reqs[i].0, Supplied(reqs[i].1))
    {
      var id := reqs[i].0;
      assert id in s;
      var j :| 0 <= j < |rows| && rows[j].id == id;
      assert rows[j] == Marshal(id, Unmarshal(rows[j]));
    }
  }

  /** The walk-through of the service: create video 1, set its likes, delete it, read it. */
  lemma Scenario()
    ensures var s1 := Put(map[], 1, Full("intro", 10, 2), true);
            && s1.status == 201 && s1.payload == One(VideoView(1, "intro", 10, 2))
            && var s2 := Patch(s1.store, 1, Body(Absent, Absent, Given(5)), true);
            && s2.status == 200 && s2.payload == One(VideoView(1, "intro", 10, 5))
            && var s3 := Delete(s2.store, 1);
            && s3.status == 204 && s3.payload == Empty
            && Get(s3.store, 1).status == 404
  {
    var s1 := Put(map[], 1, Full("intro", 10, 2), true);
    assert s1.store == map[1 := Video("intro", 10, 2)];
    var s2 := Patch(s1.store, 1, Body(Absent, Absent, Given(5)), true);
    assert s2.store == map[1 := Video("intro", 10, 5)];
  }
}
