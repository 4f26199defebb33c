/** The storage gateway: the video table abstracted as a map from id to record, with
    transactional commit and rollback. */
module Storage {
  import opened Wrappers
  import opened Records

  /** The video table, keyed by primary key. */
  type Store = map<int, Video>

  /** Lookup by primary key (`filter_by(id=...).first()`). */
  function Find(s: Store, id: int): (r: Option<Video>)
    ensures r.Some? <==> id in s
    ensures r.Some? ==> r.value == s[id]
  {
    if id in s then Some(s[id]) else None
  }

  /** `s'` differs from `s` at most at key `id`. */
  ghost predicate OnlyKeyChanged(s: Store, s': Store, id: int)
  {
    forall k :: k != id ==> (k in s <==> k in s') && (k in s ==> s[k] == s'[k])
  }

  /** `rows` lists every record of `s` exactly once, each under its own key. */
  ghost predicate Enumerates(rows: seq<VideoView>, s: Store)
  {
    && |rows| == |s|
    && (forall i :: 0 <= i < |rows| ==> rows[i].id in s && Unmarshal(rows[i]) == s[rows[i].id])
    && (forall id :: id in s ==> exists i :: 0 <= i < |rows| && rows[i].id == id)
    && (forall i, j :: 0 <= i < j < |rows| ==> rows[i].id != rows[j].id)
  }

  /** `query.all()`: every stored record, in an order the database chooses. */
  method All(s: Store) returns (rows: seq<VideoView>)
    ensures Enumerates(rows, s)
  {
    rows := [];
    var rest: set<int> := s.Keys;
    // where each listed key sits in `rows`
    ghost var at: map<int, nat> := map[];
    while rest != {}
      invariant rest <= s.Keys && at.Keys == s.Keys - rest
      invariant |rows| + |rest| == |s.Keys|
      invariant forall i :: 0 <= i < |rows| ==> rows[i].id in at
      invariant forall i :: 0 <= i < |rows| ==> Unmarshal(rows[i]) == s[rows[i].id]
      invariant forall id :: id in at ==> at[id] < |rows| && rows[at[id]].id == id
      invariant forall i, j :: 0 <= i < j < |rows| ==> rows[i].id != rows[j].id
      decreases rest
    {
      // the non-empty set has a member, which is what lets `:|` pick one
      if forall x :: x !in rest {
        assert false;
      }
      var k: int :| k in rest;
      at := at[k := |rows|];
      rows := rows + [Marshal(k, s[k])];
      rest := rest - {k};
    }
    assert forall id :: id in s ==> 0 <= at[id] < |rows| && rows[at[id]].id == id;
  }
}
