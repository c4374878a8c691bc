/**
 Properties that relate several handlers: the invariants every write keeps,
 what a read sees after a write, and which writes can be repeated harmlessly.
 */
module StoreProperties {
  import opened Types
  import opened Sequences
  import opened Resolutions
  import opened IsoDate
  import opened Validation
  import opened VideoStore

  /** What validation guarantees about a stored record. */
  predicate WellFormed(v: Video)
  {
    && 1 <= |v.title| <= 40
    && 1 <= |v.author| <= 20
    && HasAccepted(v.availableResolutions)
    && (v.minAgeRestriction.Some? ==> 0 <= v.minAgeRestriction.value <= 18)
  }

  predicate AllWellFormed(store: seq<Video>)
  {
    forall k :: 0 <= k < |store| ==> WellFormed(store[k])
  }

  /** No two records share an id. */
  predicate UniqueIds(store: seq<Video>)
  {
    forall i, j :: 0 <= i < j < |store| ==> store[i].id != store[j].id
  }

  /** The list handler returns the store; the get handler finds an id exactly when some listed record has it. */
  lemma ListAgreesWithGet(store: seq<Video>, id: int)
    ensures List(store).store == store
    ensures List(store).response == Records(store)
    ensures GetById(store, id).response.Record? <==> exists k :: 0 <= k < |store| && store[k].id == id
    ensures GetById(store, id).response.Record? ==> GetById(store, id).response.video in List(store).response.videos
  {
  }

  /** After a reset, the list is empty and no id can be found. */
  lemma ResetEmptiesStore(store: seq<Video>, id: int)
    ensures ResetAll(store).response == Done
    ensures List(ResetAll(store).store).response == Records([])
    ensures GetById(ResetAll(store).store, id).response == NotFound
  {
  }

  /** A record appended by a successful create is found under its id, provided the clock gave a fresh id. */
  lemma GetAfterCreate(store: seq<Video>, body: Body, clock: Clock)
    requires Create(store, body, clock).response.Record?
    requires !HasId(store, clock.nowMillis)
    ensures GetById(Create(store, body, clock).store, clock.nowMillis).response == Create(store, body, clock).response
  {
    var s := Create(store, body, clock);
    var g := GetById(s.store, clock.nowMillis);
    assert s.store[|store|] == s.response.video;
    assert forall k :: 0 <= k < |store| ==> s.store[k] == store[k];
  }

  /** After a delete, the id is gone. */
  lemma GetAfterDelete(store: seq<Video>, id: int)
    ensures !HasId(DeleteById(store, id).store, id)
    ensures GetById(DeleteById(store, id).store, id).response == NotFound
  {
    var s := DeleteById(store, id);
    forall k | 0 <= k < |s.store|
      ensures s.store[k].id != id
    {
      assert s.store[k] in s.store;
    }
  }

  /** A second delete of the same id changes nothing and answers NotFound. */
  lemma DeleteIsIdempotent(store: seq<Video>, id: int)
    ensures DeleteById(DeleteById(store, id).store, id) == Step(DeleteById(store, id).store, NotFound)
  {
    GetAfterDelete(store, id);
  }

  /** An update keeps every record's id and position, and leaves records with another id alone. */
  lemma UpdateKeepsOthers(store: seq<Video>, id: int, body: Body, roundTrips: string -> bool)
    ensures |Update(store, id, body, roundTrips).store| == |store|
    ensures forall k :: 0 <= k < |store| ==> Update(store, id, body, roundTrips).store[k].id == store[k].id
    ensures forall k :: 0 <= k < |store| && store[k].id != id ==> Update(store, id, body, roundTrips).store[k] == store[k]
  {
  }

  /**
   The record a successful update writes: the body's title, author, age and
   download flag; the body's creation time when it sends a non-empty one,
   else (absent or empty) the old one; always the body's publication date (a
   valid one is never empty, so the fallback to the old date cannot fire); and
   every resolution of the old and new lists, once each, the old ones first.
   */
  lemma UpdateRevisesTarget(store: seq<Video>, id: int, body: Body, roundTrips: string -> bool, k: int)
    requires ValidUpdateBody(body, roundTrips)
    requires 0 <= k < |store| && store[k].id == id
    ensures var v := Update(store, id, body, roundTrips).store[k];
      && v.id == store[k].id
      && v.title == body.title
      && v.author == body.author
      && v.minAgeRestriction == body.minAgeRestriction
      && body.canBeDownloaded.Some? && v.canBeDownloaded == body.canBeDownloaded.value
      && (!TruthyText(body.createdAt) ==> v.createdAt == store[k].createdAt)
      && (TruthyText(body.createdAt) ==> v.createdAt == body.createdAt.value)
      && body.publicationDate.Some? && v.publicationDate == body.publicationDate.value
      && NoDuplicates(v.availableResolutions)
      && (forall x :: x in v.availableResolutions <==> x in store[k].availableResolutions || x in body.availableResolutions)
      && |Dedup(store[k].availableResolutions)| <= |v.availableResolutions|
      && v.availableResolutions[..|Dedup(store[k].availableResolutions)|] == Dedup(store[k].availableResolutions)
  {
    assert HasId(store, id);
    IsoDateIsPresent(body.publicationDate, roundTrips);
    MergeIsUnion(store[k].availableResolutions, body.availableResolutions);
  }

  /** Revising a revised record with the same body changes nothing more. */
  lemma ReviseIdempotent(item: Video, id: int, body: Body)
    ensures Revise(Revise(item, id, body), id, body) == Revise(item, id, body)
  {
    MergeIdempotent(item.availableResolutions, body.availableResolutions);
  }

  /** Revising the matching records a second time with the same body changes nothing more. */
  lemma ReplaceMatchingIdempotent(store: seq<Video>, id: int, body: Body)
    ensures ReplaceMatching(ReplaceMatching(store, id, body), id, body) == ReplaceMatching(store, id, body)
  {
    var once := ReplaceMatching(store, id, body);
    var twice := ReplaceMatching(once, id, body);
    forall k | 0 <= k < |store|
      ensures twice[k] == once[k]
    {
      if store[k].id == id {
        ReviseIdempotent(store[k], id, body);
      }
    }
  }

  /** An update neither adds nor removes an id. */
  lemma UpdateKeepsHasId(store: seq<Video>, id: int, body: Body, roundTrips: string -> bool, other: int)
    ensures HasId(Update(store, id, body, roundTrips).store, other) <==> HasId(store, other)
  {
    var after := Update(store, id, body, roundTrips).store;
    UpdateKeepsOthers(store, id, body, roundTrips);
    if HasId(store, other) {
      var k :| 0 <= k < |store| && store[k].id == other;
      assert after[k].id == other;
    }
    if HasId(after, other) {
      var k :| 0 <= k < |after| && after[k].id == other;
      assert store[k].id == other;
    }
  }

  /** Sending the same update twice gives the same store and the same answer as sending it once. */
  lemma UpdateIsIdempotent(store: seq<Video>, id: int, body: Body, roundTrips: string -> bool)
    ensures Update(Update(store, id, body, roundTrips).store, id, body, roundTrips) == Update(store, id, body, roundTrips)
  {
    UpdateKeepsHasId(store, id, body, roundTrips, id);
    if HasId(store, id) && ValidUpdateBody(body, roundTrips) {
      ReplaceMatchingIdempotent(store, id, body);
    }
  }

  /** A successful create keeps every record well formed. */
  lemma CreateKeepsWellFormed(store: seq<Video>, body: Body, clock: Clock)
    requires AllWellFormed(store)
    ensures AllWellFormed(Create(store, body, clock).store)
  {
    var s := Create(store, body, clock);
    if s.response.Record? {
      assert s.store[|store|] == s.response.video;
      assert forall k :: 0 <= k < |store| ==> s.store[k] == store[k];
    }
  }

  /** A merge that takes in an accepted value still holds an accepted value. */
  lemma MergeKeepsAccepted(existing: seq<string>, incoming: seq<string>)
    requires HasAccepted(incoming)
    ensures HasAccepted(Merge(existing, incoming))
  {
    var i :| 0 <= i < |incoming| && IsAccepted(incoming[i]);
    MergeIsUnion(existing, incoming);
    assert incoming[i] in Merge(existing, incoming);
    var j :| 0 <= j < |Merge(existing, incoming)| && Merge(existing, incoming)[j] == incoming[i];
  }

  /** A successful update keeps every record well formed. */
  lemma UpdateKeepsWellFormed(store: seq<Video>, id: int, body: Body, roundTrips: string -> bool)
    requires AllWellFormed(store)
    ensures AllWellFormed(Update(store, id, body, roundTrips).store)
  {
    var s := Update(store, id, body, roundTrips);
    UpdateKeepsOthers(store, id, body, roundTrips);
    if s.response.Done? {
      forall k | 0 <= k < |store|
        ensures WellFormed(s.store[k])
      {
        if store[k].id == id {
          MergeKeepsAccepted(store[k].availableResolutions, body.availableResolutions);
        }
      }
    }
  }

  /** A delete keeps every record well formed. */
  lemma DeleteKeepsWellFormed(store: seq<Video>, id: int)
    requires AllWellFormed(store)
    ensures AllWellFormed(DeleteById(store, id).store)
  {
    var s := DeleteById(store, id);
    forall k | 0 <= k < |s.store|
      ensures WellFormed(s.store[k])
    {
      assert s.store[k] in store;
    }
  }

  /** A create keeps ids unique when the clock gives an id no record has. */
  lemma CreateKeepsIdsUnique(store: seq<Video>, body: Body, clock: Clock)
    requires UniqueIds(store)
    requires !HasId(store, clock.nowMillis)
    ensures UniqueIds(Create(store, body, clock).store)
  {
    var s := Create(store, body, clock);
    if s.response.Record? {
      assert s.store[|store|] == s.response.video;
      assert forall k :: 0 <= k < |store| ==> s.store[k] == store[k];
    }
  }

  /** An update keeps ids unique. */
  lemma UpdateKeepsIdsUnique(store: seq<Video>, id: int, body: Body, roundTrips: string -> bool)
    requires UniqueIds(store)
    ensures UniqueIds(Update(store, id, body, roundTrips).store)
  {
    UpdateKeepsOthers(store, id, body, roundTrips);
  }

  /** Removing records keeps ids unique. */
  lemma {:induction false} RemoveIdKeepsIdsUnique(store: seq<Video>, id: int)
    requires UniqueIds(store)
    ensures UniqueIds(RemoveId(store, id))
    decreases |store|
  {
    if |store| > 0 {
      var tail := store[1..];
      assert UniqueIds(tail);
      RemoveIdKeepsIdsUnique(tail, id);
      var rest := RemoveId(tail, id);
      if store[0].id != id {
        var r := [store[0]] + rest;
        assert r == RemoveId(store, id);
        forall i, j | 0 <= i < j < |r|
          ensures r[i].id != r[j].id
        {
          if i == 0 {
            assert r[j] in tail;
            var m :| 0 <= m < |tail| && tail[m] == r[j];
            assert store[m + 1] == r[j];
          } else {
            assert r[i] == rest[i - 1] && r[j] == rest[j - 1];
          }
        }
      }
    }
  }

  /** A delete keeps ids unique. */
  lemma DeleteKeepsIdsUnique(store: seq<Video>, id: int)
    requires UniqueIds(store)
    ensures UniqueIds(DeleteById(store, id).store)
  {
    RemoveIdKeepsIdsUnique(store, id);
  }

  /** With unique ids, a delete removes exactly one record. */
  lemma DeleteRemovesOne(store: seq<Video>, id: int)
    requires UniqueIds(store)
    requires HasId(store, id)
    ensures |DeleteById(store, id).store| == |store| - 1
  {
    CountIdAtMostOne(store, id);
  }

  /** With unique ids, an id occurs at most once. */
  lemma {:induction false} CountIdAtMostOne(store: seq<Video>, id: int)
    requires UniqueIds(store)
    ensures CountId(store, id) <= 1
    decreases |store|
  {
    if |store| > 0 {
      var tail := store[1..];
      assert UniqueIds(tail);
      CountIdAtMostOne(tail, id);
      if store[0].id == id {
        forall m | 0 <= m < |tail|
          ensures tail[m].id != id
        {
          assert tail[m] == store[m + 1];
        }
        CountIdPositive(tail, id);
      }
    }
  }
}
