/**
 The six handlers of the video router, each a pure function from the current
 store (the module-level `videos` array) and the request's inputs to the new
 store and the handler's answer.
 */
module VideoStore {
  import opened Types
  import opened Sequences
  import opened Resolutions
  import opened IsoDate
  import opened Validation

  /** Some record has id `id`. */
  predicate HasId(store: seq<Video>, id: int)
  {
    exists k :: 0 <= k < |store| && store[k].id == id
  }

  /** `i` is the position of the first record with id `id`. */
  predicate IsFirstMatch(store: seq<Video>, id: int, i: int)
  {
    && 0 <= i < |store|
    && store[i].id == id
    && forall k :: 0 <= k < i ==> store[k].id != id
  }

  /** `videos.find(item => item.id === id)`, as a position. */
  function FindIndex(store: seq<Video>, id: int): (r: Option<nat>)
    ensures r.Some? ==> IsFirstMatch(store, id, r.value)
    ensures r.None? <==> !HasId(store, id)
  {
    if |store| == 0 then None
    else if store[0].id == id then Some(0)
    else
      match FindIndex(store[1..], id)
      case None =>
        assert forall k :: 1 <= k < |store| ==> store[k] == store[1..][k - 1];
        None
      case Some(i) =>
        assert forall k :: 1 <= k <= i ==> store[k] == store[1..][k - 1];
        Some(i + 1)
  }

  /** How many records have id `id`. */
  function CountId(store: seq<Video>, id: int): nat
  {
    if |store| == 0 then 0
    else (if store[0].id == id then 1 else 0) + CountId(store[1..], id)
  }

  /** The id occurs at least once exactly when some record has it. */
  lemma {:induction false} CountIdPositive(store: seq<Video>, id: int)
    ensures CountId(store, id) > 0 <==> HasId(store, id)
    decreases |store|
  {
    if |store| > 0 {
      CountIdPositive(store[1..], id);
      if HasId(store, id) && store[0].id != id {
        var k :| 0 <= k < |store| && store[k].id == id;
        assert store[1..][k - 1].id == id;
      }
      if HasId(store[1..], id) {
        var k :| 0 <= k < |store[1..]| && store[1..][k].id == id;
        assert store[k + 1].id == id;
      }
    }
  }

  /**
   `videos.filter(item => item.id !== id)`: the records with another id, in
   their original order.
   */
  function RemoveId(store: seq<Video>, id: int): (r: seq<Video>)
    ensures IsSubsequence(r, store)
    ensures forall v :: v in r <==> v in store && v.id != id
    ensures |r| == |store| - CountId(store, id)
  {
    if |store| == 0 then []
    else
      var rest := RemoveId(store[1..], id);
      assert forall v :: v in store <==> v == store[0] || v in store[1..];
      if store[0].id != id then [store[0]] + rest else rest
  }

  /** A JSON string field is truthy: present and not empty. */
  predicate TruthyText(s: Option<string>)
  {
    s.Some? && s.value != ""
  }

  /** The record the update handler writes in place of a matching record `item`. */
  function Revise(item: Video, id: int, body: Body): Video
  {
    Video(
      id,
      body.title,
      body.author,
      body.canBeDownloaded == Some(true),
      body.minAgeRestriction,
      if TruthyText(body.createdAt) then body.createdAt.value else item.createdAt,
      if TruthyText(body.publicationDate) then body.publicationDate.value else item.publicationDate,
      Merge(item.availableResolutions, body.availableResolutions))
  }

  /** `videos.map(...)`: every record with id `id` is revised, every other record is kept as it is. */
  function ReplaceMatching(store: seq<Video>, id: int, body: Body): (r: seq<Video>)
    ensures |r| == |store|
    ensures forall k :: 0 <= k < |store| && store[k].id != id ==> r[k] == store[k]
    ensures forall k :: 0 <= k < |store| && store[k].id == id ==> r[k] == Revise(store[k], id, body)
  {
    if |store| == 0 then []
    else
      var head := if store[0].id == id then Revise(store[0], id, body) else store[0];
      var rest := ReplaceMatching(store[1..], id, body);
      assert forall k :: 1 <= k < |store| ==> store[k] == store[1..][k - 1];
      [head] + rest
  }

  /** The record the create handler appends. */
  function NewVideo(body: Body, clock: Clock): Video
  {
    Video(
      clock.nowMillis,
      body.title,
      body.author,
      false,
      None,
      clock.nowIso,
      clock.tomorrowIso,
      body.availableResolutions)
  }

  /** GET /videos. */
  function List(store: seq<Video>): Step
  {
    Step(store, Records(store))
  }

  /** GET /videos/:id: the first record with that id, or NotFound; the store is not touched. */
  function GetById(store: seq<Video>, id: int): (s: Step)
    ensures s.store == store
    ensures s.response.NotFound? <==> !HasId(store, id)
    ensures s.response.NotFound? || s.response.Record?
    ensures s.response.Record? ==> exists i :: IsFirstMatch(store, id, i) && store[i] == s.response.video
  {
    match FindIndex(store, id)
    case None => Step(store, NotFound)
    case Some(i) => Step(store, Record(store[i]))
  }

  /**
   DELETE /videos/:id: NotFound and no change when no record has the id;
   otherwise every record with the id is removed and the others keep their order.
   */
  function DeleteById(store: seq<Video>, id: int): (s: Step)
    ensures s.response.NotFound? || s.response.Done?
    ensures s.response.NotFound? <==> !HasId(store, id)
    ensures s.response.NotFound? ==> s.store == store
    ensures s.response.Done? ==> s.store == RemoveId(store, id) && |s.store| < |store|
  {
    CountIdPositive(store, id);
    if FindIndex(store, id).Some? then
      Step(RemoveId(store, id), Done)
    else
      Step(store, NotFound)
  }

  /**
   POST /videos: with a valid body, exactly one record is appended and
   returned; otherwise the store is unchanged and every failed check is
   reported, in order.
   */
  function Create(store: seq<Video>, body: Body, clock: Clock): (s: Step)
    ensures s.response.Invalid? || s.response.Record?
    ensures s.response.Invalid? <==> !ValidCreateBody(body)
    ensures s.response.Invalid? ==> s.store == store && s.response.errors == Errors(CreateFailures(body))
    ensures s.response.Record? ==> s.store == store + [s.response.video]
    ensures s.response.Record? ==>
      var v := s.response.video;
      && v.id == clock.nowMillis
      && v.title == body.title
      && v.author == body.author
      && !v.canBeDownloaded
      && v.minAgeRestriction.None?
      && v.createdAt == clock.nowIso
      && v.publicationDate == clock.tomorrowIso
      && v.availableResolutions == body.availableResolutions
  {
    CreateAcceptsExactlyValid(body);
    var failures := CreateFailures(body);
    if failures == [] then
      var v := NewVideo(body, clock);
      Step(store + [v], Record(v))
    else
      Step(store, Invalid(Errors(failures)))
  }

  /**
   PUT /videos/:id: NotFound and no change when no record has the id (the
   body is still validated, but nothing can change); otherwise the failed
   checks in order, or, for a valid body, every matching record revised.
   */
  function Update(store: seq<Video>, id: int, body: Body, roundTrips: string -> bool): (s: Step)
    ensures !HasId(store, id) ==> s == Step(store, NotFound)
    ensures HasId(store, id) && !ValidUpdateBody(body, roundTrips) ==> s.store == store && s.response.Invalid?
    ensures s.response.Invalid? ==> s.response.errors == Errors(UpdateFailures(body, roundTrips))
    ensures HasId(store, id) && ValidUpdateBody(body, roundTrips) ==>
      && s.response == Done
      && |s.store| == |store|
      && (forall k :: 0 <= k < |store| && store[k].id != id ==> s.store[k] == store[k])
      && (forall k :: 0 <= k < |store| && store[k].id == id ==> s.store[k] == Revise(store[k], id, body))
  {
    UpdateAcceptsExactlyValid(body, roundTrips);
    var failures := UpdateFailures(body, roundTrips);
    var found := FindIndex(store, id).Some?;
    var next := if failures == [] then ReplaceMatching(store, id, body) else store;
    assert !found ==> next == store;
    var response :=
      if !found then NotFound
      else if failures != [] then Invalid(Errors(failures))
      else Done;
    Step(next, response)
  }

  /** DELETE /testing/all-data. */
  function ResetAll(store: seq<Video>): Step
  {
    Step([], Done)
  }
}
