/**
 The validation step of the create and update handlers: a fixed list of
 checks, each of which pushes its error when it fails. No check stops the
 others, so a request learns of every problem at once, in the order the
 checks are written.
 */
module Validation {
  import opened Types
  import opened Sequences
  import opened Resolutions
  import opened IsoDate

  /** One validation rule of the handlers; `ErrorOf` gives the error it pushes. */
  datatype Check =
    | TitleEmpty
    | TitleTooLong
    | AuthorEmpty
    | AuthorTooLong
    | ResolutionsInvalid
    | AuthorTooLongOnUpdate
    | TitleTooLongOnUpdate
    | AgeAbove18
    | AgeBelow0
    | NotBoolean
    | NotDate

  /**
   The error object each check pushes, with the handlers' own wording. The
   update handler's length errors swap the numbers: an author over 20
   characters reports "40", a title over 40 characters reports "20".
   */
  function ErrorOf(c: Check): FieldError
  {
    match c
    case TitleEmpty => FieldError("Title can't by empty", "title")
    case TitleTooLong => FieldError("Title can't by more than 40 characters", "title")
    case AuthorEmpty => FieldError("Author can't by empty", "author")
    case AuthorTooLong => FieldError("Author can't by more than 20 characters", "author")
    case ResolutionsInvalid => FieldError("AvailableResolutions can't by Invalid", "availableResolutions")
    case AuthorTooLongOnUpdate => FieldError("Author can't by more than 40 characters", "author")
    case TitleTooLongOnUpdate => FieldError("Title can't by more than 20 characters", "title")
    case AgeAbove18 => FieldError("MinAgeRestriction can't by more than 18", "minAgeRestriction")
    case AgeBelow0 => FieldError("MinAgeRestriction can't by less than 0", "minAgeRestriction")
    case NotBoolean => FieldError("canBeDownloaded can be only boolean", "canBeDownloaded")
    case NotDate => FieldError("publicationDate can be only date", "publicationDate")
  }

  /** The create handler's checks, in the order it runs them. */
  const CreateChecks: seq<Check> := [TitleEmpty, TitleTooLong, AuthorEmpty, AuthorTooLong, ResolutionsInvalid]

  /** The update handler's checks, in the order it runs them. */
  const UpdateChecks: seq<Check> :=
    [TitleEmpty, AuthorEmpty, AuthorTooLongOnUpdate, TitleTooLongOnUpdate,
     AgeAbove18, AgeBelow0, ResolutionsInvalid, NotBoolean, NotDate]

  /**
   Run the checks in order and keep those that fail: the `if (...) err.push(...)`
   statements of a handler, one per entry of `checks`.
   */
  function Select(checks: seq<Check>, fails: Check -> bool): (fs: seq<Check>)
    ensures IsSubsequence(fs, checks)
    ensures forall c :: c in fs <==> c in checks && fails(c)
    ensures fs == [] <==> forall c :: c in checks ==> !fails(c)
  {
    if |checks| == 0 then []
    else
      var rest := Select(checks[1..], fails);
      if fails(checks[0]) then [checks[0]] + rest else rest
  }

  /** The JSON number `n` is truthy: present and not zero. */
  predicate TruthyNumber(n: Option<int>)
  {
    n.Some? && n.value != 0
  }

  /** What the create handler demands of a body. */
  predicate ValidCreateBody(body: Body)
  {
    && 1 <= |body.title| <= 40
    && 1 <= |body.author| <= 20
    && HasAccepted(body.availableResolutions)
  }

  /** What the update handler demands of a body. */
  predicate ValidUpdateBody(body: Body, roundTrips: string -> bool)
  {
    && 1 <= |body.title| <= 40
    && 1 <= |body.author| <= 20
    && (body.minAgeRestriction.Some? ==> 0 <= body.minAgeRestriction.value <= 18)
    && HasAccepted(body.availableResolutions)
    && body.canBeDownloaded.Some?
    && IsIsoDate(body.publicationDate, roundTrips)
  }

  /** Does check `c` of the create handler fail on `body`? (The handler's conditions, verbatim.) */
  predicate CreateFails(body: Body, c: Check)
  {
    match c
    case TitleEmpty => body.title == ""
    case TitleTooLong => body.title != "" && |body.title| > 40
    case AuthorEmpty => body.author == ""
    case AuthorTooLong => body.author != "" && |body.author| > 20
    case ResolutionsInvalid => |AcceptedOnly(body.availableResolutions)| == 0
    case _ => false
  }

  /** Does check `c` of the update handler fail on `body`? (The handler's conditions, verbatim.) */
  predicate UpdateFails(body: Body, roundTrips: string -> bool, c: Check)
  {
    match c
    case TitleEmpty => body.title == ""
    case AuthorEmpty => body.author == ""
    case AuthorTooLongOnUpdate => body.author != "" && |body.author| > 20
    case TitleTooLongOnUpdate => body.title != "" && |body.title| > 40
    case AgeAbove18 => TruthyNumber(body.minAgeRestriction) && body.minAgeRestriction.value > 18
    case AgeBelow0 => TruthyNumber(body.minAgeRestriction) && body.minAgeRestriction.value < 0
    case ResolutionsInvalid => |AcceptedOnly(body.availableResolutions)| == 0
    case NotBoolean => body.canBeDownloaded.None?
    case NotDate => !IsIsoDate(body.publicationDate, roundTrips)
    case _ => false
  }

  /** The checks the create handler finds failing, in the order it runs them. */
  function CreateFailures(body: Body): (fs: seq<Check>)
    ensures IsSubsequence(fs, CreateChecks)
    ensures forall c :: c in fs <==> c in CreateChecks && CreateFails(body, c)
    ensures fs == [] <==> forall c :: c in CreateChecks ==> !CreateFails(body, c)
  {
    Select(CreateChecks, c => CreateFails(body, c))
  }

  /** The checks the update handler finds failing, in the order it runs them. */
  function UpdateFailures(body: Body, roundTrips: string -> bool): (fs: seq<Check>)
    ensures IsSubsequence(fs, UpdateChecks)
    ensures forall c :: c in fs <==> c in UpdateChecks && UpdateFails(body, roundTrips, c)
    ensures fs == [] <==> forall c :: c in UpdateChecks ==> !UpdateFails(body, roundTrips, c)
  {
    Select(UpdateChecks, c => UpdateFails(body, roundTrips, c))
  }

  /** What each create check's condition amounts to. */
  lemma CreateFailsMeaning(body: Body)
    ensures CreateFails(body, TitleEmpty) <==> body.title == ""
    ensures CreateFails(body, TitleTooLong) <==> |body.title| > 40
    ensures CreateFails(body, AuthorEmpty) <==> body.author == ""
    ensures CreateFails(body, AuthorTooLong) <==> |body.author| > 20
    ensures CreateFails(body, ResolutionsInvalid) <==> !HasAccepted(body.availableResolutions)
  {
  }

  /** The create handler reports nothing exactly when the body is valid. */
  lemma CreateAcceptsExactlyValid(body: Body)
    ensures CreateFailures(body) == [] <==> ValidCreateBody(body)
  {
    CreateFailsMeaning(body);
    CreateChecksListed();
    assert (forall c :: c in CreateChecks ==> !CreateFails(body, c)) <==> ValidCreateBody(body);
  }

  /** What each update check's condition amounts to. */
  lemma UpdateFailsMeaning(body: Body, roundTrips: string -> bool)
    ensures UpdateFails(body, roundTrips, TitleEmpty) <==> body.title == ""
    ensures UpdateFails(body, roundTrips, AuthorEmpty) <==> body.author == ""
    ensures UpdateFails(body, roundTrips, AuthorTooLongOnUpdate) <==> |body.author| > 20
    ensures UpdateFails(body, roundTrips, TitleTooLongOnUpdate) <==> |body.title| > 40
    ensures UpdateFails(body, roundTrips, AgeAbove18) <==>
      body.minAgeRestriction.Some? && body.minAgeRestriction.value > 18
    ensures UpdateFails(body, roundTrips, AgeBelow0) <==>
      body.minAgeRestriction.Some? && body.minAgeRestriction.value < 0
    ensures UpdateFails(body, roundTrips, ResolutionsInvalid) <==> !HasAccepted(body.availableResolutions)
    ensures UpdateFails(body, roundTrips, NotBoolean) <==> body.canBeDownloaded.None?
    ensures UpdateFails(body, roundTrips, NotDate) <==> !IsIsoDate(body.publicationDate, roundTrips)
  {
  }

  /** The update handler reports nothing exactly when the body is valid. */
  lemma UpdateAcceptsExactlyValid(body: Body, roundTrips: string -> bool)
    ensures UpdateFailures(body, roundTrips) == [] <==> ValidUpdateBody(body, roundTrips)
  {
    UpdateFailsMeaning(body, roundTrips);
    UpdateChecksListed();
    if ValidUpdateBody(body, roundTrips) {
      forall c
        ensures !UpdateFails(body, roundTrips, c)
      {
      }
    } else if body.title == "" {
      assert UpdateFails(body, roundTrips, TitleEmpty);
    } else if body.author == "" {
      assert UpdateFails(body, roundTrips, AuthorEmpty);
    } else if |body.author| > 20 {
      assert UpdateFails(body, roundTrips, AuthorTooLongOnUpdate);
    } else if |body.title| > 40 {
      assert UpdateFails(body, roundTrips, TitleTooLongOnUpdate);
    } else if body.minAgeRestriction.Some? && body.minAgeRestriction.value > 18 {
      assert UpdateFails(body, roundTrips, AgeAbove18);
    } else if body.minAgeRestriction.Some? && body.minAgeRestriction.value < 0 {
      assert UpdateFails(body, roundTrips, AgeBelow0);
    } else if !HasAccepted(body.availableResolutions) {
      assert UpdateFails(body, roundTrips, ResolutionsInvalid);
    } else if body.canBeDownloaded.None? {
      assert UpdateFails(body, roundTrips, NotBoolean);
    } else {
      assert UpdateFails(body, roundTrips, NotDate);
    }
  }

  /** Every create check is in the create list. */
  lemma CreateChecksListed()
    ensures TitleEmpty in CreateChecks && TitleTooLong in CreateChecks && AuthorEmpty in CreateChecks
    ensures AuthorTooLong in CreateChecks && ResolutionsInvalid in CreateChecks
  {
    var cs := CreateChecks;
    assert cs[0] == TitleEmpty && cs[1] == TitleTooLong && cs[2] == AuthorEmpty;
    assert cs[3] == AuthorTooLong && cs[4] == ResolutionsInvalid;
  }

  /** Every update check is in the update list. */
  lemma UpdateChecksListed()
    ensures TitleEmpty in UpdateChecks && AuthorEmpty in UpdateChecks && AuthorTooLongOnUpdate in UpdateChecks
    ensures TitleTooLongOnUpdate in UpdateChecks && AgeAbove18 in UpdateChecks && AgeBelow0 in UpdateChecks
    ensures ResolutionsInvalid in UpdateChecks && NotBoolean in UpdateChecks && NotDate in UpdateChecks
  {
    var cs := UpdateChecks;
    assert cs[0] == TitleEmpty && cs[1] == AuthorEmpty && cs[2] == AuthorTooLongOnUpdate;
    assert cs[3] == TitleTooLongOnUpdate && cs[4] == AgeAbove18 && cs[5] == AgeBelow0;
    assert cs[6] == ResolutionsInvalid && cs[7] == NotBoolean && cs[8] == NotDate;
  }

  /** The error list a handler sends: one error object per failing check, in order. */
  function Errors(fs: seq<Check>): (errs: seq<FieldError>)
    ensures |errs| == |fs|
    ensures forall k :: 0 <= k < |fs| ==> errs[k] == ErrorOf(fs[k])
  {
    if |fs| == 0 then [] else [ErrorOf(fs[0])] + Errors(fs[1..])
  }

  /** A create body with an empty title, an empty author and an empty resolution array reports all three failures at once, not just the first. */
  lemma EmptyCreateBodyReportsAll(body: Body)
    requires body.title == "" && body.author == "" && body.availableResolutions == []
    ensures CreateFailures(body) == [TitleEmpty, AuthorEmpty, ResolutionsInvalid]
  {
    ExactSubsequence(CreateFailures(body));
  }

  /** The only ordered selection of the create checks that holds exactly these three is these three. */
  lemma ExactSubsequence(fs: seq<Check>)
    requires IsSubsequence(fs, CreateChecks)
    requires TitleEmpty in fs && AuthorEmpty in fs && ResolutionsInvalid in fs
    requires TitleTooLong !in fs && AuthorTooLong !in fs
    ensures fs == [TitleEmpty, AuthorEmpty, ResolutionsInvalid]
  {
    var cs := CreateChecks;
    assert cs[1..] == [TitleTooLong, AuthorEmpty, AuthorTooLong, ResolutionsInvalid];
    assert cs[2..] == [AuthorEmpty, AuthorTooLong, ResolutionsInvalid];
    assert cs[3..] == [AuthorTooLong, ResolutionsInvalid];
    assert cs[4..] == [ResolutionsInvalid];
  }

  /** A body whose only resolution is "P720" is refused with the resolution error by both handlers. */
  lemma P720IsRefused(body: Body, roundTrips: string -> bool)
    requires body.availableResolutions == ["P720"]
    ensures ResolutionsInvalid in CreateFailures(body)
    ensures ResolutionsInvalid in UpdateFailures(body, roundTrips)
  {
    assert !HasAccepted(body.availableResolutions) by {
      AcceptedWireValues("P720");
    }
  }
}
