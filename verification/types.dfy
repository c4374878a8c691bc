/**
 The data the video router works on: the stored record (`IVideo`), the field
 error (`IError`), the request body of the create and update handlers, and
 the result a handler produces once the HTTP plumbing is stripped away.
 */
module Types {

  /** An optional value: `None` stands for a JSON field that is absent or `null`. */
  datatype Option<T> = None | Some(value: T)

  /** A stored video record, field for field as the router keeps it. */
  datatype Video = Video(
    id: int,
    title: string,
    author: string,
    canBeDownloaded: bool,
    minAgeRestriction: Option<int>,
    createdAt: string,
    publicationDate: string,
    availableResolutions: seq<string>)

  /** One validation failure: the message shown to the client and the field it is about. */
  datatype FieldError = FieldError(message: string, field: string)

  /**
   The JSON body of a create or update request.
   - `title`, `author`: an absent field is the empty string (both are falsy and
     take the same branches in the handlers);
   - `canBeDownloaded`: `None` when the field is absent or not a JSON boolean;
   - the create handler reads only `title`, `author` and `availableResolutions`.
   */
  datatype Body = Body(
    title: string,
    author: string,
    availableResolutions: seq<string>,
    minAgeRestriction: Option<int>,
    canBeDownloaded: Option<bool>,
    createdAt: Option<string>,
    publicationDate: Option<string>)

  /** What a handler answers: one record, the record list, "no content", NotFound, or the ordered errors. */
  datatype Response =
    | Record(video: Video)
    | Records(videos: seq<Video>)
    | Done
    | NotFound
    | Invalid(errors: seq<FieldError>)

  /** The store after a handler ran, together with its answer. */
  datatype Step = Step(store: seq<Video>, response: Response)

  /**
   The wall-clock values the create handler reads: the id (`+(new Date())`),
   `createdAt` (`new Date().toISOString()`) and the publication date one day later.
   */
  datatype Clock = Clock(nowMillis: int, nowIso: string, tomorrowIso: string)
}
