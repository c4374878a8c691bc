# Video store: a Dafny model of the video router

The repository is a small Express application. Its single router,
`src/routes/video-router.ts`, keeps an in-memory array of video records.
It serves six handlers over it:

- list all videos;
- get one video by id;
- create a video;
- update a video by id;
- delete a video by id;
- wipe all data.

Create and update first validate the request body. They accumulate every
failed check, in a fixed order, as a `{message, field}` error.

This project models that router as pure functions. The store is a
`seq<Video>`. Each handler maps the current store and the request's inputs
to a `Step`: the new store plus the handler's answer.

The answers are:

| answer | meaning |
|---|---|
| `Record(v)` | one record |
| `Records(vs)` | the list |
| `Done` | 204, no content |
| `NotFound` | 404 |
| `Invalid(errors)` | 400 with the ordered error list |

The modules follow the router's own parts:

- `Types`: `IVideo`, `IError`, the request body, the answer, and the clock readings.
- `Sequences`: subsequence, no-duplicates and first-occurrence vocabulary.
- `Resolutions`:
  - the `enumAvailableResolutions` values;
  - the `filter(...includes...)` test;
  - the `[...new Set([...a, ...b])]` merge, as a function and as a loop.
- `IsoDate`: the `isIsoDate` regular expression.
- `Validation`:
  - the create and update check lists with their verbatim messages;
  - the ordered accumulation of failures;
  - proofs that a body is accepted exactly when it meets the intended field rules.
- `VideoStore`: the six handlers and the `find`/`filter`/`map` they use.
- `StoreProperties`:
  - read-after-write;
  - idempotence of delete and update;
  - invariants every handler keeps: well-formed records and unique ids.

Behaviour as written, where it differs from what the names and types suggest:

- **The enumeration.** The member `P480` has the wire value `"P144"`, and `P720` has `"P480"`.
  - The accepted strings are therefore `P144 P240 P360 P480 P1080 P1440 P2160`.
  - A body whose only resolution is `"P720"` is refused on both create and update (`Validation.P720IsRefused`).
- **Update's check order and messages.** The update handler checks the author length before the title length.
  - An author over 20 characters is reported as "more than 40 characters".
  - A title over 40 characters is reported as "more than 20 characters".
  - All messages keep the source's spelling "can't by".
- **Create stores resolutions unfiltered.** Create stores `availableResolutions` exactly as sent. One accepted entry is enough; unknown entries are stored too.
- **Update can replace `createdAt`.** A non-empty `createdAt` in the update body overwrites the stored one.
- **Update's `publicationDate` fallback never fires.** A body that passes `isIsoDate` always carries a non-empty date, so the fallback to the old date is unreachable (`StoreProperties.UpdateRevisesTarget`).
- **Update does not stop at an unknown id.** It still validates the body. Nothing can change, because no record matches. The model answers `NotFound`, the first thing the handler sends.

## Model

| member | source | states |
|---|---|---|
| Resolutions.AcceptedWireValues | src/routes/video-router.ts:16-25 | The accepted wire values are exactly the seven distinct enumeration values; "P720" is not among them |
| Resolutions.AcceptedOnly | src/routes/video-router.ts:114 | The filtered list holds only accepted values, and it is empty exactly when no entry of the input is accepted |
| Resolutions.Dedup | src/routes/video-router.ts:221 | Spreading a `Set` gives a list without duplicates that holds exactly the input's values, ordered by where each value first occurs in the input, and no longer than the input |
| Resolutions.MergeResolutions | src/routes/video-router.ts:221 | The runtime's walk with a seen-set yields exactly the duplicate-free merge of existing and incoming resolutions |
| Resolutions.MergeIsUnion | src/routes/video-router.ts:221 | The merge is duplicate-free and holds a value exactly when the old or the new list does; it starts with the deduplicated old list (the old list itself when that has no duplicates), and the values after it are new ones from the incoming list, in the order they first occur there |
| Resolutions.MergeIdempotent | src/routes/video-router.ts:221 | Merging the same incoming list into an already merged list changes nothing |
| IsoDate.IsoDateIsPresent | src/routes/video-router.ts:48-53 | A value that passes `isIsoDate` is present and at least 24 characters long; a missing one never passes |
| IsoDate.CanonicalFormMatches | src/routes/video-router.ts:49 | Every canonical `toISOString` timestamp with a four-digit year matches the regular expression |
| Validation.Select | src/routes/video-router.ts:84-119 | Accumulating failures keeps exactly the failing checks, in check order, and is empty exactly when no check fails |
| Validation.CreateFailures | src/routes/video-router.ts:84-119 | The create errors are, in order, exactly the create checks whose condition holds |
| Validation.CreateFailsMeaning | src/routes/video-router.ts:86-119 | Each create check fires exactly on its rule: empty title, title over 40, empty author, author over 20, no accepted resolution |
| Validation.CreateAcceptsExactlyValid | src/routes/video-router.ts:121 | Create reports no error exactly when the title has 1 to 40 characters, the author 1 to 20, and some resolution is accepted |
| Validation.UpdateFailures | src/routes/video-router.ts:141-208 | The update errors are, in order, exactly the update checks whose condition holds |
| Validation.UpdateFailsMeaning | src/routes/video-router.ts:147-208 | Each update check fires exactly on its rule, including a truthy age above 18 or below 0, a non-boolean download flag and a failed date test |
| Validation.UpdateAcceptsExactlyValid | src/routes/video-router.ts:210 | Update reports no error exactly when the create rules hold, any age is within 0 to 18, the download flag is a boolean and the date passes `isIsoDate` |
| Validation.Errors | src/routes/video-router.ts:34-40 | The error list has one `{message, field}` per failed check, in the same order |
| Validation.EmptyCreateBodyReportsAll | src/routes/video-router.ts:86-119 | A body with an empty title, an empty author and an empty resolution array is reported as exactly: empty title, empty author, invalid resolutions, in that order |
| Validation.P720IsRefused | src/routes/video-router.ts:114-119 | A body whose only resolution is "P720" fails the resolution check on create and on update |
| VideoStore.FindIndex | src/routes/video-router.ts:62 | `find` returns the first record with the id, and nothing exactly when no record has it |
| VideoStore.CountIdPositive | src/routes/video-router.ts:72-74 | The id occurs at least once exactly when some record has it |
| VideoStore.RemoveId | src/routes/video-router.ts:74 | `filter` keeps exactly the records with another id, in their original order, and drops one record per occurrence of the id |
| VideoStore.ReplaceMatching | src/routes/video-router.ts:211-226 | `map` keeps positions and length, revises each record with the id and leaves every other record as it was |
| VideoStore.GetById | src/routes/video-router.ts:61-68 | Get answers the first record with the id, or NotFound exactly when no record has it, and never changes the store |
| VideoStore.DeleteById | src/routes/video-router.ts:71-79 | Delete answers NotFound and changes nothing exactly when no record has the id; otherwise it removes those records and the store shrinks |
| VideoStore.Create | src/routes/video-router.ts:82-137 | Create refuses exactly the invalid bodies, with their ordered errors and no change; otherwise it appends one record with the clock's id and times, the body's title, author and resolutions, no age and no download |
| VideoStore.Update | src/routes/video-router.ts:140-231 | Update answers NotFound with no change for an unknown id, the ordered errors with no change for an invalid body, and otherwise revises every matching record |
| StoreProperties.ListAgreesWithGet | src/routes/video-router.ts:56-68 | The list is the store; get finds an id exactly when a listed record has it, and the record found is in the list |
| StoreProperties.ResetEmptiesStore | src/routes/video-router.ts:234-237 | After a reset, the list is empty and every id is NotFound |
| StoreProperties.GetAfterCreate | src/routes/video-router.ts:122-133 | A created record is found under its id when the clock's id was fresh |
| StoreProperties.GetAfterDelete | src/routes/video-router.ts:71-79 | After deleting an id, no record has it and get answers NotFound |
| StoreProperties.DeleteIsIdempotent | src/routes/video-router.ts:72-78 | Deleting the same id twice leaves the store as after the first delete and answers NotFound |
| StoreProperties.UpdateKeepsOthers | src/routes/video-router.ts:211-226 | An update keeps the store's length and every id, and leaves records with another id untouched |
| StoreProperties.UpdateRevisesTarget | src/routes/video-router.ts:213-222 | A revised record has the body's title, author, age, download flag and date, and keeps its creation time when the one sent is absent or empty; its resolutions are the duplicate-free union, starting with the deduplicated old list |
| StoreProperties.ReviseIdempotent | src/routes/video-router.ts:213-222 | Revising an already revised record with the same body changes nothing |
| StoreProperties.ReplaceMatchingIdempotent | src/routes/video-router.ts:211-226 | Applying the same revision map twice is the same as applying it once |
| StoreProperties.UpdateKeepsHasId | src/routes/video-router.ts:211-226 | An update neither adds nor removes any id |
| StoreProperties.UpdateIsIdempotent | src/routes/video-router.ts:140-231 | Repeating the same update gives the same store and the same answer as sending it once |
| StoreProperties.CreateKeepsWellFormed | src/routes/video-router.ts:84-132 | Create keeps every record within the validated field rules |
| StoreProperties.MergeKeepsAccepted | src/routes/video-router.ts:221 | Merging in a list with an accepted value keeps an accepted value |
| StoreProperties.UpdateKeepsWellFormed | src/routes/video-router.ts:147-226 | Update keeps every record within the validated field rules, age included |
| StoreProperties.DeleteKeepsWellFormed | src/routes/video-router.ts:74 | Delete keeps every record within the validated field rules |
| StoreProperties.CreateKeepsIdsUnique | src/routes/video-router.ts:122-132 | Create keeps ids unique when the clock's id is fresh |
| StoreProperties.UpdateKeepsIdsUnique | src/routes/video-router.ts:211-226 | Update keeps ids unique |
| StoreProperties.RemoveIdKeepsIdsUnique | src/routes/video-router.ts:74 | Filtering out an id keeps ids unique |
| StoreProperties.DeleteKeepsIdsUnique | src/routes/video-router.ts:71-79 | Delete keeps ids unique |
| StoreProperties.CountIdAtMostOne | src/routes/video-router.ts:74 | With unique ids, an id occurs at most once |
| StoreProperties.DeleteRemovesOne | src/routes/video-router.ts:71-79 | With unique ids, deleting a present id removes exactly one record |

## Left out

- HTTP and Express are not modelled: routing, status codes, JSON parsing, and the `errorsMessages` wrapper object. The server start-up in `src/index.ts` is not part of this model.
- The clock is a parameter. `+(new Date())`, `new Date().toISOString()` and the one-day-later timestamp (`addDays`) become the three fields of a `Clock` value.
- The date round trip is a parameter. The JavaScript `Date` parse-and-format check inside `isIsoDate` is the `roundTrips` function. Only the regular expression is modelled.
- Dynamic typing is not modelled:
  - `title` and `author` are strings, and an absent one is the empty string;
  - `availableResolutions` is always an array (the source throws when it is missing);
  - `canBeDownloaded` is a boolean or absent;
  - `minAgeRestriction` is an integer or absent.
  - Non-numeric path ids, `NaN`, fractional ages and the JavaScript truthiness of other types are left out.
- String length counts Dafny characters, not the UTF-16 code units of JavaScript's `length`.
- Update's second response is not modelled. For an unknown id, the handler sends 404 and keeps going. With an invalid body it then tries to send 400. With a valid body it runs the map, which matches no record, and then tries to send 204. Express refuses either second send at run time. The model keeps the first answer, 404, and the unchanged store.
- `null` and `undefined` are one value in the model. Create stores `minAgeRestriction: null`, but an update whose body has no age stores `undefined`, which JSON leaves out of the record. Both are `None` here.
- VideoStore.Create: the id comes from the clock and is not guaranteed unique. The read-after-create and unique-id lemmas therefore require that the clock's id is not in use.
- VideoStore.Update: the stored download flag is modelled only for a boolean input (`Some(true)` gives true). Truthy non-booleans are excluded by the model's body type.
- Resolutions.AcceptedOnly: its contract states that every kept entry is accepted and that the result is empty exactly when no input entry is. It does not state that every accepted entry is kept in order, because the handlers only test the result for emptiness.
