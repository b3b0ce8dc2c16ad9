# Vaccine-slot ingestion: slot upsert and page requests, modelled in Dafny

This project models two pieces of the vaccine scheduling API service:

- **`SlotService`, the write path for ingested slots.** `addSlot` validates a FHIR
  vaccine slot against the vaccine-slot profile. It then resolves the slot's parent schedule
  by the identifier `(ORIGINAL_ID_SYSTEM, scheduleRef)` and fails if there is none. Last, it
  either merges the slot into the stored slot with the same original id or saves a new slot
  linked to the first matching schedule. `addSlots` applies `addSlot` to a collection, in
  order. `buildLocationSearchQuery` chooses between a location-only search and a
  location-and-date search.
- **`AbstractPaginatingAndValidatingProvider`, the paging and validation gate of the FHIR
  resource providers.** `buildPageRequest` turns the optional offset and count parameters
  into a page request: a missing offset means page 0 and a missing size means 50. Sizes above
  `MAX_PAGE_SIZE` (500) are refused. `doValidation` turns a failing validation into an
  "unprocessable entity" error, and a passing one into an empty outcome.

Files:

- `wrappers.dfy` (module `Wrappers`): `Option`, `Result`.
- `validation.dfy` (module `Validation`): the validator's result, shared by both parts.
- `pagination.dfy` (module `Pagination`): `BuildPageRequest` and `DoValidation`.
- `slot_model.dfy` (module `SlotModel`): the two repositories as one value `Store`, with these pieces:
  - the upsert `Upsert` and the batch `UpsertAll` as functions;
  - the store invariant `StoreValid`, which says there is at most one slot per original id and all keys lie below the next key;
  - the lemmas about them.
- `slot_service.dfy` (module `SlotServices`): class `SlotService`, whose fields are the two
  repositories. Its methods `AddSlot` and `AddSlots` perform the steps of the source one by one.
  Each is proved to leave exactly the state and result that `Upsert` / `UpsertAll` describe,
  and to keep `StoreValid`. This module also holds `BuildLocationSearchQuery`.

How the repositories are represented:

- The slot repository is a map from a database key to the stored slot. It is not keyed by
  the original id, so "at most one slot per original id" is a real invariant (`UniqueIds`),
  and `addSlot` is proved to preserve it.
- The schedule repository is a sequence in the order the repository returns matches.
  "The first matching schedule" is therefore the first element of the filtered sequence.
- The validator, `SlotEntity.fromFHIR` and `SlotEntity.merge` are foreign to the model.
  The validator is a function from a resource and a profile to a result. `merge` is an
  uninterpreted function from the stored slot and the candidate to the merged slot, so it
  also decides the merged slot's schedule link. Both are fixed when the service is
  constructed.

Two behaviours of the code are worth stating explicitly:

- A missing parent schedule is not skipped. `addSlots` propagates the first failure of
  `addSlot`, so the batch as a whole fails (`MissingScheduleFailsBatch`, `FailureIsFinal`,
  `BatchSucceedsExactlyWhenAllAcceptable`).
- No field-level merge policy is assumed, because merging is delegated to
  `SlotEntity.merge`. `UpsertIdempotent` states the redelivery property under an explicit
  hypothesis about `merge`.

## Model

| member | source | states |
|---|---|---|
| `Pagination.BuildPageRequest` | api-application/src/main/java/gov/usds/vaccineschedule/api/pagination/AbstractPaginatingAndValidatingProvider.java:50-60 | A missing offset gives page 0 and a given offset is kept. A missing size gives size 50, which is always accepted, and a given size is kept. The request fails exactly when the size exceeds 500, with an error naming the requested size and the maximum. Every accepted request has size ≤ 500. |
| `Pagination.MaximumPageSizeAccepted` | api-application/src/main/java/gov/usds/vaccineschedule/api/pagination/AbstractPaginatingAndValidatingProvider.java:56-59 | A size of exactly 500 is accepted and kept, whatever the offset. |
| `Pagination.RebuildIsIdentity` | api-application/src/main/java/gov/usds/vaccineschedule/api/pagination/AbstractPaginatingAndValidatingProvider.java:59 | Any page request within the maximum is rebuilt unchanged from its own page and size. The returned request carries exactly the resolved pair. |
| `Pagination.SmallerSizeAccepted` | api-application/src/main/java/gov/usds/vaccineschedule/api/pagination/AbstractPaginatingAndValidatingProvider.java:56-59 | If a size is accepted, every smaller size is accepted with the same page. |
| `Pagination.DoValidation` | api-application/src/main/java/gov/usds/vaccineschedule/api/pagination/AbstractPaginatingAndValidatingProvider.java:74-86 | Fails exactly when the validator's result is unsuccessful, with "Validation failed" and the validator's issues. Otherwise it returns an empty outcome. |
| `SlotModel.ValidateSlot` | api-application/src/main/java/gov/usds/vaccineschedule/api/services/SlotService.java:134-141 | Reports a validation failure exactly when the validator rejects the slot under the vaccine-slot profile, and the failure carries the validator's issues. |
| `SlotModel.SchedulesWithIdentifier` | api-application/src/main/java/gov/usds/vaccineschedule/api/services/SlotService.java:104 | Returns exactly the stored schedules that carry identifier `(ORIGINAL_ID_SYSTEM, ref)`, and no more than there are. |
| `SlotModel.FirstMatchIsEarliest` | api-application/src/main/java/gov/usds/vaccineschedule/api/services/SlotService.java:104-109 | The schedule a new slot is linked to is the earliest matching schedule in repository order. |
| `SlotModel.AtMostOneMatch` | api-application/src/main/java/gov/usds/vaccineschedule/api/services/SlotService.java:111 | Under the store invariant, the lookup by original id finds at most one slot. |
| `SlotModel.Upsert` | api-application/src/main/java/gov/usds/vaccineschedule/api/services/SlotService.java:99-120 | Schedules are only read. A failure leaves the store unchanged. On success, the returned slot carries the resource's id and is the slot now stored. |
| `SlotModel.InvalidResourceChangesNothing` | api-application/src/main/java/gov/usds/vaccineschedule/api/services/SlotService.java:101 | A slot the validator rejects fails with the validator's issues, before either repository is touched. |
| `SlotModel.MissingScheduleChangesNothing` | api-application/src/main/java/gov/usds/vaccineschedule/api/services/SlotService.java:102-107 | A valid slot fails with "Cannot add to missing schedule" exactly when no schedule carries its schedule reference. The store is then unchanged. |
| `SlotModel.InsertWhenAbsent` | api-application/src/main/java/gov/usds/vaccineschedule/api/services/SlotService.java:109-118 | With no slot for the id, the new slot is linked to the first matching schedule and saved under a fresh key. The count grows by exactly one and every other slot is unchanged. |
| `SlotModel.MergeWhenPresent` | api-application/src/main/java/gov/usds/vaccineschedule/api/services/SlotService.java:111-116 | With a slot stored for the id, it is replaced under the same key by its merge with the candidate. The count, the next key and every other slot are unchanged. |
| `SlotModel.UpsertKeepsIdsUnique` | api-application/src/main/java/gov/usds/vaccineschedule/api/services/SlotService.java:111-119 | `addSlot` preserves "at most one slot per original id". After a success, exactly one slot carries the resource's id. |
| `SlotModel.UpsertTwiceLeavesOneSlot` | api-application/src/main/java/gov/usds/vaccineschedule/api/services/SlotService.java:111-119 | Adding the same slot twice keeps the invariant and leaves exactly one slot for its id. The second call adds no slot. A first failure repeats identically. |
| `SlotModel.UpsertIdempotent` | api-application/src/main/java/gov/usds/vaccineschedule/api/services/SlotService.java:111-119 | If merging the same candidate again changes nothing, and merging a slot with itself changes nothing, redelivering a slot gives the same store and result as delivering it once. |
| `SlotModel.UpsertAll` | api-application/src/main/java/gov/usds/vaccineschedule/api/services/SlotService.java:92-97 | The batch never writes schedules. A successful batch returns one slot per input resource. |
| `SlotModel.FailureIsFinal` | api-application/src/main/java/gov/usds/vaccineschedule/api/services/SlotService.java:93-96 | Once a prefix of the batch fails, the batch reports that failure and later resources are never applied. |
| `SlotModel.UpsertAllInOrder` | api-application/src/main/java/gov/usds/vaccineschedule/api/services/SlotService.java:93-96 | The results of a successful batch are in input order: the i-th result is the slot for the i-th resource's id. |
| `SlotModel.UpsertAllKeepsIdsUnique` | api-application/src/main/java/gov/usds/vaccineschedule/api/services/SlotService.java:92-97 | The batch preserves "at most one slot per original id", whether it succeeds or fails part-way. |
| `SlotModel.InvalidElementFailsBatch` | api-application/src/main/java/gov/usds/vaccineschedule/api/services/SlotService.java:93-96 | One invalid resource anywhere in the input makes the whole batch fail, and no result list is returned. |
| `SlotModel.AllAcceptableBatchSucceeds` | api-application/src/main/java/gov/usds/vaccineschedule/api/services/SlotService.java:93-96 | A batch in which every resource is valid and names an existing schedule succeeds. |
| `SlotModel.MissingScheduleFailsBatch` | api-application/src/main/java/gov/usds/vaccineschedule/api/services/SlotService.java:93-107 | One resource anywhere in the input whose schedule reference matches no stored schedule makes the whole batch fail. |
| `SlotModel.BatchSucceedsExactlyWhenAllAcceptable` | api-application/src/main/java/gov/usds/vaccineschedule/api/services/SlotService.java:93-107 | The batch succeeds if and only if every resource passes validation and names an existing schedule. |
| `SlotServices.SlotService.constructor` | api-application/src/main/java/gov/usds/vaccineschedule/api/services/SlotService.java:49-54 | The service starts over the given schedules and validator, with no slots, and satisfies the store invariant. |
| `SlotServices.SlotService.AddSlot` | api-application/src/main/java/gov/usds/vaccineschedule/api/services/SlotService.java:99-120 | Running the steps in place gives exactly the result and repositories of `Upsert`, and keeps the store invariant. |
| `SlotServices.SlotService.AddSlots` | api-application/src/main/java/gov/usds/vaccineschedule/api/services/SlotService.java:92-97 | The loop over the resources gives exactly the result and repositories of `UpsertAll`, stopping at the first failure, and keeps the store invariant. |
| `SlotServices.BuildLocationSearchQuery` | api-application/src/main/java/gov/usds/vaccineschedule/api/services/SlotService.java:122-131 | The query searches the given location. It is location-only exactly when no date range is given, and otherwise carries that date range unchanged. |
| `SlotServices.LocationQueryRoundTrip` | api-application/src/main/java/gov/usds/vaccineschedule/api/services/SlotService.java:126-130 | Building a query and reading its parameters back are inverse in both directions. |

## Left out

- `SourceFetchService` as a whole is not part of this model: the job queue, the HTTP fetches of the publish manifest and data files, and the reactive error routing. It is I/O and concurrency.
- NDJSON decoding (`NDJSONToFHIR`) is outside this model. It belongs to the fetch service, which is left out as a whole.
- The read methods of `SlotService` (`countSlotsWithId`, `findSlotsWithId`, `getSlots`, `countSlots`, `countSlotsForLocation`, `getSlotsForLocation`) are left out. They are thin wrappers over repository queries.
- The meaning of the JPA query builders (`forLocation`, `forLocationAndTime`, `withIdentifier`, `hasIdentifier`) is not modelled. The model chooses the query shape only; lookups by identifier are written out directly on the maps.
- `createBundle`, `validateResource` and `getResourceProfile` are left out. They are bundle and link construction or a one-line delegation to `doValidation`.
- SlotServices.BuildLocationSearchQuery: takes the location id already parsed. `UUID.fromString` and its failure on a malformed id are not modelled.
- SlotServices.SlotService.AddSlot: returns the stored entity; the conversion `SlotEntity.toFHIR` is outside this model. A slot without a schedule reference is not modelled: every modelled resource carries one.
- SlotModel.FromFhir: `SlotEntity.fromFHIR` is outside this model. The model assumes that the new slot carries the resource's id, the chosen schedule's key and the rest of the resource.
- SlotModel.MergeInto: `SlotEntity.merge` is outside this model and is an uninterpreted function of the stored slot and the candidate. It decides every field of the merged slot, the schedule link included. The one assumption is that the merged slot keeps the original id it was looked up by, which the stored slot and the candidate share.
- SlotServices.SlotService.AddSlots: Spring's `@Transactional` rollback is not modelled. After a failure part-way through, the model keeps the writes of the earlier resources, whereas the enclosing transaction would discard them.
- SlotModel.OriginalIdSystem: the value of `ORIGINAL_ID_SYSTEM` is defined in common.Constants, which is not part of this model. No proof depends on it.
- Database keys: JPA-generated keys are modelled as a counter (`nextKey`). Only their freshness matters here.
- Spring Data's `findOne` raises an error when more than one row matches. This case is not modelled because the store invariant rules it out.
- Pagination.BuildPageRequest: offset and size are taken as non-negative, which is HAPI's guarantee according to the source's own comment. `PageRequest.of`'s own argument checks are Spring Data's and are not part of this model. Among non-negative inputs, only a size of 0 would reach them.
- `FhirValidator.validateWithResult` and profile handling are foreign calls. The model sees only their result: pass or fail, plus the issues.
- Concurrent upserts to the same id are not modelled. The service is modelled as sequential.
