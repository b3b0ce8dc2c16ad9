/** Page-request construction and the validation gate of the FHIR resource providers
    (`AbstractPaginatingAndValidatingProvider`). */
module Pagination {
  import opened Wrappers
  import opened Validation

  /** Largest page a client may ask for. */
  const MaxPageSize: nat := 500
  /** Page size used when the request names none. */
  const DefaultPageSize: nat := 50

  /** Spring Data's `PageRequest`: a zero-based page number and a page size. */
  datatype PageRequest = PageRequest(page: nat, size: nat)

  /** `InvalidRequestException` raised for an oversized page, with the two numbers its
      message reports. */
  datatype PageError = PageSizeExceeded(requested: nat, maximum: nat)

  /** Turns the optional `_offset` and `_count` parameters into a page request. Both are
      non-negative (HAPI rejects negative values before this is called), so they are `nat`. */
  function BuildPageRequest(pageOffset: Option<nat>, pageSize: Option<nat>): (r: Result<PageRequest, PageError>)
    // a missing offset means the first page; a given one is used as it is
    ensures r.Success? && pageOffset.None? ==> r.value.page == 0
    ensures r.Success? && pageOffset.Some? ==> r.value.page == pageOffset.value
    // a missing size means the default size, which is always accepted
    ensures pageSize.None? ==> r.Success? && r.value.size == DefaultPageSize
    ensures r.Success? && pageSize.Some? ==> r.value.size == pageSize.value
    // only a size above the maximum is refused, and the error reports it
    ensures r.Failure? <==> pageSize.Some? && pageSize.value > MaxPageSize
    ensures r.Failure? ==> r.error == PageSizeExceeded(pageSize.value, MaxPageSize)
    // every request handed to the database respects the maximum
    ensures r.Success? ==> r.value.size <= MaxPageSize
  {
    var page := if pageOffset.None? then 0 else pageOffset.value;
    var size := if pageSize.None? then DefaultPageSize else pageSize.value;
    if size > MaxPageSize then
      Failure(PageSizeExceeded(pageSize.value, MaxPageSize))
    else
      Success(PageRequest(page, size))
  }

  /** The boundary value itself is accepted. */
  lemma MaximumPageSizeAccepted(pageOffset: Option<nat>)
    ensures BuildPageRequest(pageOffset, Some(MaxPageSize)).Success?
    ensures BuildPageRequest(pageOffset, Some(MaxPageSize)).value.size == MaxPageSize
  {
  }

  /** Building a request from the parts of any request within the maximum gives that same
      request back: nothing is adjusted on the way. */
  lemma RebuildIsIdentity(p: PageRequest)
    requires p.size <= MaxPageSize
    ensures BuildPageRequest(Some(p.page), Some(p.size)) == Success(p)
  {
  }

  /** Acceptance is downward closed in the size: if a size is accepted, so is every smaller
      one, for the same offset. */
  lemma SmallerSizeAccepted(pageOffset: Option<nat>, size: nat, smaller: nat)
    requires BuildPageRequest(pageOffset, Some(size)).Success?
    requires smaller <= size
    ensures BuildPageRequest(pageOffset, Some(smaller)) == Success(PageRequest(BuildPageRequest(pageOffset, Some(size)).value.page, smaller))
  {
  }

  /** The empty `MethodOutcome` that a passing validation returns. */
  datatype MethodOutcome = MethodOutcome(operationOutcome: Option<seq<string>>)

  /** `UnprocessableEntityException`, carrying the validator's issues. */
  datatype ValidationError = UnprocessableEntity(message: string, operationOutcome: seq<string>)

  /** Validates `resource` against `profile` with the provider's validator; fails with
      "Validation failed" and the validator's issues when it does not pass, and otherwise
      answers with a fresh, empty outcome. */
  function DoValidation<T>(validator: (T, string) -> ValidationResult, resource: T, profile: string)
    : (r: Result<MethodOutcome, ValidationError>)
    ensures r.Failure? <==> !validator(resource, profile).successful
    ensures r.Failure? ==> r.error == UnprocessableEntity("Validation failed", validator(resource, profile).issues)
    ensures r.Success? ==> r.value == MethodOutcome(None)
  {
    var outcome := MethodOutcome(None);
    var result := validator(resource, profile);
    if !result.successful then
      Failure(UnprocessableEntity("Validation failed", result.issues))
    else
      Success(outcome)
  }
}
