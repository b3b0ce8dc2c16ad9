/** The part of HAPI FHIR's validator that the core relies on. The validator itself
    (`FhirValidator.validateWithResult`) is a foreign call; the model only sees its result. */
module Validation {

  /** Outcome of validating one resource against one profile: whether it passed, and the
      issues that `toOperationOutcome()` would report. */
  datatype ValidationResult = ValidationResult(successful: bool, issues: seq<string>)
}
