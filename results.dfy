/** The immutable result objects of the engines and the registrar. */
module Results {
  import opened Wrappers
  import opened Enrollments

  /** Outcome of a seat allocation; the fields are final. */
  datatype AllocationResult = AllocationResult(seatAllocated: bool, waitlisted: bool, message: string)

  function AllocationSuccess(): (r: AllocationResult)
    ensures r.seatAllocated && !r.waitlisted
    ensures r.message == "Seat allocated successfully"
  {
    AllocationResult(true, false, "Seat allocated successfully")
  }

  function AllocationWaitlisted(): (r: AllocationResult)
    ensures !r.seatAllocated && r.waitlisted
    ensures r.message == "No seats available - added to waitlist"
  {
    AllocationResult(false, true, "No seats available - added to waitlist")
  }

  function AllocationFailure(message: string): (r: AllocationResult)
    ensures !r.seatAllocated && !r.waitlisted && r.message == message
  {
    AllocationResult(false, false, message)
  }

  /** No factory produces a result that is both allocated and waitlisted. */
  lemma NoFactoryAllocatesAndWaitlists(message: string)
    ensures !(AllocationSuccess().seatAllocated && AllocationSuccess().waitlisted)
    ensures !(AllocationWaitlisted().seatAllocated && AllocationWaitlisted().waitlisted)
    ensures !(AllocationFailure(message).seatAllocated && AllocationFailure(message).waitlisted)
  {
  }

  /** Outcome of a requirement check; the fields are final. */
  datatype ValidationResult = ValidationResult(valid: bool, message: string)

  function ValidationSuccess(): (r: ValidationResult)
    ensures r.valid && r.message == "Validation successful"
  {
    ValidationResult(true, "Validation successful")
  }

  function ValidationSuccessWith(message: string): (r: ValidationResult)
    ensures r.valid && r.message == message
  {
    ValidationResult(true, message)
  }

  function ValidationFailure(message: string): (r: ValidationResult)
    ensures !r.valid && r.message == message
  {
    ValidationResult(false, message)
  }

  /**
   * Outcome of a registration; the fields are final. A failure carries no
   * status and no enrollment id (both null in Java).
   */
  datatype RegistrationResult = RegistrationResult(
    success: bool,
    message: string,
    status: Option<EnrollmentStatus>,
    enrollmentId: Option<string>)

  function RegistrationSuccess(enrollmentId: Option<string>, status: EnrollmentStatus): (r: RegistrationResult)
    ensures r.success && r.message == "Registration successful"
    ensures r.status == Some(status) && r.enrollmentId == enrollmentId
  {
    RegistrationResult(true, "Registration successful", Some(status), enrollmentId)
  }

  function RegistrationFailure(message: string): (r: RegistrationResult)
    ensures !r.success && r.message == message
    ensures r.status.None? && r.enrollmentId.None?
  {
    RegistrationResult(false, message, None, None)
  }
}
