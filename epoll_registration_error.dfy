/** `EPollRegistrationError`: the error of registering a newly created
    descriptor with epoll, wrapping either the creation error or the add error. */
module EPollRegistration {
  import opened Outcomes
  import opened EPoll

  datatype EPollRegistrationError =
    | Creation(creation: CreationError)
    | Registration(registration: EPollAddError)

  /** The underlying error that `source` exposes. */
  datatype ErrorSource = CreationSource(creation: CreationError) | AddSource(add: EPollAddError)

  /** `From<CreationError>`. */
  function FromCreationError(error: CreationError): (r: EPollRegistrationError)
    ensures r.Creation? && r.creation == error
  {
    Creation(error)
  }

  /** `From<EPollAddError>`. */
  function FromAddError(error: EPollAddError): (r: EPollRegistrationError)
    ensures r.Registration? && r.registration == error
  {
    Registration(error)
  }

  /** `error::Error::source`: the wrapped error, whichever variant holds it. */
  function Source(error: EPollRegistrationError): (r: Option<ErrorSource>)
    ensures r.Some?
    ensures error.Creation? <==> r.value.CreationSource?
    ensures error.Creation? ==> r.value.creation == error.creation
    ensures error.Registration? ==> r.value.add == error.registration
  {
    match error
    case Creation(e) => Some(CreationSource(e))
    case Registration(e) => Some(AddSource(e))
  }

  /** `source` recovers exactly the error each conversion wrapped, so the two
      conversions are injective and never collide. */
  lemma SourceRoundTrip(c: CreationError, a: EPollAddError)
    ensures Source(FromCreationError(c)) == Some(CreationSource(c))
    ensures Source(FromAddError(a)) == Some(AddSource(a))
    ensures FromCreationError(c) != FromAddError(a)
  {
  }
}
