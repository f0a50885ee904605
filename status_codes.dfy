/** The closed set of storage status codes and their descriptions
    (the class MinIOStatusCodes of app/services/minio_status_codes.py). */
module StatusCodes {
  import opened Wrappers

  datatype Status =
    | Success
    | Failure
    | ObjectAlreadyExist
    | NoSuchBucket
    | NoSuchKey
    | EntityTooLarge
    | AccessDenied
    | InvalidCredentials
    | PreconditionFailed
    | InternalError
    | ObjectNotFound
  {
    /** The integer the source uses for this status. */
    function Code(): (c: int)
      ensures 0 <= c <= 10
    {
      match this
      case Success => 0
      case Failure => 1
      case ObjectAlreadyExist => 2
      case NoSuchBucket => 3
      case NoSuchKey => 4
      case EntityTooLarge => 5
      case AccessDenied => 6
      case InvalidCredentials => 7
      case PreconditionFailed => 8
      case InternalError => 9
      case ObjectNotFound => 10
    }
  }

  /** The status an integer code stands for, if any. */
  function FromCode(c: int): (r: Option<Status>)
    ensures r.Some? <==> 0 <= c <= 10
    ensures r.Some? ==> r.value.Code() == c
  {
    if c == 0 then Some(Success)
    else if c == 1 then Some(Failure)
    else if c == 2 then Some(ObjectAlreadyExist)
    else if c == 3 then Some(NoSuchBucket)
    else if c == 4 then Some(NoSuchKey)
    else if c == 5 then Some(EntityTooLarge)
    else if c == 6 then Some(AccessDenied)
    else if c == 7 then Some(InvalidCredentials)
    else if c == 8 then Some(PreconditionFailed)
    else if c == 9 then Some(InternalError)
    else if c == 10 then Some(ObjectNotFound)
    else None
  }

  /** Eleven distinct codes: the code of a status determines the status. */
  lemma CodeRoundTrip(s: Status)
    ensures FromCode(s.Code()) == Some(s)
  {
  }

  lemma CodesDistinct(a: Status, b: Status)
    ensures a.Code() == b.Code() <==> a == b
  {
    CodeRoundTrip(a);
    CodeRoundTrip(b);
  }

  const UnknownDescription := "Unknown status code"

  /** The description table, keyed by code. */
  const Descriptions: map<int, string> := map[
    Success.Code() := "Operation succeeded",
    Failure.Code() := "Operation failed",
    ObjectAlreadyExist.Code() := "Object already exists",
    NoSuchBucket.Code() := "Bucket does not exist",
    NoSuchKey.Code() := "Object key does not exist",
    EntityTooLarge.Code() := "Entity size too large",
    AccessDenied.Code() := "Access denied",
    InvalidCredentials.Code() := "Invalid credentials",
    PreconditionFailed.Code() := "Precondition failed",
    InternalError.Code() := "Internal server error",
    ObjectNotFound.Code() := "Object Not Found"
  ]

  /** get_status_description: total over all integers; only codes outside the
      enumeration fall back to the unknown-code text. */
  function Description(code: int): (d: string)
    ensures d == UnknownDescription <==> FromCode(code).None?
  {
    if code in Descriptions then Descriptions[code] else UnknownDescription
  }

  /** Every defined code has its listed text. */
  lemma DescriptionTable()
    ensures Description(Success.Code()) == "Operation succeeded"
    ensures Description(Failure.Code()) == "Operation failed"
    ensures Description(ObjectAlreadyExist.Code()) == "Object already exists"
    ensures Description(NoSuchBucket.Code()) == "Bucket does not exist"
    ensures Description(NoSuchKey.Code()) == "Object key does not exist"
    ensures Description(EntityTooLarge.Code()) == "Entity size too large"
    ensures Description(AccessDenied.Code()) == "Access denied"
    ensures Description(InvalidCredentials.Code()) == "Invalid credentials"
    ensures Description(PreconditionFailed.Code()) == "Precondition failed"
    ensures Description(InternalError.Code()) == "Internal server error"
    ensures Description(ObjectNotFound.Code()) == "Object Not Found"
  {
  }

  /** Distinct statuses are described by distinct texts, so a description
      identifies the status it came from. */
  lemma DescriptionsDistinct(a: Status, b: Status)
    ensures Description(a.Code()) == Description(b.Code()) <==> a == b
  {
    DescriptionTable();
  }
}
