/** Turning "a resource that may be missing" into "a resource that must be
    there". Opening operations report a missing file as `Ok(None)` rather than
    as an error; `RequireFound` makes the absence a `NotFound` error again. */
module OpenResults {
  import opened IoErrors

  /** An error passes through unchanged, a present value is unwrapped, and an
      absent one becomes a `NotFound` error. */
  function RequireFound<T>(r: Result<Option<T>>): (out: Result<T>)
    ensures out.Ok? <==> r.Ok? && r.value.Some?
    ensures out.Ok? ==> r == Ok(Some(out.value))
    ensures r.Err? ==> out == Err(r.error)
    ensures r == Ok(None) ==> out == Err(Io(NotFound))
  {
    match r
    case Err(e) => Err(e)
    case Ok(o) =>
      match o
      case Some(x) => Ok(x)
      case None => Err(Io(NotFound))
  }

  /** The "may be missing" form of a result: a `NotFound` error becomes an
      absent value, every other outcome is kept. */
  function Optional<T>(r: Result<T>): (out: Result<Option<T>>)
    ensures out == Ok(None) <==> r == Err(Io(NotFound))
  {
    match r
    case Ok(x) => Ok(Some(x))
    case Err(e) => if e == Io(NotFound) then Ok(None) else Err(e)
  }

  /** Requiring a resource that was opened as "may be missing" gives back
      the original outcome. */
  lemma RequireFoundOfOptional<T>(r: Result<T>)
    ensures RequireFound(Optional(r)) == r
  {
  }

  /** Going the other way loses one distinction only: an absent value and a
      pre-existing `NotFound` error both come out as `NotFound`. */
  lemma OptionalOfRequireFound<T>(r: Result<Option<T>>)
    ensures r != Err(Io(NotFound)) ==> Optional(RequireFound(r)) == r
    ensures RequireFound<T>(Ok(None)) == RequireFound<T>(Err(Io(NotFound)))
  {
  }
}
