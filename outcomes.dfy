/** Java's exceptional control flow, made explicit.

    A call either returns a value or throws. What it throws matters, because the
    injection points of UnlockPremiumPatch guard their work with `catch (Exception ex)`,
    and `java.lang.Error` is not an `Exception`.
 */
module Outcomes {

  datatype Option<+T> = None | Some(value: T)

  /** The failures the modelled code can run into. */
  datatype Failure =
    | NoSuchField(field: string)          // java.lang.NoSuchFieldError, raised by XposedHelpers.findField
    | InaccessibleField(field: string)    // InaccessibleObjectException, raised by Field.setAccessible
    | NotInstantiable(className: string)  // Unsafe.allocateInstance refusing the runtime class
    | NotAnInt(field: string)             // IllegalArgumentException, raised by Field.getInt
    | CloneFailed(cause: Failure)         // the RuntimeException thrown by shallowCloneObject

  /** True for the failures that are `java.lang.Error`s rather than `Exception`s. */
  predicate IsError(f: Failure) {
    f.NoSuchField?
  }

  /** The result of running a Java block: it returned a value or it threw. */
  datatype Outcome<+T> = Returned(value: T) | Threw(failure: Failure)

  /** `try { return body; } catch (Exception ex) { return original; }`: an Exception is
      replaced by the original input, an Error goes on propagating. */
  function CatchExceptions<T>(body: Outcome<T>, original: T): (r: Outcome<T>)
    ensures r.Threw? <==> body.Threw? && IsError(body.failure)
    ensures r.Returned? ==> r.value == (if body.Returned? then body.value else original)
    ensures r.Threw? ==> r == body
  {
    match body
    case Returned(v) => Returned(v)
    case Threw(f) => if IsError(f) then Threw(f) else Returned(original)
  }

  /** The fail-open policy the injection points are written for: whatever the body
      throws, the caller gets the original input back and nothing propagates. */
  function FailOpen<T>(body: Outcome<T>, original: T): (r: T)
    ensures body.Threw? ==> r == original
    ensures body.Returned? ==> r == body.value
  {
    match body
    case Returned(v) => v
    case Threw(_) => original
  }

  /** The two policies agree exactly when nothing that is an Error is thrown. */
  lemma CatchExceptionsIsFailOpenWithoutErrors<T>(body: Outcome<T>, original: T)
    ensures CatchExceptions(body, original) == Returned(FailOpen(body, original))
            <==> !(body.Threw? && IsError(body.failure))
  {
  }
}
