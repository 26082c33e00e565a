/** Values shared by every part of the ghost builder model. */
module Common {

  /** A PHP `non-empty-string`, as documented on group ids and property names. */
  type NonEmptyString = s: string | |s| > 0 witness "_"

  /** A caller-supplied PHP closure; the model never runs one, it only keeps track of which one. */
  datatype Closure = Closure(id: nat)

  /** The failures the builder raises, one constructor per throw site. */
  datatype Error =
    | NotAClass                      // constructor guard: the name is not an existing class
    | InitializerNotAssigned         // "Initializer closure must be assigned"
    | NotAllPropertiesPassed         // a non-lazy, non-defaulted property has no eager value
    | UnexpectedType                 // the initializer yielded something that is not a Property
    | PropertyNotFound               // the initializer yielded a name the class does not have
    | LazyCountMismatch              // "Not all lazy properties were passed for lazy initialization"
    | LazyTypeMismatch               // a deferred raw write was rejected by the property type
    | NotMarkedLazy                  // the lazy-attribute check of lazyProperty / lazyGroupProperties failed
    | ConstructorParametersMismatch  // build: the constructor-parameter reconciliation failed
    | EagerTypeMismatch              // build: an eager raw write was rejected

  datatype Option<+T> = None | Some(value: T)

  datatype Outcome = Pass | Fail(error: Error)

  datatype Result<+T> = Success(value: T) | Failure(error: Error)
}
