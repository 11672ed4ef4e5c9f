/** Outcome values shared by every fallible operation of the pool.

    Both drafts of the library use the same nine outcomes under two spellings.
    The newer `code_e` names are used here; the older `Ecode` names map as
    InternalLogicError = BadLogic, CannotInitializeAgain = AlreadyInitialized,
    UnableToAllocateMemory = CannotReserveSystemMemory,
    NoFreeSpace = NotEnoughSpaceInAllocator,
    ConstructorHasThrownException = ExceptionCaughtInCtor,
    DestructorHasThrownException = ExceptionCaughtInDctor,
    BucketIndexOutOfBounds = OutOfBounds.
    The "ok" code is never carried by an error, so it has no constructor. */
module Errors {

  datatype Code =
    | BadLogic
    | NotInitialized
    | AlreadyInitialized
    | CannotReserveSystemMemory
    | NotEnoughSpaceInAllocator
    | ExceptionCaughtInCtor
    | ExceptionCaughtInDctor
    | OutOfBounds

  /** Either a success value or an error code; callers branch only on the code,
      so the diagnostic text and source location are not modelled. */
  datatype Result<+T> = Ok(value: T) | Err(code: Code)

  datatype Option<+T> = None | Some(value: T)
}
