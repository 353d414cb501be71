/** Option, Result and Outcome: absent values, and values or errors. */
module Wrappers {

  /** A value that may be absent, as JavaScript's `undefined` may stand for one. */
  datatype Option<+T> = None | Some(value: T)

  /** A computed value, or the error the computation throws instead. */
  datatype Result<+T, +E> = Ok(value: T) | Err(error: E)

  /** A step that either completes or throws. */
  datatype Outcome<+E> = Pass | Fail(error: E)
}

/** The errors the importer's callbacks throw. */
module ImportErrors {

  datatype ImportError =
      /** `assert(entities[key] === undefined, 'entity multiply defined for event')` failed. */
    | EntityMultiplyDefined
      /** `assert(e.newValue != null)` failed in the entity-change handler. */
    | NewValueIsNull
      /** `writeRow` met a value whose `typeof` is none of object, string, number. */
    | CannotSerialise(typeName: string)
}
