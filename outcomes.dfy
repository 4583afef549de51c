/** What a resolution step can end in: a value, one of the resolver's errors, or a Go
    runtime panic (an index into an empty string). */
module Outcomes {

  datatype Option<+T> = None | Some(value: T)

  /** The resolver's errors. Go builds each as a string; the model keeps the kind and the
      text Go appends after the fixed prefix (Resolver.Message rebuilds the string). */
  datatype Error =
    | InvalidBoolean(text: string)
    | InvalidInteger(text: string)
    | NegativeUnsigned(text: string)
    | InvalidUnsigned(text: string)
    | InvalidFloat(text: string)
    | InvalidTimestamp(text: string)
      /** base64.CorruptInputError: the offset of the first byte the decoder refused */
    | InvalidBase64(offset: nat)
      /** a slice target other than []byte, named by its Go type */
    | CannotResolveInto(typeName: string)
      /** a target kind the dispatcher has no case for, named by its reflect.Kind */
    | ResolveFailed(kindName: string)

  /** Ok: the conversion succeeded. Err: the Go function returned a non-nil error.
      Panic: the Go function indexed val[0] of an empty string and the runtime panicked. */
  datatype Outcome<+T> = Ok(value: T) | Err(error: Error) | Panic
}
