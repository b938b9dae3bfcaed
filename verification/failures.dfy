/**
 * Failures in place of exceptions. Each `catch` of the source wraps the exception it
 * caught in a `VipException` naming where it happened; here each level prepends one
 * frame to the context, so the outermost frame comes first and the cause is kept.
 */
module Failures {
  import opened Descriptors
  import opened Xml

  datatype Cause =
    | NullReference        // a member access on a missing attribute, tag or element
    | Target               // `GetValue`/`SetValue` on a null or mismatched object
    | Argument             // `GetValue`/`SetValue` on a property without that accessor
    | InvalidCast          // a produced node that is neither an element nor an attribute
    | Collaborator(reason: string)   // raised by a codec, mapper or factory

  datatype Frame =
    | SerializingObject(value: Value)                      // "Erro ao serializar o objeto"
    | SerializingProperty(declaringType: string, property: string)
    | DeserializingObject(typeName: string, element: XName)
    | DeserializingProperty(declaringType: string, property: string)

  datatype Failure = Failure(cause: Cause, context: seq<Frame>) {
    /** Re-raise with one more frame of context around the original failure. */
    function Within(frame: Frame): (f: Failure)
      ensures f.cause == cause && f.context == [frame] + context
    {
      Failure(cause, [frame] + context)
    }
  }

  function Raise(cause: Cause): Failure {
    Failure(cause, [])
  }

  /** The exception a failed `GetValue`/`SetValue` throws. */
  function AccessCause(e: AccessError): Cause {
    match e
    case TargetMismatch => Target
    case NoGetter => Argument
    case NoSetter => Argument
  }
}
