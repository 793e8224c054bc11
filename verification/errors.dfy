/** The ways an operation of the reflection layer fails. Every failure in the
    source is a panic; here it is an error result. */
module Errors {
  import opened Kinds

  /** `reflect.ValueError`: a method called on a Value of the wrong kind. */
  datatype ValueError = ValueError(methodName: string, kind: Kind)

  datatype Error =
    | KindError(err: ValueError)   // panic(&ValueError{...})
    | Panic(message: string)       // panic("...") with a message of its own
    | SliceBounds                  // runtime.slicePanic()
    | FieldRange                   // field index outside the struct (raised by the descriptor)

  datatype Option<+T> = None | Some(value: T)

  datatype Result<+T> = Ok(value: T) | Err(error: Error) {
    predicate IsFailure() {
      Err?
    }

    function PropagateFailure<U>(): Result<U>
      requires Err?
    {
      Err(error)
    }

    function Extract(): T
      requires Ok?
    {
      value
    }
  }

  function Fail<T>(methodName: string, kind: Kind): Result<T> {
    Err(KindError(ValueError(methodName, kind)))
  }

  /** `(*ValueError).Error()`. The names of kinds come from `Kind.String`,
      which is not part of this model and is passed in. */
  function Message(e: ValueError, kindName: Kind -> string): (m: string)
    ensures |m| > |"reflect: call of "| + |e.methodName|
    ensures m[..|"reflect: call of "|] == "reflect: call of "
    ensures m[|"reflect: call of "|..|"reflect: call of "| + |e.methodName|] == e.methodName
    ensures e.kind == Invalid ==> m[|"reflect: call of "| + |e.methodName|..] == " on zero Value"
    ensures e.kind != Invalid ==> m[|"reflect: call of "| + |e.methodName|..] == " on " + kindName(e.kind) + " Value"
  {
    if e.kind == Invalid then
      "reflect: call of " + e.methodName + " on zero Value"
    else
      "reflect: call of " + e.methodName + " on " + kindName(e.kind) + " Value"
  }
}
