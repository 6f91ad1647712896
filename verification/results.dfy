/** Errors raised by the transaction-builder helpers, and the failure-compatible
    wrappers the rest of the model returns them in. */
module Results {

  /** One variant per error the helpers throw. */
  datatype Error =
    | InvalidStructTag               // a type signature that is not well formed
    | InvalidArg                     // a value of the wrong kind or range for a scalar tag
    | InvalidAccountAddress          // an address value that is neither an address nor valid hex
    | InvalidVectorArgs              // a non-sequence value under a vector tag
    | UnsupportedArgType             // a tag the raw encoder has no rule for
    | NotUint8Array                  // a vector<u8> transaction argument that is not raw bytes
    | UnknownTransactionArgumentType // a tag the tagged converter has no variant for

  /** The text of the thrown error (the part that does not depend on the offending value). */
  function Message(e: Error): (r: string)
  {
    match e
    case InvalidStructTag => "Invalid struct tag string literal."
    case InvalidArg => "Invalid arg"
    case InvalidAccountAddress => "Invalid account address."
    case InvalidVectorArgs => "Invalid vector args."
    case UnsupportedArgType => "Unsupported arg type."
    case NotUint8Array => " should be an instance of Uint8Array"
    case UnknownTransactionArgumentType => "Unknown type for TransactionArgument."
  }

  /** Distinct errors are reported with distinct messages, so a caller can tell them apart. */
  lemma MessagesDistinct(e1: Error, e2: Error)
    requires e1 != e2
    ensures Message(e1) != Message(e2)
  {
    if e1 == InvalidStructTag {
      StructTagMessageUnique(e2);
    } else if e2 == InvalidStructTag {
      StructTagMessageUnique(e1);
    }
  }

  /** The parser's message is told apart from every other by its length. */
  lemma StructTagMessageUnique(e: Error)
    requires e != InvalidStructTag
    ensures Message(e) != Message(InvalidStructTag)
  {
    assert |Message(InvalidStructTag)| == 34;
  }

  datatype Option<+T> = None | Some(value: T) {
    predicate IsFailure() { None? }

    function PropagateFailure<U>(): Option<U>
      requires None?
    {
      None
    }

    function Extract(): T
      requires Some?
    {
      value
    }
  }

  datatype Result<+T> = Ok(value: T) | Err(error: Error) {
    predicate IsFailure() { Err? }

    function PropagateFailure<U>(): Result<U>
      requires Err?
    {
      Err(error)
    }

    function Extract(): T
      requires Ok?
    {
      value
    }

    /** Replaces any error by `e`, keeping a success as it is. */
    function OrElse(e: Error): (r: Result<T>)
      ensures r.Ok? <==> Ok?
      ensures Ok? ==> r == this
      ensures Err? ==> r.error == e
    {
      if Ok? then this else Err(e)
    }
  }
}
