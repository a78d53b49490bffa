/** Results, outcomes and the error kinds the hub layer raises. */
module Base {

  /** The Python exceptions raised by the attribute and table layer, by kind. */
  datatype Error =
    | MalformedRawValue(raw: string)          // ValueError from a translator's pyvalue
    | UnknownEnumValue(raw: string)           // ValueError from Enum(raw)
    | UnknownEnumName(name: string)           // KeyError from Enum[name]
    | TypeMismatch                            // a Python value the translator cannot convert
    | AttributeNotYetSet(oid: string)         // AttributeError on reading an UNSET attribute
    | WriteNotAccepted(oid: string, written: string, readBack: string)
    | MissingWriteContext                     // NEEDS_WRITE without an owning instance
    | UnsupportedOperation                    // deleting an attribute
    | DuplicateRowKey(key: string)
    | UnknownColumn(name: string)
    | NoSuchRow(key: string)                  // KeyError from dict deletion
    | NoSuchColumn(name: string)              // AttributeError from getattr on a row
    | TransportError(oid: string)             // propagated unchanged from the transport

  datatype Option<+T> = None | Some(value: T)

  datatype Result<+T> = Ok(value: T) | Err(error: Error) {
    predicate IsFailure() { Err? }
    function PropagateFailure<U>(): Result<U>
      requires Err?
    {
      Err(error)
    }
    function Extract(): T
      requires Ok?
    {
      value
    }
  }

  datatype Outcome = Pass | Fail(error: Error) {
    predicate IsFailure() { Fail? }
    function PropagateFailure(): Outcome
      requires Fail?
    {
      this
    }
  }
}
