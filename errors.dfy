/** Error kinds of the inventory core, and the result types that stand for
    the exceptions the Python code raises. */
module Errors {

  datatype Error =
    | InvalidArgument          // ValueError: bad restock amount, bad sell quantity, empty product id
    | InsufficientStock        // "Not enough stock to sell"
    | DuplicateId              // "Duplicate product ID"
    | NotFound                 // "Product ID not found"
    | MissingField(key: string)   // KeyError while decoding a saved record
    | WrongFieldType(key: string) // a saved field whose value has the wrong JSON type
    | BadDate                  // ValueError from parsing an expiry date

  datatype Option<+T> = None | Some(value: T)

  /** The result of an operation that yields a value or raises. */
  datatype Result<+T> = Ok(value: T) | Err(error: Error) {
    predicate IsFailure() { Err? }

    function PropagateFailure<U>(): Result<U>
      requires Err?
    {
      Err(error)
    }

    function Extract(): T
      requires Ok?
    {
      value
    }
  }

  /** The result of an operation that returns nothing or raises. */
  datatype Outcome = Pass | Fail(error: Error)

  /** Forgets the value of a result, keeping only whether and how it failed. */
  function Status<T>(r: Result<T>): (o: Outcome)
    ensures o.Pass? <==> r.Ok?
    ensures o.Fail? ==> o.error == r.error
  {
    match r
    case Ok(_) => Pass
    case Err(e) => Fail(e)
  }
}
