/** Shared vocabulary of the two services: optional values, results, the gRPC
    status codes the handlers return, and the failures a database call can
    report. */
module Common {

  datatype Option<+T> = None | Some(value: T)

  datatype Result<+T, +E> = Ok(value: T) | Err(error: E)

  /** The outcome of an operation that returns only an error. */
  datatype Outcome<+E> = Pass | Fail(error: E)

  /** The gRPC status codes the handlers use, with their wire numbers. */
  datatype Code = InvalidArgument | NotFound | Internal {
    function Number(): (n: int)
      ensures n == 3 <==> this == InvalidArgument
      ensures n == 5 <==> this == NotFound
      ensures n == 13 <==> this == Internal
    {
      match this
      case InvalidArgument => 3
      case NotFound => 5
      case Internal => 13
    }
  }

  /** What a repository returns instead of a value: `sql.ErrNoRows`, or any
      other failure of the database. */
  datatype StoreError = NoRows | DbError

  /** Whether the database fails while serving one repository call. The
      model takes it as an input, so that every error path can be stated. */
  datatype Fault = Healthy | Broken

  /** Go's int32 wrap-around: the int32 value congruent to x modulo 2^32. */
  function Wrap32(x: int): (r: int)
    ensures -0x8000_0000 <= r < 0x8000_0000
    ensures (r - x) % 0x1_0000_0000 == 0
    ensures -0x8000_0000 <= x < 0x8000_0000 ==> r == x
  {
    var m := x % 0x1_0000_0000;
    if m < 0x8000_0000 then m else m - 0x1_0000_0000
  }
}
