/** gRPC status values as the catalog service's handlers return them. */
module Rpc {

  /** The gRPC status codes the catalog service raises. */
  datatype Code = NotFound | Internal | Unimplemented

  /** An error built by status.Errorf: a code and the formatted message. */
  datatype Status = Status(code: Code, message: string)

  /** The (response, error) pair of a Go handler: exactly one of the two is present,
      so a failed call never carries a partial response. */
  datatype Result<T> = Ok(value: T) | Err(error: Status)
}
