/** What an action renders, and the exceptions an action can raise. */
module Responses {
  import opened Models

  /** The JSON a successful action renders (serialisation itself is not modelled). */
  datatype Body = Listing(posts: seq<Post>) | Detail(post: Post)

  /** The exceptions the actions raise: create!/update! on an invalid record, find on a missing id,
      params.require on a missing or empty parameter. */
  datatype Raised =
    | RecordInvalid(messages: seq<string>)
    | RecordNotFound(id: int)
    | ParameterMissing(param: string)

  datatype Outcome =
    | Ok(body: Body)                 // 200
    | Created(post: Post)            // 201
    | Unauthorized(error: string)    // 401 {error: ...}
    | Unprocessable(error: string)   // 422 {error: ...}
    | Failure(cause: Raised)         // the rescue_from Exception handler; status left to the framework

  const UnauthorizedMessage: string := "Unauthorized"
}
