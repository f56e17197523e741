/** What a route handler sends back: a status with a document, or a status with an error. */
module Http {

  datatype Error =
    | Message(text: string)         // `{ message }` bodies written by the handlers themselves
    | Invalid(paths: seq<string>)   // a schema validation failure, naming every offending field in schema order
    | NoMessage                     // a thrown value that is not an Error object: the body's `message` is undefined

  datatype Reply<T> = Ok(status: int, value: T) | Fail(status: int, error: Error)
}
