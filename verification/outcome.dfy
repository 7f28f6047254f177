/**
 * The generator's fatal failures.  The Go program panics or calls
 * log.Fatal on these; the model returns them instead, so that every such
 * path is visible in a function's result.
 */
module Outcome {

  /** Why a run is aborted. */
  datatype Error =
    | PropertyNotObject(property: string)       // a schema property whose attributes are not a JSON object
    | AttributeNotString(attribute: string)     // an `id`, `type` or `documentation` attribute that is not a JSON string
    | SchemaUnreadable(href: string)            // a `.json` grammar include that cannot be read or decoded
    | ExampleDocMissing(methodId: string)       // a JSON response representation without a documentation node
    | ExampleUnreadable(methodId: string)       // the example file named by that node cannot be read
    | EmptyMethodReference                      // a resource's method reference with an empty href
    | BaseUrlInvalid(url: string)               // a base URL that url.Parse rejects
    | TemplateFieldMissing(field: string)       // a template reads a field its data does not have

  /** The answer of an outside call that may find nothing (a read that fails, a parse that fails). */
  datatype Option<+T> = None | Some(value: T)

  /** Either a value or the error that aborted the run. */
  datatype Result<+T> = Ok(value: T) | Fail(error: Error) {

    predicate IsFailure()
    {
      Fail?
    }

    function PropagateFailure<U>(): Result<U>
      requires Fail?
    {
      Fail(error)
    }

    function Extract(): T
      requires Ok?
    {
      value
    }
  }
}
