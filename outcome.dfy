/** Optional values, results, and the errors the event pipeline can raise. */
module Outcome {

  datatype Option<T> = None | Some(value: T)

  /** A computation that either produces a value or raises one of the pipeline's errors. */
  datatype Result<T> = Ok(value: T) | Err(error: Error)

  /** The exceptions of the pipeline, named after the condition that raises them. */
  datatype Error =
    | NoHeading                    // a date block without an `h2`: `.text` of None
    | MalformedDate(text: string)  // neither "%d %B" nor "%d.%m." matches the heading text
    | MissingWidget(index: nat)    // the text widget at this position does not exist
    | AnchorWithoutHref            // the first `<a>` of a child has no `href` attribute
    | MalformedTime(text: string)  // "%H:%M" does not match this piece of the time text
    | NoDate                       // a time is combined with an absent date
    | UnboundEvent                 // the group's first child failed, so `event` was never bound
}
