/** Shared result types: the exceptions the configuration library throws become `Error` values. */
module Outcomes {

  datatype Option<T> = None | Some(value: T)

  /** One constructor per exception the library raises. */
  datatype Error =
    | EmptyCategory                        // push: "category must not be empty"
    | NoCategoryToPop                      // pop: "no more categories to pop"
    | EmptyComment                         // comment / categoryComment: "comment must not be empty"
    | NoCategoryPushed                     // categoryComment: "no category pushed"
    | CategoryAlreadyCommented(category: string)
    | CommentAlreadySpecified              // comment: "a comment is already specified"
    | EmptyName                            // getPath: "name must not be empty"
    | DuplicateConfig(identifier: string)  // addConfig: "Config '...' already exists!"
    | UnknownConfig(identifier: string)    // handleSyncConfigPacket: "unknown config '...'"
    | WriteEntriesFailed(identifier: string) // writeSyncedEntriesPacket: the rethrown RuntimeException
    | BufferOverflow                       // a write beyond the buffer's capacity
    | MalformedPacket                      // readUtf finds no string where the identifier should be

  /** The outcome of an operation that returns nothing or throws. */
  datatype Outcome = Pass | Fail(error: Error)

  /** The outcome of an operation that returns a value or throws. */
  datatype Result<T> = Ok(value: T) | Err(error: Error)
}
