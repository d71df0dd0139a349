/** Optional values, and the two exceptions that abort a container start-up. */
module Wrappers {

  datatype Option<+T> = None | Some(value: T)

  /** What the start-up script raises and does not catch. */
  datatype Failure =
    | MissingFile(path: string)       // open() of a file that does not exist
    | BadAddress(server: string)      // `host, port = server.split(":")` with more than one colon

  datatype Result<+T> = Ok(value: T) | Err(failure: Failure)
}
