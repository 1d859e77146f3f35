/** Small failure-carrying datatypes shared by the converter model. */
module Wrappers {

  /** A value that may be absent: an unset command-line option, an image PIL cannot open. */
  datatype Option<+T> = None | Some(value: T)

  /** Why a conversion run stops before printing its summary. */
  datatype Failure =
    | SourceMissing     // the source directory does not exist (sys.exit)
    | NothingNew        // every source stem is already in the destination (sys.exit)
    | CreationDeclined  // the operator declined to create the destination (sys.exit)
    | Undecodable       // PIL cannot open or decode a source entry
    | MissingHeight     // the height branch ran with HEIGHT unset (TypeError)
    | ZeroTotal         // the percentage divided by an original total of zero (ZeroDivisionError)

  /** A computed value, or the failure that stopped the computation. */
  datatype Result<+T> = Ok(value: T) | Err(error: Failure)
}
