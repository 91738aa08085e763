/** Option and Result values, and the ways the generator gives up. */
module Outcomes {

  datatype Option<+T> = None | Some(value: T) {
    function GetOr(default: T): T {
      match this
      case Some(v) => v
      case None => default
    }
  }

  /** The four conditions on which the generator exits without writing a config. */
  datatype Failure =
    | MissingInput       // data/crawledsubs.yaml does not exist
    | EmptyExtraction    // the document yields no subscription URL
    | MissingGistLink    // GIST_LINK unset, or blank once stripped
    | MalformedGistLink  // GIST_LINK not of the form username/gistid

  datatype Result<+T> = Ok(value: T) | Err(error: Failure)
}
