/** The exceptional outcomes of the index's operations, as values. */
module Outcomes {

  /** The conditions the Java code signals by throwing. */
  datatype Error =
    | NullEntry       // NullPointerException("Entry cannot be null")
    | EmptyTree       // NullPointerException("Tree is empty - no root node")
    | NoSuchElement   // NoSuchElementException("No more elements in iterator")
    | InputNotFound   // IOException("Input file not found: ...")

  /** A value, or the condition that prevented computing it. */
  datatype Result<+T> = Ok(value: T) | Err(error: Error)
}
