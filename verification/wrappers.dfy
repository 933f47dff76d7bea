/** The optional-value datatype shared by the scanners and the parser. */
module Wrappers {

  /** `None` stands for Python's `None`, e.g. a regex search that found nothing. */
  datatype Option<+T> = None | Some(value: T)
}
