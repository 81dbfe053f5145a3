/** Option and Result types shared by every module of the converter. A Python
    exception raised by the converter becomes an `Err` carrying one of the
    `Error` kinds below; every caller propagates it with `:-`, as an uncaught
    exception propagates in the original program. */
module Wrappers {

  datatype Option<+T> = None | Some(value: T)

  /** The exceptions the converter can raise. `WrongNumberOfDelimiters` and
      `InvalidMarkdownSyntax` are the two messages of the delimiter splitter;
      the other kinds stand for the remaining `ValueError`, `KeyError` and
      `Exception` raises of the node constructors and block translators. */
  datatype Error =
    | InvalidMarkdownSyntax     // an opening delimiter without a closing one
    | WrongNumberOfDelimiters   // a third delimiter after a closed pair, or an empty delimiter
    | MissingUrl                // a LINK or IMAGE span whose url is None or ""
    | MissingValue              // a leaf without value whose tag is not self-closing
    | MissingTag                // a parent node without a tag
    | NoChildren                // a parent node whose children are empty or all None
    | MissingQuoteLevel         // a nested blockquote without any depth-1 line
    | UnsupportedBlockType      // a block type outside the translated set

  datatype Result<+T> = Ok(value: T) | Err(error: Error) {
    predicate IsFailure() {
      Err?
    }

    function PropagateFailure<U>(): Result<U>
      requires Err?
    {
      Err(error)
    }

    function Extract(): T
      requires Ok?
    {
      value
    }
  }
}
