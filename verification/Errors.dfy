/** The exceptions the source throws. */
module Errors {
  datatype Error =
    | EmptyTree
    | NoSuchElement
    | ValueOutOfRange
    | InvalidAddress(account: string)
    | DuplicateAddress(parsed: string)
    | InvalidNumber(text: string)
    | InvalidAmount(account: string)
}
