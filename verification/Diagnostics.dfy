/** The messages that Json::Reader reports, one constructor for each addError call. */
module Diagnostics {
  datatype Message =
    | BadEscape
    | FourDigitsExpected
    | HexDigitExpected
    | SurrogatePairExpected
    | SecondEscapeExpected
    | NotANumber
    | ValueExpected
    | MissingColon
    | MissingCommaOrBrace
    | MissingBraceOrName
    | MissingCommaOrBracket
}
