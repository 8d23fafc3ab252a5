/** The two externally distinguishable error categories of literal conversion. */
module Errors {

  /** `SyntaxViolation` surfaces as SQLSyntaxError, `UnsupportedConstruct` as SQLInterfaceError. */
  datatype Category = SyntaxViolation | UnsupportedConstruct

  datatype ConversionError = ConversionError(category: Category, message: string)

  /** Message of a bit string with a digit other than 0 or 1. */
  const BitStringMessage: string := "bit string literal should contain only 0s and 1s"

  /** Message of a hex string with an odd number of digits. */
  const HexParityMessage: string := "hex string literal must have an even number of digits"

  /** Message of an even-length hex string with a character that is not a hex digit. */
  const HexDigitMessage: string := "hex string literal should contain only hex digits"

  /** The message of an unsupported national-string literal names the literal node. */
  function NationalStringMessage(raw: string): string {
    "NationalStringLiteral(\"" + raw + "\") is not supported"
  }
}
