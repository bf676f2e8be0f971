/** The regular expressions the extension methods consult. Their patterns
    live in RegexHelper (Yeg.Utilities.Helpers), which is not part of this
    model, so every pattern is an arbitrary predicate on strings and every
    property proved about the extensions holds whatever the patterns are. */
module Regexes {

  /** One IsMatch predicate per pattern that RegexHelper hands out. */
  datatype RegexHelper = RegexHelper(
    base64String: string -> bool,
    email: string -> bool,
    faxOrPhoneNumber: string -> bool,
    alphaAndSpace: string -> bool,
    alphaNumeric: string -> bool,
    numeric: string -> bool,
    url: string -> bool,
    date: string -> bool,
    ipAddress: string -> bool,
    postalCode: string -> bool,
    creditCardNumber: string -> bool,
    macAddress: string -> bool,
    imei: string -> bool)

  /** The static Regex API called with caller-supplied patterns:
      whether a pattern parses, Regex.IsMatch(input, pattern) and
      Regex.Replace(input, pattern, replacement). */
  datatype RegexEngine = RegexEngine(
    isValidPattern: string -> bool,
    isMatch: (string, string) -> bool,
    replace: (string, string, string) -> string)
}
