# StringExtensions, modelled in Dafny

This project models the static class `StringExtensions` of EPortalAdmin
(`src/EPortalAdmin.Core/Utilities/Extensions/StringExtensions.cs`): a set of
string validators (`Is*` / `IsNot*`), conversions (`To*`) and manipulators
(`CapitalizeFirstLetter`, `RemoveFirstChars`, `Manipulate`,
`ExtractDomainFromEmail`) written as C# extension methods on `string`.

How the C# world is represented:

- A C# `string` that may be null is `Wrappers.Nullable<string>` (`Null` or
  `NonNull(s)`); a call that may throw returns `Wrappers.Result<T>`, either
  `Ok(v)` or `Throws(e)` with the .NET exception type `e`.
- The patterns of `RegexHelper` (library `Yeg.Utilities.Helpers`) are not part
  of this model. `Regexes.RegexHelper` carries one arbitrary `string -> bool`
  per pattern, so every property below holds whatever the patterns are.
  `Regex.IsMatch`/`Regex.Replace` with caller-supplied patterns (used by
  `Manipulate`) are the arbitrary functions of `Regexes.RegexEngine`, together
  with a predicate saying whether a pattern parses.
- `Guid.TryParse`, `decimal.TryParse`, `DateTime.TryParse` and `Enum.Parse`
  are parameters; what is modelled is the guard, fallback and throw logic of
  the methods that call them.
- `char.IsWhiteSpace`, `string.Trim`, `string.IndexOf(char)`,
  `string.Equals(string, StringComparison)` and ASCII casing are in
  `DotNetString`.

Modules follow the regions of the class: `IsExtensions` ("Is, IsNot
Extensions"), `ToExtensions` ("To Extensions") and `ManipulatingExtensions`
("Manipulating Extensions", plus `ExtractDomainFromEmail`, which follows that
region). `RemoveFirstChars` and `Manipulate` update a local `result` in a
loop in the source, so they are methods with loop invariants, each proved
equal to a recursive specification function (`RemoveFirstCharsOf`,
`ManipulateOf`) about which the lemmas are stated.

Points where the code decides something the doc comments do not say:

- Validators that only consult a pattern (`IsUrl`, `IsAlphaAndSpace`, ...)
  throw `ArgumentNullException` on a null receiver, because `Regex.IsMatch`
  does; `IsEmail`, `IsPhoneOrFaxNumber`, `IsGuid`, `IsBase64String` and
  `IsEmpty` answer false instead.
- `IsAlphaNumeric` and `IsNumeric` hold when their pattern does NOT match, so
  `IsNotAlphaNumeric` and `IsNotNumeric` hold exactly when it matches.
- `IsBase64String` gates on the length of the trimmed string but runs the
  pattern on the untrimmed one.
- `IsEquals` trims the receiver only; a receiver of white space alone is not
  empty, trims to `""` and so equals `""`.
- `RemoveFirstChars` evaluates `Substring(0, 1)` for every entry, so any
  entry (even a null one) met after the string has become empty throws
  `ArgumentOutOfRangeException`; a null `chars` array throws
  `ArgumentNullException` from `ToList`.
- In `Manipulate` the pair is a value tuple, which is never null, so only a
  null pattern or replacement ends the loop (reading `IsNull()` as a null
  test; see "Left out"). A null array throws
  `NullReferenceException` (reading `Length`), and in the `List` overload a
  null list throws it from `ToArray` before the receiver is checked.
- `ExtractDomainFromEmail` returns the whole address when it holds no `@`
  (`IndexOf` gives -1): only the `IsEmail` pattern stands between that case
  and the caller.

## Model

| member | source | states |
|---|---|---|
| `IsExtensions.IsBase64String` | src/EPortalAdmin.Core/Utilities/Extensions/StringExtensions.cs:18-25 | false for null or white-space-only input; true exactly when the trimmed length is a positive multiple of 4 and the Base64 pattern matches |
| `IsExtensions.Base64GateIgnoresPadding` | src/EPortalAdmin.Core/Utilities/Extensions/StringExtensions.cs:23 | the length gate gives the same answer for a string and that string padded with white space |
| `IsExtensions.IsGuid` | src/EPortalAdmin.Core/Utilities/Extensions/StringExtensions.cs:32-38 | true exactly for a non-null, non-empty string the GUID parser accepts |
| `IsExtensions.IsEquals` | src/EPortalAdmin.Core/Utilities/Extensions/StringExtensions.cs:47-55 | false for a null or empty receiver whatever the comparand, and for a null comparand; otherwise the trimmed receiver compared with the comparand; under an ordinal comparison a match is never longer than the receiver |
| `IsExtensions.IsEqualsIgnoresPadding` | src/EPortalAdmin.Core/Utilities/Extensions/StringExtensions.cs:54 | white space around a non-empty receiver does not change the answer |
| `IsExtensions.IsEqualsOwnTrim` | src/EPortalAdmin.Core/Utilities/Extensions/StringExtensions.cs:47-55 | a non-empty receiver equals its own trimmed form under every comparison |
| `IsExtensions.IsEqualsTrimsOnlyReceiver` | src/EPortalAdmin.Core/Utilities/Extensions/StringExtensions.cs:54 | for an unpadded non-empty m and non-empty white space w, w + m equals m under every comparison, while m does not equal w + m under an ordinal comparison: only the receiver is trimmed |
| `IsExtensions.IsEqualsIgnoresCase` | src/EPortalAdmin.Core/Utilities/Extensions/StringExtensions.cs:47-55 | under the default InvariantCultureIgnoreCase an unpadded non-empty receiver equals a comparand exactly when their lower-case forms agree, so it equals its own lower-case form |
| `IsExtensions.IsNotNullOrEmpty` | src/EPortalAdmin.Core/Utilities/Extensions/StringExtensions.cs:62-63 | true exactly for a non-null string of positive length |
| `IsExtensions.IsNullOrEmpty` | src/EPortalAdmin.Core/Utilities/Extensions/StringExtensions.cs:71-74 | true exactly for null and the empty string |
| `IsExtensions.NullOrEmptyDuality` | src/EPortalAdmin.Core/Utilities/Extensions/StringExtensions.cs:62-74 | IsNullOrEmpty is the negation of IsNotNullOrEmpty on every input, and IsEmpty is IsNullOrEmpty without null |
| `IsExtensions.IsEmail` | src/EPortalAdmin.Core/Utilities/Extensions/StringExtensions.cs:81-87 | true exactly for a non-null, non-empty string the email pattern matches |
| `IsExtensions.IsPhoneOrFaxNumber` | src/EPortalAdmin.Core/Utilities/Extensions/StringExtensions.cs:94-100 | true exactly for a non-null, non-empty string the phone/fax pattern matches |
| `IsExtensions.IsMatch` | src/EPortalAdmin.Core/Utilities/Extensions/StringExtensions.cs:107-108 | Regex.IsMatch throws ArgumentNullException exactly on null, and otherwise holds exactly when the pattern matches and fails exactly when it does not |
| `IsExtensions.IsAlphaAndSpace` | src/EPortalAdmin.Core/Utilities/Extensions/StringExtensions.cs:107-108 | throws ArgumentNullException exactly on null; on any other input returns normally, true exactly when the pattern matches and false otherwise |
| `IsExtensions.IsAlphaNumeric` | src/EPortalAdmin.Core/Utilities/Extensions/StringExtensions.cs:116-117 | throws ArgumentNullException exactly on null; on any other input returns normally, true exactly when the pattern does not match |
| `IsExtensions.IsNotAlphaNumeric` | src/EPortalAdmin.Core/Utilities/Extensions/StringExtensions.cs:124-125 | throws exactly when IsAlphaNumeric throws, true exactly when it is false and false exactly when it is true |
| `IsExtensions.DoubleNegations` | src/EPortalAdmin.Core/Utilities/Extensions/StringExtensions.cs:116-149 | IsNotAlphaNumeric and IsNotNumeric are exactly their pattern's match |
| `IsExtensions.IsEmpty` | src/EPortalAdmin.Core/Utilities/Extensions/StringExtensions.cs:132-133 | true only for the empty string (never for null) |
| `IsExtensions.IsNumeric` | src/EPortalAdmin.Core/Utilities/Extensions/StringExtensions.cs:140-141 | throws ArgumentNullException exactly on null; on any other input returns normally, true exactly when the numeric pattern does not match |
| `IsExtensions.IsNotNumeric` | src/EPortalAdmin.Core/Utilities/Extensions/StringExtensions.cs:148-149 | the negation of IsNumeric, exceptions included |
| `IsExtensions.IsUrl` | src/EPortalAdmin.Core/Utilities/Extensions/StringExtensions.cs:156-157 | throws ArgumentNullException exactly on null; on any other input returns normally with the URL pattern's match, so false when it does not match |
| `IsExtensions.IsNotUrl` | src/EPortalAdmin.Core/Utilities/Extensions/StringExtensions.cs:164-165 | the negation of IsUrl, exceptions included: ArgumentNullException exactly on null, as IsUrl throws; otherwise Ok, true exactly when the URL pattern does not match |
| `IsExtensions.IsDate` | src/EPortalAdmin.Core/Utilities/Extensions/StringExtensions.cs:172-173 | throws ArgumentNullException exactly on null; on any other input returns normally with the date pattern's match, so false when it does not match |
| `IsExtensions.IsNotDate` | src/EPortalAdmin.Core/Utilities/Extensions/StringExtensions.cs:180-181 | the negation of IsDate, exceptions included: ArgumentNullException exactly on null, as IsDate throws; otherwise Ok, true exactly when the date pattern does not match |
| `IsExtensions.IsIpAddress` | src/EPortalAdmin.Core/Utilities/Extensions/StringExtensions.cs:188-189 | throws ArgumentNullException exactly on null; on any other input returns normally with the IP address pattern's match, so false when it does not match |
| `IsExtensions.IsNotIpAddress` | src/EPortalAdmin.Core/Utilities/Extensions/StringExtensions.cs:196-197 | the negation of IsIpAddress, exceptions included: ArgumentNullException exactly on null, as IsIpAddress throws; otherwise Ok, true exactly when the IP address pattern does not match |
| `IsExtensions.IsPostalCode` | src/EPortalAdmin.Core/Utilities/Extensions/StringExtensions.cs:204-205 | throws ArgumentNullException exactly on null; on any other input returns normally with the postal code pattern's match, so false when it does not match |
| `IsExtensions.IsNotPostalCode` | src/EPortalAdmin.Core/Utilities/Extensions/StringExtensions.cs:212-213 | the negation of IsPostalCode, exceptions included: ArgumentNullException exactly on null, as IsPostalCode throws; otherwise Ok, true exactly when the postal code pattern does not match |
| `IsExtensions.IsCreditCardNumber` | src/EPortalAdmin.Core/Utilities/Extensions/StringExtensions.cs:220-221 | throws ArgumentNullException exactly on null; on any other input returns normally, true exactly when the numeric pattern does not match (IsNumeric) and the credit card pattern matches |
| `IsExtensions.IsNotCreditCardNumber` | src/EPortalAdmin.Core/Utilities/Extensions/StringExtensions.cs:228-229 | the negation of IsCreditCardNumber, exceptions included: ArgumentNullException exactly on null; otherwise Ok, true exactly when the numeric pattern matches or the credit card pattern does not |
| `IsExtensions.IsMacAddress` | src/EPortalAdmin.Core/Utilities/Extensions/StringExtensions.cs:236-237 | throws ArgumentNullException exactly on null; on any other input returns normally with the MAC address pattern's match, so false when it does not match |
| `IsExtensions.IsNotMacAddress` | src/EPortalAdmin.Core/Utilities/Extensions/StringExtensions.cs:244-245 | the negation of IsMacAddress, exceptions included: ArgumentNullException exactly on null, as IsMacAddress throws; otherwise Ok, true exactly when the MAC address pattern does not match |
| `IsExtensions.IsImei` | src/EPortalAdmin.Core/Utilities/Extensions/StringExtensions.cs:252-253 | throws ArgumentNullException exactly on null; on any other input returns normally with the IMEI pattern's match, so false when it does not match |
| `IsExtensions.IsNotImei` | src/EPortalAdmin.Core/Utilities/Extensions/StringExtensions.cs:260-261 | the negation of IsImei, exceptions included: ArgumentNullException exactly on null, as IsImei throws; otherwise Ok, true exactly when the IMEI pattern does not match |
| `ToExtensions.ToDecimal` | src/EPortalAdmin.Core/Utilities/Extensions/StringExtensions.cs:271-280 | 0 for null, empty or unparsable input; the parsed value otherwise |
| `ToExtensions.ToEnum` | src/EPortalAdmin.Core/Utilities/Extensions/StringExtensions.cs:289-290 | ArgumentNullException exactly on null, ArgumentException exactly when the parser rejects the string (`Unrecognized`), OverflowException exactly when it is a number out of the underlying type's range, else the parsed value |
| `ToExtensions.ToGuid` | src/EPortalAdmin.Core/Utilities/Extensions/StringExtensions.cs:307-316 | ArgumentNullException exactly on null or empty input, InvalidOperationException on unparsable input, the parsed GUID on parsable input |
| `ToExtensions.ToGuidAgreesWithIsGuid` | src/EPortalAdmin.Core/Utilities/Extensions/StringExtensions.cs:307-316 | with the same parser, ToGuid succeeds exactly where IsGuid holds |
| `ToExtensions.ToValidDateTimeOrNull` | src/EPortalAdmin.Core/Utilities/Extensions/StringExtensions.cs:323-324 | null for null or unparsable input, the parsed date otherwise |
| `DotNetString.Trim` | src/EPortalAdmin.Core/Utilities/Extensions/StringExtensions.cs:54 | the result is a window of the input with only white space outside it, has no white space at its ends, is empty exactly for all-white-space input, and is the input itself when that has no padding |
| `DotNetString.TrimIgnoresPadding` | src/EPortalAdmin.Core/Utilities/Extensions/StringExtensions.cs:54 | Trim(w1 + m + w2) equals Trim(m) for white-space w1 and w2 |
| `DotNetString.IsWhiteSpace` | src/EPortalAdmin.Core/Utilities/Extensions/StringExtensions.cs:23 | space, tab, line feed and carriage return are white space; ASCII letters and digits, characters below U+0009 and above U+3000 are not |
| `DotNetString.IsNullOrWhiteSpace` | src/EPortalAdmin.Core/Utilities/Extensions/StringExtensions.cs:20 | true exactly for null and for a string that Trim empties; the empty string included |
| `DotNetString.StringEquals` | src/EPortalAdmin.Core/Utilities/Extensions/StringExtensions.cs:54 | a null argument is never equal; an ordinal comparison holds exactly for the same string; every string equals itself; in this position-by-position model a match has the receiver's length |
| `DotNetString.StringEqualsSymmetric` | src/EPortalAdmin.Core/Utilities/Extensions/StringExtensions.cs:54 | equality under each comparison is symmetric |
| `DotNetString.StringEqualsIgnoringCase` | src/EPortalAdmin.Core/Utilities/Extensions/StringExtensions.cs:54 | under an IgnoreCase comparison two strings are equal exactly when their lower-case forms are the same string |
| `DotNetString.ToUpperAscii` | src/EPortalAdmin.Core/Utilities/Extensions/StringExtensions.cs:360 | the result is never a lower-case letter; a lower-case letter becomes the upper-case letter at the same place in the alphabet, anything else is kept |
| `DotNetString.ToLowerAscii` | src/EPortalAdmin.Core/Utilities/Extensions/StringExtensions.cs:360 | the result is never an upper-case letter; an upper-case letter becomes the lower-case letter at the same place in the alphabet, anything else is kept |
| `DotNetString.ToLowerString` | src/EPortalAdmin.Core/Utilities/Extensions/StringExtensions.cs:360 | same length, no upper-case letter left, each character equal to the input's ignoring case, and a string with no upper-case letter is kept as it is |
| `DotNetString.CaseMapsAreProjections` | src/EPortalAdmin.Core/Utilities/Extensions/StringExtensions.cs:360 | upper- and lower-casing are idempotent, agree with the input ignoring case, and undo each other on letters |
| `DotNetString.IndexOf` | src/EPortalAdmin.Core/Utilities/Extensions/StringExtensions.cs:445 | -1 exactly when the character is absent, otherwise the position of its first occurrence |
| `ManipulatingExtensions.CapitalizeFirstLetter` | src/EPortalAdmin.Core/Utilities/Extensions/StringExtensions.cs:355-361 | ArgumentException exactly on null or empty input; on any other input returns normally, with the same length, first character upper-cased, every later one lower-cased, so the result is capitalized and equal to the input ignoring case |
| `ManipulatingExtensions.CapitalizeFixesExactlyCapitalized` | src/EPortalAdmin.Core/Utilities/Extensions/StringExtensions.cs:355-361 | a string comes back unchanged exactly when it is already capitalized |
| `ManipulatingExtensions.CapitalizeIdempotent` | src/EPortalAdmin.Core/Utilities/Extensions/StringExtensions.cs:355-361 | capitalizing a result again changes nothing |
| `ManipulatingExtensions.RemoveStep` | src/EPortalAdmin.Core/Utilities/Extensions/StringExtensions.cs:378-379 | throws ArgumentOutOfRangeException exactly on an empty string and returns normally on any other; drops the first character exactly when the entry is that character, keeps the string otherwise |
| `ManipulatingExtensions.RemoveFirstChars` | src/EPortalAdmin.Core/Utilities/Extensions/StringExtensions.cs:369-383 | the loop computes RemoveFirstCharsOf: ArgumentNullException on null or empty input or a null array, otherwise the entries applied one by one in order |
| `ManipulatingExtensions.RemoveAllIsBoundedSuffix` | src/EPortalAdmin.Core/Utilities/Extensions/StringExtensions.cs:376-380 | the result is a suffix of the input, shorter by at most the number of entries; the loop's only exception is ArgumentOutOfRangeException |
| `ManipulatingExtensions.RemoveAllAppend` | src/EPortalAdmin.Core/Utilities/Extensions/StringExtensions.cs:376-380 | entries are applied strictly in order: a + b is a, then b on what a left |
| `ManipulatingExtensions.RemoveAllKeepsUnmatched` | src/EPortalAdmin.Core/Utilities/Extensions/StringExtensions.cs:378-379 | entries that are not one-character strings leave a non-empty input unchanged |
| `ManipulatingExtensions.RemoveAllOfItself` | src/EPortalAdmin.Core/Utilities/Extensions/StringExtensions.cs:376-380 | naming every character of the input in order removes all of it |
| `ManipulatingExtensions.RemoveBeyondEmptyThrows` | src/EPortalAdmin.Core/Utilities/Extensions/StringExtensions.cs:376-380 | once entries a have emptied the string, a + b throws ArgumentOutOfRangeException for every non-empty b |
| `ManipulatingExtensions.RemoveBeyondItselfThrows` | src/EPortalAdmin.Core/Utilities/Extensions/StringExtensions.cs:376-380 | naming every character of the input and then one more entry throws ArgumentOutOfRangeException |
| `ManipulatingExtensions.Manipulate` | src/EPortalAdmin.Core/Utilities/Extensions/StringExtensions.cs:400-416 | the loop computes ManipulateOf: ArgumentNullException on a null receiver, NullReferenceException on a null array, otherwise the pairs applied in order up to the first null pattern or replacement |
| `ManipulatingExtensions.ManipulateList` | src/EPortalAdmin.Core/Utilities/Extensions/StringExtensions.cs:391-392 | NullReferenceException on a null list, otherwise the array overload's result |
| `ManipulatingExtensions.ReplaceAllStopsAtNull` | src/EPortalAdmin.Core/Utilities/Extensions/StringExtensions.cs:404-409 | the pairs after the first null pattern or replacement have no effect |
| `ManipulatingExtensions.ReplaceAllAppend` | src/EPortalAdmin.Core/Utilities/Extensions/StringExtensions.cs:404-413 | when a holds no null pattern or replacement, pairs apply strictly in order: a + b is a, then b on what a produced |
| `ManipulatingExtensions.ReplaceAllKeepsUnmatched` | src/EPortalAdmin.Core/Utilities/Extensions/StringExtensions.cs:411-412 | when every pair with no null pattern or replacement before it has a pattern that parses and does not match, the string comes back unchanged |
| `ManipulatingExtensions.ReplaceAllThrowsOnlyOnBadPattern` | src/EPortalAdmin.Core/Utilities/Extensions/StringExtensions.cs:411-412 | the loop throws exactly when some pattern that comes before every null pattern or replacement does not parse, and it then throws ArgumentException |
| `ManipulatingExtensions.ExtractDomainFromEmail` | src/EPortalAdmin.Core/Utilities/Extensions/StringExtensions.cs:437-447 | System.Exception exactly when IsEmail fails (null and empty included); otherwise the characters after the first '@', a proper suffix of the address, or the whole address when it has no '@' |
| `ManipulatingExtensions.ExtractDomainOfAddress` | src/EPortalAdmin.Core/Utilities/Extensions/StringExtensions.cs:445-446 | for an accepted address local@domain with no '@' in local, the result is domain |

## Left out

- The RegexHelper patterns: library `Yeg.Utilities.Helpers` is not part of this model; each pattern is an arbitrary predicate and `Regex.Replace` an arbitrary function.
- Regex match timeouts (RegexMatchTimeoutException): not modelled; the default timeout is infinite.
- `ToFileInfo`, `ToXDocument`, `ToXmlDocument`: file-system and XML library wrappers.
- `Split(string, separator, option)`: a direct call of `string.Split`.
- The parsers behind `IsGuid`, `ToGuid`, `ToDecimal`, `ToValidDateTimeOrNull` and `ToEnum` are parameters; .NET's parsing rules are not modelled. `decimal` is modelled as `real` (no 28-digit precision limit).
- Exception messages and parameter names: only the exception type is modelled.
- `ManipulatingExtensions.Manipulate`: the loop's stop test calls the extension `IsNull()`, which is defined outside StringExtensions.cs and is not part of this model; it is taken to be the reference test `== null`.
- Strings are sequences of Unicode scalar values, not of UTF-16 code units; unpaired surrogates are not representable. Two operations answer differently for characters outside the Basic Multilingual Plane, listed next.
- `IsExtensions.IsBase64String`: the `Length % 4` gate counts scalar values, so "😀😀" has length 2 in the model and 4 in .NET.
- `ManipulatingExtensions.RemoveFirstChars`: `Substring(0, 1)` is one scalar value in the model but one UTF-16 unit in .NET, so an entry "😀" removes a leading "😀" in the model and never matches in .NET.
- `ManipulatingExtensions.CapitalizeFirstLetter`: casing is modelled for ASCII letters only; `char.ToUpper` and `ToLower` use the current culture (a Turkish culture maps `i` to `İ`) and map non-ASCII letters, which the model leaves unchanged.
- `DotNetString.StringEquals`: compares position by position under every comparison, so a match always has the receiver's length; under the culture comparisons (the default InvariantCultureIgnoreCase of IsEquals among them) .NET ignores zero-weight characters, and "a" equals "a\u00AD" there.
- `IsExtensions.IsEquals`: the culture-sensitive comparisons, the default InvariantCultureIgnoreCase among them, are modelled as ordinal comparison (or ASCII case-insensitive comparison for the IgnoreCase kinds); culture collation rules, zero-weight characters (so "a" equals "a\u00AD" in .NET but not in the model) and non-ASCII case folding are not modelled.
- `src/EPortalAdmin.Core/Domain/Entities/OtpAuthenticator.cs`: a data entity with a constructor assigning four fields and an ORM navigation property; it has no behaviour, and no OTP generation or validation exists in the source.
- `src/EPortalAdmin.Application/Repositories/IEndpointOperationClaimRepository.cs`: an empty interface over a generic persistence repository; no claim resolution exists in the source.
