/** The "Is, IsNot Extensions" region of StringExtensions: validators on a
    string receiver that may be null. The ones that only consult a RegexHelper
    pattern throw on a null receiver, as Regex.IsMatch does; the others test
    for null or empty first and answer false. Every IsNot* validator is the
    negation of its Is* partner, exceptions included. */
module IsExtensions {
  import opened Wrappers
  import opened DotNetString
  import opened Regexes

  /** Regex.IsMatch(input) for one compiled pattern: a null input throws
      ArgumentNullException, any other input returns whether it matches. */
  function IsMatch(pattern: string -> bool, s: Nullable<string>): (r: Result<bool>)
    ensures r.Throws? <==> s.Null?
    ensures r.Throws? ==> r.error == ArgumentNullException
    ensures Holds(r) <==> s.NonNull? && pattern(s.value)
    ensures Fails(r) <==> s.NonNull? && !pattern(s.value)
  {
    if s.Null? then Throws(ArgumentNullException) else Ok(pattern(s.value))
  }

  /** The C# `!` applied to a call that may throw. */
  function Not(b: Result<bool>): Result<bool> {
    match b
    case Ok(v) => Ok(!v)
    case Throws(e) => Throws(e)
  }

  /** True when the call returned true; a throwing call is neither. */
  predicate Holds(b: Result<bool>) {
    b == Ok(true)
  }

  /** True when the call returned false. */
  predicate Fails(b: Result<bool>) {
    b == Ok(false)
  }

  function IsBase64String(rx: RegexHelper, s: Nullable<string>): (r: bool)
    ensures IsNullOrWhiteSpace(s) ==> !r
    ensures r ==> |Trim(s.value)| >= 4 && |Trim(s.value)| % 4 == 0 && rx.base64String(s.value)
    ensures !IsNullOrWhiteSpace(s) && |Trim(s.value)| % 4 == 0 && rx.base64String(s.value) ==> r
  {
    if IsNullOrWhiteSpace(s) then false
    else |Trim(s.value)| % 4 == 0 && rx.base64String(s.value)
  }

  /** Guid.TryParse is given as `tryParse`. */
  function IsGuid<G>(tryParse: string -> Option<G>, s: Nullable<string>): (r: bool)
    ensures r <==> s.NonNull? && s.value != [] && tryParse(s.value).Some?
  {
    if IsNullOrEmpty(s) then false else tryParse(s.value).Some?
  }

  /** Compares the TRIMMED receiver with the untrimmed comparand; a null or
      empty receiver is never equal to anything. */
  function IsEquals(s: Nullable<string>, comparing: Nullable<string>,
                    comparison: StringComparison := InvariantCultureIgnoreCase): (r: bool)
    ensures IsNullOrEmpty(s) ==> !r
    ensures comparing.Null? ==> !r
    ensures !IsNullOrEmpty(s) ==> (r <==> StringEquals(Trim(s.value), comparing, comparison))
    ensures r && (comparison == Ordinal || comparison == OrdinalIgnoreCase) ==> |comparing.value| <= |s.value|
  {
    if IsNullOrEmpty(s) then false
    else StringEquals(Trim(s.value), comparing, comparison)
  }

  function IsNotNullOrEmpty(s: Nullable<string>): (r: bool)
    ensures r <==> s.NonNull? && |s.value| > 0
  {
    !(s.Null? || s.value == [])
  }

  function IsNullOrEmpty(s: Nullable<string>): (r: bool)
    ensures r <==> s == Null || s == NonNull([])
  {
    !IsNotNullOrEmpty(s)
  }

  function IsEmail(rx: RegexHelper, s: Nullable<string>): (r: bool)
    ensures r <==> s.NonNull? && s.value != [] && rx.email(s.value)
  {
    if IsNullOrEmpty(s) then false else rx.email(s.value)
  }

  function IsPhoneOrFaxNumber(rx: RegexHelper, s: Nullable<string>): (r: bool)
    ensures r <==> s.NonNull? && s.value != [] && rx.faxOrPhoneNumber(s.value)
  {
    if IsNullOrEmpty(s) then false else rx.faxOrPhoneNumber(s.value)
  }

  function IsAlphaAndSpace(rx: RegexHelper, s: Nullable<string>): (r: Result<bool>)
    ensures s.Null? <==> r == Throws(ArgumentNullException)
    ensures Holds(r) <==> s.NonNull? && rx.alphaAndSpace(s.value)
    ensures s.NonNull? ==> r == Ok(rx.alphaAndSpace(s.value))
  {
    IsMatch(rx.alphaAndSpace, s)
  }

  /** Holds when the alpha-numeric pattern does NOT match. */
  function IsAlphaNumeric(rx: RegexHelper, s: Nullable<string>): (r: Result<bool>)
    ensures s.Null? <==> r == Throws(ArgumentNullException)
    ensures Holds(r) <==> s.NonNull? && !rx.alphaNumeric(s.value)
    ensures s.NonNull? ==> r == Ok(!rx.alphaNumeric(s.value))
  {
    Not(IsMatch(rx.alphaNumeric, s))
  }

  function IsNotAlphaNumeric(rx: RegexHelper, s: Nullable<string>): (r: Result<bool>)
    ensures r.Throws? <==> IsAlphaNumeric(rx, s).Throws?
    ensures Holds(r) <==> Fails(IsAlphaNumeric(rx, s))
    ensures Fails(r) <==> Holds(IsAlphaNumeric(rx, s))
  {
    Not(IsAlphaNumeric(rx, s))
  }

  /** `@this is ""`: only the empty string, never null. */
  function IsEmpty(s: Nullable<string>): (r: bool)
    ensures r <==> s == NonNull([])
  {
    s.NonNull? && s.value == ""
  }

  /** Holds when the numeric pattern does NOT match. */
  function IsNumeric(rx: RegexHelper, s: Nullable<string>): (r: Result<bool>)
    ensures s.Null? <==> r == Throws(ArgumentNullException)
    ensures Holds(r) <==> s.NonNull? && !rx.numeric(s.value)
    ensures s.NonNull? ==> r == Ok(!rx.numeric(s.value))
  {
    Not(IsMatch(rx.numeric, s))
  }

  function IsNotNumeric(rx: RegexHelper, s: Nullable<string>): (r: Result<bool>)
    ensures r.Throws? <==> IsNumeric(rx, s).Throws?
    ensures Holds(r) <==> Fails(IsNumeric(rx, s))
    ensures Fails(r) <==> Holds(IsNumeric(rx, s))
  {
    Not(IsNumeric(rx, s))
  }

  function IsUrl(rx: RegexHelper, s: Nullable<string>): (r: Result<bool>)
    ensures s.Null? <==> r == Throws(ArgumentNullException)
    ensures Holds(r) <==> s.NonNull? && rx.url(s.value)
    ensures s.NonNull? ==> r == Ok(rx.url(s.value))
  {
    IsMatch(rx.url, s)
  }

  function IsNotUrl(rx: RegexHelper, s: Nullable<string>): (r: Result<bool>)
    ensures r.Throws? <==> IsUrl(rx, s).Throws?
    ensures Holds(r) <==> Fails(IsUrl(rx, s))
    ensures Fails(r) <==> Holds(IsUrl(rx, s))
    ensures s.Null? <==> r == Throws(ArgumentNullException)
    ensures s.NonNull? ==> r == Ok(!rx.url(s.value))
  {
    Not(IsUrl(rx, s))
  }

  function IsDate(rx: RegexHelper, s: Nullable<string>): (r: Result<bool>)
    ensures s.Null? <==> r == Throws(ArgumentNullException)
    ensures Holds(r) <==> s.NonNull? && rx.date(s.value)
    ensures s.NonNull? ==> r == Ok(rx.date(s.value))
  {
    IsMatch(rx.date, s)
  }

  function IsNotDate(rx: RegexHelper, s: Nullable<string>): (r: Result<bool>)
    ensures r.Throws? <==> IsDate(rx, s).Throws?
    ensures Holds(r) <==> Fails(IsDate(rx, s))
    ensures Fails(r) <==> Holds(IsDate(rx, s))
    ensures s.Null? <==> r == Throws(ArgumentNullException)
    ensures s.NonNull? ==> r == Ok(!rx.date(s.value))
  {
    Not(IsDate(rx, s))
  }

  function IsIpAddress(rx: RegexHelper, s: Nullable<string>): (r: Result<bool>)
    ensures s.Null? <==> r == Throws(ArgumentNullException)
    ensures Holds(r) <==> s.NonNull? && rx.ipAddress(s.value)
    ensures s.NonNull? ==> r == Ok(rx.ipAddress(s.value))
  {
    IsMatch(rx.ipAddress, s)
  }

  function IsNotIpAddress(rx: RegexHelper, s: Nullable<string>): (r: Result<bool>)
    ensures r.Throws? <==> IsIpAddress(rx, s).Throws?
    ensures Holds(r) <==> Fails(IsIpAddress(rx, s))
    ensures Fails(r) <==> Holds(IsIpAddress(rx, s))
    ensures s.Null? <==> r == Throws(ArgumentNullException)
    ensures s.NonNull? ==> r == Ok(!rx.ipAddress(s.value))
  {
    Not(IsIpAddress(rx, s))
  }

  function IsPostalCode(rx: RegexHelper, s: Nullable<string>): (r: Result<bool>)
    ensures s.Null? <==> r == Throws(ArgumentNullException)
    ensures Holds(r) <==> s.NonNull? && rx.postalCode(s.value)
    ensures s.NonNull? ==> r == Ok(rx.postalCode(s.value))
  {
    IsMatch(rx.postalCode, s)
  }

  function IsNotPostalCode(rx: RegexHelper, s: Nullable<string>): (r: Result<bool>)
    ensures r.Throws? <==> IsPostalCode(rx, s).Throws?
    ensures Holds(r) <==> Fails(IsPostalCode(rx, s))
    ensures Fails(r) <==> Holds(IsPostalCode(rx, s))
    ensures s.Null? <==> r == Throws(ArgumentNullException)
    ensures s.NonNull? ==> r == Ok(!rx.postalCode(s.value))
  {
    Not(IsPostalCode(rx, s))
  }

  /** IsNumeric and the credit-card pattern, with C#'s `&&` short-circuit:
      the second pattern is consulted only when IsNumeric holds. */
  function IsCreditCardNumber(rx: RegexHelper, s: Nullable<string>): (r: Result<bool>)
    ensures s.Null? <==> r == Throws(ArgumentNullException)
    ensures Holds(r) <==> Holds(IsNumeric(rx, s)) && rx.creditCardNumber(s.value)
    ensures s.NonNull? ==> r == Ok(!rx.numeric(s.value) && rx.creditCardNumber(s.value))
  {
    match IsNumeric(rx, s)
    case Throws(e) => Throws(e)
    case Ok(numeric) => if numeric then IsMatch(rx.creditCardNumber, s) else Ok(false)
  }

  function IsNotCreditCardNumber(rx: RegexHelper, s: Nullable<string>): (r: Result<bool>)
    ensures r.Throws? <==> IsCreditCardNumber(rx, s).Throws?
    ensures Holds(r) <==> Fails(IsCreditCardNumber(rx, s))
    ensures Fails(r) <==> Holds(IsCreditCardNumber(rx, s))
    ensures s.Null? <==> r == Throws(ArgumentNullException)
    ensures s.NonNull? ==> r == Ok(!(!rx.numeric(s.value) && rx.creditCardNumber(s.value)))
  {
    Not(IsCreditCardNumber(rx, s))
  }

  function IsMacAddress(rx: RegexHelper, s: Nullable<string>): (r: Result<bool>)
    ensures s.Null? <==> r == Throws(ArgumentNullException)
    ensures Holds(r) <==> s.NonNull? && rx.macAddress(s.value)
    ensures s.NonNull? ==> r == Ok(rx.macAddress(s.value))
  {
    IsMatch(rx.macAddress, s)
  }

  function IsNotMacAddress(rx: RegexHelper, s: Nullable<string>): (r: Result<bool>)
    ensures r.Throws? <==> IsMacAddress(rx, s).Throws?
    ensures Holds(r) <==> Fails(IsMacAddress(rx, s))
    ensures Fails(r) <==> Holds(IsMacAddress(rx, s))
    ensures s.Null? <==> r == Throws(ArgumentNullException)
    ensures s.NonNull? ==> r == Ok(!rx.macAddress(s.value))
  {
    Not(IsMacAddress(rx, s))
  }

  function IsImei(rx: RegexHelper, s: Nullable<string>): (r: Result<bool>)
    ensures s.Null? <==> r == Throws(ArgumentNullException)
    ensures Holds(r) <==> s.NonNull? && rx.imei(s.value)
    ensures s.NonNull? ==> r == Ok(rx.imei(s.value))
  {
    IsMatch(rx.imei, s)
  }

  function IsNotImei(rx: RegexHelper, s: Nullable<string>): (r: Result<bool>)
    ensures r.Throws? <==> IsImei(rx, s).Throws?
    ensures Holds(r) <==> Fails(IsImei(rx, s))
    ensures Fails(r) <==> Holds(IsImei(rx, s))
    ensures s.Null? <==> r == Throws(ArgumentNullException)
    ensures s.NonNull? ==> r == Ok(!rx.imei(s.value))
  {
    Not(IsImei(rx, s))
  }

  /** IsNullOrEmpty and IsNotNullOrEmpty are duals, and IsEmpty is the
      non-null half of IsNullOrEmpty. */
  lemma NullOrEmptyDuality(s: Nullable<string>)
    ensures IsNullOrEmpty(s) != IsNotNullOrEmpty(s)
    ensures IsEmpty(s) <==> IsNullOrEmpty(s) && s.NonNull?
  {
  }

  /** The two negations in IsNotAlphaNumeric and IsNotNumeric cancel: each
      holds exactly when its pattern matches. */
  lemma DoubleNegations(rx: RegexHelper, s: Nullable<string>)
    ensures IsNotAlphaNumeric(rx, s) == IsMatch(rx.alphaNumeric, s)
    ensures IsNotNumeric(rx, s) == IsMatch(rx.numeric, s)
  {
  }

  /** IsEquals is blind to white space around the receiver, as long as
      something other than that white space is left. */
  lemma IsEqualsIgnoresPadding(w1: string, m: string, w2: string,
                               comparing: Nullable<string>, comparison: StringComparison)
    requires AllWhiteSpace(w1) && AllWhiteSpace(w2) && m != []
    ensures IsEquals(NonNull(w1 + m + w2), comparing, comparison) == IsEquals(NonNull(m), comparing, comparison)
  {
    TrimIgnoresPadding(w1, m, w2);
  }

  /** A non-empty receiver always equals its own trimmed form. */
  lemma IsEqualsOwnTrim(s: string, comparison: StringComparison)
    requires s != []
    ensures IsEquals(NonNull(s), NonNull(Trim(s)), comparison)
  {
  }

  /** Only the receiver is trimmed: white space put in front of an unpadded
      string is ignored on the receiver's side, but compared on the
      comparand's side. */
  lemma IsEqualsTrimsOnlyReceiver(w: string, m: string, comparison: StringComparison)
    requires AllWhiteSpace(w) && w != []
    requires m != [] && Unpadded(m)
    ensures IsEquals(NonNull(w + m), NonNull(m), comparison)
    ensures comparison == Ordinal || comparison == OrdinalIgnoreCase ==> !IsEquals(NonNull(m), NonNull(w + m), comparison)
  {
    TrimIgnoresPadding(w, m, []);
    assert w + m + [] == w + m;
  }

  /** Under the default comparison an unpadded receiver equals a comparand
      exactly when their lower-case forms agree; in particular it equals its
      own lower-case form. */
  lemma IsEqualsIgnoresCase(s: string, comparing: string)
    requires s != [] && Unpadded(s)
    ensures IsEquals(NonNull(s), NonNull(comparing)) <==> ToLowerString(s) == ToLowerString(comparing)
    ensures IsEquals(NonNull(s), NonNull(ToLowerString(s)))
  {
    StringEqualsIgnoringCase(s, comparing, InvariantCultureIgnoreCase);
    StringEqualsIgnoringCase(s, ToLowerString(s), InvariantCultureIgnoreCase);
  }

  /** The length gate of IsBase64String looks at the trimmed string, so it
      is the same for a string and that string padded with white space. */
  lemma Base64GateIgnoresPadding(w1: string, m: string, w2: string)
    requires AllWhiteSpace(w1) && AllWhiteSpace(w2)
    ensures |Trim(w1 + m + w2)| % 4 == 0 <==> |Trim(m)| % 4 == 0
  {
    TrimIgnoresPadding(w1, m, w2);
  }
}
