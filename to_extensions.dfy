/** The "To Extensions" region of StringExtensions: conversions whose real
    work is a .NET parser. Each parser is a parameter (Guid.TryParse,
    decimal.TryParse, DateTime.TryParse, Enum.Parse), so what is modelled is
    the guard, fallback and throw logic around it. */
module ToExtensions {
  import opened Wrappers
  import IsExtensions

  /** decimal.TryParse is given as `tryParse`; decimals are modelled as reals.
      Falls back to 0 for a null or empty string and for unparsable input. */
  function ToDecimal(tryParse: string -> Option<real>, s: Nullable<string>): (r: real)
    ensures IsExtensions.IsNullOrEmpty(s) ==> r == 0.0
    ensures s.NonNull? && s.value != [] && tryParse(s.value).Some? ==> r == tryParse(s.value).value
    ensures s.NonNull? && tryParse(s.value).None? ==> r == 0.0
  {
    if !IsExtensions.IsNullOrEmpty(s) && tryParse(s.value).Some? then tryParse(s.value).value
    else 0.0
  }

  /** What Enum.Parse makes of a non-null string: a value of T (a member
      name, a list of names or a number in range), a string it rejects
      (ArgumentException), or a number outside the range of T's underlying
      type (OverflowException). */
  datatype EnumParse<T> = Parsed(value: T) | Unrecognized | OutOfRange

  /** Enum.Parse(typeof(T), s, ignoreCase) is given as `parse`: a null string
      throws ArgumentNullException, a rejected one ArgumentException and
      an out-of-range number OverflowException. */
  function ToEnum<T>(parse: (string, bool) -> EnumParse<T>, s: Nullable<string>, ignoreCase: bool := true): (r: Result<T>)
    ensures s.Null? <==> r == Throws(ArgumentNullException)
    ensures s.NonNull? && parse(s.value, ignoreCase).Unrecognized? <==> r == Throws(ArgumentException)
    ensures s.NonNull? && parse(s.value, ignoreCase).OutOfRange? <==> r == Throws(OverflowException)
    ensures s.NonNull? && parse(s.value, ignoreCase).Parsed? ==> r == Ok(parse(s.value, ignoreCase).value)
    ensures r.Ok? ==> parse(s.value, ignoreCase) == Parsed(r.value)
  {
    if s.Null? then Throws(ArgumentNullException)
    else match parse(s.value, ignoreCase)
      case Parsed(v) => Ok(v)
      case Unrecognized => Throws(ArgumentException)
      case OutOfRange => Throws(OverflowException)
  }

  /** Guid.TryParse is given as `tryParse`. A null or empty string throws
      ArgumentNullException; an unparsable one InvalidOperationException. */
  function ToGuid<G>(tryParse: string -> Option<G>, s: Nullable<string>): (r: Result<G>)
    ensures IsExtensions.IsNullOrEmpty(s) <==> r == Throws(ArgumentNullException)
    ensures r.Throws? ==> r.error == ArgumentNullException || r.error == InvalidOperationException
    ensures !IsExtensions.IsNullOrEmpty(s) && tryParse(s.value).Some? ==> r == Ok(tryParse(s.value).value)
    ensures r.Ok? ==> tryParse(s.value) == Some(r.value)
  {
    if IsExtensions.IsNullOrEmpty(s) then Throws(ArgumentNullException)
    else match tryParse(s.value)
      case Some(g) => Ok(g)
      case None => Throws(InvalidOperationException)
  }

  /** DateTime.TryParse is given as `tryParse`; it rejects null, so a null
      string comes back as null. */
  function ToValidDateTimeOrNull<D>(tryParse: string -> Option<D>, s: Nullable<string>): (r: Nullable<D>)
    ensures s.Null? ==> r.Null?
    ensures r.NonNull? <==> s.NonNull? && tryParse(s.value).Some?
    ensures r.NonNull? ==> tryParse(s.value) == Some(r.value)
  {
    if s.Null? then Null
    else match tryParse(s.value)
      case Some(d) => NonNull(d)
      case None => Null
  }

  /** With the same parser, ToGuid succeeds exactly where IsGuid holds, and
      where IsGuid fails ToGuid throws. */
  lemma ToGuidAgreesWithIsGuid<G>(tryParse: string -> Option<G>, s: Nullable<string>)
    ensures ToGuid(tryParse, s).Ok? <==> IsExtensions.IsGuid(tryParse, s)
    ensures !IsExtensions.IsGuid(tryParse, s) ==> ToGuid(tryParse, s).Throws?
  {
  }
}
