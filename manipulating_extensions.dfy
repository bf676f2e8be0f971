/** The "Manipulating Extensions" region of StringExtensions, and
    ExtractDomainFromEmail, which follows it in the class. */
module ManipulatingExtensions {
  import opened Wrappers
  import opened DotNetString
  import opened Regexes
  import IsExtensions

  // ---------------------------------------------------------------------------
  // CapitalizeFirstLetter
  // ---------------------------------------------------------------------------

  /** A string whose first character is not a lower-case letter and whose
      other characters are not upper-case letters. */
  predicate IsCapitalized(s: string) {
    s != [] && !IsAsciiLower(s[0]) && forall i :: 1 <= i < |s| ==> !IsAsciiUpper(s[i])
  }

  /** ArgumentException on a null or empty string; otherwise the first
      character upper-cased and the rest lower-cased. */
  function CapitalizeFirstLetter(s: Nullable<string>): (r: Result<string>)
    ensures IsExtensions.IsNullOrEmpty(s) <==> r == Throws(ArgumentException)
    ensures !IsExtensions.IsNullOrEmpty(s) ==> r.Ok?
    ensures r.Ok? ==> |r.value| == |s.value| && r.value[0] == ToUpperAscii(s.value[0])
    ensures r.Ok? ==> forall i :: 1 <= i < |s.value| ==> r.value[i] == ToLowerAscii(s.value[i])
    ensures r.Ok? ==> IsCapitalized(r.value) && SameIgnoringCase(r.value, s.value)
  {
    if IsExtensions.IsNullOrEmpty(s) then Throws(ArgumentException)
    else
      var x := s.value;
      var r := [ToUpperAscii(x[0])] + ToLowerString(x[1..]);
      assert forall i :: 1 <= i < |x| ==> r[i] == ToLowerAscii(x[i]);
      forall i | 0 <= i < |x| ensures EqualIgnoringCase(r[i], x[i]) && (i > 0 ==> !IsAsciiUpper(r[i])) {
        CaseMapsAreProjections(x[i]);
      }
      CaseMapsAreProjections(x[0]);
      Ok(r)
  }

  /** A string is left as it is exactly when it is already capitalized. */
  lemma CapitalizeFixesExactlyCapitalized(s: string)
    ensures CapitalizeFirstLetter(NonNull(s)) == Ok(s) <==> IsCapitalized(s)
  {
    if IsCapitalized(s) {
      var r := CapitalizeFirstLetter(NonNull(s)).value;
      assert r == s by {
        forall i | 0 <= i < |s| ensures r[i] == s[i] { }
      }
    }
  }

  /** Capitalizing twice is capitalizing once. */
  lemma CapitalizeIdempotent(s: Nullable<string>)
    requires CapitalizeFirstLetter(s).Ok?
    ensures CapitalizeFirstLetter(NonNull(CapitalizeFirstLetter(s).value)) == CapitalizeFirstLetter(s)
  {
    CapitalizeFixesExactlyCapitalized(CapitalizeFirstLetter(s).value);
  }

  // ---------------------------------------------------------------------------
  // RemoveFirstChars
  // ---------------------------------------------------------------------------

  /** One turn of the ForEach: Substring(0, 1) throws on an empty string;
      an entry equal to the current first character drops that character,
      any other entry (null, longer, different) leaves the string alone. */
  function RemoveStep(current: string, entry: Nullable<string>): (r: Result<string>)
    ensures current == [] <==> r == Throws(ArgumentOutOfRangeException)
    ensures current != [] ==> r.Ok?
    ensures r.Ok? && entry == NonNull([current[0]]) ==> r.value == current[1..]
    ensures r.Ok? && entry != NonNull([current[0]]) ==> r.value == current
  {
    if current == [] then Throws(ArgumentOutOfRangeException)
    else if entry == NonNull([current[0]]) then Ok(current[1..])
    else Ok(current)
  }

  /** The entries applied to `current` one after another, in order. */
  function RemoveAll(current: string, entries: seq<Nullable<string>>): Result<string>
    decreases |entries|
  {
    if entries == [] then Ok(current)
    else match RemoveStep(current, entries[0])
      case Throws(e) => Throws(e)
      case Ok(next) => RemoveAll(next, entries[1..])
  }

  /** What RemoveFirstChars(s, chars) returns or throws. */
  function RemoveFirstCharsOf(s: Nullable<string>, chars: Nullable<seq<Nullable<string>>>): Result<string> {
    if IsExtensions.IsNullOrEmpty(s) then Throws(ArgumentNullException)
    else if chars.Null? then Throws(ArgumentNullException)
    else RemoveAll(s.value, chars.value)
  }

  method RemoveFirstChars(s: Nullable<string>, chars: Nullable<seq<Nullable<string>>>) returns (r: Result<string>)
    ensures r == RemoveFirstCharsOf(s, chars)
  {
    if IsExtensions.IsNullOrEmpty(s) {
      return Throws(ArgumentNullException);
    }
    if chars.Null? {
      return Throws(ArgumentNullException);
    }
    var entries := chars.value;
    var result := s.value;
    var i := 0;
    while i < |entries|
      invariant 0 <= i <= |entries|
      invariant RemoveAll(s.value, entries) == RemoveAll(result, entries[i..])
    {
      assert entries[i..][1..] == entries[i + 1..];
      if result == [] {
        return Throws(ArgumentOutOfRangeException);
      }
      if entries[i] == NonNull([result[0]]) {
        result := result[1..];
      }
      i := i + 1;
    }
    assert entries[i..] == [];
    r := Ok(result);
  }

  /** The result is a suffix of the input, shorter by at most one character
      per entry; the only exception is Substring's ArgumentOutOfRangeException. */
  lemma {:induction false} RemoveAllIsBoundedSuffix(current: string, entries: seq<Nullable<string>>)
    ensures RemoveAll(current, entries).Throws? ==>
              RemoveAll(current, entries).error == ArgumentOutOfRangeException
    ensures RemoveAll(current, entries).Ok? ==>
              var r := RemoveAll(current, entries).value;
              |current| - |entries| <= |r| <= |current| && r == current[|current| - |r|..]
    decreases |entries|
  {
    if entries != [] && current != [] {
      var next := RemoveStep(current, entries[0]).value;
      RemoveAllIsBoundedSuffix(next, entries[1..]);
      if RemoveAll(next, entries[1..]).Ok? {
        var r := RemoveAll(next, entries[1..]).value;
        assert next == current[|current| - |next|..];
        assert next[|next| - |r|..] == current[|current| - |r|..];
      }
    }
  }

  /** Applying a + b is applying a and then b to what a left. */
  lemma {:induction false} RemoveAllAppend(current: string, a: seq<Nullable<string>>, b: seq<Nullable<string>>)
    ensures RemoveAll(current, a + b) ==
              match RemoveAll(current, a)
              case Throws(e) => Throws(e)
              case Ok(next) => RemoveAll(next, b)
    decreases |a|
  {
    if a == [] {
      assert a + b == b;
    } else {
      assert (a + b)[0] == a[0];
      assert (a + b)[1..] == a[1..] + b;
      if current != [] {
        RemoveAllAppend(RemoveStep(current, a[0]).value, a[1..], b);
      }
    }
  }

  /** Entries that are never a one-character string remove nothing, as long
      as the input is not empty. */
  lemma {:induction false} RemoveAllKeepsUnmatched(current: string, entries: seq<Nullable<string>>)
    requires current != []
    requires forall k :: 0 <= k < |entries| ==> entries[k].Null? || |entries[k].value| != 1
    ensures RemoveAll(current, entries) == Ok(current)
    decreases |entries|
  {
    if entries != [] {
      RemoveAllKeepsUnmatched(current, entries[1..]);
    }
  }

  /** The characters of s, each as a one-character string. */
  function Singletons(s: string): (r: seq<Nullable<string>>)
    ensures |r| == |s|
  {
    seq(|s|, i requires 0 <= i < |s| => NonNull([s[i]]))
  }

  /** Naming every character of s in order removes all of s. */
  lemma {:induction false} RemoveAllOfItself(s: string)
    ensures RemoveAll(s, Singletons(s)) == Ok([])
    decreases |s|
  {
    if s != [] {
      assert Singletons(s)[1..] == Singletons(s[1..]);
      RemoveAllOfItself(s[1..]);
    }
  }

  /** Once the entries a have emptied the string, any further entry throws
      ArgumentOutOfRangeException from Substring(0, 1). */
  lemma RemoveBeyondEmptyThrows(current: string, a: seq<Nullable<string>>, b: seq<Nullable<string>>)
    requires RemoveAll(current, a) == Ok([])
    requires b != []
    ensures RemoveAll(current, a + b) == Throws(ArgumentOutOfRangeException)
  {
    RemoveAllAppend(current, a, b);
  }

  /** In particular, naming every character and then one entry more throws. */
  lemma RemoveBeyondItselfThrows(s: string, extra: Nullable<string>, rest: seq<Nullable<string>>)
    ensures RemoveAll(s, Singletons(s) + ([extra] + rest)) == Throws(ArgumentOutOfRangeException)
  {
    RemoveAllOfItself(s);
    RemoveBeyondEmptyThrows(s, Singletons(s), [extra] + rest);
  }

  // ---------------------------------------------------------------------------
  // Manipulate
  // ---------------------------------------------------------------------------

  /** A (pattern, replacement) value tuple. The tuple itself is a value type
      and cannot be null; either of its strings can. */
  type Replacement = (Nullable<string>, Nullable<string>)

  /** A pair whose pattern or replacement is null: the loop breaks on it. */
  predicate IsStop(p: Replacement) {
    p.0.Null? || p.1.Null?
  }

  /** The pairs applied to `current` in order, stopping at the first stop pair.
      A pattern that does not parse makes Regex.IsMatch throw ArgumentException;
      a pattern that does not match leaves the string as it is. */
  function ReplaceAll(rx: RegexEngine, current: string, pairs: seq<Replacement>): Result<string>
    decreases |pairs|
  {
    if pairs == [] || IsStop(pairs[0]) then Ok(current)
    else
      var pattern := pairs[0].0.value;
      if !rx.isValidPattern(pattern) then Throws(ArgumentException)
      else
        var next := if rx.isMatch(current, pattern) then rx.replace(current, pattern, pairs[0].1.value) else current;
        ReplaceAll(rx, next, pairs[1..])
  }

  /** What Manipulate(s, params (string, string)[] pairs) returns or throws:
      a null receiver throws ArgumentNullException, a null array
      NullReferenceException (from reading its Length). */
  function ManipulateOf(rx: RegexEngine, s: Nullable<string>, pairs: Nullable<seq<Replacement>>): Result<string> {
    if s.Null? then Throws(ArgumentNullException)
    else if pairs.Null? then Throws(NullReferenceException)
    else ReplaceAll(rx, s.value, pairs.value)
  }

  method Manipulate(rx: RegexEngine, s: Nullable<string>, pairs: Nullable<seq<Replacement>>) returns (r: Result<string>)
    ensures r == ManipulateOf(rx, s, pairs)
  {
    if s.Null? {
      return Throws(ArgumentNullException);
    }
    if pairs.Null? {
      return Throws(NullReferenceException);
    }
    var data := pairs.value;
    var result := s.value;
    for i := 0 to |data|
      invariant ReplaceAll(rx, s.value, data) == ReplaceAll(rx, result, data[i..])
    {
      assert data[i..][1..] == data[i + 1..];
      var (pattern, replacement) := data[i];
      if pattern.Null? || replacement.Null? {
        break;
      }
      if !rx.isValidPattern(pattern.value) {
        return Throws(ArgumentException);
      }
      if rx.isMatch(result, pattern.value) {
        result := rx.replace(result, pattern.value, replacement.value);
      }
    }
    r := Ok(result);
  }

  /** The List<(string, string)> overload: ToArray on a null list throws
      NullReferenceException before the receiver is looked at. */
  method ManipulateList(rx: RegexEngine, s: Nullable<string>, pairs: Nullable<seq<Replacement>>) returns (r: Result<string>)
    ensures pairs.Null? ==> r == Throws(NullReferenceException)
    ensures pairs.NonNull? ==> r == ManipulateOf(rx, s, pairs)
  {
    if pairs.Null? {
      return Throws(NullReferenceException);
    }
    r := Manipulate(rx, s, pairs);
  }

  /** Nothing after the first stop pair has any effect. */
  lemma {:induction false} ReplaceAllStopsAtNull(rx: RegexEngine, current: string,
                                                 before: seq<Replacement>, stop: Replacement, after: seq<Replacement>)
    requires IsStop(stop)
    ensures ReplaceAll(rx, current, before + [stop] + after) == ReplaceAll(rx, current, before)
    decreases |before|
  {
    var all := before + [stop] + after;
    if before == [] {
      assert all[0] == stop;
    } else {
      assert all[0] == before[0];
      assert all[1..] == before[1..] + [stop] + after;
      if !IsStop(before[0]) && rx.isValidPattern(before[0].0.value) {
        var pattern := before[0].0.value;
        var next := if rx.isMatch(current, pattern) then rx.replace(current, pattern, before[0].1.value) else current;
        ReplaceAllStopsAtNull(rx, next, before[1..], stop, after);
      }
    }
  }

  /** Pairs apply strictly in order: a + b is a, then b on what a produced,
      provided a holds no stop pair. */
  lemma {:induction false} ReplaceAllAppend(rx: RegexEngine, current: string, a: seq<Replacement>, b: seq<Replacement>)
    requires forall k :: 0 <= k < |a| ==> !IsStop(a[k])
    ensures ReplaceAll(rx, current, a + b) ==
              match ReplaceAll(rx, current, a)
              case Throws(e) => Throws(e)
              case Ok(next) => ReplaceAll(rx, next, b)
    decreases |a|
  {
    if a == [] {
      assert a + b == b;
    } else {
      assert (a + b)[0] == a[0];
      assert (a + b)[1..] == a[1..] + b;
      var pattern := a[0].0.value;
      if rx.isValidPattern(pattern) {
        var next := if rx.isMatch(current, pattern) then rx.replace(current, pattern, a[0].1.value) else current;
        ReplaceAllAppend(rx, next, a[1..], b);
      }
    }
  }

  /** When every pair the loop reaches (those with no stop pair before
      them) has a pattern that parses and does not match, the string comes
      back unchanged. */
  lemma {:induction false} ReplaceAllKeepsUnmatched(rx: RegexEngine, current: string, pairs: seq<Replacement>)
    requires forall k :: 0 <= k < |pairs| && !IsStop(pairs[k]) && (forall j :: 0 <= j < k ==> !IsStop(pairs[j])) ==>
               rx.isValidPattern(pairs[k].0.value) && !rx.isMatch(current, pairs[k].0.value)
    ensures ReplaceAll(rx, current, pairs) == Ok(current)
    decreases |pairs|
  {
    if pairs != [] && !IsStop(pairs[0]) {
      assert rx.isValidPattern(pairs[0].0.value) && !rx.isMatch(current, pairs[0].0.value);
      var rest := pairs[1..];
      forall k | 0 <= k < |rest| && !IsStop(rest[k]) && (forall j :: 0 <= j < k ==> !IsStop(rest[j]))
        ensures rx.isValidPattern(rest[k].0.value) && !rx.isMatch(current, rest[k].0.value)
      {
        assert rest[k] == pairs[k + 1];
        forall j | 0 <= j < k + 1 ensures !IsStop(pairs[j]) {
          if j > 0 {
            assert pairs[j] == rest[j - 1];
          }
        }
      }
      ReplaceAllKeepsUnmatched(rx, current, rest);
    }
  }

  /** pairs[k] is the first pair the loop cannot get past: it is not a stop
      pair, its pattern does not parse, and every pair before it is neither. */
  predicate FirstBadPattern(rx: RegexEngine, pairs: seq<Replacement>, k: int) {
    0 <= k < |pairs| && !IsStop(pairs[k]) && !rx.isValidPattern(pairs[k].0.value) &&
    forall j :: 0 <= j < k ==> !IsStop(pairs[j]) && rx.isValidPattern(pairs[j].0.value)
  }

  /** Past a good first pair, the first bad pattern of the rest is the first
      bad pattern of the whole, one position later. */
  lemma FirstBadPatternShifts(rx: RegexEngine, pairs: seq<Replacement>, k: int)
    requires pairs != [] && !IsStop(pairs[0]) && rx.isValidPattern(pairs[0].0.value)
    ensures FirstBadPattern(rx, pairs, k + 1) <==> FirstBadPattern(rx, pairs[1..], k)
  {
    if FirstBadPattern(rx, pairs[1..], k) {
      forall j | 0 <= j < k + 1 ensures !IsStop(pairs[j]) && rx.isValidPattern(pairs[j].0.value) {
        if j > 0 {
          assert pairs[j] == pairs[1..][j - 1];
        }
      }
    }
    if FirstBadPattern(rx, pairs, k + 1) {
      forall j | 0 <= j < k ensures !IsStop(pairs[1..][j]) && rx.isValidPattern(pairs[1..][j].0.value) {
        assert pairs[1..][j] == pairs[j + 1];
      }
    }
  }

  /** The loop throws exactly when, before any null pattern or replacement,
      it meets a pattern that does not parse, and what it throws is then
      Regex.IsMatch's ArgumentException. */
  lemma {:induction false} ReplaceAllThrowsOnlyOnBadPattern(rx: RegexEngine, current: string, pairs: seq<Replacement>)
    ensures ReplaceAll(rx, current, pairs).Throws? <==> exists k :: FirstBadPattern(rx, pairs, k)
    ensures ReplaceAll(rx, current, pairs).Throws? ==> ReplaceAll(rx, current, pairs).error == ArgumentException
    decreases |pairs|
  {
    if pairs == [] || IsStop(pairs[0]) {
      assert forall k :: FirstBadPattern(rx, pairs, k) ==> k == 0;
    } else if !rx.isValidPattern(pairs[0].0.value) {
      assert FirstBadPattern(rx, pairs, 0);
    } else {
      var pattern := pairs[0].0.value;
      var next := if rx.isMatch(current, pattern) then rx.replace(current, pattern, pairs[0].1.value) else current;
      ReplaceAllThrowsOnlyOnBadPattern(rx, next, pairs[1..]);
      if ReplaceAll(rx, next, pairs[1..]).Throws? {
        var k :| FirstBadPattern(rx, pairs[1..], k);
        FirstBadPatternShifts(rx, pairs, k);
      }
      if exists k :: FirstBadPattern(rx, pairs, k) {
        var k :| FirstBadPattern(rx, pairs, k);
        FirstBadPatternShifts(rx, pairs, k - 1);
      }
    }
  }

  // ---------------------------------------------------------------------------
  // ExtractDomainFromEmail
  // ---------------------------------------------------------------------------

  /** A null or empty address, or one that fails IsEmail, throws
      System.Exception; otherwise the result is what follows the first '@'
      (the whole address when there is none, as IndexOf then gives -1). */
  function ExtractDomainFromEmail(rx: RegexHelper, email: Nullable<string>): (r: Result<string>)
    ensures r.Throws? <==> !IsExtensions.IsEmail(rx, email)
    ensures r.Throws? ==> r.error == BaseException
    ensures r.Ok? && '@' !in email.value ==> r.value == email.value
    ensures r.Ok? && '@' in email.value ==>
              var k := |email.value| - |r.value| - 1;
              0 <= k && email.value == email.value[..k] + ['@'] + r.value && '@' !in email.value[..k]
  {
    if IsExtensions.IsNullOrEmpty(email) then Throws(BaseException)
    else if !IsExtensions.IsEmail(rx, email) then Throws(BaseException)
    else
      var at := IndexOf(email.value, '@');
      assert at >= 0 ==> email.value == email.value[..at] + ['@'] + email.value[at + 1..];
      Ok(email.value[at + 1..])
  }

  /** For an address local@domain whose local part has no '@', the domain
      is what comes back. */
  lemma ExtractDomainOfAddress(rx: RegexHelper, local: string, domain: string)
    requires '@' !in local
    requires rx.email(local + ['@'] + domain)
    ensures ExtractDomainFromEmail(rx, NonNull(local + ['@'] + domain)) == Ok(domain)
  {
    var address := local + ['@'] + domain;
    assert address[|local|] == '@';
    var at := IndexOf(address, '@');
    assert address[..|local|] == local;
    assert address[|local| + 1..] == domain;
  }
}
