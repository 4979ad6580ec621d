/** The client helpers: the password-strength rules shown on the registration form,
    the "time ago" label of a note, and the bearer header built from the stored login. */
module Helper {
  import opened Common
  import opened Decimal

  // ---------------------------------------------------------------------------
  // Password strength (validatePassword)
  // ---------------------------------------------------------------------------

  const MinPasswordLength: nat := 8

  const LengthMessage: string := "Password must be at least 8 characters long."
  const LowercaseMessage: string := "Password must contain at least one lowercase letter."
  const UppercaseMessage: string := "Password must contain at least one uppercase letter."
  const NumberMessage: string := "Password must contain at least one number."
  const SpecialMessage: string := "Password must contain at least one special character."

  /** The characters of the regular-expression class `[!@#$%^&*(),.?":{}|<>]`. */
  const SpecialCharacters: string := "!@#$%^&*(),.?\":{}|<>"

  predicate IsLower(c: char) { 'a' <= c <= 'z' }
  predicate IsUpper(c: char) { 'A' <= c <= 'Z' }
  predicate IsNumber(c: char) { '0' <= c <= '9' }
  predicate IsSpecial(c: char) { c in SpecialCharacters }

  /** Some character of `s` belongs to the class. */
  predicate HasCharIn(s: string, inClass: char -> bool) {
    exists i :: 0 <= i < |s| && inClass(s[i])
  }

  /** `/[class]/.test(s)`: scan left to right for a character of the class. */
  function TestClass(s: string, inClass: char -> bool): (found: bool)
    ensures found <==> HasCharIn(s, inClass)
  {
    if s == [] then false
    else inClass(s[0]) || (assert forall i :: 1 <= i < |s| ==> s[i] == s[1..][i - 1]; TestClass(s[1..], inClass))
  }

  /** What the five rules together ask of a strong password. */
  predicate IsStrong(p: string) {
    && |p| >= MinPasswordLength
    && HasCharIn(p, IsLower)
    && HasCharIn(p, IsUpper)
    && HasCharIn(p, IsNumber)
    && HasCharIn(p, IsSpecial)
  }

  /** null (None) for a strong password, otherwise the message of the first rule that fails,
      the rules being checked in the order length, lowercase, uppercase, number, special. */
  function ValidatePassword(password: string): (r: Option<string>)
    ensures r == None <==> IsStrong(password)
    ensures r in {None, Some(LengthMessage), Some(LowercaseMessage), Some(UppercaseMessage),
                  Some(NumberMessage), Some(SpecialMessage)}
    ensures |password| < MinPasswordLength ==> r == Some(LengthMessage)
    ensures r == Some(LowercaseMessage) <==>
              |password| >= MinPasswordLength && !HasCharIn(password, IsLower)
    ensures r == Some(UppercaseMessage) <==>
              |password| >= MinPasswordLength && HasCharIn(password, IsLower) && !HasCharIn(password, IsUpper)
    ensures r == Some(NumberMessage) <==>
              && |password| >= MinPasswordLength && HasCharIn(password, IsLower) && HasCharIn(password, IsUpper)
              && !HasCharIn(password, IsNumber)
    ensures r == Some(SpecialMessage) <==>
              && |password| >= MinPasswordLength && HasCharIn(password, IsLower) && HasCharIn(password, IsUpper)
              && HasCharIn(password, IsNumber) && !HasCharIn(password, IsSpecial)
  {
    var lengthCheck := |password| >= MinPasswordLength;
    var lowercaseCheck := TestClass(password, IsLower);
    var uppercaseCheck := TestClass(password, IsUpper);
    var numberCheck := TestClass(password, IsNumber);
    var specialCharCheck := TestClass(password, IsSpecial);
    if !lengthCheck then Some(LengthMessage)
    else if !lowercaseCheck then Some(LowercaseMessage)
    else if !uppercaseCheck then Some(UppercaseMessage)
    else if !numberCheck then Some(NumberMessage)
    else if !specialCharCheck then Some(SpecialMessage)
    else None
  }

  // ---------------------------------------------------------------------------
  // Relative time (timeAgo), as a function of the elapsed milliseconds
  // ---------------------------------------------------------------------------

  const MsPerSecond: int := 1000
  const MsPerMinute: int := 60 * MsPerSecond
  const MsPerHour: int := 60 * MsPerMinute
  const MsPerDay: int := 24 * MsPerHour
  const MsPerYear: int := 365 * MsPerDay

  /** The label for a note written `elapsed` milliseconds ago. Every step is Math.floor of a
      division by a positive constant, which is exactly Dafny's division on int. */
  function TimeAgo(elapsed: int): (ago: string)
    ensures |ago| >= 2 && ago[|ago| - 1] in "ydhms"
    ensures ago[|ago| - 1] == 's' <==> elapsed < MsPerMinute
    ensures ago[|ago| - 1] != 's' || elapsed >= 0 ==> AllDigits(ago[..|ago| - 1])
  {
    var seconds := elapsed / 1000;
    var minutes := seconds / 60;
    var hours := minutes / 60;
    var days := hours / 24;
    var years := days / 365;
    if years > 0 then IntToString(years) + "y"
    else if days > 0 then IntToString(days) + "d"
    else if hours > 0 then IntToString(hours) + "h"
    else if minutes > 0 then IntToString(minutes) + "m"
    else IntToString(seconds) + "s"
  }

  /** Each count in the chain of floor divisions is the elapsed time divided by the length
      of its unit, so the label uses the largest unit that fits into the elapsed time at
      least once, and whole seconds below a minute (negative ones for a future timestamp). */
  lemma TimeAgoUnits(elapsed: int)
    ensures elapsed >= MsPerYear ==> TimeAgo(elapsed) == IntToString(elapsed / MsPerYear) + "y"
    ensures MsPerDay <= elapsed < MsPerYear ==> TimeAgo(elapsed) == IntToString(elapsed / MsPerDay) + "d"
    ensures MsPerHour <= elapsed < MsPerDay ==> TimeAgo(elapsed) == IntToString(elapsed / MsPerHour) + "h"
    ensures MsPerMinute <= elapsed < MsPerHour ==> TimeAgo(elapsed) == IntToString(elapsed / MsPerMinute) + "m"
    ensures elapsed < MsPerMinute ==> TimeAgo(elapsed) == IntToString(elapsed / MsPerSecond) + "s"
  {
    var seconds := elapsed / 1000;
    var minutes := seconds / 60;
    var hours := minutes / 60;
    var days := hours / 24;
    var years := days / 365;
    assert minutes == elapsed / MsPerMinute;
    assert hours == elapsed / MsPerHour;
    assert days == elapsed / MsPerDay;
    assert years == elapsed / MsPerYear;
  }

  // ---------------------------------------------------------------------------
  // Authorization header (getAuthHeaders)
  // ---------------------------------------------------------------------------

  /** What localStorage.getItem("user") holds, as JSON.parse sees it: nothing (null parses to
      null), text that JSON.parse rejects, or a value whose `token` field is present or absent. */
  datatype StoredUser = NoEntry | Unparsable | Parsed(token: Option<string>)

  const AuthorizationHeader: string := "Authorization"
  const BearerPrefix: string := "Bearer "

  /** `{Authorization: "Bearer <token>"}` when the stored login carries a truthy token,
      otherwise (missing entry, parse failure, absent or empty token) no header. */
  function AuthHeaders(stored: StoredUser): (h: map<string, string>)
    ensures h.Keys <= {AuthorizationHeader}
    ensures AuthorizationHeader in h <==> stored.Parsed? && Truthy(stored.token)
    ensures AuthorizationHeader in h ==> h[AuthorizationHeader] == BearerPrefix + stored.token.value
  {
    match stored
    case NoEntry => map[]
    case Unparsable => map[]
    case Parsed(token) =>
      if Truthy(token) then map[AuthorizationHeader := BearerPrefix + token.value] else map[]
  }
}
