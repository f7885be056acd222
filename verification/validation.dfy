/**
 * ValidationUtils: field validators that either pass or fail with a
 * ValidationException, plus sanitizeInput and isValidInteger. The regular
 * expressions of the source are written out as character-class predicates.
 */
module Validation {
  import opened Wrappers
  import opened JavaText
  import opened Exceptions

  /** A validator either returns normally or throws a ValidationException. */
  datatype Outcome = Pass | Fail(error: CrimeManagementException)

  /** The regex class \s: space, tab, newline, vertical tab, form feed, carriage return. */
  predicate IsRegexSpace(c: char) {
    c == ' ' || '\t' <= c <= '\r'
  }

  predicate IsAsciiLetter(c: char) {
    'A' <= c <= 'Z' || 'a' <= c <= 'z'
  }

  predicate IsAsciiAlnum(c: char) {
    IsAsciiLetter(c) || IsDigit(c)
  }

  predicate IsHexDigit(c: char) {
    IsDigit(c) || 'a' <= c <= 'f' || 'A' <= c <= 'F'
  }

  /** Characters the regex `.` does not match: the line terminators. */
  predicate IsLineTerminator(c: char) {
    c == '\n' || c == '\r' || c == '\U{85}' || c == '\U{2028}' || c == '\U{2029}'
  }

  /** Some character is above U+0020, i.e. the value is not blank. */
  predicate HasContent(s: string) {
    exists i :: 0 <= i < |s| && !Trimmable(s[i])
  }

  lemma BlankIffNoContent(s: string)
    ensures IsBlank(s) <==> !HasContent(s)
  {
  }

  const EmptyMessage: string := "cannot be empty"

  /** validateNotEmpty: null and blank values are rejected. */
  function ValidateNotEmpty(value: Option<string>, fieldName: string): (r: Outcome)
    ensures r.Pass? <==> value.Some? && HasContent(value.value)
    ensures r.Fail? ==> r.error == FieldValidationError(fieldName, EmptyMessage)
  {
    if value.None? || IsBlank(value.value) then Fail(FieldValidationError(fieldName, EmptyMessage)) else Pass
  }

  function LengthMessage(minLength: int, maxLength: int): string {
    "must be between " + IntToString(minLength) + " and " + IntToString(maxLength) + " characters"
  }

  /** validateLength: non-blank, and the trimmed length lies in [minLength, maxLength]. */
  function ValidateLength(value: Option<string>, fieldName: string, minLength: int, maxLength: int): (r: Outcome)
    ensures r.Pass? <==> value.Some? && HasContent(value.value) && minLength <= |Trim(value.value)| <= maxLength
    ensures value.None? || !HasContent(value.value) ==> r == ValidateNotEmpty(value, fieldName)
    ensures r.Fail? && value.Some? && HasContent(value.value) ==>
      r.error == FieldValidationError(fieldName, LengthMessage(minLength, maxLength))
  {
    var empty := ValidateNotEmpty(value, fieldName);
    if empty.Fail? then empty
    else
      var length := |Trim(value.value)|;
      if length < minLength || length > maxLength then Fail(FieldValidationError(fieldName, LengthMessage(minLength, maxLength)))
      else Pass
  }

  /** NAME_PATTERN ^[A-Za-z\s]{2,50}$ */
  predicate NamePattern(t: string) {
    2 <= |t| <= 50 && forall i :: 0 <= i < |t| ==> IsAsciiLetter(t[i]) || IsRegexSpace(t[i])
  }

  const NameMessage: string := "must contain only letters and spaces (2-50 characters)"

  /** validateName: the trimmed value is 2..50 letters and whitespace. */
  function ValidateName(name: Option<string>, fieldName: string): (r: Outcome)
    ensures r.Pass? <==> name.Some? && NamePattern(Trim(name.value))
    ensures r.Fail? && name.Some? && HasContent(name.value) ==> r.error == FieldValidationError(fieldName, NameMessage)
  {
    var empty := ValidateNotEmpty(name, fieldName);
    if empty.Fail? then empty
    else if !NamePattern(Trim(name.value)) then Fail(FieldValidationError(fieldName, NameMessage))
    else Pass
  }

  /** A name that passes has a trimmed length within 2..50, so it passes the length rule too. */
  lemma NameWithinLength(name: Option<string>, fieldName: string)
    requires ValidateName(name, fieldName).Pass?
    ensures ValidateLength(name, fieldName, 2, 50).Pass?
  {
    var t := Trim(name.value);
    assert !Trimmable(t[0]);
  }

  // ---- e-mail -------------------------------------------------------------

  predicate LocalChar(c: char) {
    IsAsciiAlnum(c) || c == '+' || c == '_' || c == '.' || c == '-'
  }

  predicate DomainChar(c: char) {
    IsAsciiAlnum(c) || c == '.' || c == '-'
  }

  /** `[A-Za-z0-9.-]+\.[A-Za-z]{2,}` split at the dot before the top-level label. */
  predicate DomainSplit(d: string, dot: int)
    requires 0 <= dot < |d|
  {
    && 1 <= dot && dot + 3 <= |d| && d[dot] == '.'
    && (forall i :: 0 <= i < dot ==> DomainChar(d[i]))
    && (forall i :: dot < i < |d| ==> IsAsciiLetter(d[i]))
  }

  /** EMAIL_PATTERN split at the '@'. */
  predicate EmailSplit(t: string, at: int)
    requires 0 <= at < |t|
  {
    && 1 <= at && t[at] == '@'
    && (forall i :: 0 <= i < at ==> LocalChar(t[i]))
    && HasDomainSplit(t[at + 1..])
  }

  predicate HasDomainSplit(d: string) {
    exists dot :: 0 <= dot < |d| && DomainSplit(d, dot)
  }

  /** EMAIL_PATTERN ^[A-Za-z0-9+_.-]+@[A-Za-z0-9.-]+\.[A-Za-z]{2,}$ */
  predicate EmailPattern(t: string) {
    exists at :: 0 <= at < |t| && EmailSplit(t, at)
  }

  const EmailMessage: string := "must be a valid email address"

  /** validateEmail */
  function ValidateEmail(email: Option<string>): (r: Outcome)
    ensures r.Pass? <==> email.Some? && EmailPattern(Trim(email.value))
    ensures r.Fail? && email.Some? && HasContent(email.value) ==> r.error == FieldValidationError("email", EmailMessage)
  {
    var empty := ValidateNotEmpty(email, "email");
    if empty.Fail? then empty
    else if !EmailPattern(Trim(email.value)) then Fail(FieldValidationError("email", EmailMessage))
    else Pass
  }

  /** An accepted address has exactly one '@', and it is where the pattern splits. */
  lemma {:induction false} EmailHasOneAt(t: string, at: int)
    requires 0 <= at < |t| && EmailSplit(t, at)
    ensures forall i :: 0 <= i < |t| && t[i] == '@' ==> i == at
  {
    var d := t[at + 1..];
    var dot :| 0 <= dot < |d| && DomainSplit(d, dot);
    assert forall k :: 0 <= k < |d| ==> d[k] == t[at + 1 + k];
  }

  lemma EmailExamples()
    ensures EmailPattern("jane.doe@mail.example.org")
    ensures !EmailPattern("jane@localhost")
  {
    DottedDomainAccepted();
    UndottedDomainRejected();
  }

  lemma DottedDomainAccepted()
    ensures EmailPattern("jane.doe@mail.example.org")
  {
    var good := "jane.doe@mail.example.org";
    assert good[8] == '@';
    assert DomainSplit(good[9..], 12);
    assert EmailSplit(good, 8);
  }

  lemma UndottedDomainRejected()
    ensures !EmailPattern("jane@localhost")
  {
    var bad := "jane@localhost";
    var d := "localhost";
    assert bad[5..] == d;
    assert forall i :: 0 <= i < |bad| && i != 4 ==> bad[i] != '@';
    assert forall i :: 0 <= i < |d| ==> d[i] != '.';
    SingleAtWithoutDomain(bad, 4);
  }

  /** An address whose only '@' is followed by a domain without a dot does not match. */
  lemma SingleAtWithoutDomain(t: string, at: int)
    requires 0 <= at < |t| && t[at] == '@'
    requires forall i :: 0 <= i < |t| && i != at ==> t[i] != '@'
    requires forall i :: at < i < |t| ==> t[i] != '.'
    ensures !EmailPattern(t)
  {
    forall a | 0 <= a < |t| ensures !EmailSplit(t, a) {
      if a == at {
        var d := t[at + 1..];
        forall dot | 0 <= dot < |d| ensures !DomainSplit(d, dot) {
          assert d[dot] == t[at + 1 + dot];
        }
      }
    }
  }

  // ---- phone, role and the fixed-length fields ----------------------------

  /** PHONE_PATTERN ^[+]?[0-9]{10,15}$ */
  predicate PhonePattern(t: string) {
    var digits := if |t| > 0 && t[0] == '+' then t[1..] else t;
    10 <= |digits| <= 15 && AllDigits(digits)
  }

  const PhoneMessage: string := "must be a valid phone number (10-15 digits)"

  /** validatePhone: optional; otherwise an optional '+' and 10..15 digits. */
  function ValidatePhone(phone: Option<string>): (r: Outcome)
    ensures r.Pass? <==> phone.None? || !HasContent(phone.value) || PhonePattern(Trim(phone.value))
    ensures r.Fail? ==> r.error == FieldValidationError("phone", PhoneMessage)
  {
    if phone.Some? && !IsBlank(phone.value) && !PhonePattern(Trim(phone.value)) then
      Fail(FieldValidationError("phone", PhoneMessage))
    else Pass
  }

  const Roles: set<string> := {"admin", "special", "normal"}
  const RoleMessage: string := "must be 'admin', 'special', or 'normal'"

  /** validateRole: the trimmed, lower-cased value is one of the three roles. */
  function ValidateRole(role: Option<string>): (r: Outcome)
    ensures r.Pass? <==> role.Some? && ToLower(Trim(role.value)) in Roles
    ensures r.Fail? && role.Some? && HasContent(role.value) ==> r.error == FieldValidationError("role", RoleMessage)
  {
    var empty := ValidateNotEmpty(role, "role");
    if empty.Fail? then empty
    else if ToLower(Trim(role.value)) !in Roles then Fail(FieldValidationError("role", RoleMessage))
    else Pass
  }

  /** validateCrimeType: 2..50 characters once trimmed. */
  function ValidateCrimeType(crimeType: Option<string>): (r: Outcome)
    ensures r == ValidateLength(crimeType, "crime type", 2, 50)
    ensures r.Pass? <==> crimeType.Some? && 2 <= |Trim(crimeType.value)| <= 50
  {
    var empty := ValidateNotEmpty(crimeType, "crime type");
    if empty.Fail? then empty else ValidateLength(crimeType, "crime type", 2, 50)
  }

  /** validateCity: the name rule, reported against the field "city". */
  function ValidateCity(city: Option<string>): (r: Outcome)
    ensures r.Pass? <==> city.Some? && NamePattern(Trim(city.value))
    ensures r.Fail? && city.Some? && HasContent(city.value) ==> r.error == FieldValidationError("city", NameMessage)
  {
    ValidateName(city, "city")
  }

  /** validateCriminalName: the name rule, reported against the field "criminal name". */
  function ValidateCriminalName(name: Option<string>): (r: Outcome)
    ensures r.Pass? <==> name.Some? && NamePattern(Trim(name.value))
    ensures r.Fail? && name.Some? && HasContent(name.value) ==> r.error == FieldValidationError("criminal name", NameMessage)
  {
    ValidateName(name, "criminal name")
  }

  /** validateDetails: 10..500 characters once trimmed. */
  function ValidateDetails(details: Option<string>): (r: Outcome)
    ensures r == ValidateLength(details, "details", 10, 500)
    ensures r.Pass? <==> details.Some? && 10 <= |Trim(details.value)| <= 500
  {
    var empty := ValidateNotEmpty(details, "details");
    if empty.Fail? then empty else ValidateLength(details, "details", 10, 500)
  }

  // ---- photo path ------------------------------------------------------------

  const ValidExtensions: seq<string> := [".jpg", ".jpeg", ".png", ".gif", ".bmp"]
  const PhotoMessage: string := "must have a valid image extension (.jpg, .jpeg, .png, .gif, .bmp)"

  /** validatePhotoPath: optional; otherwise the trimmed, lower-cased path ends in an image extension. */
  method ValidatePhotoPath(photoPath: Option<string>) returns (r: Outcome)
    ensures r.Pass? <==> photoPath.None? || !HasContent(photoPath.value)
                         || EndsWithAny(ToLower(Trim(photoPath.value)), ValidExtensions)
    ensures r.Fail? ==> r.error == FieldValidationError("photo path", PhotoMessage)
  {
    r := Pass;
    if photoPath.Some? && !IsBlank(photoPath.value) {
      var path := Trim(photoPath.value);
      var validExtension := EndsWithListed(ToLower(path), ValidExtensions);
      if !validExtension {
        r := Fail(FieldValidationError("photo path", PhotoMessage));
      }
    }
  }

  /** The loop of validatePhotoPath: tries the suffixes in order and stops at the first that ends the path. */
  method EndsWithListed(path: string, suffixes: seq<string>) returns (found: bool)
    ensures found <==> EndsWithAny(path, suffixes)
  {
    found := false;
    var i := 0;
    while i < |suffixes|
      invariant 0 <= i <= |suffixes|
      invariant !found
      invariant forall j :: 0 <= j < i ==> !EndsWith(path, suffixes[j])
    {
      if EndsWith(path, suffixes[i]) {
        found := true;
        return;
      }
      i := i + 1;
    }
  }

  // ---- user name, password, id --------------------------------------------

  predicate UsernameChar(c: char) {
    IsAsciiAlnum(c) || c == '_'
  }

  const UsernameMessage: string := "must contain only letters, numbers, and underscores"

  /** validateUsername: 3..20 characters once trimmed, all in [A-Za-z0-9_]. */
  function ValidateUsername(username: Option<string>): (r: Outcome)
    ensures r.Pass? <==> username.Some? && 3 <= |Trim(username.value)| <= 20
                         && forall i :: 0 <= i < |Trim(username.value)| ==> UsernameChar(Trim(username.value)[i])
  {
    var empty := ValidateNotEmpty(username, "username");
    if empty.Fail? then empty
    else
      var length := ValidateLength(username, "username", 3, 20);
      if length.Fail? then length
      else
        var t := Trim(username.value);
        if !(|t| > 0 && forall i :: 0 <= i < |t| ==> UsernameChar(t[i])) then Fail(FieldValidationError("username", UsernameMessage))
        else Pass
  }

  /** `Pattern.matches(".*[x].*", s)`: no line terminator anywhere, and some character in the class. */
  predicate DotStarMatch(s: string, inClass: char -> bool) {
    (forall i :: 0 <= i < |s| ==> !IsLineTerminator(s[i])) && exists i :: 0 <= i < |s| && inClass(s[i])
  }

  const PasswordMessage: string := "must contain at least one letter and one number"

  /**
   * validatePassword: 6..50 characters once trimmed; the untrimmed value must
   * hold an ASCII letter and a digit, and (since `.` does not match them) no
   * line terminator.
   */
  function ValidatePassword(password: Option<string>): (r: Outcome)
    ensures r.Pass? <==> password.Some? && 6 <= |Trim(password.value)| <= 50
                         && (forall i :: 0 <= i < |password.value| ==> !IsLineTerminator(password.value[i]))
                         && (exists i :: 0 <= i < |password.value| && IsAsciiLetter(password.value[i]))
                         && (exists i :: 0 <= i < |password.value| && IsDigit(password.value[i]))
  {
    var empty := ValidateNotEmpty(password, "password");
    if empty.Fail? then empty
    else
      var length := ValidateLength(password, "password", 6, 50);
      if length.Fail? then length
      else if !DotStarMatch(password.value, IsAsciiLetter) || !DotStarMatch(password.value, IsDigit) then
        Fail(FieldValidationError("password", PasswordMessage))
      else Pass
  }

  /** `^[a-fA-F0-9]{24}$`: the textual form of an ObjectId. */
  predicate IsHexId(t: string) {
    |t| == 24 && forall i :: 0 <= i < |t| ==> IsHexDigit(t[i])
  }

  const IdMessage: string := "must be a valid 24-character hexadecimal string"

  /** validateId: the trimmed value is 24 hex digits. */
  function ValidateId(id: Option<string>): (r: Outcome)
    ensures r.Pass? <==> id.Some? && IsHexId(Trim(id.value))
    ensures r.Fail? && id.Some? && HasContent(id.value) ==> r.error == FieldValidationError("ID", IdMessage)
  {
    var empty := ValidateNotEmpty(id, "ID");
    if empty.Fail? then empty
    else if !IsHexId(Trim(id.value)) then Fail(FieldValidationError("ID", IdMessage))
    else Pass
  }

  // ---- sanitizeInput ------------------------------------------------------------

  predicate IsMarkup(c: char) {
    c == '<' || c == '>' || c == '"' || c == '\'' || c == '&'
  }

  predicate Unmarked(c: char) {
    !IsMarkup(c)
  }

  predicate Unspaced(c: char) {
    !IsRegexSpace(c)
  }

  /** Neither markup nor whitespace: the characters sanitizing never touches. */
  predicate Plain(c: char) {
    Unmarked(c) && Unspaced(c)
  }

  /** The characters of s that satisfy keep, in their order. */
  function Filter(s: string, keep: char -> bool): (r: string)
    ensures |r| <= |s|
    ensures forall i :: 0 <= i < |r| ==> keep(r[i]) && r[i] in s
    ensures (forall i :: 0 <= i < |s| ==> keep(s[i])) ==> r == s
  {
    if s == [] then []
    else if keep(s[0]) then [s[0]] + Filter(s[1..], keep)
    else Filter(s[1..], keep)
  }

  /** Filtering out markup, then whitespace, is filtering to the plain characters. */
  lemma {:induction false} FilterTwice(s: string)
    ensures Filter(Filter(s, Unmarked), Unspaced) == Filter(s, Plain)
  {
    if s != [] {
      FilterTwice(s[1..]);
      if Unmarked(s[0]) {
        var rest := Filter(s[1..], Unmarked);
        assert ([s[0]] + rest)[0] == s[0] && ([s[0]] + rest)[1..] == rest;
      }
    }
  }

  /** replaceAll("[<>\"'&]", ""): exactly the characters other than the five, in order. */
  function StripMarkup(s: string): (r: string)
    ensures r == Filter(s, Unmarked)
    ensures |r| <= |s|
    ensures forall i :: 0 <= i < |r| ==> !IsMarkup(r[i]) && r[i] in s
  {
    if s == [] then []
    else if IsMarkup(s[0]) then StripMarkup(s[1..])
    else [s[0]] + StripMarkup(s[1..])
  }

  function DropSpaces(s: string): (r: string)
    ensures |r| <= |s| && r == s[|s| - |r|..]
    ensures r != [] ==> !IsRegexSpace(r[0])
    ensures s != [] && IsRegexSpace(s[0]) ==> |r| < |s|
  {
    if s != [] && IsRegexSpace(s[0]) then DropSpaces(s[1..]) else s
  }

  /** The whitespace a run skips holds no other character. */
  lemma {:induction false} DropSpacesKeepsText(s: string)
    ensures Filter(DropSpaces(s), Unspaced) == Filter(s, Unspaced)
  {
    if s != [] && IsRegexSpace(s[0]) {
      DropSpacesKeepsText(s[1..]);
    }
  }

  /** replaceAll("\\s+", " "): every maximal run of \s becomes one space. */
  function CollapseSpace(s: string): (r: string)
    ensures s == [] <==> r == []
    ensures s != [] && !IsRegexSpace(s[0]) ==> r[0] == s[0]
    ensures forall i :: 0 <= i < |r| ==> (IsRegexSpace(r[i]) ==> r[i] == ' ') && (r[i] == ' ' || r[i] in s)
    ensures forall i :: 0 <= i < |r| - 1 ==> !(r[i] == ' ' && r[i + 1] == ' ')
    decreases |s|
  {
    if s == [] then []
    else if IsRegexSpace(s[0]) then [' '] + CollapseSpace(DropSpaces(s))
    else [s[0]] + CollapseSpace(s[1..])
  }

  /** Collapsing whitespace keeps every other character, in order. */
  lemma {:induction false} CollapseSpaceKeepsText(s: string)
    ensures Filter(CollapseSpace(s), Unspaced) == Filter(s, Unspaced)
    decreases |s|
  {
    if s != [] {
      if IsRegexSpace(s[0]) {
        var rest := CollapseSpace(DropSpaces(s));
        CollapseSpaceKeepsText(DropSpaces(s));
        DropSpacesKeepsText(s);
        assert ([' '] + rest)[0] == ' ' && ([' '] + rest)[1..] == rest;
      } else {
        var rest := CollapseSpace(s[1..]);
        CollapseSpaceKeepsText(s[1..]);
        assert ([s[0]] + rest)[0] == s[0] && ([s[0]] + rest)[1..] == rest;
      }
    }
  }

  /**
   * sanitizeInput: null stays null; otherwise the trimmed input without
   * markup and with whitespace runs collapsed. Apart from single spaces, the
   * result is exactly the plain characters of the trimmed input, in order.
   */
  function SanitizeInput(input: Option<string>): (r: Option<string>)
    ensures input.None? <==> r.None?
    ensures r.Some? ==> Filter(r.value, Unspaced) == Filter(Trim(input.value), Plain)
    ensures r.Some? ==> forall i :: 0 <= i < |r.value| ==>
      && !IsMarkup(r.value[i])
      && (IsRegexSpace(r.value[i]) ==> r.value[i] == ' ')
    ensures r.Some? ==> forall i :: 0 <= i < |r.value| - 1 ==> !(IsRegexSpace(r.value[i]) && IsRegexSpace(r.value[i + 1]))
  {
    if input.None? then None
    else
      FilterTwice(Trim(input.value));
      CollapseSpaceKeepsText(StripMarkup(Trim(input.value)));
      Some(CollapseSpace(StripMarkup(Trim(input.value))))
  }

  predicate NoMarkup(s: string) {
    forall i :: 0 <= i < |s| ==> !IsMarkup(s[i])
  }

  predicate NoRegexSpace(s: string) {
    forall i :: 0 <= i < |s| ==> !IsRegexSpace(s[i])
  }

  lemma {:induction false} StripMarkupKeeps(s: string)
    requires NoMarkup(s)
    ensures StripMarkup(s) == s
  {
    if s != [] {
      StripMarkupKeeps(s[1..]);
    }
  }

  lemma {:induction false} CollapseSpaceKeeps(s: string)
    requires NoRegexSpace(s)
    ensures CollapseSpace(s) == s
  {
    if s != [] {
      CollapseSpaceKeeps(s[1..]);
    }
  }

  /** A user name that passes validation comes out of sanitizeInput as its trimmed self. */
  lemma UsernameSurvivesSanitizing(username: Option<string>)
    requires ValidateUsername(username).Pass?
    ensures SanitizeInput(username) == Some(Trim(username.value))
  {
    var t := Trim(username.value);
    assert NoMarkup(t) && NoRegexSpace(t) by {
      forall i | 0 <= i < |t| ensures !IsMarkup(t[i]) && !IsRegexSpace(t[i]) {
        assert UsernameChar(t[i]);
      }
    }
    StripMarkupKeeps(t);
    CollapseSpaceKeeps(t);
  }

  // ---- isValidInteger --------------------------------------------------------------

  /**
   * isValidInteger: the trimmed input parses as a Java int within [min, max].
   * A NumberFormatException yields false.
   */
  function IsValidInteger(input: string, min: int, max: int): (r: bool)
    ensures r ==> min <= max
    ensures r ==> AllDigits(Trim(input)) || Trim(input)[0] == '-' || Trim(input)[0] == '+'
  {
    match ParseInt(Trim(input))
    case None => false
    case Some(v) => min <= v && v <= max
  }

  /** Every int in range, written in decimal, is accepted. */
  lemma RenderedIntegerIsValid(v: int, min: int, max: int)
    requires IsInt32(v) && min <= v <= max
    ensures IsValidInteger(IntToString(v), min, max)
  {
    ParseIntRoundTrip(v);
    var s := IntToString(v);
    assert !Trimmable(s[0]) by {
      if v >= 0 {
        assert IsDigit(NatToString(v)[0]);
      }
    }
    assert !Trimmable(s[|s| - 1]);
    assert TrimStart(s) == s;
    assert TrimEnd(s) == s;
  }
}
