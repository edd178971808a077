/** The four password validators of the accounts application. Each validator
    inspects a candidate password (and, by its signature, an optional user)
    and either returns normally or raises a validation error; here it returns
    `Pass` or `Fail` with the error. Error messages are message identifiers,
    not translated text; help texts are the English strings. */
module PasswordValidators {
  import opened Outcomes
  import opened Characters
  import opened Decimal

  /** The read-only user snapshot a validator may be handed. None of the four
      validators looks at it. */
  datatype User = User(username: string, firstName: string, lastName: string)

  /** A configured validator instance. Every class takes a `min_length`
      constructor argument; only `MinimumLength` reads it. */
  datatype Validator =
    | MinimumLength(minLength: int)
    | Number(minLength: int)
    | SpecialCharacter(minLength: int)
    | Case(minLength: int)

  /** Default `min_length` of `MinimumLengthValidator`. */
  const DefaultMinimumLength: int := 14

  /** Default (unused) `min_length` of the other three validators. */
  const DefaultUnusedMinLength: int := 1

  /** The message of a validation error, as an identifier. `TooShort` stands
      for the singular/plural pair of the length message with the form that
      was chosen; `NeedsSpecialCharacter` embeds the special set it lists. */
  datatype MessageId =
    | TooShort(plural: bool)
    | NeedsNumber
    | NeedsSpecialCharacter(specials: string)
    | NeedsUppercase
    | NeedsLowercase

  /** A raised validation error: message, optional code, interpolation
      parameters. */
  datatype ValidationError = ValidationError(message: MessageId, code: Option<string>, params: map<string, int>)

  const TooShortCode: string := "password_too_short"
  const MinLengthParam: string := "min_length"

  /** An error raised with a message only. */
  function Plain(m: MessageId): ValidationError {
    ValidationError(m, None, map[])
  }

  /** `ngettext(singular, plural, n)` with no translation catalog installed:
      the singular form for exactly one, the plural form otherwise. */
  predicate UsesPlural(n: int) {
    n != 1
  }

  /** What each validator intends to demand of a password. */
  ghost predicate Meets(v: Validator, password: string) {
    match v
    case MinimumLength(n) => |password| >= n
    case Number(_) => Contains(password, IsDigit)
    case SpecialCharacter(_) => Contains(password, IsAsciiPunctuation)
    case Case(_) => Contains(password, IsUpper) && Contains(password, IsLower)
  }

  /** `MinimumLengthValidator.validate`. */
  function ValidateMinimumLength(minLength: int, password: string, user: Option<User>): (r: Outcome<ValidationError>)
    ensures r.Pass? <==> |password| >= minLength
    ensures r.Fail? ==> r.error.code == Some(TooShortCode)
    ensures r.Fail? ==> MinLengthParam in r.error.params && r.error.params[MinLengthParam] == minLength
    ensures r.Fail? ==> r.error.message == TooShort(minLength != 1)
  {
    if |password| < minLength then
      Fail(ValidationError(TooShort(UsesPlural(minLength)), Some(TooShortCode), map[MinLengthParam := minLength]))
    else
      Pass
  }

  /** `NumberValidator.validate`. */
  function ValidateNumber(password: string, user: Option<User>): (r: Outcome<ValidationError>)
    ensures r.Pass? <==> exists i :: 0 <= i < |password| && '0' <= password[i] <= '9'
    ensures r.Fail? ==> r.error == Plain(NeedsNumber)
  {
    if !Any(password, IsDigit) then Fail(Plain(NeedsNumber)) else Pass
  }

  /** `SpecialCharacterValidator.validate`. */
  function ValidateSpecialCharacter(password: string, user: Option<User>): (r: Outcome<ValidationError>)
    ensures r.Pass? <==> Contains(password, IsAsciiPunctuation)
    ensures r.Fail? ==> r.error == Plain(NeedsSpecialCharacter(SpecialCharacters))
  {
    forall c: char ensures IsSpecial(c) == IsAsciiPunctuation(c) {
      SpecialIsAsciiPunctuation(c);
    }
    ContainsSame(password, IsSpecial, IsAsciiPunctuation);
    if !Any(password, IsSpecial) then Fail(Plain(NeedsSpecialCharacter(SpecialCharacters))) else Pass
  }

  /** `CaseValidator.validate`: the uppercase test runs first, so a password
      lacking both cases is reported as lacking uppercase. */
  function ValidateCase(password: string, user: Option<User>): (r: Outcome<ValidationError>)
    ensures r.Pass? <==> Contains(password, IsUpper) && Contains(password, IsLower)
    ensures !Contains(password, IsUpper) ==> r == Fail(Plain(NeedsUppercase))
    ensures Contains(password, IsUpper) && !Contains(password, IsLower) ==> r == Fail(Plain(NeedsLowercase))
  {
    if !Any(password, IsUpper) then Fail(Plain(NeedsUppercase))
    else if !Any(password, IsLower) then Fail(Plain(NeedsLowercase))
    else Pass
  }

  /** `validator.validate(password, user)` for a configured instance. */
  function Validate(v: Validator, password: string, user: Option<User>): (r: Outcome<ValidationError>)
    ensures r.Pass? <==> Meets(v, password)
  {
    match v
    case MinimumLength(n) => ValidateMinimumLength(n, password, user)
    case Number(_) => ValidateNumber(password, user)
    case SpecialCharacter(_) => ValidateSpecialCharacter(password, user)
    case Case(_) => ValidateCase(password, user)
  }

  const HelpPrefix: string := "Your password must contain at least "
  const HelpSingularTail: string := " character."
  const HelpPluralTail: string := " characters."

  /** The length help text for threshold `n`: `%d` rendering of `n` in the
      singular or plural form `ngettext` chose. */
  function MinimumLengthHelp(n: int): string {
    HelpPrefix + FormatInt(n) + (if UsesPlural(n) then HelpPluralTail else HelpSingularTail)
  }

  /** `validator.get_help_text()`. Every help text opens with the same
      phrase, and the length help text states its threshold: reading it back
      out recovers that threshold. */
  function HelpText(v: Validator): (r: string)
    ensures |r| > |HelpPrefix| && r[..|HelpPrefix|] == HelpPrefix
    ensures v.MinimumLength? ==> ReadMinimumLengthHelp(r) == Some(v.minLength)
    ensures v.MinimumLength? ==> (EndsWith(r, HelpPluralTail) <==> UsesPlural(v.minLength))
    ensures v.SpecialCharacter? ==> HasInfix(r, SpecialCharacters)
  {
    match v
    case MinimumLength(n) =>
      MinimumLengthHelpRoundTrip(n);
      MinimumLengthHelp(n)
    case Number(_) => HelpPrefix + "one number."
    case SpecialCharacter(_) =>
      var head := HelpPrefix + "one special character (such as ";
      var text := head + SpecialCharacters + ")";
      assert text[|head|..|head| + |SpecialCharacters|] == SpecialCharacters;
      InfixAt(text, SpecialCharacters, |head|);
      text
    case Case(_) => HelpPrefix + "one uppercase and one lowercase letter."
  }

  lemma MinimumLengthHelpRoundTrip(n: int)
    ensures ReadMinimumLengthHelp(MinimumLengthHelp(n)) == Some(n)
    ensures EndsWith(MinimumLengthHelp(n), HelpPluralTail) <==> UsesPlural(n)
  {
    var digits := FormatInt(n);
    var tail := if UsesPlural(n) then HelpPluralTail else HelpSingularTail;
    var s := MinimumLengthHelp(n);
    assert s == HelpPrefix + digits + tail;
    assert s[..|HelpPrefix|] == HelpPrefix;
    var rest := s[|HelpPrefix|..];
    assert rest == digits + tail;
    FormatIntRoundTrip(n);
    if UsesPlural(n) {
      assert rest[|rest| - |HelpPluralTail|..] == HelpPluralTail;
      assert rest[..|rest| - |HelpPluralTail|] == digits;
      assert s[|s| - |HelpPluralTail|..] == HelpPluralTail;
    } else {
      assert digits == "1";
      assert rest == "1 character.";
      assert s == HelpPrefix + "1 character.";
    }
  }

  /** `s` ends with `tail`. */
  predicate EndsWith(s: string, tail: string) {
    |s| >= |tail| && s[|s| - |tail|..] == tail
  }

  /** `t` occurs in `s` as a contiguous piece. */
  predicate HasInfix(s: string, t: string) {
    exists k :: 0 <= k <= |s| - |t| && PieceAt(s, t, k)
  }

  /** `t` occurs in `s` starting at position `k`. */
  predicate PieceAt(s: string, t: string, k: int)
    requires 0 <= k <= |s| - |t|
  {
    s[k..k + |t|] == t
  }

  /** A piece found at position `k` witnesses `HasInfix`. */
  lemma InfixAt(s: string, t: string, k: nat)
    requires k + |t| <= |s| && s[k..k + |t|] == t
    ensures HasInfix(s, t)
  {
    assert PieceAt(s, t, k);
  }

  /** Reads the threshold back out of a length help text. */
  function ReadMinimumLengthHelp(s: string): Option<int> {
    if |s| >= |HelpPrefix| && s[..|HelpPrefix|] == HelpPrefix then
      var rest := s[|HelpPrefix|..];
      if EndsWith(rest, HelpPluralTail) then
        ParseInt(rest[..|rest| - |HelpPluralTail|])
      else if EndsWith(rest, HelpSingularTail) then
        ParseInt(rest[..|rest| - |HelpSingularTail|])
      else None
    else None
  }

  /** The validators in the order the source file declares them, each with
      its default constructor argument. */
  function DefaultValidators(): seq<Validator> {
    [MinimumLength(DefaultMinimumLength), Number(DefaultUnusedMinLength),
     SpecialCharacter(DefaultUnusedMinLength), Case(DefaultUnusedMinLength)]
  }

  /** Runs every validator in order and collects the errors raised. */
  function Failures(validators: seq<Validator>, password: string, user: Option<User>): (r: seq<ValidationError>)
    ensures |r| <= |validators|
    ensures r == [] <==> forall i :: 0 <= i < |validators| ==> Meets(validators[i], password)
    ensures forall e :: e in r ==> exists i :: 0 <= i < |validators| && Validate(validators[i], password, user) == Fail(e)
    ensures forall i :: 0 <= i < |validators| && Validate(validators[i], password, user).Fail? ==>
      Validate(validators[i], password, user).error in r
  {
    if |validators| == 0 then []
    else
      var rest := Failures(validators[1..], password, user);
      assert forall i :: 0 < i < |validators| ==> validators[i] == validators[1..][i - 1];
      match Validate(validators[0], password, user)
      case Pass => rest
      case Fail(e) => [e] + rest
  }
}
