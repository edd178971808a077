# Password-strength validators and account-form rules, in Dafny

This project models the decision logic of a Django user-accounts
application: the four custom password validators (`MinimumLengthValidator`,
`NumberValidator`, `SpecialCharacterValidator`, `CaseValidator`) and the two
form-cleaning rules (`EmailForm.clean`, which demands that the email and its
confirmation are equal, and `ProfileForm.clean_bio`, which demands a bio that
is empty or at least ten characters long).

Each validator is a pure function from a password (`seq<char>`) and an
optional user to `Pass` or `Fail(error)`. A raised `ValidationError` becomes
a datatype with a message identifier, an optional code and the interpolation
parameters. Each form hook is a function from the cleaned data (a map from
field name to string) to `Ok(value)` or `Err(error)`. Reading a missing key
gives `Err(KeyError(key))`, as Python dict indexing does.

Files:

- `outcomes.dfy`: `Option`, `Outcome` (pass/fail) and `Result` (value/error).
- `characters.dfy`: the ASCII character classes, the 32-character special
  set, and `Any`, which is Python's short-circuiting `any`. `Any` is proved
  equal to "some index has the property".
- `decimal.dfy`: the `%d` rendering of an integer and its inverse, used for
  the length help text.
- `password_validators.dfy`: the validators, their help texts, and a
  convenience that runs a list of validators and collects their errors.
- `validator_properties.dfy`: lemmas relating several validator calls.
- `forms.dfy`: the two form rules and their lemmas.

Two facts about the code are worth stating plainly:

- The case check raises on the first missing case and never reports both.
  It checks for an uppercase letter first.
- The length threshold is a constructor argument. 14 is only its default.

## Model

| member | source | states |
|---|---|---|
| Characters.Any | accounts/custom_password_validators.py:46 | the left-to-right short-circuit scan is true exactly when some character of the string has the property |
| Characters.SpecialCharactersAreDistinct | accounts/custom_password_validators.py:61 | the special set literal holds 32 characters, no two equal |
| Characters.SpecialIsAsciiPunctuation | accounts/custom_password_validators.py:61 | a character is in the special set exactly when it is printable ASCII other than a letter, a digit or the space (so the backslash is included) |
| Decimal.FormatInt | accounts/custom_password_validators.py:30-35 | `%d` rendering is non-empty, all digits for a non-negative number, a minus sign then digits for a negative one, and never has a leading zero (other than "0" itself) |
| Decimal.FormatIntRoundTrip | accounts/custom_password_validators.py:30-35 | reading back the `%d` rendering of any integer gives that integer |
| Decimal.ParseIntOnlyCanonical | accounts/custom_password_validators.py:30-35 | the reading accepts only text as `%d` writes it: whatever it reads is exactly the rendering of the integer it yields |
| Decimal.FormatIntInjective | accounts/custom_password_validators.py:30-35 | different thresholds give different renderings |
| PasswordValidators.ValidateMinimumLength | accounts/custom_password_validators.py:12-26 | rejects exactly when the length is below the threshold; a rejection has code `password_too_short`, the `min_length` parameter equal to the threshold, and the plural message unless the threshold is 1 |
| PasswordValidators.ValidateNumber | accounts/custom_password_validators.py:45-49 | accepts exactly when some character is one of '0'..'9'; otherwise it raises the number message with no code |
| PasswordValidators.ValidateSpecialCharacter | accounts/custom_password_validators.py:63-70 | accepts exactly when some character is ASCII punctuation; otherwise it raises the message that lists the special set |
| PasswordValidators.ValidateCase | accounts/custom_password_validators.py:87-97 | accepts exactly when there is an uppercase and a lowercase letter; with no uppercase it raises the uppercase message; with uppercase but no lowercase it raises the lowercase message |
| PasswordValidators.Validate | accounts/custom_password_validators.py:12-97 | a configured validator accepts exactly when the password meets that validator's intended condition |
| PasswordValidators.Failures | accounts/custom_password_validators.py:12-97 | running a list of validators collects no errors exactly when every validator's condition holds; every collected error is one a listed validator raises, and every error a listed validator raises is collected; there are at most as many errors as validators |
| ValidatorProperties.UserIsIgnored | accounts/custom_password_validators.py:12-97 | no verdict depends on the user argument |
| ValidatorProperties.UnusedMinLengthIsIgnored | accounts/custom_password_validators.py:42-43 | the number, special and case verdicts do not depend on the `min_length` constructor argument |
| ValidatorProperties.LengthVerdictIgnoresContent | accounts/custom_password_validators.py:12-13 | two passwords of equal length get the same length verdict |
| ValidatorProperties.DefaultThreshold | accounts/custom_password_validators.py:9-26 | with the default threshold, exactly the passwords of at most 13 characters are rejected, carrying `min_length` 14 and the plural message |
| ValidatorProperties.CoverPreservesPass | accounts/custom_password_validators.py:12-97 | an accepted password stays accepted by any password at least as long that contains all of its characters |
| ValidatorProperties.ExtensionPreservesPass | accounts/custom_password_validators.py:12-97 | adding characters before or after an accepted password keeps it accepted, for every validator |
| ValidatorProperties.AppendPreservesPass | accounts/custom_password_validators.py:12-97 | every validator is monotone under appending characters |
| ValidatorProperties.NumberRejectsExactlyWithoutDigit | accounts/custom_password_validators.py:45-49 | the number validator rejects exactly the passwords with no digit, with the number message |
| ValidatorProperties.InsertDigitAccepts | accounts/custom_password_validators.py:45-49 | inserting a digit anywhere into any password makes the number validator accept |
| ValidatorProperties.AppendDigitAccepts | accounts/custom_password_validators.py:45-49 | appending a digit to any password makes the number validator accept |
| ValidatorProperties.SpecialRejectsExactlyWithoutSpecial | accounts/custom_password_validators.py:61-66 | the special validator rejects exactly when no character is in the 32-character set, which contains the backslash |
| ValidatorProperties.LettersAndDigitsRejected | accounts/custom_password_validators.py:61-70 | a password made only of letters and digits is always rejected by the special validator |
| ValidatorProperties.InsertSpecialAccepts | accounts/custom_password_validators.py:61-66 | inserting one character of the special set anywhere makes the special validator accept |
| ValidatorProperties.UppercaseReportedFirst | accounts/custom_password_validators.py:88-97 | a password without an uppercase letter, such as one of digits only, gets the uppercase message and never the lowercase one |
| ValidatorProperties.LowercaseReportImpliesUppercase | accounts/custom_password_validators.py:88-97 | a lowercase complaint is raised only when there is an uppercase letter and no lowercase one |
| ValidatorProperties.SingleCaseRejected | accounts/custom_password_validators.py:87-97 | a password with no uppercase letter, or with no lowercase letter, fails the case check |
| ValidatorProperties.MixedCaseAccepted | accounts/custom_password_validators.py:87-97 | a password with one uppercase and one lowercase letter passes the case check |
| PasswordValidators.HelpText | accounts/custom_password_validators.py:28-101 | every help text opens with "Your password must contain at least "; the length help text states its threshold, so reading it back out recovers that threshold, written exactly as `%d` writes it (no leading zero, no "-0"), and it ends in " characters." exactly when the threshold is not 1 (the plural form); the special-character help text lists the special set |
| ValidatorProperties.LengthHelpTextIsDetermined | accounts/custom_password_validators.py:28-35 | a text that reads back to threshold `n` and ends in the form `ngettext` picks for `n` is exactly the length help text for `n` |
| ValidatorProperties.HelpTextAgreesWithError | accounts/custom_password_validators.py:14-35 | the length error and the length help text use the same singular or plural form: the error is plural exactly when the help text ends in " characters." |
| ValidatorProperties.FailuresOfOne | accounts/custom_password_validators.py:12-97 | a single validator contributes exactly its own error when it fails and nothing when it passes |
| ValidatorProperties.FailuresOfConcat | accounts/custom_password_validators.py:12-97 | running two lists of validators one after the other collects the first list's errors followed by the second's, so the result is exactly one error per failing validator, in list order |
| ValidatorProperties.FailuresInOrder | accounts/custom_password_validators.py:12-97 | of two failing validators in the list, the earlier one's error is collected before the later one's |
| ValidatorProperties.DefaultsAcceptExactlyStrong | accounts/custom_password_validators.py:9-97 | the four validators with their defaults collect no error exactly when the password has at least 14 characters, a digit, a special character, an uppercase and a lowercase letter |
| Forms.CleanEmail | accounts/forms.py:25-29 | a missing email, then a missing confirmation, is a key error; with both present it accepts exactly when they are equal and then returns the cleaned data unchanged; the only validation error is the mismatch |
| Forms.EmailCheckIsSymmetric | accounts/forms.py:27-28 | swapping the email and the confirmation does not change the verdict |
| Forms.EmailMatchExact | accounts/forms.py:26-29 | equal addresses return the cleaned data; different ones raise "E-mails do not match!" |
| Forms.EmptyConfirmationRejected | accounts/forms.py:18-19 | an empty confirmation with a non-empty email is a mismatch |
| Forms.CleanBio | accounts/forms.py:47-53 | a missing bio is a key error; otherwise it accepts exactly the empty bio or a bio of at least 10 characters and returns it unchanged; the only validation error is the short-bio one |
| Forms.EmptyBioAccepted | accounts/forms.py:49 | the empty bio is accepted |
| Forms.ShortBioRejected | accounts/forms.py:49-52 | every bio of 1 to 9 characters is rejected |
| Forms.LongBioUnchanged | accounts/forms.py:49-53 | every bio of 10 or more characters is returned unchanged |

## Left out

- Views, URL routing, the `Profile` model, its post-save signal and the migration: request handling and persistence wiring with no decision logic.
- `UserForm`: field declarations only. There is no rule to model.
- The base class's `clean()` and field-level parsing (`EmailField`, `DateField`, `ImageField`, `SelectDateWidget` and the `datetime.now()` year range). That logic lives in Django. The form functions take the already-cleaned data as input.
- Translation: `gettext` and `ngettext`. Error messages are identifiers. The singular or plural choice follows the rule `ngettext` uses without a catalog (singular exactly for 1). Interpolating `%(min_length)d` into the error message happens in Django, so the model keeps the `min_length` parameter instead.
- Unicode-aware `isdigit`, `isupper` and `islower`. They are modelled as the ASCII ranges '0'..'9', 'A'..'Z' and 'a'..'z'. Non-ASCII digits and letters are not covered.
- The name-similarity validator, the mail-exchange domain lookup and the settings list that chains validators: not in these sources. `Failures` over `DefaultValidators` is only a convenience. It uses the order the file declares the classes.
