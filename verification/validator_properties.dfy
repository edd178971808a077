/** Properties of the password validators that relate several calls: what
    the verdict ignores, how it behaves when characters are added, the
    order in which the case validator reports, and the help text. */
module ValidatorProperties {
  import opened Outcomes
  import opened Characters
  import opened Decimal
  import opened PasswordValidators

  /** A password holding every character of `password`, and at least as many. */
  ghost predicate Covers(longer: string, password: string) {
    |longer| >= |password| && forall i :: 0 <= i < |password| ==> password[i] in longer
  }

  /** No verdict depends on the user argument. */
  lemma UserIsIgnored(v: Validator, password: string, u1: Option<User>, u2: Option<User>)
    ensures Validate(v, password, u1) == Validate(v, password, u2)
  {
  }

  /** Only the length validator reads its `min_length` argument. */
  lemma UnusedMinLengthIsIgnored(password: string, user: Option<User>, a: int, b: int)
    ensures Validate(Number(a), password, user) == Validate(Number(b), password, user)
    ensures Validate(SpecialCharacter(a), password, user) == Validate(SpecialCharacter(b), password, user)
    ensures Validate(Case(a), password, user) == Validate(Case(b), password, user)
  {
  }

  /** The length verdict depends on the length alone, not the content. */
  lemma LengthVerdictIgnoresContent(n: int, p: string, q: string, user: Option<User>)
    requires |p| == |q|
    ensures Validate(MinimumLength(n), p, user) == Validate(MinimumLength(n), q, user)
  {
  }

  /** With the default threshold of 14, exactly the passwords of 13 or fewer
      characters are rejected, with the threshold as `min_length`. */
  lemma DefaultThreshold(password: string, user: Option<User>)
    ensures Validate(MinimumLength(DefaultMinimumLength), password, user).Fail? <==> |password| <= 13
    ensures |password| <= 13 ==>
      Validate(MinimumLength(DefaultMinimumLength), password, user)
        == Fail(ValidationError(TooShort(true), Some("password_too_short"), map["min_length" := 14]))
  {
  }

  /** Accepting a password is preserved by any password that covers it; in
      particular every validator is monotone under extension. */
  lemma CoverPreservesPass(v: Validator, password: string, longer: string, user: Option<User>)
    requires Covers(longer, password)
    requires Validate(v, password, user).Pass?
    ensures Validate(v, longer, user).Pass?
  {
    match v
    case MinimumLength(_) =>
    case Number(_) =>
      ContainsCovered(password, longer, IsDigit);
    case SpecialCharacter(_) =>
      ContainsCovered(password, longer, IsAsciiPunctuation);
    case Case(_) =>
      ContainsCovered(password, longer, IsUpper);
      ContainsCovered(password, longer, IsLower);
  }

  /** Adding characters before and after an accepted password keeps it accepted. */
  lemma ExtensionPreservesPass(v: Validator, before: string, password: string, after: string, user: Option<User>)
    requires Validate(v, password, user).Pass?
    ensures Validate(v, before + password + after, user).Pass?
  {
    InfixCovers(before, password, after);
    CoverPreservesPass(v, password, before + password + after, user);
  }

  /** Appending characters to an accepted password keeps it accepted. */
  lemma AppendPreservesPass(v: Validator, password: string, suffix: string, user: Option<User>)
    requires Validate(v, password, user).Pass?
    ensures Validate(v, password + suffix, user).Pass?
  {
    ExtensionPreservesPass(v, [], password, suffix, user);
    assert [] + password + suffix == password + suffix;
  }

  /** The number validator rejects exactly the passwords without a digit. */
  lemma NumberRejectsExactlyWithoutDigit(m: int, password: string, user: Option<User>)
    ensures Validate(Number(m), password, user).Fail? <==> forall i :: 0 <= i < |password| ==> !IsDigit(password[i])
    ensures Validate(Number(m), password, user).Fail? ==>
      Validate(Number(m), password, user).error.message == NeedsNumber
  {
  }

  /** Inserting any digit anywhere makes the number validator accept. */
  lemma InsertDigitAccepts(m: int, before: string, d: char, after: string, user: Option<User>)
    requires IsDigit(d)
    ensures Validate(Number(m), before + [d] + after, user) == Pass
  {
    assert (before + [d] + after)[|before|] == d;
  }

  /** Appending any digit makes the number validator accept. */
  lemma AppendDigitAccepts(m: int, password: string, d: char, user: Option<User>)
    requires IsDigit(d)
    ensures Validate(Number(m), password + [d], user) == Pass
  {
    assert (password + [d])[|password|] == d;
  }

  /** The special-character validator rejects exactly the passwords with no
      character from the fixed 32-character set, backslash included. */
  lemma SpecialRejectsExactlyWithoutSpecial(m: int, password: string, user: Option<User>)
    ensures Validate(SpecialCharacter(m), password, user).Fail? <==>
      forall i :: 0 <= i < |password| ==> password[i] !in SpecialCharacters
    ensures '\\' in SpecialCharacters && |SpecialCharacters| == 32
  {
    forall i | 0 <= i < |password|
      ensures IsSpecial(password[i]) == IsAsciiPunctuation(password[i])
    {
      SpecialIsAsciiPunctuation(password[i]);
    }
    ContainsSame(password, IsSpecial, IsAsciiPunctuation);
  }

  /** A password of letters and digits only never passes the special check. */
  lemma LettersAndDigitsRejected(m: int, password: string, user: Option<User>)
    requires forall i :: 0 <= i < |password| ==> IsUpper(password[i]) || IsLower(password[i]) || IsDigit(password[i])
    ensures Validate(SpecialCharacter(m), password, user) == Fail(Plain(NeedsSpecialCharacter(SpecialCharacters)))
  {
  }

  /** Inserting one special character anywhere makes the special check accept. */
  lemma InsertSpecialAccepts(m: int, before: string, c: char, after: string, user: Option<User>)
    requires c in SpecialCharacters
    ensures Validate(SpecialCharacter(m), before + [c] + after, user) == Pass
  {
    SpecialIsAsciiPunctuation(c);
    assert (before + [c] + after)[|before|] == c;
  }

  /** A password with neither case, digits only say, is reported as lacking
      uppercase and never as lacking lowercase. */
  lemma UppercaseReportedFirst(m: int, password: string, user: Option<User>)
    requires forall i :: 0 <= i < |password| ==> !IsUpper(password[i])
    ensures Validate(Case(m), password, user) == Fail(Plain(NeedsUppercase))
  {
  }

  /** A lowercase complaint means the password does have an uppercase letter. */
  lemma LowercaseReportImpliesUppercase(m: int, password: string, user: Option<User>)
    requires Validate(Case(m), password, user) == Fail(Plain(NeedsLowercase))
    ensures exists i :: 0 <= i < |password| && IsUpper(password[i])
    ensures forall i :: 0 <= i < |password| ==> !IsLower(password[i])
  {
  }

  /** A password written in a single case fails the case check. */
  lemma SingleCaseRejected(m: int, password: string, user: Option<User>)
    requires (forall i :: 0 <= i < |password| ==> !IsUpper(password[i]))
          || (forall i :: 0 <= i < |password| ==> !IsLower(password[i]))
    ensures Validate(Case(m), password, user).Fail?
  {
  }

  /** A password with one uppercase and one lowercase letter passes the case check. */
  lemma MixedCaseAccepted(m: int, password: string, i: nat, j: nat, user: Option<User>)
    requires i < |password| && j < |password|
    requires IsUpper(password[i]) && IsLower(password[j])
    ensures Validate(Case(m), password, user) == Pass
  {
  }

  /** The length help text uses the same singular/plural form as the error. */
  lemma HelpTextAgreesWithError(n: int, password: string, user: Option<User>)
    requires |password| < n
    ensures Validate(MinimumLength(n), password, user).error.message.plural
      <==> EndsWith(HelpText(MinimumLength(n)), HelpPluralTail)
  {
  }

  /** A length help text is the prefix, a rendered integer and one of the two
      endings. */
  lemma ReadLengthHelpShape(s: string, n: int) returns (tail: string)
    requires ReadMinimumLengthHelp(s) == Some(n)
    ensures tail == HelpPluralTail || tail == HelpSingularTail
    ensures s == HelpPrefix + FormatInt(n) + tail
  {
    var rest := s[|HelpPrefix|..];
    assert s == HelpPrefix + rest;
    tail := if EndsWith(rest, HelpPluralTail) then HelpPluralTail else HelpSingularTail;
    var middle := rest[..|rest| - |tail|];
    ParseIntOnlyCanonical(middle);
    assert rest == middle + rest[|rest| - |tail|..];
  }

  /** With the singular ending, the character before " character." is the
      last digit of the threshold, so the text does not end in " characters.". */
  lemma SingularTextIsNotPlural(n: int)
    ensures !EndsWith(HelpPrefix + FormatInt(n) + HelpSingularTail, HelpPluralTail)
  {
    var digits := FormatInt(n);
    var s := HelpPrefix + digits + HelpSingularTail;
    assert s[|s| - |HelpPluralTail|] == digits[|digits| - 1];
    assert IsDigit(digits[|digits| - 1]) by {
      if n < 0 { assert |digits| - 1 >= 1; }
    }
  }

  lemma LengthHelpIsDetermined(s: string, n: int)
    requires ReadMinimumLengthHelp(s) == Some(n)
    requires EndsWith(s, HelpPluralTail) <==> UsesPlural(n)
    ensures s == MinimumLengthHelp(n)
  {
    var tail := ReadLengthHelpShape(s, n);
    if tail == HelpSingularTail {
      SingularTextIsNotPlural(n);
      assert FormatInt(1) == "1";
    }
  }

  /** The contract of `HelpText` fixes the length help text exactly: any text
      that reads back to threshold `n` and takes `n`'s singular or plural
      ending is the help text for `n`. */
  lemma LengthHelpTextIsDetermined(s: string, n: int)
    requires ReadMinimumLengthHelp(s) == Some(n)
    requires EndsWith(s, HelpPluralTail) <==> UsesPlural(n)
    ensures s == HelpText(MinimumLength(n))
  {
    LengthHelpIsDetermined(s, n);
  }

  /** One validator collects its own error, or nothing. */
  lemma FailuresOfOne(v: Validator, password: string, user: Option<User>)
    ensures Failures([v], password, user)
      == if Validate(v, password, user).Fail? then [Validate(v, password, user).error] else []
  {
    assert [v][1..] == [];
  }

  /** Running two lists of validators one after the other collects the errors
      of the first list followed by those of the second: together with
      `FailuresOfOne` this fixes the result to exactly one error per failing
      validator, in list order. */
  lemma {:induction false} FailuresOfConcat(a: seq<Validator>, b: seq<Validator>, password: string, user: Option<User>)
    ensures Failures(a + b, password, user) == Failures(a, password, user) + Failures(b, password, user)
    decreases |a|
  {
    if |a| == 0 {
      assert a + b == b;
    } else {
      assert (a + b)[1..] == a[1..] + b;
      assert (a + b)[0] == a[0];
      FailuresOfConcat(a[1..], b, password, user);
    }
  }

  /** `a` occurs in `r` at an earlier position than some occurrence of `b`. */
  ghost predicate ListedBefore(r: seq<ValidationError>, a: ValidationError, b: ValidationError) {
    exists k, l :: 0 <= k < l < |r| && r[k] == a && r[l] == b
  }

  /** An error from the front part of a concatenation is listed before one
      from the back part. */
  lemma ListedBeforeAcross(front: seq<ValidationError>, back: seq<ValidationError>, a: ValidationError, b: ValidationError)
    requires a in front && b in back
    ensures ListedBefore(front + back, a, b)
  {
    var k :| 0 <= k < |front| && front[k] == a;
    var l :| 0 <= l < |back| && back[l] == b;
    assert (front + back)[k] == a && (front + back)[|front| + l] == b;
  }

  /** The collected errors keep the order of the validators that raised them:
      of two failing validators, the earlier one's error is listed first. */
  lemma FailuresInOrder(validators: seq<Validator>, password: string, user: Option<User>, i: nat, j: nat)
    requires i < j < |validators|
    requires Validate(validators[i], password, user).Fail? && Validate(validators[j], password, user).Fail?
    ensures ListedBefore(Failures(validators, password, user),
                         Validate(validators[i], password, user).error,
                         Validate(validators[j], password, user).error)
  {
    var front, back := validators[..j], validators[j..];
    assert validators == front + back;
    assert front[i] == validators[i] && back[0] == validators[j];
    FailuresOfConcat(front, back, password, user);
    ListedBeforeAcross(Failures(front, password, user), Failures(back, password, user),
                       Validate(validators[i], password, user).error,
                       Validate(validators[j], password, user).error);
  }

  /** The four validators with their defaults accept exactly the passwords of
      at least 14 characters with a digit, a special character, an
      uppercase and a lowercase letter; otherwise at least one error is
      collected. */
  lemma DefaultsAcceptExactlyStrong(password: string, user: Option<User>)
    ensures Failures(DefaultValidators(), password, user) == [] <==>
      && |password| >= 14
      && (exists i :: 0 <= i < |password| && IsDigit(password[i]))
      && (exists i :: 0 <= i < |password| && password[i] in SpecialCharacters)
      && (exists i :: 0 <= i < |password| && IsUpper(password[i]))
      && (exists i :: 0 <= i < |password| && IsLower(password[i]))
  {
    var vs := DefaultValidators();
    var all := forall i :: 0 <= i < |vs| ==> Meets(vs[i], password);
    assert all <==> Meets(vs[0], password) && Meets(vs[1], password)
                    && Meets(vs[2], password) && Meets(vs[3], password) by {
      if Meets(vs[0], password) && Meets(vs[1], password) && Meets(vs[2], password) && Meets(vs[3], password) {
        forall i | 0 <= i < |vs| ensures Meets(vs[i], password) {
          assert i == 0 || i == 1 || i == 2 || i == 3;
        }
      }
    }
    assert Meets(vs[2], password) <==> exists i :: 0 <= i < |password| && password[i] in SpecialCharacters by {
      SpecialRejectsExactlyWithoutSpecial(1, password, user);
    }
  }
}
