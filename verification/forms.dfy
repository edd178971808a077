/** The decision rules of the account forms: the email/confirmation equality
    check and the minimum-length rule on the profile bio. The cleaned data a
    form has collected is a map from field name to cleaned string; reading a
    field that is absent raises `KeyError`, as Python's dict indexing does. */
module Forms {
  import opened Outcomes

  /** The form-level error messages, as identifiers. */
  datatype FormMessage = EmailsDoNotMatch | BioTooShort

  /** What a `clean` hook can raise: a missing cleaned field, or a
      validation error with its message. */
  datatype FormError = KeyError(key: string) | Invalid(message: FormMessage)

  type CleanedData = map<string, string>

  const EmailField: string := "email"
  const ConfirmEmailField: string := "confirm_email"
  const BioField: string := "bio"

  /** Minimum length of a non-empty bio. */
  const MinimumBioLength: nat := 10

  /** `EmailForm.clean`, given the cleaned data the base class returned. The
      email is read before the confirmation. */
  function CleanEmail(data: CleanedData): (r: Result<CleanedData, FormError>)
    ensures EmailField !in data ==> r == Err(KeyError(EmailField))
    ensures EmailField in data && ConfirmEmailField !in data ==> r == Err(KeyError(ConfirmEmailField))
    ensures EmailField in data && ConfirmEmailField in data ==>
      (r.Ok? <==> data[EmailField] == data[ConfirmEmailField])
    // Accepted data comes back unchanged, so cleaning it again gives the same result.
    ensures r.Ok? ==> r.value == data
    ensures r.Err? && r.error.Invalid? ==> r.error.message == EmailsDoNotMatch
  {
    if EmailField !in data then Err(KeyError(EmailField))
    else if ConfirmEmailField !in data then Err(KeyError(ConfirmEmailField))
    else if data[EmailField] != data[ConfirmEmailField] then Err(Invalid(EmailsDoNotMatch))
    else Ok(data)
  }

  /** `ProfileForm.clean_bio`: returns the cleaned bio, or raises when it is
      non-empty but shorter than ten characters. */
  function CleanBio(data: CleanedData): (r: Result<string, FormError>)
    ensures BioField !in data ==> r == Err(KeyError(BioField))
    ensures BioField in data ==>
      (r.Ok? <==> data[BioField] == [] || |data[BioField]| >= MinimumBioLength)
    // An accepted bio comes back unchanged, so writing it back and cleaning
    // again gives the same result.
    ensures r.Ok? ==> BioField in data && r.value == data[BioField]
    ensures r.Err? && r.error.Invalid? ==> r.error.message == BioTooShort
  {
    if BioField !in data then Err(KeyError(BioField))
    else
      var bio := data[BioField];
      if |bio| < MinimumBioLength && |bio| != 0 then Err(Invalid(BioTooShort))
      else Ok(bio)
  }

  /** The email check is symmetric in the two fields. */
  lemma EmailCheckIsSymmetric(data: CleanedData, a: string, b: string)
    ensures CleanEmail(data[EmailField := a][ConfirmEmailField := b]).Ok?
       <==> CleanEmail(data[EmailField := b][ConfirmEmailField := a]).Ok?
  {
  }

  /** Equal addresses pass and return the cleaned data unchanged; differing
      addresses raise the mismatch error. */
  lemma EmailMatchExact(data: CleanedData, email: string, confirm: string)
    ensures var d := data[EmailField := email][ConfirmEmailField := confirm];
      CleanEmail(d) == if email == confirm then Ok(d) else Err(Invalid(EmailsDoNotMatch))
  {
  }

  /** The confirmation field is optional, so it may be cleaned to the empty
      string; paired with a non-empty email that is a mismatch. */
  lemma EmptyConfirmationRejected(data: CleanedData)
    requires EmailField in data && data[EmailField] != []
    requires ConfirmEmailField in data && data[ConfirmEmailField] == []
    ensures CleanEmail(data) == Err(Invalid(EmailsDoNotMatch))
  {
  }

  /** The empty bio is accepted. */
  lemma EmptyBioAccepted(data: CleanedData)
    requires BioField in data && data[BioField] == []
    ensures CleanBio(data) == Ok([])
  {
  }

  /** Every bio of one to nine characters is rejected. */
  lemma ShortBioRejected(data: CleanedData)
    requires BioField in data && 1 <= |data[BioField]| <= 9
    ensures CleanBio(data) == Err(Invalid(BioTooShort))
  {
  }

  /** Every bio of ten or more characters is returned unchanged. */
  lemma LongBioUnchanged(data: CleanedData)
    requires BioField in data && |data[BioField]| >= 10
    ensures CleanBio(data) == Ok(data[BioField])
  {
  }
}
