/**
 * `validation.js`: the master-password length rule and the required fields
 * of a password entry, each checked in a fixed order with a fixed message.
 */
module Validation {
  import opened Types
  import opened JsString
  import opened Records

  /** A validator's answer; `Throws` is a `TypeError` escaping the validator. */
  datatype Check = Valid | Invalid(message: string) | Throws

  const TooShortMessage: string := "Master password must be at least 8 characters"
  const NotLongEnoughMessage: string := "For security, use at least 12 characters"
  const MinimumLength: nat := 8
  const RecommendedLength: nat := 12

  /** `validateMasterPassword(password)`: the error names the first length bound the password misses. */
  function ValidateMasterPassword(password: string): (r: Check)
    ensures r.Valid? <==> |password| >= RecommendedLength
    ensures r == Invalid(TooShortMessage) <==> |password| < MinimumLength
    ensures r == Invalid(NotLongEnoughMessage) <==> MinimumLength <= |password| < RecommendedLength
    ensures !r.Throws?
  {
    if password == "" || |password| < MinimumLength then Invalid(TooShortMessage)
    else if |password| < RecommendedLength then Invalid(NotLongEnoughMessage)
    else Valid
  }

  const SiteMessage: string := "Website/Service is required"
  const UsernameMessage: string := "Username/Email is required"
  const PasswordMessage: string := "Password is required"

  /**
   * One required field: `!entry.field || !entry.field.trim()`. A falsy
   * value is missing; a truthy value that is not a string has no `trim`
   * and throws.
   */
  function CheckField(v: Option<Json>, message: string): (r: Check)
  {
    if !Truthy(v) then Invalid(message)
    else if !v.value.Str? then Throws
    else if Trim(v.value.s) == "" then Invalid(message)
    else Valid
  }

  /** The field holds a string with something other than whitespace in it. */
  predicate Filled(v: Option<Json>)
  {
    v.Some? && v.value.Str? && !AllWhitespace(v.value.s)
  }

  /** A field passes its check exactly when it is filled. */
  lemma CheckFieldFilled(v: Option<Json>, message: string)
    ensures CheckField(v, message).Valid? <==> Filled(v)
    ensures CheckField(v, message).Throws? <==> Truthy(v) && !v.value.Str?
  {
    if v.Some? && v.value.Str? {
      TrimEmptyIff(v.value.s);
    }
  }

  /** `validatePasswordEntry(entry)`: site, then username, then password. */
  function ValidatePasswordEntry(entry: Record): Check
  {
    var site := CheckField(Field(entry, "site"), SiteMessage);
    if !site.Valid? then site
    else
      var username := CheckField(Field(entry, "username"), UsernameMessage);
      if !username.Valid? then username
      else CheckField(Field(entry, "password"), PasswordMessage)
  }

  predicate EntryFilled(entry: Record)
  {
    Filled(Field(entry, "site")) && Filled(Field(entry, "username")) && Filled(Field(entry, "password"))
  }

  /**
   * An entry is valid exactly when all three fields are filled; otherwise
   * the answer comes from the first field, in the order site, username,
   * password, that is not.
   */
  lemma ValidatePasswordEntryIff(entry: Record)
    ensures ValidatePasswordEntry(entry).Valid? <==> EntryFilled(entry)
    ensures !Filled(Field(entry, "site")) ==>
      ValidatePasswordEntry(entry) == CheckField(Field(entry, "site"), SiteMessage)
    ensures (Filled(Field(entry, "site")) && !Filled(Field(entry, "username"))) ==>
      ValidatePasswordEntry(entry) == CheckField(Field(entry, "username"), UsernameMessage)
    ensures (Filled(Field(entry, "site")) && Filled(Field(entry, "username"))) ==>
      ValidatePasswordEntry(entry) == CheckField(Field(entry, "password"), PasswordMessage)
  {
    CheckFieldFilled(Field(entry, "site"), SiteMessage);
    CheckFieldFilled(Field(entry, "username"), UsernameMessage);
    CheckFieldFilled(Field(entry, "password"), PasswordMessage);
  }

  /** A failed entry check names the field it failed on: the message is one of the three. */
  lemma InvalidEntryMessage(entry: Record)
    requires ValidatePasswordEntry(entry).Invalid?
    ensures ValidatePasswordEntry(entry).message in {SiteMessage, UsernameMessage, PasswordMessage}
    ensures ValidatePasswordEntry(entry).message == SiteMessage <==> !Filled(Field(entry, "site"))
  {
    CheckFieldFilled(Field(entry, "site"), SiteMessage);
    CheckFieldFilled(Field(entry, "username"), UsernameMessage);
    CheckFieldFilled(Field(entry, "password"), PasswordMessage);
  }
}
