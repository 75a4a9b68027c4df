/**
 * The registration validator: four ordered guards over the submitted
 * username, email and password. The first guard that fails decides the
 * answer, which is a list holding exactly one field error; `null` (here
 * `None`) means the input is acceptable.
 */
module Validation {
  import opened Wrappers

  /** One `{field, message}` pair, as the resolvers report validation failures. */
  datatype FieldError = FieldError(field: string, message: string)

  /** The `options` argument of `register`. */
  datatype UsernamePasswordInput = UsernamePasswordInput(username: string, email: string, password: string)

  const EmailInvalid := FieldError("email", "email is invalid")
  const UsernameTooShort := FieldError("username", "username cannot be empty or less than 2 characters long")
  const UsernameHasAt := FieldError("username", "username cannot contain an @ symbol")
  const PasswordTooShort := FieldError("password", "password cannot be empty or less than 3 characters long")

  /** The registration policy stated as one rule: what an accepted input looks like. */
  predicate Acceptable(options: UsernamePasswordInput)
  {
    && '@' in options.email
    && |options.username| > 2
    && '@' !in options.username
    && |options.password| > 3
  }

  /**
   * `validateRegister`. The checks run in the order email, username length,
   * username `@`, password length, so an earlier failure masks every later one.
   */
  function ValidateRegister(options: UsernamePasswordInput): (r: Option<seq<FieldError>>)
    ensures r.None? <==> Acceptable(options)
    ensures r.Some? ==> |r.value| == 1
    // an email without '@' is reported whatever the username and password are
    ensures '@' !in options.email ==> r == Some([EmailInvalid])
    // a username of length 2 or less is refused (length 2 included)
    ensures '@' in options.email && |options.username| <= 2 ==> r == Some([UsernameTooShort])
    ensures '@' in options.email && |options.username| > 2 && '@' in options.username
      ==> r == Some([UsernameHasAt])
    // the password is looked at only once email and username have passed
    ensures r.Some? && r.value[0].field == "password"
      <==> '@' in options.email && |options.username| > 2 && '@' !in options.username && |options.password| <= 3
    ensures r.Some? && r.value[0].field == "password" ==> r == Some([PasswordTooShort])
  {
    if '@' !in options.email then Some([EmailInvalid])
    else if |options.username| <= 2 then Some([UsernameTooShort])
    else if '@' in options.username then Some([UsernameHasAt])
    else if |options.password| <= 3 then Some([PasswordTooShort])
    else None
  }

  /** A two-character username is refused, although the message speaks of "less than 2". */
  lemma TwoCharacterUsernameRefused()
    ensures ValidateRegister(UsernamePasswordInput("ab", "ab@example.org", "secret1")) == Some([UsernameTooShort])
  {
  }
}
