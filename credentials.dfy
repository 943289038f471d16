/** `get_credentials`: the typed username and password, with defaults for empty input. */
module Credentials {
  import opened Wrappers
  import opened Text

  const DefaultUsername := "root"
  const DefaultPassword := "Password@_"

  lemma DefaultUsernameIsTrimmed()
    ensures Trim(DefaultUsername) == DefaultUsername
  {
    assert !IsWhitespace(DefaultUsername[0]) && !IsWhitespace(DefaultUsername[|DefaultUsername| - 1]);
    TrimOfTrimmed(DefaultUsername);
  }

  /**
   * `usernameBuffer` is what the username read left in its buffer (empty when the
   * read failed); `password` is what `read_password` returned, `None` on failure.
   * The username is trimmed and defaults to "root" when blank; the password is
   * taken as it is and defaults to "Password@_" only when empty.
   */
  function GetCredentials(usernameBuffer: string, password: Option<string>): (r: (string, string))
    ensures r.0 != [] && r.1 != []
    ensures Trim(r.0) == r.0
    ensures Trim(usernameBuffer) != [] ==> r.0 == Trim(usernameBuffer)
    ensures Trim(usernameBuffer) == [] ==> r.0 == DefaultUsername
    ensures password.Some? && password.value != [] ==> r.1 == password.value
    ensures password.None? || password.value == [] ==> r.1 == DefaultPassword
  {
    var username := Trim(usernameBuffer);
    var finalUsername := if username == [] then DefaultUsername else username;
    var pass := password.GetOr("");
    var finalPassword := if pass == [] then DefaultPassword else pass;
    TrimIdempotent(usernameBuffer);
    DefaultUsernameIsTrimmed();
    (finalUsername, finalPassword)
  }
}
