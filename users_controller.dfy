/** controllers/users.js: signup and login. Both validate the body, lower-case
    the email, and answer with an identity token signed by util/auth.js.

    The bcrypt salt (drawn at random by `bcrypt.hash`), the insertion time,
    the token secret and the clock are parameters. */
module UserHandlers {
  import opened Results
  import opened Text
  import opened Auth
  import opened CredentialRules
  import opened UserModel

  datatype SignupBody = SignupBody(name: Option<string>, email: Option<string>, password: Option<string>)
  datatype LoginBody = LoginBody(email: Option<string>, password: Option<string>)

  /** `{ message }`, or the session object
      `{ message, user: { name, email }, access_token }`. */
  datatype Body =
    | Message(text: string)
    | Session(message: string, name: string, email: string, accessToken: string)

  datatype Response = Response(status: int, body: Body)

  const SignupFieldsMessage := "Name, email, and password are required"
  const LoginFieldsMessage := "Email and password are required"
  const EmailFormatMessage := "Invalid email format"
  const PasswordFormatMessage := "Invalid password format"
  const UserExistsMessage := "User already exists"
  const BadCredentialsMessage := "Invalid email or password"

  /** The format checks signup and login share, in order: the email first,
      then the password. */
  function FormatError(email: string, password: string): (r: Option<string>)
    ensures r.None? <==> EmailPattern(email) && PasswordPattern(password)
    ensures r == Some(EmailFormatMessage) <==> !EmailPattern(email)
    ensures r == Some(PasswordFormatMessage) <==> EmailPattern(email) && !PasswordPattern(password)
  {
    EmailCheckMatchesPattern(email);
    PasswordCheckMatchesPattern(password);
    if !IsValidEmail(email) then Some(EmailFormatMessage)
    else if !IsValidPassword(password) then Some(PasswordFormatMessage)
    else None
  }

  /** signup: with all three fields present and well-formed, and no user
      holding the lower-cased email, insert the user under that email and
      answer 201 with a token for the new id. */
  method Signup(store: UserTable, body: SignupBody, salt: string, hasher: Hasher, dbTime: string,
                secret: string, now: int, signer: Signer) returns (resp: Response)
    requires store.Valid()
    modifies store
    ensures store.Valid()
    ensures !Truthy(body.name) || !Truthy(body.email) || !Truthy(body.password) ==>
              resp == Response(400, Message(SignupFieldsMessage)) && store.users == old(store.users)
    ensures Truthy(body.name) && Truthy(body.email) && Truthy(body.password) ==>
              var email, password := body.email.value, body.password.value;
              && (FormatError(email, password).Some? ==>
                    resp == Response(400, Message(FormatError(email, password).value))
                    && store.users == old(store.users))
              && (FormatError(email, password).None? && EmailTaken(old(store.users), ToLower(email)) ==>
                    resp == Response(409, Message(UserExistsMessage)) && store.users == old(store.users))
              && (FormatError(email, password).None? && !EmailTaken(old(store.users), ToLower(email)) ==>
                    var id := NextUserId(old(store.users));
                    && store.users == old(store.users)
                                      + [UserRow(id, body.name.value, ToLower(email), hasher.hash(password, salt), dbTime)]
                    && resp == Response(201, Session("User registered successfully", body.name.value, ToLower(email),
                                                     GenerateToken(id, ToLower(email), secret, now, signer))))
  {
    if !Truthy(body.name) || !Truthy(body.email) || !Truthy(body.password) {
      resp := Response(400, Message(SignupFieldsMessage));
      return;
    }
    var name, email, password := body.name.value, body.email.value, body.password.value;
    var invalid := FormatError(email, password);
    if invalid.Some? {
      resp := Response(400, Message(invalid.value));
      return;
    }
    var lowercaseEmail := ToLower(email);
    var existingUser := store.FindUserByEmail(lowercaseEmail);
    if existingUser.Some? {
      resp := Response(409, Message(UserExistsMessage));
      return;
    }
    var user := store.User(name, lowercaseEmail, password, salt, hasher, dbTime);
    match user
    case Ok(created) =>
      var token := GenerateToken(created.id, created.email, secret, now, signer);
      resp := Response(201, Session("User registered successfully", created.name, created.email, token));
  }

  /** login: with both fields present and well-formed, answer 200 with a
      token exactly when some user holds the lower-cased email and bcrypt
      accepts the password against that user's hash; 401 otherwise. */
  method Login(store: UserTable, body: LoginBody, hasher: Hasher, secret: string, now: int, signer: Signer)
    returns (resp: Response)
    requires store.Valid()
    ensures !Truthy(body.email) || !Truthy(body.password) ==> resp == Response(400, Message(LoginFieldsMessage))
    ensures Truthy(body.email) && Truthy(body.password) && FormatError(body.email.value, body.password.value).Some? ==>
              resp == Response(400, Message(FormatError(body.email.value, body.password.value).value))
    ensures Truthy(body.email) && Truthy(body.password) && FormatError(body.email.value, body.password.value).None? ==>
              var email, password := ToLower(body.email.value), body.password.value;
              && (resp.status == 200 <==>
                    exists u | u in store.users :: u.email == email && hasher.compare(password, u.password))
              && (resp.status == 200 ==>
                    exists u | u in store.users ::
                      && u.email == email
                      && resp == Response(200, Session("Login successful", u.name, u.email,
                                                       GenerateToken(u.id, u.email, secret, now, signer))))
              && (resp.status != 200 ==> resp == Response(401, Message(BadCredentialsMessage)))
  {
    if !Truthy(body.email) || !Truthy(body.password) {
      resp := Response(400, Message(LoginFieldsMessage));
      return;
    }
    var email, password := body.email.value, body.password.value;
    var invalid := FormatError(email, password);
    if invalid.Some? {
      resp := Response(400, Message(invalid.value));
      return;
    }
    var lowercaseEmail := ToLower(email);
    var user := store.AuthenticateUser(lowercaseEmail, password, hasher);
    match user
    case None =>
      resp := Response(401, Message(BadCredentialsMessage));
    case Some(found) =>
      var token := GenerateToken(found.id, found.email, secret, now, signer);
      resp := Response(200, Session("Login successful", found.name, found.email, token));
  }

  /** The model of email lower-casing keeps a valid address valid, so the
      stored email passes the same check the request did. */
  lemma StoredEmailIsValid(email: string)
    requires EmailPattern(email)
    ensures EmailPattern(ToLower(email))
  {
    EmailCheckMatchesPattern(email);
    LowerKeepsEmailValid(email);
    EmailCheckMatchesPattern(ToLower(email));
  }

  /** What is stored in the password column is never the password itself:
      a bcrypt hash begins with `$`, which no valid password contains. */
  lemma StoredHashIsNotThePassword(password: string, salt: string, hasher: Hasher)
    requires HasherSound(hasher)
    requires PasswordPattern(password)
    ensures hasher.hash(password, salt) != password
  {
    PasswordCheckMatchesPattern(password);
    ValidPasswordHasNoDollar(password);
    assert hasher.hash(password, salt)[0] == '$';
  }
}
