/** Sequences of requests as a client issues them, composed from the
    handlers' contracts: what the service answers the second time, and what
    the tables hold afterwards. */
module Scenarios {
  import opened Results
  import opened Text
  import opened Auth
  import opened EventModel
  import opened UserModel
  import CredentialRules
  import EH = EventHandlers
  import UH = UserHandlers

  /** Registering twice for one's own event is 201 then 409; unregistering
      twice is 204 then 404; afterwards the registrations are as before. */
  method RegistrationLifecycle(store: EventTable, user: Claims, id: int)
    returns (first: EH.Response, second: EH.Response, third: EH.Response, fourth: EH.Response)
    requires store.Valid()
    requires AnyMatch(store.events, user.userId, Id(id))
    requires Registration(id, user.userId) !in store.registrations
    modifies store
    ensures first == EH.Response(201, EH.Message("Event registered successfully"))
    ensures second == EH.Response(409, EH.Message(RegisterPrefix + AlreadyRegistered + "."))
    ensures third == EH.Response(204, EH.NoContent)
    ensures fourth == EH.Response(404, EH.Message(UnregisterPrefix + EventNotFound + "."))
    ensures store.events == old(store.events) && store.registrations == old(store.registrations)
  {
    first := EH.Register(store, user, id);
    second := EH.Register(store, user, id);
    third := EH.Unregister(store, user, id);
    WithoutAppendedPair(old(store.registrations), Registration(id, user.userId));
    fourth := EH.Unregister(store, user, id);
  }

  /** An event is visible to its owner and to no one else, by id. */
  method OwnerOnlyView(store: EventTable, owner: Claims, other: Claims, row: EventRow)
    returns (ownerView: EH.Response, otherView: EH.Response)
    requires store.Valid()
    requires row in store.events && row.createdBy == owner.userId
    requires other.userId != owner.userId
    ensures ownerView == EH.Response(200, EH.EventJson(row))
    ensures otherView == EH.Response(404, EH.Message(GetPrefix + EventNotFound + "."))
  {
    ownerView := EH.GetEvent(store, owner, row.id);
    assert Matches(row, owner.userId, Id(row.id));
    IncreasingUnique(store.events, row, ownerView.body.row);
    otherView := EH.GetEvent(store, other, row.id);
    if AnyMatch(store.events, other.userId, Id(row.id)) {
      var e :| e in store.events && Matches(e, other.userId, Id(row.id));
      IncreasingUnique(store.events, row, e);
    }
  }

  /** Someone else's event can be neither deleted nor registered for, and
      the tables stay as they were. */
  method ForeignEventUntouchable(store: EventTable, owner: Claims, other: Claims, row: EventRow,
                                 unlinkSucceeds: string -> bool)
    returns (deletion: EH.Response, registration: EH.Response)
    requires store.Valid()
    requires row in store.events && row.createdBy == owner.userId
    requires other.userId != owner.userId
    modifies store
    ensures deletion == EH.Response(404, EH.Message(GetPrefix + EventNotFound + "."))
    ensures registration == EH.Response(404, EH.Message(GetPrefix + EventNotFound + "."))
    ensures store.events == old(store.events) && store.registrations == old(store.registrations)
  {
    if AnyMatch(store.events, other.userId, Id(row.id)) {
      var e :| e in store.events && Matches(e, other.userId, Id(row.id));
      IncreasingUnique(store.events, row, e);
    }
    deletion := EH.DeleteEvent(store, other, row.id, unlinkSucceeds);
    registration := EH.Register(store, other, row.id);
  }

  /** After its owner deletes an event, no row carries its id, so fetching
      it again is 404. */
  method DeleteThenFetch(store: EventTable, user: Claims, id: int, unlinkSucceeds: string -> bool)
    returns (deletion: EH.Response, fetch: EH.Response)
    requires store.Valid()
    requires AnyMatch(store.events, user.userId, Id(id))
    modifies store
    ensures deletion.status == 204 || deletion.status == 500
    ensures forall e | e in store.events :: e.id != id
    ensures fetch == EH.Response(404, EH.Message(GetPrefix + EventNotFound + "."))
  {
    deletion := EH.DeleteEvent(store, user, id, unlinkSucceeds);
    fetch := EH.GetEvent(store, user, id);
  }

  /** Ids are max + 1, not AUTOINCREMENT, and deleting an event keeps its
      registrations: when the newest event is deleted and its id is the one
      the rows before it would give next, the next event created gets that
      id again and inherits the old event's registrations. */
  method StaleRegistrationsCarryOver(store: EventTable, user: Claims, form: EH.EventForm,
                                     dateParses: string -> bool, unlinkSucceeds: string -> bool,
                                     dbTime: string, isoTime: string)
    returns (deletion: EH.Response, creation: EH.Response)
    requires store.Valid()
    requires store.events != [] && store.events[|store.events| - 1].createdBy == user.userId
    requires NextEventId(store.events[..|store.events| - 1]) == store.events[|store.events| - 1].id
    requires EH.FormError(form, None, dateParses).None?
    requires !AnyMatch(store.events[..|store.events| - 1], user.userId, Title(form.title.value))
    modifies store
    ensures var old_id := old(store.events[|store.events| - 1].id);
            && creation.status == 201 && creation.body.CreatedJson?
            && creation.body.created.id == old_id
            && store.registrations == old(store.registrations)
            && (forall reg | reg in store.registrations && reg.eventId == old_id ::
                  exists e | e in store.events :: e.id == reg.eventId && e.title == form.title.value)
  {
    var last := store.events[|store.events| - 1];
    var before := store.events[..|store.events| - 1];
    assert store.events == before + [last];
    assert forall e | e in before :: e.id != last.id;
    WithoutLastRow(before, last);
    assert Matches(last, user.userId, Id(last.id));
    deletion := EH.DeleteEvent(store, user, last.id, unlinkSucceeds);
    assert store.events == before;
    creation := EH.Create(store, user, form, None, dateParses, dbTime, isoTime);
    assert store.events[|store.events| - 1].id == last.id;
  }

  /** Titles are unique per owner at creation: a second create with the same
      title is 409 for the same owner, and 201 for another owner. */
  method TitleUniquePerOwner(store: EventTable, alice: Claims, bob: Claims, form: EH.EventForm,
                             dateParses: string -> bool, dbTime: string, isoTime: string)
    returns (first: EH.Response, second: EH.Response, third: EH.Response)
    requires store.Valid()
    requires EH.FormError(form, None, dateParses).None?
    requires alice.userId != bob.userId
    requires !AnyMatch(store.events, alice.userId, Title(form.title.value))
    requires !AnyMatch(store.events, bob.userId, Title(form.title.value))
    modifies store
    ensures first.status == 201 && second.status == 409 && third.status == 201
    ensures |store.events| == |old(store.events)| + 2
  {
    first := EH.Create(store, alice, form, None, dateParses, dbTime, isoTime);
    assert Matches(store.events[|store.events| - 1], alice.userId, Title(form.title.value));
    second := EH.Create(store, alice, form, None, dateParses, dbTime, isoTime);
    third := EH.Create(store, bob, form, None, dateParses, dbTime, isoTime);
  }

  /** Email addresses are compared after lower-casing: a second signup whose
      address differs only in case is 409 and stores nothing. */
  method SignupTwice(store: UserTable, first: UH.SignupBody, second: UH.SignupBody,
                     salt: string, hasher: Hasher, dbTime: string, secret: string, now: int, signer: Signer)
    returns (r1: UH.Response, r2: UH.Response)
    requires store.Valid()
    requires Truthy(first.name) && Truthy(first.email) && Truthy(first.password)
    requires Truthy(second.name) && Truthy(second.email) && Truthy(second.password)
    requires UH.FormatError(first.email.value, first.password.value).None?
    requires UH.FormatError(second.email.value, second.password.value).None?
    requires ToLower(first.email.value) == ToLower(second.email.value)
    requires !EmailTaken(store.users, ToLower(first.email.value))
    modifies store
    ensures r1.status == 201
    ensures r2 == UH.Response(409, UH.Message(UH.UserExistsMessage))
    ensures |store.users| == |old(store.users)| + 1
  {
    r1 := UH.Signup(store, first, salt, hasher, dbTime, secret, now, signer);
    assert store.users[|store.users| - 1].email == ToLower(first.email.value);
    r2 := UH.Signup(store, second, salt, hasher, dbTime, secret, now, signer);
  }

  /** With unique emails, the row made from `password` is the only one for
      its email: `password` matches it and no other password within bcrypt's
      72 bytes and free of U+0000 does. */
  lemma OnlyThePasswordMatches(users: seq<UserRow>, row: UserRow, password: string, wrong: string,
                               salt: string, hasher: Hasher)
    requires UniqueEmails(users) && HasherSound(hasher)
    requires row in users && row.password == hasher.hash(password, salt)
    requires wrong != password
    requires Utf8Length(password) <= BcryptMaxBytes && Utf8Length(wrong) <= BcryptMaxBytes
    requires '\0' !in password && '\0' !in wrong
    ensures exists u | u in users :: u.email == row.email && hasher.compare(password, u.password)
    ensures !exists u | u in users :: u.email == row.email && hasher.compare(wrong, u.password)
    ensures forall u | u in users && u.email == row.email :: u == row
  {
    OnlyRowWithEmail(users, row);
  }

  /** A token issued at `issuedAt`, sent as a Bearer token, passes the
      gate at every second of the following hour. */
  lemma PassesGateForAnHour(userId: int, email: string, secret: string, issuedAt: int, signer: Signer)
    requires SignerSound(signer)
    ensures forall t | issuedAt <= t < issuedAt + ExpiresIn ::
              Decide(Some("Bearer " + GenerateToken(userId, email, secret, issuedAt, signer)), secret, t, signer)
              == Authorized(Claims(userId, email, issuedAt, issuedAt + ExpiresIn))
  {
    forall t | issuedAt <= t < issuedAt + ExpiresIn
      ensures Decide(Some("Bearer " + GenerateToken(userId, email, secret, issuedAt, signer)), secret, t, signer)
              == Authorized(Claims(userId, email, issuedAt, issuedAt + ExpiresIn))
    {
      var token := GenerateToken(userId, email, secret, issuedAt, signer);
      assert "Bearer " + token == "Bearer" + " " + token;
      GateAcceptsIssuedToken("Bearer", userId, email, secret, issuedAt, t, signer);
    }
  }

  /** After a signup, logging in with the same password succeeds, in any
      letter case of the address, and the token it returns passes the gate
      for the hour after login; any other password within bcrypt's 72 bytes
      is 401. */
  method SignupThenLogin(store: UserTable, name: string, email: string, loginEmail: string,
                         password: string, wrong: string, salt: string, hasher: Hasher, dbTime: string,
                         secret: string, signupTime: int, loginTime: int, signer: Signer)
    returns (signup: UH.Response, login: UH.Response, refused: UH.Response)
    requires store.Valid()
    requires HasherSound(hasher) && SignerSound(signer)
    requires name != "" && email != "" && password != "" && wrong != "" && loginEmail != ""
    requires UH.FormatError(email, password).None? && UH.FormatError(loginEmail, wrong).None?
    requires ToLower(loginEmail) == ToLower(email) && wrong != password
    requires Utf8Length(password) <= BcryptMaxBytes && Utf8Length(wrong) <= BcryptMaxBytes
    requires !EmailTaken(store.users, ToLower(email))
    modifies store
    ensures signup.status == 201 && login.status == 200 && login.body.Session?
    ensures var id := NextUserId(old(store.users));
            forall t | loginTime <= t < loginTime + ExpiresIn ::
              Decide(Some("Bearer " + login.body.accessToken), secret, t, signer)
              == Authorized(Claims(id, ToLower(email), loginTime, loginTime + ExpiresIn))
    ensures refused == UH.Response(401, UH.Message(UH.BadCredentialsMessage))
  {
    var id := NextUserId(store.users);
    var row := UserRow(id, name, ToLower(email), hasher.hash(password, salt), dbTime);
    signup := UH.Signup(store, UH.SignupBody(Some(name), Some(email), Some(password)),
                        salt, hasher, dbTime, secret, signupTime, signer);
    assert store.users == old(store.users) + [row];
    assert row in store.users;
    CredentialRules.PatternPasswordHasNoNul(password);
    CredentialRules.PatternPasswordHasNoNul(wrong);
    OnlyThePasswordMatches(store.users, row, password, wrong, salt, hasher);
    login := UH.Login(store, UH.LoginBody(Some(loginEmail), Some(password)), hasher, secret, loginTime, signer);
    ghost var u :| u in store.users && u.email == ToLower(email)
      && login == UH.Response(200, UH.Session("Login successful", u.name, u.email,
                                              GenerateToken(u.id, u.email, secret, loginTime, signer)));
    assert u == row;
    PassesGateForAnHour(id, ToLower(email), secret, loginTime, signer);
    refused := UH.Login(store, UH.LoginBody(Some(loginEmail), Some(wrong)), hasher, secret, loginTime, signer);
  }
}
