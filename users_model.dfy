/** models/User.js: the users table, the insertion that stores a password
    hash, and the two read-only lookups.

    bcrypt is foreign code. It is represented by a `Hasher`: `hash(password,
    salt)` with the random salt that `bcrypt.hash` draws passed in, and
    `compare(password, hash)`. What the model assumes of it is the predicate
    `HasherSound`: a hash matches the password it was made from, no other
    password of at most 72 UTF-8 bytes matches it (bcrypt reads only the
    first 72 bytes), none of them holding U+0000 (bcryptjs ends the key with
    a NUL and reads it cyclically, so "ab" and "ab\0ab" collide), and, in bcrypt's format, it begins with `$`. */
module UserModel {
  import opened Results
  import opened RowIds

  /** A row of the users table; `password` holds the stored hash. */
  datatype UserRow = UserRow(id: int, name: string, email: string, password: string, createdAt: string)

  /** What User() returns: `{ id, ...userData, password: undefined }`. */
  datatype NewUser = NewUser(id: int, name: string, email: string)

  /** What FindUserByEmail selects: `id, name, email, created_at`. */
  datatype FoundUser = FoundUser(id: int, name: string, email: string, createdAt: string)

  datatype Hasher = Hasher(hash: (string, string) -> string, compare: (string, string) -> bool)

  /** bcrypt hashes only the first 72 bytes of the UTF-8 encoding. */
  const BcryptMaxBytes := 72

  /** The length of the UTF-8 encoding of `s`. */
  function Utf8Length(s: string): nat {
    if s == [] then 0
    else
      (if s[0] as int < 0x80 then 1 else if s[0] as int < 0x800 then 2
       else if s[0] as int < 0x1_0000 then 3 else 4)
      + Utf8Length(s[1..])
  }

  ghost predicate HasherSound(h: Hasher) {
    && (forall p, salt :: h.compare(p, h.hash(p, salt)))
    && (forall p, q, salt | Utf8Length(p) <= BcryptMaxBytes && Utf8Length(q) <= BcryptMaxBytes
                            && '\0' !in p && '\0' !in q ::
          h.compare(q, h.hash(p, salt)) ==> q == p)
    && (forall p, salt :: |h.hash(p, salt)| > 0 && h.hash(p, salt)[0] == '$')
  }

  /** The message the UNIQUE constraint on `users.email` produces, wrapped. */
  const DuplicateEmailMessage := "Failed to create user: UNIQUE constraint failed: users.email"

  /** The key of a user row. */
  function UserId(u: UserRow): int { u.id }

  ghost predicate Increasing(users: seq<UserRow>) {
    Ascending(users, UserId)
  }

  ghost predicate UniqueEmails(users: seq<UserRow>) {
    forall i, j | 0 <= i < j < |users| :: users[i].email != users[j].email
  }

  predicate EmailTaken(users: seq<UserRow>, email: string) {
    exists u | u in users :: u.email == email
  }

  /** The id SQLite gives the next inserted user: above every id in the table. */
  function NextUserId(users: seq<UserRow>): (id: int)
    ensures id >= 1
    ensures forall u | u in users :: u.id < id
  {
    NextIdOf(users, UserId)
  }

  /** `stmt.get(email)` on `WHERE email = ?`: the first row with that email. */
  function RowByEmail(users: seq<UserRow>, email: string): (r: Option<UserRow>)
    ensures r.None? <==> !EmailTaken(users, email)
    ensures r.Some? ==> r.value in users && r.value.email == email
  {
    if users == [] then None
    else if users[0].email == email then Some(users[0])
    else
      assert EmailTaken(users, email) <==> EmailTaken(users[1..], email) by {
        assert users == [users[0]] + users[1..];
      }
      RowByEmail(users[1..], email)
  }

  /** With unique emails, an email names at most one row. */
  lemma UniqueEmailRow(users: seq<UserRow>, a: UserRow, b: UserRow)
    requires UniqueEmails(users)
    requires a in users && b in users && a.email == b.email
    ensures a == b
  {
  }

  lemma OnlyRowWithEmail(users: seq<UserRow>, u: UserRow)
    requires u in users
    ensures UniqueEmails(users) ==> forall v | v in users && v.email == u.email :: v == u
  {
    if UniqueEmails(users) {
      forall v | v in users && v.email == u.email ensures v == u {
        UniqueEmailRow(users, u, v);
      }
    }
  }

  function Public(u: UserRow): FoundUser {
    FoundUser(u.id, u.name, u.email, u.createdAt)
  }

  class UserTable {
    var users: seq<UserRow>

    ghost predicate Valid()
      reads this
    {
      Increasing(users) && UniqueEmails(users)
    }

    constructor ()
      ensures Valid() && users == []
    {
      users := [];
    }

    /** User(userData): hash the password and insert the user; the UNIQUE
        constraint on the email rejects an address already present. The
        returned object has no password. */
    method User(name: string, email: string, password: string, salt: string, hasher: Hasher, dbTime: string)
      returns (r: Result<NewUser>)
      requires Valid()
      modifies this
      ensures Valid()
      ensures EmailTaken(old(users), email) ==> r == Err(DuplicateEmailMessage) && users == old(users)
      ensures !EmailTaken(old(users), email) ==>
                var id := NextUserId(old(users));
                && r == Ok(NewUser(id, name, email))
                && users == old(users) + [UserRow(id, name, email, hasher.hash(password, salt), dbTime)]
    {
      var hashedPassword := hasher.hash(password, salt);
      if EmailTaken(users, email) {
        r := Err(DuplicateEmailMessage);
        return;
      }
      var id := NextUserId(users);
      users := users + [UserRow(id, name, email, hashedPassword, dbTime)];
      r := Ok(NewUser(id, name, email));
    }

    /** FindUserByEmail(email): the user with that email, without the
        password hash, or nothing. */
    function FindUserByEmail(email: string): (r: Option<FoundUser>)
      reads this
      ensures r.None? <==> !EmailTaken(users, email)
      ensures r.Some? ==> exists u | u in users :: u.email == email && r.value == Public(u)
    {
      match RowByEmail(users, email)
      case None => None
      case Some(u) => Some(Public(u))
    }

    /** AuthenticateUser(email, password): the user, when a row with that
        email exists and bcrypt accepts the password against its stored
        hash; nothing otherwise. */
    function AuthenticateUser(email: string, password: string, hasher: Hasher): (r: Option<FoundUser>)
      reads this
      ensures !EmailTaken(users, email) ==> r.None?
      ensures Valid() ==>
                (r.Some? <==> exists u | u in users :: u.email == email && hasher.compare(password, u.password))
      ensures r.Some? ==> r == FindUserByEmail(email)
    {
      match RowByEmail(users, email)
      case None => None
      case Some(u) =>
        OnlyRowWithEmail(users, u);
        var isValid := hasher.compare(password, u.password);
        if isValid then FindUserByEmail(email) else None
    }
  }
}
