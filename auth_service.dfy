/** Accounts, after `backend/services/auth_service.py`: registration, login and the profile.
    Password hashing is salted and random, so a hash is passed in already computed, and checking
    a password against a hash is a function parameter. A login token is represented by the id of
    the user it is issued for. */
module AuthService {
  import opened Wrappers
  import opened JsonValues
  import opened Models
  import opened Database
  import opened PyText
  import Validation

  /** `User.to_dict()`: the hash is never shown. */
  datatype UserDict = UserDict(id: nat, name: string, email: string)

  function UserToDict(u: User): (d: UserDict)
    ensures d.id == u.id && d.name == u.name && d.email == u.email
  {
    UserDict(u.id, u.name, u.email)
  }

  /** `{'token': create_token(user.id), 'user': user.to_dict()}`. */
  datatype Session = Session(tokenUserId: nat, user: UserDict)

  /** The stored form of an email: `email.strip().lower()`. */
  function NormalizeEmail(e: string): (r: string)
    ensures |r| <= |e|
  {
    Lower(Strip(e))
  }

  lemma LowerCharSpace(c: char)
    ensures IsSpace(LowerChar(c)) <==> IsSpace(c)
    ensures LowerChar(LowerChar(c)) == LowerChar(c)
  {
  }

  lemma LowerKeepsStripped(t: string)
    requires t == [] || (!IsSpace(t[0]) && !IsSpace(t[|t| - 1]))
    ensures Strip(Lower(t)) == Lower(t)
  {
    var l := Lower(t);
    if l != [] {
      LowerCharSpace(t[0]);
      LowerCharSpace(t[|t| - 1]);
      assert l[0] == LowerChar(t[0]) && l[|l| - 1] == LowerChar(t[|t| - 1]);
    }
    StrippedAsIs(l);
  }

  lemma LowerIdempotent(t: string)
    ensures Lower(Lower(t)) == Lower(t)
  {
    var l := Lower(t);
    forall i | 0 <= i < |l| ensures Lower(l)[i] == l[i] {
      LowerCharSpace(t[i]);
    }
  }

  /** Normalising a stored email again changes nothing. */
  lemma NormalizeEmailIdempotent(e: string)
    ensures NormalizeEmail(NormalizeEmail(e)) == NormalizeEmail(e)
  {
    var t := Strip(e);
    StripIdempotent(e);
    LowerKeepsStripped(t);
    LowerIdempotent(t);
  }

  const NameTooShort := "Имя должно содержать минимум 2 символа"
  const NameTooLong := "Имя слишком длинное (максимум 100 символов)"
  const EmailTaken := "Email already registered"

  /** The name checks of registration and of a profile update. */
  function NameError(name: string): (err: Option<string>)
    ensures err.None? <==> |Strip(name)| >= 2 && |name| <= 100
  {
    if |name| == 0 || |Strip(name)| < 2 then Some(NameTooShort)
    else if |name| > 100 then Some(NameTooLong)
    else None
  }

  /** Why `register_user` refuses, in the order it checks; `None` when it succeeds. The email is
      looked up as given; the normalised email colliding with a stored one makes the commit fail
      with the same message. */
  function RegisterError(s: DbState, name: string, email: Json, password: Json): (err: Option<string>)
    requires KeysValid(s)
    ensures err.None? <==>
              && Validation.ValidateEmail(email).None? && Validation.ValidatePassword(password).None?
              && NameError(name).None?
              && (forall k :: k in s.users ==> s.users[k].email != email.s && s.users[k].email != NormalizeEmail(email.s))
    ensures Validation.ValidateEmail(email).Some? ==> err == Validation.ValidateEmail(email)
    ensures err.None? ==> email.JStr? && UserByEmail(s, NormalizeEmail(email.s)).None?
    ensures err.None? ==> forall k :: k in s.users ==> s.users[k].email != email.s && s.users[k].email != NormalizeEmail(email.s)
  {
    var emailErr := Validation.ValidateEmail(email);
    var passwordErr := Validation.ValidatePassword(password);
    if emailErr.Some? then emailErr
    else if passwordErr.Some? then passwordErr
    else if NameError(name).Some? then NameError(name)
    else if UserByEmail(s, email.s).Some? then Some(EmailTaken)
    else if UserByEmail(s, NormalizeEmail(email.s)).Some? then Some(EmailTaken)
    else None
  }

  /** The store after a successful registration. */
  function Registered(s: DbState, name: string, email: string, passwordHash: string): (r: DbState)
    requires KeysValid(s)
    ensures KeysValid(r)
    ensures s.nextUserId in r.users && r.nextUserId == s.nextUserId + 1
    ensures r.users[s.nextUserId] == User(s.nextUserId, Strip(name), NormalizeEmail(email), passwordHash)
    ensures r.(users := s.users, nextUserId := s.nextUserId) == s
  {
    var id := s.nextUserId;
    var u := User(id, Strip(name), NormalizeEmail(email), passwordHash);
    var r := s.(users := s.users[id := u], nextUserId := id + 1);
    UserKeys(s, r, u);
    r
  }

  /** `register_user`; `passwordHash` is `hash_password(password)`. */
  method RegisterUser(db: Store, name: string, email: Json, password: Json, passwordHash: string)
    returns (r: Result<Session, string>)
    requires db.Valid()
    modifies db
    ensures db.Valid()
    ensures RegisterError(old(db.State()), name, email, password).Some? ==>
              r == Err(RegisterError(old(db.State()), name, email, password).value) && db.State() == old(db.State())
    ensures RegisterError(old(db.State()), name, email, password).None? ==>
              var id := old(db.nextUserId);
              && db.State() == Registered(old(db.State()), name, email.s, passwordHash)
              && r == Ok(Session(id, UserDict(id, Strip(name), NormalizeEmail(email.s))))
  {
    var s := db.State();
    var err := RegisterError(s, name, email, password);
    if err.Some? {
      return Err(err.value);
    }
    var id := db.AddUser(Strip(name), NormalizeEmail(email.s), passwordHash);
    assert db.State() == Registered(s, name, email.s, passwordHash);
    r := Ok(Session(id, UserToDict(db.users[id])));
  }

  const BadCredentials := "Invalid email or password"

  /** `login_user` as written: the email is looked up exactly as given. */
  function LoginUser(s: DbState, verify: (string, string) -> bool, email: string, password: string)
    : (r: Result<Session, string>)
    requires KeysValid(s)
    ensures r.Ok? <==> UserByEmail(s, email).Some? && verify(password, s.users[UserByEmail(s, email).value].passwordHash)
    ensures r.Err? ==> r.error == BadCredentials
    ensures r.Ok? ==> r.value.user.email == email && r.value.tokenUserId == r.value.user.id
  {
    match UserByEmail(s, email)
    case None => Err(BadCredentials)
    case Some(id) =>
      if !verify(password, s.users[id].passwordHash) then Err(BadCredentials)
      else Ok(Session(id, UserToDict(s.users[id])))
  }

  /** `login_user` corrected: the email is normalised as registration stores it. */
  function LoginUserFixed(s: DbState, verify: (string, string) -> bool, email: string, password: string)
    : (r: Result<Session, string>)
    requires KeysValid(s)
    ensures r == LoginUser(s, verify, NormalizeEmail(email), password)
  {
    LoginUser(s, verify, NormalizeEmail(email), password)
  }

  lemma UserByEmailUnique(s: DbState, id: nat)
    requires KeysValid(s) && UniqueValid(s) && id in s.users
    ensures UserByEmail(s, s.users[id].email) == Some(id)
  {
  }

  lemma RegisteredValid(s: DbState, name: string, email: string, passwordHash: string)
    requires KeysValid(s) && UniqueValid(s)
    requires forall k :: k in s.users ==> s.users[k].email != NormalizeEmail(email)
    ensures KeysValid(Registered(s, name, email, passwordHash))
    ensures UniqueValid(Registered(s, name, email, passwordHash))
  {
    var id := s.nextUserId;
    var u := User(id, Strip(name), NormalizeEmail(email), passwordHash);
    UserUnique(s, Registered(s, name, email, passwordHash), u);
  }

  /** Corrected login: whoever registered can log in with the same password and any spelling of
      the email that normalises alike (the one typed at registration included). */
  lemma RegisterThenLogin(s: DbState, verify: (string, string) -> bool, name: string, email: Json,
                          password: Json, passwordHash: string, loginEmail: string)
    requires KeysValid(s) && UniqueValid(s) && RegisterError(s, name, email, password).None?
    requires verify(password.s, passwordHash)
    requires NormalizeEmail(loginEmail) == NormalizeEmail(email.s)
    ensures var id := s.nextUserId;
            LoginUserFixed(Registered(s, name, email.s, passwordHash), verify, loginEmail, password.s)
              == Ok(Session(id, UserDict(id, Strip(name), NormalizeEmail(email.s))))
  {
    var r := Registered(s, name, email.s, passwordHash);
    var u := r.users[s.nextUserId];
    RegisteredValid(s, name, email.s, passwordHash);
    UserByEmailUnique(r, s.nextUserId);
    assert u.email == NormalizeEmail(loginEmail);
    assert LoginUser(r, verify, u.email, password.s) == Ok(Session(u.id, UserToDict(u)));
  }

  lemma UnknownEmailCannotLogIn(s: DbState, verify: (string, string) -> bool, email: string, password: string)
    requires KeysValid(s)
    requires forall k :: k in s.users ==> s.users[k].email != email
    ensures LoginUser(s, verify, email, password) == Err(BadCredentials)
  {
  }

  /** As written: an email that normalisation changes (capitals, surrounding spaces) registers,
      but the same email then never logs in. */
  lemma RegisteredCannotLogIn(s: DbState, verify: (string, string) -> bool, name: string, email: Json,
                              password: Json, passwordHash: string)
    requires KeysValid(s) && RegisterError(s, name, email, password).None?
    requires NormalizeEmail(email.s) != email.s
    ensures LoginUser(Registered(s, name, email.s, passwordHash), verify, email.s, password.s) == Err(BadCredentials)
  {
    var r := Registered(s, name, email.s, passwordHash);
    forall k | k in r.users ensures r.users[k].email != email.s {
      if k != s.nextUserId {
        assert r.users[k] == s.users[k];
      }
    }
    UnknownEmailCannotLogIn(r, verify, email.s, password.s);
  }

  lemma NameAccepted(name: string)
    requires 2 <= |name| <= 100 && !IsSpace(name[0]) && !IsSpace(name[|name| - 1])
    ensures NameError(name).None?
  {
    StrippedAsIs(name);
  }

  lemma ExampleNameValid(name: string)
    requires name == "Bob"
    ensures NameError(name).None?
  {
    assert |name| == 3 && name[0] == 'B' && name[2] == 'b';
    NameAccepted(name);
  }

  lemma ExamplePasswordValid(password: string)
    requires password == "Passw0rd"
    ensures Validation.ValidatePassword(JStr(password)).None?
  {
    assert IsDigit(password[5]) && 'A' <= password[0] <= 'Z' && 'a' <= password[1] <= 'z';
  }

  /** An email starting with a capital letter is changed by normalisation. */
  lemma CapitalChanges(t: string)
    requires |t| > 0 && 'A' <= t[0] <= 'Z'
    ensures NormalizeEmail(t) != t
  {
    StripKeepsFirst(t);
    assert NormalizeEmail(t)[0] == LowerChar(t[0]);
  }

  lemma RegisterAccepts(s: DbState, name: string, email: Json, password: Json)
    requires KeysValid(s)
    requires Validation.ValidateEmail(email).None? && Validation.ValidatePassword(password).None?
    requires NameError(name).None?
    requires forall k :: k in s.users ==> s.users[k].email != email.s && s.users[k].email != NormalizeEmail(email.s)
    ensures RegisterError(s, name, email, password) == None
  {
  }

  /** "Bob@x.com" passes every registration check on a store without users, and normalises to a
      different string, so its owner cannot log in with it. */
  lemma CapitalisedEmailExample(s: DbState, name: string, email: string, password: string)
    requires KeysValid(s) && s.users == map[]
    requires name == "Bob" && email == "Bob@x.com" && password == "Passw0rd"
    ensures RegisterError(s, name, JStr(email), JStr(password)) == None
    ensures NormalizeEmail(email) != email
  {
    Validation.ExampleEmailAccepted(email);
    ExampleNameValid(name);
    ExamplePasswordValid(password);
    CapitalChanges(email);
    RegisterAccepts(s, name, JStr(email), JStr(password));
  }

  /** `get_user_profile`. */
  function GetUserProfile(s: DbState, userId: nat): (r: Result<UserDict, string>)
    ensures r.Ok? <==> userId in s.users
    ensures r.Ok? ==> r.value == UserToDict(s.users[userId])
    ensures r.Err? ==> r.error == "User not found"
  {
    if userId !in s.users then Err("User not found") else Ok(UserToDict(s.users[userId]))
  }

  /** The keys of `data` that `update_user_profile` reads, each absent or given. */
  datatype ProfilePatch = ProfilePatch(name: Option<string>, email: Option<Json>, password: Option<Json>)

  const EmailInUse := "Email already in use"

  /** Why `update_user_profile` refuses, in the order it checks; any refusal rolls back every
      field. The new email is looked up as given; colliding once normalised fails the commit. */
  function ProfileError(s: DbState, userId: nat, p: ProfilePatch): (err: Option<string>)
    requires KeysValid(s)
    ensures userId !in s.users ==> err == Some("User not found")
    ensures err.None? <==>
              && userId in s.users
              && (p.name.Some? ==> NameError(p.name.value).None?)
              && (p.email.Some? ==>
                    && Validation.ValidateEmail(p.email.value).None?
                    && (UserByEmail(s, p.email.value.s).Some? ==> UserByEmail(s, p.email.value.s) == Some(userId))
                    && (forall k :: k in s.users && k != userId ==> s.users[k].email != NormalizeEmail(p.email.value.s)))
              && (p.password.Some? ==> Validation.ValidatePassword(p.password.value).None?)
    ensures err.None? && p.email.Some? ==>
              && p.email.value.JStr?
              && forall k :: k in s.users && k != userId ==> s.users[k].email != NormalizeEmail(p.email.value.s)
  {
    if userId !in s.users then Some("User not found")
    else if p.name.Some? && NameError(p.name.value).Some? then NameError(p.name.value)
    else if p.email.Some? && Validation.ValidateEmail(p.email.value).Some? then Validation.ValidateEmail(p.email.value)
    else if p.email.Some? && UserByEmail(s, p.email.value.s).Some? && UserByEmail(s, p.email.value.s) != Some(userId) then
      Some(EmailInUse)
    else if p.password.Some? && Validation.ValidatePassword(p.password.value).Some? then
      Validation.ValidatePassword(p.password.value)
    else if p.email.Some? && exists k :: k in s.users && k != userId && s.users[k].email == NormalizeEmail(p.email.value.s) then
      Some(EmailInUse)
    else None
  }

  /** The user row after a successful update; `passwordHash` is `hash_password` of the new password. */
  function Profiled(u: User, p: ProfilePatch, passwordHash: string): (r: User)
    requires p.email.Some? ==> p.email.value.JStr?
    ensures r.id == u.id
    ensures r.name == (if p.name.Some? then Strip(p.name.value) else u.name)
    ensures r.email == (if p.email.Some? then NormalizeEmail(p.email.value.s) else u.email)
    ensures r.passwordHash == (if p.password.Some? then passwordHash else u.passwordHash)
  {
    u.(name := if p.name.Some? then Strip(p.name.value) else u.name,
       email := if p.email.Some? then NormalizeEmail(p.email.value.s) else u.email,
       passwordHash := if p.password.Some? then passwordHash else u.passwordHash)
  }

  /** `update_user_profile`: all given fields change together, or none does. */
  method UpdateUserProfile(db: Store, userId: nat, p: ProfilePatch, passwordHash: string)
    returns (r: Result<UserDict, string>)
    requires db.Valid()
    modifies db
    ensures db.Valid()
    ensures ProfileError(old(db.State()), userId, p).Some? ==>
              r == Err(ProfileError(old(db.State()), userId, p).value) && db.State() == old(db.State())
    ensures ProfileError(old(db.State()), userId, p).None? ==>
              && db.State() == ProfileUpdated(old(db.State()), userId, p, passwordHash)
              && r == Ok(UserToDict(db.users[userId]))
  {
    var err := ProfileError(db.State(), userId, p);
    if err.Some? {
      return Err(err.value);
    }
    var u := Profiled(db.users[userId], p, passwordHash);
    db.PutUser(userId, u);
    r := Ok(UserToDict(u));
  }

  lemma ProfiledValid(s: DbState, userId: nat, u: User)
    requires KeysValid(s) && UniqueValid(s) && userId in s.users && u.id == userId
    requires forall k :: k in s.users && k != userId ==> s.users[k].email != u.email
    ensures KeysValid(s.(users := s.users[userId := u]))
    ensures UniqueValid(s.(users := s.users[userId := u]))
  {
    UserKeys(s, s.(users := s.users[userId := u]), u);
    UserUnique(s, s.(users := s.users[userId := u]), u);
  }

  lemma LoginAfterUpdate(s: DbState, verify: (string, string) -> bool, userId: nat, u: User,
                         email: string, password: string)
    requires KeysValid(s) && UniqueValid(s) && userId in s.users && u.id == userId
    requires forall k :: k in s.users && k != userId ==> s.users[k].email != u.email
    requires NormalizeEmail(email) == u.email && verify(password, u.passwordHash)
    ensures LoginUserFixed(s.(users := s.users[userId := u]), verify, email, password) == Ok(Session(userId, UserToDict(u)))
  {
    ProfiledValid(s, userId, u);
    UserByEmailUnique(s.(users := s.users[userId := u]), userId);
  }

  /** The store after a successful profile update. */
  function ProfileUpdated(s: DbState, userId: nat, p: ProfilePatch, passwordHash: string): (r: DbState)
    requires KeysValid(s) && userId in s.users && (p.email.Some? ==> p.email.value.JStr?)
    ensures KeysValid(r) && r.users.Keys == s.users.Keys
    ensures r.users[userId] == Profiled(s.users[userId], p, passwordHash)
    // no other row and no other table changes
    ensures forall k :: k in s.users && k != userId ==> r.users[k] == s.users[k]
    ensures r.(users := s.users) == s
  {
    s.(users := s.users[userId := Profiled(s.users[userId], p, passwordHash)])
  }

  /** An update that passes the checks keeps emails unique. */
  lemma ProfileUpdatedUnique(s: DbState, userId: nat, p: ProfilePatch, passwordHash: string)
    requires KeysValid(s) && UniqueValid(s) && ProfileError(s, userId, p).None?
    ensures UniqueValid(ProfileUpdated(s, userId, p, passwordHash))
  {
    ProfiledValid(s, userId, Profiled(s.users[userId], p, passwordHash));
  }

  /** Corrected login after a profile update: the new email and the new password log in. */
  lemma UpdateThenLogin(s: DbState, verify: (string, string) -> bool, userId: nat, email: Json,
                        password: Json, passwordHash: string)
    requires KeysValid(s) && UniqueValid(s)
    requires ProfileError(s, userId, ProfilePatch(None, Some(email), Some(password))).None?
    requires verify(password.s, passwordHash)
    ensures var r := ProfileUpdated(s, userId, ProfilePatch(None, Some(email), Some(password)), passwordHash);
            LoginUserFixed(r, verify, email.s, password.s) == Ok(Session(userId, UserToDict(r.users[userId])))
  {
    var u := Profiled(s.users[userId], ProfilePatch(None, Some(email), Some(password)), passwordHash);
    LoginAfterUpdate(s, verify, userId, u, email.s, password.s);
  }
}
