/** The auth routes: a user table with unique emails, registration, login, and the
    profile of the authenticated user. Password hashing and token signing are library
    primitives and enter the model as functions with the two properties the routes rely on. */
module Auth {
  import opened Http
  import opened Validation


  /** A stored user document; `passwordHash` is its `password` field. */
  datatype User = User(name: string, email: string, passwordHash: string)

  /** The user as the routes return it: never any password material. */
  datatype PublicUser = PublicUser(id: UserId, name: string, email: string)

  /** The claims a token carries. */
  datatype Claims = Claims(id: UserId, email: string)

  /** The reply of register and login: `{token, user}`. */
  datatype Session = Session(token: string, user: PublicUser)

  /** The password hasher (`hash`, `compare`) and the token signer (`sign`, `verify`). */
  datatype Crypto = Crypto(hash: string -> string, compare: (string, string) -> bool,
                           sign: Claims -> string, verify: string -> Option<Claims>)

  /** What the routes assume of the primitives: a password matches its own hash, and a
      signed token verifies to the claims it was signed with. */
  ghost predicate Sound(c: Crypto) {
    && (forall pw :: c.compare(pw, c.hash(pw)))
    && (forall cl :: c.verify(c.sign(cl)) == Some(cl))
  }

  /** The body of POST /register. */
  datatype RegisterBody = RegisterBody(name: Option<string>, email: Option<string>,
                                       password: Option<string>, passwordConfirm: Option<string>)

  /** The body of POST /login. */
  datatype LoginBody = LoginBody(email: Option<string>, password: Option<string>)

  const EmailRegisteredMessage := "Email already registered"
  const AccountNotFoundMessage := "Account not found please register"
  const InvalidPasswordMessage := "Invalid password"
  const UserNotFoundMessage := "User not found"

  // ---------------------------------------------------------------------------
  // Validation rules of the routes
  // ---------------------------------------------------------------------------

  /** The email rule both register and login apply to the trimmed email. */
  function EmailChecks(email: string, isEmail: string -> bool): seq<Check> {
    [Check(email != "", "Email is required"), Check(isEmail(email), "Invalid email format")]
  }

  /** POST /register: a trimmed name of at least 3 characters, a well-formed email, a
      password of at least 6 characters, and a confirmation equal to the password. */
  function RegisterChains(body: RegisterBody, isEmail: string -> bool): seq<Chain> {
    var name := Trim(TextOf(body.name));
    var password := TextOf(body.password);
    [ Chain("name", [Check(name != "", "Name is required"),
                     Check(|name| >= 3, "Name must be at least 3 characters")]),
      Chain("email", EmailChecks(Trim(TextOf(body.email)), isEmail)),
      Chain("password", [Check(password != "", "Password is required"),
                         Check(|password| >= 6, "Password must be at least 6 characters")]),
      Chain("passwordConfirm", [Check(TextOf(body.passwordConfirm) != "", "Confirm password is required"),
                                Check(body.passwordConfirm == body.password, "Passwords do not match")]) ]
  }

  /** POST /login: a well-formed email and a non-empty password. */
  function LoginChains(body: LoginBody, isEmail: string -> bool): seq<Chain> {
    [ Chain("email", EmailChecks(Trim(TextOf(body.email)), isEmail)),
      Chain("password", [Check(TextOf(body.password) != "", "Password is required")]) ]
  }

  /** A registration body that passes validation satisfies every rule of the route. */
  lemma RegisterAccepted(body: RegisterBody, isEmail: string -> bool, policy: ErrorPolicy)
    requires RunChains(RegisterChains(body, isEmail), policy) == []
    ensures |Trim(TextOf(body.name))| >= 3
    ensures Trim(TextOf(body.email)) != "" && isEmail(Trim(TextOf(body.email)))
    ensures |TextOf(body.password)| >= 6
    ensures body.passwordConfirm == body.password && body.password.Some?
  {
    var chains := RegisterChains(body, isEmail);
    assert !AnyFails(chains[0].checks) && !AnyFails(chains[1].checks);
    assert !AnyFails(chains[2].checks) && !AnyFails(chains[3].checks);
    assert chains[0].checks[1].passes;
    assert chains[1].checks[0].passes && chains[1].checks[1].passes;
    assert chains[2].checks[1].passes;
    assert chains[3].checks[0].passes && chains[3].checks[1].passes;
  }

  /** Conversely, a body that keeps every rule passes registration validation. */
  lemma RegisterRulesSuffice(body: RegisterBody, isEmail: string -> bool, policy: ErrorPolicy)
    requires |Trim(TextOf(body.name))| >= 3
    requires Trim(TextOf(body.email)) != "" && isEmail(Trim(TextOf(body.email)))
    requires |TextOf(body.password)| >= 6
    requires body.passwordConfirm == body.password
    ensures RunChains(RegisterChains(body, isEmail), policy) == []
  {
    var chains := RegisterChains(body, isEmail);
    assert !AnyFails(chains[0].checks) && !AnyFails(chains[1].checks);
    assert !AnyFails(chains[2].checks) && !AnyFails(chains[3].checks);
    assert AllPass(chains);
  }

  /** Breaking any one rule makes registration fail validation. */
  lemma RegisterRejects(body: RegisterBody, isEmail: string -> bool, policy: ErrorPolicy)
    requires || |Trim(TextOf(body.name))| < 3
             || Trim(TextOf(body.email)) == "" || !isEmail(Trim(TextOf(body.email)))
             || |TextOf(body.password)| < 6
             || TextOf(body.passwordConfirm) == "" || body.passwordConfirm != body.password
    ensures RunChains(RegisterChains(body, isEmail), policy) != []
  {
    var chains := RegisterChains(body, isEmail);
    if |Trim(TextOf(body.name))| < 3 {
      assert !chains[0].checks[1].passes;
      RunChainsComplete(chains, policy, 0);
    } else if Trim(TextOf(body.email)) == "" || !isEmail(Trim(TextOf(body.email))) {
      assert !chains[1].checks[0].passes || !chains[1].checks[1].passes;
      RunChainsComplete(chains, policy, 1);
    } else if |TextOf(body.password)| < 6 {
      assert !chains[2].checks[1].passes;
      RunChainsComplete(chains, policy, 2);
    } else {
      assert !chains[3].checks[0].passes || !chains[3].checks[1].passes;
      RunChainsComplete(chains, policy, 3);
    }
  }

  /** A login body passes validation exactly when its trimmed email is non-empty and well
      formed and its password is non-empty. */
  lemma LoginRules(body: LoginBody, isEmail: string -> bool, policy: ErrorPolicy)
    ensures RunChains(LoginChains(body, isEmail), policy) == []
            <==> Trim(TextOf(body.email)) != "" && isEmail(Trim(TextOf(body.email)))
                 && TextOf(body.password) != ""
  {
    var chains := LoginChains(body, isEmail);
    var email := Trim(TextOf(body.email));
    if email == "" || !isEmail(email) {
      assert !chains[0].checks[0].passes || !chains[0].checks[1].passes;
      RunChainsComplete(chains, policy, 0);
    } else if TextOf(body.password) == "" {
      assert !chains[1].checks[0].passes;
      RunChainsComplete(chains, policy, 1);
    } else {
      assert !AnyFails(chains[0].checks) && !AnyFails(chains[1].checks);
      assert AllPass(chains);
    }
  }

  /** Whatever passes the registration rules passes the login rules with the same email
      and password. */
  lemma RegisterRulesImplyLoginRules(body: RegisterBody, isEmail: string -> bool, policy: ErrorPolicy)
    requires RunChains(RegisterChains(body, isEmail), policy) == []
    ensures RunChains(LoginChains(LoginBody(body.email, body.password), isEmail), policy) == []
  {
    RegisterAccepted(body, isEmail, policy);
    var chains := LoginChains(LoginBody(body.email, body.password), isEmail);
    assert forall i :: 0 <= i < |chains[0].checks| ==> chains[0].checks[i].passes;
    assert forall i :: 0 <= i < |chains[1].checks| ==> chains[1].checks[i].passes;
  }

  // ---------------------------------------------------------------------------
  // Looking users up by email
  // ---------------------------------------------------------------------------

  /** No two users share an email. */
  ghost predicate UniqueEmails(users: map<UserId, User>) {
    forall a, b :: a in users && b in users && users[a].email == users[b].email ==> a == b
  }

  predicate EmailTaken(users: map<UserId, User>, email: string) {
    exists id | id in users :: users[id].email == email
  }

  /** `findOne({email})`. */
  ghost function FindByEmail(users: map<UserId, User>, email: string): Option<UserId> {
    if EmailTaken(users, email) then Some(var id :| id in users && users[id].email == email; id) else None
  }

  /** With unique emails the lookup finds the one user holding that email. */
  lemma FindByEmailUnique(users: map<UserId, User>, id: UserId)
    requires UniqueEmails(users) && id in users
    ensures FindByEmail(users, users[id].email) == Some(id)
  {
  }

  /** Adding a user under a fresh id with an email nobody holds keeps emails unique, and
      then the lookup by that email finds the new user. */
  lemma {:induction false} AddUserKeepsEmailsUnique(users: map<UserId, User>, id: UserId, u: User)
    requires UniqueEmails(users) && id !in users && !EmailTaken(users, u.email)
    ensures UniqueEmails(users[id := u])
    ensures FindByEmail(users[id := u], u.email) == Some(id)
  {
    var users' := users[id := u];
    forall a, b | a in users' && b in users' && users'[a].email == users'[b].email ensures a == b {
      if a != id && b != id {
        assert users'[a] == users[a] && users'[b] == users[b];
      }
    }
    FindByEmailUnique(users', id);
  }

  // ---------------------------------------------------------------------------
  // Login, as a function of the user table
  // ---------------------------------------------------------------------------

  /** What POST /login answers for a given user table. */
  ghost function LoginResponse(users: map<UserId, User>, body: LoginBody, c: Crypto,
                               isEmail: string -> bool, policy: ErrorPolicy): Response<Session>
  {
    var errs := RunChains(LoginChains(body, isEmail), policy);
    if errs != [] then Errors(FormatValidationErrors(errs))
    else
      match FindByEmail(users, Trim(TextOf(body.email)))
      case None => Errors([FieldError("email", AccountNotFoundMessage)])
      case Some(id) =>
        var u := users[id];
        if !c.compare(TextOf(body.password), u.passwordHash) then
          Errors([FieldError("password", InvalidPasswordMessage)])
        else
          Ok(Session(c.sign(Claims(id, u.email)), PublicUser(id, u.name, u.email)))
  }

  /** An email that no user holds gets the email field error. */
  lemma LoginUnknownEmail(users: map<UserId, User>, body: LoginBody, c: Crypto,
                          isEmail: string -> bool, policy: ErrorPolicy)
    requires RunChains(LoginChains(body, isEmail), policy) == []
    requires !EmailTaken(users, Trim(TextOf(body.email)))
    ensures LoginResponse(users, body, c, isEmail, policy)
            == Errors([FieldError("email", AccountNotFoundMessage)])
  {
  }

  /** A known email with a password that does not match the stored hash gets the password
      field error. */
  lemma LoginWrongPassword(users: map<UserId, User>, id: UserId, body: LoginBody, c: Crypto,
                           isEmail: string -> bool, policy: ErrorPolicy)
    requires UniqueEmails(users) && id in users && users[id].email == Trim(TextOf(body.email))
    requires RunChains(LoginChains(body, isEmail), policy) == []
    requires !c.compare(TextOf(body.password), users[id].passwordHash)
    ensures LoginResponse(users, body, c, isEmail, policy)
            == Errors([FieldError("password", InvalidPasswordMessage)])
  {
    FindByEmailUnique(users, id);
  }

  /** A login that passes validation, names a held email and gives a password matching the
      stored hash is answered with a token for `{id, email}` of that user and its public view. */
  lemma LoginRightPassword(users: map<UserId, User>, id: UserId, body: LoginBody, c: Crypto,
                           isEmail: string -> bool, policy: ErrorPolicy)
    requires UniqueEmails(users) && id in users && users[id].email == Trim(TextOf(body.email))
    requires RunChains(LoginChains(body, isEmail), policy) == []
    requires c.compare(TextOf(body.password), users[id].passwordHash)
    ensures LoginResponse(users, body, c, isEmail, policy)
            == Ok(Session(c.sign(Claims(id, users[id].email)), PublicUser(id, users[id].name, users[id].email)))
  {
    FindByEmailUnique(users, id);
  }

  /** A successful login hands out a token whose claims are the id and email of the stored
      user it found, and a user view of that same user. */
  lemma LoginIssuesClaims(users: map<UserId, User>, body: LoginBody, c: Crypto,
                          isEmail: string -> bool, policy: ErrorPolicy)
    requires Sound(c)
    requires LoginResponse(users, body, c, isEmail, policy).Ok?
    ensures var s := LoginResponse(users, body, c, isEmail, policy).value;
            && s.user.id in users
            && s.user.email == users[s.user.id].email == Trim(TextOf(body.email))
            && s.user.name == users[s.user.id].name
            && c.verify(s.token) == Some(Claims(s.user.id, s.user.email))
  {
  }

  /** Registering and then logging in with the same email and password succeeds, and the
      token decodes to the id of the user that registration created. */
  lemma RegisterThenLogin(users: map<UserId, User>, id: UserId, body: RegisterBody, c: Crypto,
                          isEmail: string -> bool, policy: ErrorPolicy)
    requires Sound(c) && UniqueEmails(users) && id !in users
    requires RunChains(RegisterChains(body, isEmail), policy) == []
    requires !EmailTaken(users, Trim(TextOf(body.email)))
    ensures var email := Trim(TextOf(body.email));
            var users' := users[id := User(Trim(TextOf(body.name)), email, c.hash(TextOf(body.password)))];
            var r := LoginResponse(users', LoginBody(body.email, body.password), c, isEmail, policy);
            && r.Ok? && r.value.user == PublicUser(id, Trim(TextOf(body.name)), email)
            && c.verify(r.value.token) == Some(Claims(id, email))
  {
    var email := Trim(TextOf(body.email));
    var u := User(Trim(TextOf(body.name)), email, c.hash(TextOf(body.password)));
    RegisterRulesImplyLoginRules(body, isEmail, policy);
    AddUserKeepsEmailsUnique(users, id, u);
    assert c.compare(TextOf(body.password), c.hash(TextOf(body.password)));
  }

  // ---------------------------------------------------------------------------
  // The user table
  // ---------------------------------------------------------------------------

  class UserRegistry {
    /** The user collection, by user id. */
    var users: map<UserId, User>
    /** The next id the store hands out. */
    var nextId: UserId
    const crypto: Crypto
    /** The email syntax check of the validation library. */
    const isEmail: string -> bool
    /** How the validation library reports several failures of one field. */
    const policy: ErrorPolicy

    /** Every id was handed out, and no two users share an email. */
    ghost predicate Valid()
      reads this
    {
      (forall id :: id in users ==> id < nextId) && UniqueEmails(users)
    }

    constructor (crypto: Crypto, isEmail: string -> bool, policy: ErrorPolicy)
      ensures Valid() && users == map[]
      ensures this.crypto == crypto && this.isEmail == isEmail && this.policy == policy
    {
      users := map[];
      nextId := 0;
      this.crypto := crypto;
      this.isEmail := isEmail;
      this.policy := policy;
    }

    /** POST /register. A body failing validation, or an email already registered, is
        answered with an error list and stores nothing. Otherwise one user is added, holding
        the trimmed name and email and the hash of the password, and the reply carries a
        token for `{id, email}` of that user. */
    method Register(body: RegisterBody) returns (r: Response<Session>)
      requires Valid()
      modifies this
      ensures Valid()
      ensures var errs := RunChains(RegisterChains(body, isEmail), policy);
              var name, email := Trim(TextOf(body.name)), Trim(TextOf(body.email));
              if errs != [] then
                r == Errors(FormatValidationErrors(errs)) && users == old(users) && nextId == old(nextId)
              else if EmailTaken(old(users), email) then
                r == Errors([FieldError("email", EmailRegisteredMessage)])
                && users == old(users) && nextId == old(nextId)
              else
                var id := old(nextId);
                && id !in old(users) && nextId == id + 1
                && users == old(users)[id := User(name, email, crypto.hash(TextOf(body.password)))]
                && r == Ok(Session(crypto.sign(Claims(id, email)), PublicUser(id, name, email)))
    {
      var errs := RunChains(RegisterChains(body, isEmail), policy);
      if errs != [] {
        return Errors(FormatValidationErrors(errs));
      }
      var name, email, password := Trim(TextOf(body.name)), Trim(TextOf(body.email)), TextOf(body.password);
      if exists id | id in users :: users[id].email == email {
        return Errors([FieldError("email", EmailRegisteredMessage)]);
      }
      var hashed := crypto.hash(password);
      var user := User(name, email, hashed);
      var id := nextId;
      AddUserKeepsEmailsUnique(users, id, user);
      users := users[id := user];
      nextId := nextId + 1;
      var token := crypto.sign(Claims(id, user.email));
      r := Ok(Session(token, PublicUser(id, user.name, user.email)));
    }

    /** POST /login: validation, the lookup by email, the password comparison and the
        signing, step by step as the route does them; its result is what the function
        `LoginResponse` states for the current table. */
    method Login(body: LoginBody) returns (r: Response<Session>)
      requires Valid()
      ensures r == LoginResponse(users, body, crypto, isEmail, policy)
    {
      var errs := RunChains(LoginChains(body, isEmail), policy);
      if errs != [] {
        return Errors(FormatValidationErrors(errs));
      }
      var email := Trim(TextOf(body.email));
      if !exists id | id in users :: users[id].email == email {
        return Errors([FieldError("email", AccountNotFoundMessage)]);
      }
      var id :| id in users && users[id].email == email;
      FindByEmailUnique(users, id);
      var user := users[id];
      var ok := crypto.compare(TextOf(body.password), user.passwordHash);
      if !ok {
        return Errors([FieldError("password", InvalidPasswordMessage)]);
      }
      var token := crypto.sign(Claims(id, user.email));
      r := Ok(Session(token, PublicUser(id, user.name, user.email)));
    }

    /** GET /profile: the caller's user without the password, or 404. */
    method Profile(caller: UserId) returns (r: Response<PublicUser>)
      ensures caller in users ==> r == Ok(PublicUser(caller, users[caller].name, users[caller].email))
      ensures caller !in users ==> r == NotFound(UserNotFoundMessage)
    {
      if caller !in users {
        return NotFound(UserNotFoundMessage);
      }
      var user := users[caller];
      r := Ok(PublicUser(caller, user.name, user.email));
    }

    /** PUT /profile: sets the caller's name when a non-empty one is given, never touches the
        email or the password, no other user changes, and a missing user is a 404. */
    method UpdateProfile(caller: UserId, name: Option<string>) returns (r: Response<PublicUser>)
      requires Valid()
      modifies this
      ensures Valid() && nextId == old(nextId)
      ensures caller !in old(users) ==> r == NotFound(UserNotFoundMessage) && users == old(users)
      ensures caller in old(users) ==>
                var was := old(users)[caller];
                var now := if TextOf(name) != "" then was.(name := TextOf(name)) else was;
                && users == old(users)[caller := now]
                && now.email == was.email && now.passwordHash == was.passwordHash
                && r == Ok(PublicUser(caller, now.name, now.email))
    {
      if caller !in users {
        return NotFound(UserNotFoundMessage);
      }
      var user := users[caller];
      if TextOf(name) != "" {
        user := user.(name := TextOf(name));
      }
      users := users[caller := user];
      r := Ok(PublicUser(caller, user.name, user.email));
    }
  }
}
