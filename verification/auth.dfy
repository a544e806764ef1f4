/**
 * Registration and login. Password hashing, password verification and token
 * issuing come from libraries (bcrypt and JWT) and are parameters here:
 * `hash`, `verify` and `issue` are arbitrary functions.
 */
module Auth {
  import opened Results
  import opened Domain

  datatype Token = Token(accessToken: string, tokenType: string)

  /** `UserCreateRequest.password`: at least 8 characters. */
  const MinPasswordLength: nat := 8

  /**
   * `register`: a password shorter than 8 characters fails validation; an
   * email already registered fails and adds no user; otherwise a new active
   * user is stored (and committed) with the hash of the password. The request
   * takes any string as email, but the response model `UserResponse` declares
   * it an `EmailStr`: when that check (`isAddress`, library code) refuses the
   * email, the answer is a 500 although the user is already stored.
   */
  function Register(s: Store, email: string, password: string, hash: string -> string,
                    isAddress: string -> bool): (r: Reply<User>)
    ensures |password| < MinPasswordLength ==> r == Reply(s, Err(ValidationError("password")))
    ensures |password| >= MinPasswordLength && email in s.users ==> r == Reply(s, Err(EmailAlreadyRegistered))
    ensures |password| >= MinPasswordLength && email !in s.users ==>
      && email in r.store.users
      && r.store.users[email].email == email
      && r.store.users[email].hashedPassword == hash(password)
      && r.store.users[email].isActive
      && r.store.users == s.users[email := r.store.users[email]]
      && r.store.consumers == s.consumers && r.store.favorites == s.favorites
      && (isAddress(email) ==> r.result == Ok(r.store.users[email]))
      && (!isAddress(email) ==> r.result == Err(ResponseRejected))
    ensures Valid(s) ==> Valid(r.store)
  {
    if |password| < MinPasswordLength then Reply(s, Err(ValidationError("password")))
    else if email in s.users then Reply(s, Err(EmailAlreadyRegistered))
    else
      var u := User(s.nextId, email, hash(password), true);
      var s' := s.(users := s.users[email := u], nextId := s.nextId + 1);
      if isAddress(email) then Reply(s', Ok(u)) else Reply(s', Err(ResponseRejected))
  }

  /**
   * `authenticate_user`: the user stored under exactly this email, provided
   * the password verifies against its hash; `None` otherwise.
   */
  function Authenticate(users: map<string, User>, email: string, password: string,
                        verify: (string, string) -> bool): (r: Option<User>)
    ensures r.Some? <==> email in users && verify(password, users[email].hashedPassword)
    ensures r.Some? ==> r.value == users[email]
    ensures r.Some? && UsersKeyed(users) ==> r.value.email == email
  {
    if email !in users || !verify(password, users[email].hashedPassword) then None
    else Some(users[email])
  }

  /**
   * `login`: a token for the authenticated user's id with type "bearer", or the
   * one error "Incorrect email or password".
   */
  function Login(users: map<string, User>, email: string, password: string,
                 verify: (string, string) -> bool, issue: UserId -> string): (r: Result<Token, Error>)
    ensures r.Err? ==> r.error == IncorrectCredentials
    ensures r.Ok? <==> Authenticate(users, email, password, verify).Some?
    ensures r.Ok? ==> r.value == Token(issue(users[email].id), "bearer")
  {
    match Authenticate(users, email, password, verify)
    case None => Err(IncorrectCredentials)
    case Some(u) => Ok(Token(issue(u.id), "bearer"))
  }

  /** An unknown email and a wrong password are answered identically. */
  lemma LoginFailureIsUniform(users: map<string, User>, unknown: string, known: string, password: string,
                              verify: (string, string) -> bool, issue: UserId -> string)
    requires unknown !in users
    requires known in users && !verify(password, users[known].hashedPassword)
    ensures Login(users, unknown, password, verify, issue) == Login(users, known, password, verify, issue)
    ensures Login(users, unknown, password, verify, issue) == Err(IncorrectCredentials)
    ensures StatusCode(IncorrectCredentials) == 400
    ensures Detail(IncorrectCredentials) == "Incorrect email or password"
  {
  }

  /**
   * Register then log in: when `verify` accepts a password against its own
   * hash, the password just registered logs in as the new user, whether or not
   * the registration itself was answered with success.
   */
  lemma RegisterThenLogin(s: Store, email: string, password: string, hash: string -> string,
                          isAddress: string -> bool, verify: (string, string) -> bool, issue: UserId -> string)
    requires |password| >= MinPasswordLength && email !in s.users
    requires verify(password, hash(password))
    ensures var r := Register(s, email, password, hash, isAddress);
      && Authenticate(r.store.users, email, password, verify) == Some(r.store.users[email])
      && Login(r.store.users, email, password, verify, issue) == Ok(Token(issue(r.store.users[email].id), "bearer"))
  {
  }

  /** A second registration of the same email fails and leaves the first user in place. */
  lemma RegisterTwice(s: Store, email: string, p1: string, p2: string, hash: string -> string,
                      isAddress: string -> bool)
    requires |p1| >= MinPasswordLength && |p2| >= MinPasswordLength && email !in s.users
    ensures var r1 := Register(s, email, p1, hash, isAddress);
      var r2 := Register(r1.store, email, p2, hash, isAddress);
      && r2 == Reply(r1.store, Err(EmailAlreadyRegistered))
      && r2.store.users[email].hashedPassword == hash(p1)
      && Detail(r2.result.error) == "Email j\U{00E1} cadastrado"
  {
  }

  /**
   * An email the response model refuses: the first attempt is answered 500 yet
   * stores the user, so a retry is refused as a duplicate.
   */
  lemma RejectedEmailStillStored(s: Store, email: string, password: string, hash: string -> string,
                                 isAddress: string -> bool)
    requires |password| >= MinPasswordLength && email !in s.users && !isAddress(email)
    ensures var r1 := Register(s, email, password, hash, isAddress);
      var r2 := Register(r1.store, email, password, hash, isAddress);
      && r1.result == Err(ResponseRejected) && StatusCode(ResponseRejected) == 500
      && email in r1.store.users
      && r2 == Reply(r1.store, Err(EmailAlreadyRegistered))
  {
  }
}
