/**
 * The decision taken by php/login.php for one request: the pre-check of
 * the posted fields, the single user lookup, the classification of the
 * stored hash and the password check, and the redirect each outcome leads
 * to. The database and the two cryptographic calls (password_verify and
 * hash('sha512', ...)) are parameters: the model knows nothing about them
 * except what they return.
 */
module Login {
  import opened Wrappers
  import opened Text

  type UserId = int

  /** The row `SELECT id, usuario, contrasena ... LIMIT 1` returns. */
  datatype Row = Row(id: UserId, usuario: string, contrasena: string)

  /** What the prepared statement yields for one username. */
  datatype Lookup =
    | PrepareFailed              // $conex->prepare returned false
    | ExecuteFailed              // $stmt->execute() returned false
    | Fetched(row: Option<Row>)  // zero rows (None) or the single row of LIMIT 1

  /** The two foreign cryptographic functions the script calls. */
  datatype Crypto = Crypto(passwordVerify: (string, string) -> bool, sha512Hex: string -> string)

  /** The parts of the HTTP request the script reads. */
  datatype Request = Request(requestMethod: string, post: map<string, string>)

  datatype Failure = NotPost | EmptyInput | PrepareError | ExecuteError | NoSuchUser | WrongPassword

  datatype Decision =
    | Rejected(reason: Failure)
    | Accepted(usuario: string, userId: UserId)

  /**
   * The decision, together with the username the statement was executed
   * for (None when the script exits before preparing any statement).
   */
  datatype Outcome = Outcome(decision: Decision, lookedUp: Option<string>)

  /** The three redirects the script can answer with. */
  datatype Redirect = LoginPage | ErrorPage | WelcomePage

  /** The `Location` header of each redirect. */
  function Url(r: Redirect): string
  {
    match r
    case LoginPage => "../html/iniciarSesion.html"
    case ErrorPage => "../html/iniciarSesion.html?error=1"
    case WelcomePage => "../php/bienvenida.php"
  }

  /** The characters PHP's trim() strips by default. */
  const PhpTrimChars: set<char> := {' ', '\t', '\n', '\r', '\0', '\U{000B}'}

  /** `$_POST[key] ?? ''`. */
  function PostField(req: Request, key: string): string
  {
    if key in req.post then req.post[key] else ""
  }

  /** The username as the script uses it: the posted value, trimmed. */
  function Username(req: Request): string
  {
    Trim(PostField(req, "usuario"), PhpTrimChars)
  }

  /** The password as the script uses it: the posted value, untouched. */
  function Password(req: Request): string
  {
    PostField(req, "nueva_contrasena")
  }

  /**
   * The hash-scheme classifier: `strpos($h, '$2y$') === 0 ||
   * strpos($h, '$2a$') === 0 || stripos($h, 'argon2') !== false`.
   */
  predicate IsModernHash(stored: string)
  {
    StrPos(stored, "$2y$") == Some(0)
    || StrPos(stored, "$2a$") == Some(0)
    || StrIPos(stored, "argon2").Some?
  }

  /** The outcome of the password check for one stored hash. */
  predicate PasswordMatches(password: string, stored: string, crypto: Crypto)
  {
    if IsModernHash(stored) then crypto.passwordVerify(password, stored)
    else crypto.sha512Hex(password) == stored || crypto.passwordVerify(password, stored)
  }

  /** The decision once a non-empty username and password are known. */
  function Decide(usuario: string, password: string, lookup: Lookup, crypto: Crypto): Decision
  {
    match lookup
    case PrepareFailed => Rejected(PrepareError)
    case ExecuteFailed => Rejected(ExecuteError)
    case Fetched(None) => Rejected(NoSuchUser)
    case Fetched(Some(row)) =>
      if PasswordMatches(password, row.contrasena, crypto) then Accepted(usuario, row.id)
      else Rejected(WrongPassword)
  }

  /**
   * The script's decision once the request is read: `usuario` is the
   * trimmed username and `password` the password as posted.
   */
  function Respond(requestMethod: string, usuario: string, password: string,
                   store: string -> Lookup, crypto: Crypto): Outcome
  {
    if requestMethod != "POST" then Outcome(Rejected(NotPost), None)
    else if usuario == "" || password == "" then Outcome(Rejected(EmptyInput), None)
    else Outcome(Decide(usuario, password, store(usuario), crypto), Some(usuario))
  }

  /** The whole script's decision for one request against the store `store`. */
  function Authenticate(req: Request, store: string -> Lookup, crypto: Crypto): Outcome
  {
    Respond(req.requestMethod, Username(req), Password(req), store, crypto)
  }

  /** The redirect each decision is answered with. */
  function Location(d: Decision): Redirect
  {
    match d
    case Accepted(_, _) => WelcomePage
    case Rejected(NotPost) => LoginPage
    case Rejected(_) => ErrorPage
  }

  // ---------------------------------------------------------------------
  // The hash classifier

  /** `argon2`, in any mix of ASCII case, occurs in `stored` at index `i`. */
  predicate Argon2At(stored: string, i: int)
  {
    0 <= i && i + 6 <= |stored| && AsciiLower(stored[i..i + 6]) == "argon2"
  }

  /**
   * A stored hash is classified as modern exactly when it starts with
   * `$2y$`, starts with `$2a$`, or contains `argon2` anywhere, ignoring case.
   */
  lemma ModernHashIff(stored: string)
    ensures IsModernHash(stored) <==>
      IsPrefix("$2y$", stored) || IsPrefix("$2a$", stored) || exists i :: Argon2At(stored, i)
  {
    StrPosZeroIffPrefix(stored, "$2y$");
    StrPosZeroIffPrefix(stored, "$2a$");
    StrIPosSpec(stored, "argon2");
    assert AsciiLower("argon2") == "argon2";
    assert forall i :: OccursAtIgnoringCase(stored, "argon2", i) <==> Argon2At(stored, i);
  }

  /** bcrypt hashes with the `$2y$` and `$2a$` markers are modern. */
  lemma BcryptMarkersAreModern()
    ensures IsModernHash("$2y$10$abc")
    ensures IsModernHash("$2a$10$abc")
  {
    StrPosZeroIffPrefix("$2y$10$abc", "$2y$");
    StrPosZeroIffPrefix("$2a$10$abc", "$2a$");
  }

  /** An upper-case `$ARGON2ID$` hash is modern: the argon2 test ignores case. */
  lemma UpperCaseArgon2IsModern()
    ensures IsModernHash("$ARGON2ID$v=19")
  {
    var h := "$ARGON2ID$v=19";
    var w := h[1..7];
    assert w == "ARGON2";
    var l := AsciiLower(w);
    assert l[0] == 'a' && l[1] == 'r' && l[2] == 'g' && l[3] == 'o' && l[4] == 'n' && l[5] == '2';
    assert l == "argon2";
    assert Argon2At(h, 1);
    ModernHashIff(h);
  }

  /** A bcrypt hash with the `$2b$` marker is classified as legacy. */
  lemma Bcrypt2bIsLegacy()
    ensures !IsModernHash("$2b$10$xyz")
  {
    var h := "$2b$10$xyz";
    assert h[2] == 'b';
    NoArgon2(h);
    ModernHashIff(h);
  }

  /** A string without the letter `a` in either case contains no `argon2`. */
  lemma NoArgon2(stored: string)
    requires 'a' !in stored && 'A' !in stored
    ensures forall i :: !Argon2At(stored, i)
  {
    forall i | 0 <= i && i + 6 <= |stored| ensures !Argon2At(stored, i) {
      assert stored[i] in stored;
      assert AsciiLower(stored[i..i + 6])[0] == AsciiLowerChar(stored[i]);
    }
  }

  // ---------------------------------------------------------------------
  // The password check

  /** For a modern hash only password_verify decides; the digest is not consulted. */
  lemma ModernUsesVerifyOnly(password: string, stored: string, crypto: Crypto)
    requires IsModernHash(stored)
    ensures PasswordMatches(password, stored, crypto) <==> crypto.passwordVerify(password, stored)
    ensures forall sha: string -> string ::
      PasswordMatches(password, stored, Crypto(crypto.passwordVerify, sha))
      == PasswordMatches(password, stored, crypto)
  {
  }

  /** For a legacy hash the SHA-512 digest or password_verify decides. */
  lemma LegacyUsesDigestOrVerify(password: string, stored: string, crypto: Crypto)
    requires !IsModernHash(stored)
    ensures PasswordMatches(password, stored, crypto) <==>
      crypto.sha512Hex(password) == stored || crypto.passwordVerify(password, stored)
  {
  }

  /** password_verify accepting is enough in both branches. */
  lemma VerifyImpliesMatch(password: string, stored: string, crypto: Crypto)
    requires crypto.passwordVerify(password, stored)
    ensures PasswordMatches(password, stored, crypto)
  {
  }

  // ---------------------------------------------------------------------
  // The request as a whole

  /**
   * The pre-check: with an empty trimmed username or an empty password the
   * request is rejected and no statement is prepared; otherwise exactly one
   * lookup is made, for the trimmed username.
   */
  lemma EmptyInputSkipsLookup(usuario: string, password: string, store: string -> Lookup, crypto: Crypto)
    ensures var o := Respond("POST", usuario, password, store, crypto);
      (usuario == "" || password == "") <==> o == Outcome(Rejected(EmptyInput), None)
    ensures usuario != "" && password != "" ==>
      Respond("POST", usuario, password, store, crypto).lookedUp == Some(usuario)
  {
  }

  /**
   * The username the script works with is the posted one with PHP's trim
   * characters cut from both ends; the password is exactly the posted one.
   */
  lemma RequestFields(req: Request)
    ensures var u := Username(req);
      (exists lo :: TrimmedAt(PostField(req, "usuario"), PhpTrimChars, u, lo))
      && Stripped(u, PhpTrimChars)
      && (u == "" <==> AllIn(PostField(req, "usuario"), PhpTrimChars))
    ensures "nueva_contrasena" in req.post ==> Password(req) == req.post["nueva_contrasena"]
  {
    var posted := PostField(req, "usuario");
    assert Username(req) == Trim(posted, PhpTrimChars);
    TrimSpec(posted, PhpTrimChars);
  }

  /** No row for the username means rejection, whatever the password. */
  lemma NoRowAlwaysRejects(requestMethod: string, usuario: string, password: string,
                           store: string -> Lookup, crypto: Crypto)
    requires store(usuario) == Fetched(None)
    ensures Respond(requestMethod, usuario, password, store, crypto).decision.Rejected?
    ensures Location(Respond(requestMethod, usuario, password, store, crypto).decision) != WelcomePage
  {
  }

  /** The decision accepts exactly when a row is found and the password matches it. */
  lemma DecideAcceptedIff(usuario: string, password: string, lookup: Lookup, crypto: Crypto)
    ensures var d := Decide(usuario, password, lookup, crypto);
      d.Accepted? <==>
        lookup.Fetched? && lookup.row.Some? && PasswordMatches(password, lookup.row.value.contrasena, crypto)
    ensures var d := Decide(usuario, password, lookup, crypto);
      d.Accepted? ==> d.usuario == usuario && d.userId == lookup.row.value.id
  {
  }

  /**
   * Acceptance happens exactly when the request is a POST with non-empty
   * fields, the lookup finds a row and the password matches its hash; the
   * accepted identity is the trimmed username and the row's id.
   */
  lemma AcceptedIff(requestMethod: string, usuario: string, password: string,
                    store: string -> Lookup, crypto: Crypto)
    ensures var d := Respond(requestMethod, usuario, password, store, crypto).decision;
      d.Accepted? <==>
        requestMethod == "POST" && usuario != "" && password != ""
        && store(usuario).Fetched? && store(usuario).row.Some?
        && PasswordMatches(password, store(usuario).row.value.contrasena, crypto)
    ensures var d := Respond(requestMethod, usuario, password, store, crypto).decision;
      d.Accepted? ==> d.usuario == usuario && d.userId == store(usuario).row.value.id
  {
    if requestMethod == "POST" && usuario != "" && password != "" {
      DecideAcceptedIff(usuario, password, store(usuario), crypto);
    }
  }

  /**
   * Every failure after the method check (empty input, prepare failure,
   * execute failure, no row, wrong password) leads to the same redirect.
   */
  lemma FailuresLookAlike(d: Decision)
    ensures Location(d) == ErrorPage <==> d.Rejected? && d.reason != NotPost
    ensures Location(d) == WelcomePage <==> d.Accepted?
    ensures d.Rejected? && d.reason != NotPost ==> Url(Location(d)) == "../html/iniciarSesion.html?error=1"
  {
  }
}
