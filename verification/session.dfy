/** The registration and login flows (Registration.cpp:132-202) as functions from
    the users file and the console tokens to an outcome, the file afterwards and
    the number of tokens consumed. */
module Session {
  import opened Wrappers
  import opened Text
  import opened Validation
  import opened Store
  import opened Prompt

  /** What `cin >>` can deliver: a non-empty run of non-space characters. */
  predicate IsToken(t: string) {
    |t| >= 1 && forall i :: 0 <= i < |t| ==> !IsSpace(t[i])
  }

  predicate AllTokens(input: seq<string>) {
    forall i :: 0 <= i < |input| ==> IsToken(input[i])
  }

  datatype RegisterOutcome =
    | Registered(serial: int, username: string, password: string)  // "Registration successful!"
    | RegistrationCancelled                                          // "Registration cancelled."
    | SaveFailed                                                     // "Error saving user."

  datatype Registration = Registration(outcome: RegisterOutcome, file: File, used: nat)

  /** Registration.cpp:134-155, starting from the file `prepared` after its header
      step, with the password rule as a parameter. */
  function RegisterFrom(prepared: File, rule: string -> bool, openFails: bool, input: seq<string>): (r: Registration)
    ensures r.used <= 2 * MaxAttempts && r.used <= |input|
    ensures !r.outcome.Registered? ==> r.file == prepared
    ensures r.outcome.SaveFailed? ==> openFails
    ensures r.outcome.Registered? ==>
              var loaded, rec := LoadUsers(prepared), r.outcome;
              && !openFails
              && rec.serial == loaded.maxSerial + 1
              && IsValidUsername(rec.username) && rec.username !in loaded.users
              && rec.username != ExitToken
              && rule(rec.password) && rec.password != ExitToken
              && r.file.Some?
              && Lines(r.file) == Lines(prepared) + [FormatRecord(rec.serial, rec.username, rec.password)]
  {
    var loaded := LoadUsers(prepared);
    var name := GetValidatedUsername(loaded.users, input);
    if name.text == "" then Registration(RegistrationCancelled, prepared, name.used)
    else
      var pass := GetPassword(rule, input[name.used..]);
      var used := name.used + pass.used;
      if pass.text == "" then Registration(RegistrationCancelled, prepared, used)
      else
        var serial := loaded.maxSerial + 1;
        var saved := SaveUser(prepared, openFails, serial, name.text, pass.text);
        if saved.ok then Registration(Registered(serial, name.text, pass.text), saved.file, used)
        else Registration(SaveFailed, saved.file, used)
  }

  /** `registerUser` as written (Registration.cpp:132-156). */
  function RegisterUser(file: File, openFails: bool, input: seq<string>): (r: Registration)
    ensures r.used <= 2 * MaxAttempts
    ensures !r.outcome.Registered? ==> r.file == EnsureFileExists(file)
    ensures r.outcome.Registered? ==>
              && r.outcome.serial == LoadUsers(file).maxSerial + 1
              && r.outcome.username !in LoadUsers(file).users
              && IsValidUsername(r.outcome.username) && IsValidPassword(r.outcome.password)
              && r.file.Some?
              && Lines(r.file) == Lines(EnsureFileExists(file))
                                  + [FormatRecord(r.outcome.serial, r.outcome.username, r.outcome.password)]
  {
    EnsureFileExistsIdempotent(file);
    RegisterFrom(EnsureFileExists(file), IsValidPassword, openFails, input)
  }

  /** `registerUser` with both corrections: the header is written into an empty
      file too, and a password holding '|' is refused at the prompt. */
  function RegisterFixed(file: File, openFails: bool, input: seq<string>): (r: Registration)
    ensures r.used <= 2 * MaxAttempts
    ensures !r.outcome.Registered? ==> r.file == EnsureHeader(file)
    ensures r.outcome.Registered? ==>
              && r.outcome.serial == LoadUsers(file).maxSerial + 1
              && r.outcome.username !in LoadUsers(file).users
              && IsValidUsername(r.outcome.username) && IsStorablePassword(r.outcome.password)
              && r.file.Some?
              && Lines(r.file) == Lines(EnsureHeader(file))
                                  + [FormatRecord(r.outcome.serial, r.outcome.username, r.outcome.password)]
  {
    EnsureHeaderKeepsLoad(file);
    RegisterFrom(EnsureHeader(file), IsStorablePassword, openFails, input)
  }

  /** Read `i` of the username loop is the first that ends it, and is a new
      well-formed name. */
  ghost predicate NewNameAt(users: map<string, string>, input: seq<string>, i: nat) {
    && i < MaxAttempts
    && UndecidedBefore(NewUsername(users), input, "", i)
    && Seen(input, "", i) != ExitToken
    && NewUsername(users)(Seen(input, "", i))
  }

  /** The converse of `RegisterFrom`'s contract: once both prompts return a
      value the user is registered, or the save fails when the open does; if
      either prompt returns "" the registration is cancelled. */
  lemma RegisterFromDecided(prepared: File, rule: string -> bool, openFails: bool, input: seq<string>)
    ensures var r, loaded := RegisterFrom(prepared, rule, openFails, input), LoadUsers(prepared);
            var name := GetValidatedUsername(loaded.users, input);
            var pass := GetPassword(rule, input[name.used..]);
            && r.outcome == (if name.text == "" || pass.text == "" then RegistrationCancelled
                             else if openFails then SaveFailed
                             else Registered(loaded.maxSerial + 1, name.text, pass.text))
            && r.used == name.used + (if name.text == "" then 0 else pass.used)
  {
  }

  /** Registration in terms of the tokens read: read `i` is the first username
      read that is "exit" or acceptable, and it is a new well-formed name; read
      `j` after it is the first password read that is "exit" or passes the rule,
      and it passes. Then the user is registered under the next serial (or the
      save fails when the open does), unless the password read is empty. */
  lemma RegisterFromAt(prepared: File, rule: string -> bool, openFails: bool, input: seq<string>, i: nat, j: nat)
    requires NewNameAt(LoadUsers(prepared).users, input, i)
    requires && j < MaxAttempts && UndecidedBefore(rule, After(input, i), "", j)
             && Seen(After(input, i), "", j) != ExitToken && rule(Seen(After(input, i), "", j))
    ensures var r := RegisterFrom(prepared, rule, openFails, input);
            var u, p := Seen(input, "", i), Seen(After(input, i), "", j);
            && r.outcome == (if p == "" then RegistrationCancelled
                             else if openFails then SaveFailed
                             else Registered(LoadUsers(prepared).maxSerial + 1, u, p))
            && r.used == Min(i + 1, |input|) + Min(j + 1, |After(input, i)|)
  {
    var users := LoadUsers(prepared).users;
    AskStopsAt(NewUsername(users), input, MaxAttempts, "", i);
    AskStopsAt(rule, After(input, i), MaxAttempts, "", j);
    RegisterFromDecided(prepared, rule, openFails, input);
  }

  /** `RegisterFrom` from a prepared file that loads like `file`, when the
      password read is not empty. */
  lemma RegisterPreparedAt(file: File, prepared: File, rule: string -> bool, openFails: bool, input: seq<string>, i: nat, j: nat)
    requires LoadUsers(prepared) == LoadUsers(file)
    requires NewNameAt(LoadUsers(file).users, input, i)
    requires && j < MaxAttempts && UndecidedBefore(rule, After(input, i), "", j)
             && Seen(After(input, i), "", j) != ExitToken && rule(Seen(After(input, i), "", j))
             && Seen(After(input, i), "", j) != ""
    ensures var r := RegisterFrom(prepared, rule, openFails, input);
            var u, p := Seen(input, "", i), Seen(After(input, i), "", j);
            && r.outcome == (if openFails then SaveFailed else Registered(LoadUsers(file).maxSerial + 1, u, p))
            && r.used == Min(i + 1, |input|) + Min(j + 1, |After(input, i)|)
  {
    RegisterFromAt(prepared, rule, openFails, input, i, j);
  }

  /** `registerUser` as written, in terms of the tokens read: a new valid name
      at the first deciding username read and a valid password at the first
      deciding password read register the user under the next serial, or give
      a save error when the file cannot be opened. */
  lemma RegisterUserAt(file: File, openFails: bool, input: seq<string>, i: nat, j: nat)
    requires NewNameAt(LoadUsers(file).users, input, i)
    requires && j < MaxAttempts && UndecidedBefore(IsValidPassword, After(input, i), "", j)
             && Seen(After(input, i), "", j) != ExitToken && IsValidPassword(Seen(After(input, i), "", j))
    ensures var r := RegisterUser(file, openFails, input);
            var u, p := Seen(input, "", i), Seen(After(input, i), "", j);
            && r.outcome == (if openFails then SaveFailed else Registered(LoadUsers(file).maxSerial + 1, u, p))
            && r.used == Min(i + 1, |input|) + Min(j + 1, |After(input, i)|)
  {
    EnsureFileExistsIdempotent(file);
    RegisterPreparedAt(file, EnsureFileExists(file), IsValidPassword, openFails, input, i, j);
  }

  /** The same for the corrected flow, whose password rule also refuses '|'. */
  lemma RegisterFixedAt(file: File, openFails: bool, input: seq<string>, i: nat, j: nat)
    requires NewNameAt(LoadUsers(file).users, input, i)
    requires && j < MaxAttempts && UndecidedBefore(IsStorablePassword, After(input, i), "", j)
             && Seen(After(input, i), "", j) != ExitToken && IsStorablePassword(Seen(After(input, i), "", j))
    ensures var r := RegisterFixed(file, openFails, input);
            var u, p := Seen(input, "", i), Seen(After(input, i), "", j);
            && r.outcome == (if openFails then SaveFailed else Registered(LoadUsers(file).maxSerial + 1, u, p))
            && r.used == Min(i + 1, |input|) + Min(j + 1, |After(input, i)|)
  {
    EnsureHeaderKeepsLoad(file);
    RegisterPreparedAt(file, EnsureHeader(file), IsStorablePassword, openFails, input, i, j);
  }

  /** The username loop cancels registration by itself when it finds no new
      name: three reads none of which is "exit" or a new well-formed name, or
      "exit" at the first deciding read. No password is read then, and the file
      is left as the header step made it. */
  lemma RegisterNameStage(prepared: File, rule: string -> bool, openFails: bool, input: seq<string>)
    ensures var r, isNew := RegisterFrom(prepared, rule, openFails, input), NewUsername(LoadUsers(prepared).users);
            && (UndecidedBefore(isNew, input, "", MaxAttempts)
                ==> r == Registration(RegistrationCancelled, prepared, Min(MaxAttempts, |input|)))
            && (forall i: nat :: i < MaxAttempts && UndecidedBefore(isNew, input, "", i)
                                 && Seen(input, "", i) == ExitToken
                                 ==> r == Registration(RegistrationCancelled, prepared, Min(i + 1, |input|)))
  {
    var isNew := NewUsername(LoadUsers(prepared).users);
    AskExhausted(isNew, input, MaxAttempts, "");
    RegisterFromDecided(prepared, rule, openFails, input);
    forall i: nat | i < MaxAttempts && UndecidedBefore(isNew, input, "", i) && Seen(input, "", i) == ExitToken
      ensures RegisterFrom(prepared, rule, openFails, input)
              == Registration(RegistrationCancelled, prepared, Min(i + 1, |input|))
    {
      AskStopsAt(isNew, input, MaxAttempts, "", i);
    }
  }

  /** With a new name at read `i`, the password loop cancels registration when
      none of its three reads is "exit" or passes the rule, or when "exit" is
      its first deciding read. */
  lemma RegisterPasswordStage(prepared: File, rule: string -> bool, openFails: bool, input: seq<string>, i: nat)
    requires NewNameAt(LoadUsers(prepared).users, input, i)
    ensures var r, rest := RegisterFrom(prepared, rule, openFails, input), After(input, i);
            && (UndecidedBefore(rule, rest, "", MaxAttempts)
                ==> r == Registration(RegistrationCancelled, prepared, Min(i + 1, |input|) + Min(MaxAttempts, |rest|)))
            && (forall j: nat :: j < MaxAttempts && UndecidedBefore(rule, rest, "", j)
                                 && Seen(rest, "", j) == ExitToken
                                 ==> r == Registration(RegistrationCancelled, prepared, Min(i + 1, |input|) + Min(j + 1, |rest|)))
  {
    var rest := After(input, i);
    AskStopsAt(NewUsername(LoadUsers(prepared).users), input, MaxAttempts, "", i);
    AskExhausted(rule, rest, MaxAttempts, "");
    RegisterFromDecided(prepared, rule, openFails, input);
    forall j: nat | j < MaxAttempts && UndecidedBefore(rule, rest, "", j) && Seen(rest, "", j) == ExitToken
      ensures RegisterFrom(prepared, rule, openFails, input)
              == Registration(RegistrationCancelled, prepared, Min(i + 1, |input|) + Min(j + 1, |rest|))
    {
      AskStopsAt(rule, rest, MaxAttempts, "", j);
    }
  }

  /** A registration found its name at the first deciding username read. */
  lemma RegisteredNameAt(prepared: File, rule: string -> bool, openFails: bool, input: seq<string>)
    ensures RegisterFrom(prepared, rule, openFails, input).outcome.Registered? ==>
              exists i: nat :: NewNameAt(LoadUsers(prepared).users, input, i)
  {
    if RegisterFrom(prepared, rule, openFails, input).outcome.Registered? {
      var isNew := NewUsername(LoadUsers(prepared).users);
      RegisterNameStage(prepared, rule, openFails, input);
      AskScan(isNew, input, MaxAttempts, "");
      var i: nat :| i < MaxAttempts && UndecidedBefore(isNew, input, "", i) && Decisive(isNew, Seen(input, "", i));
      assert NewNameAt(LoadUsers(prepared).users, input, i);
    }
  }

  /** With the name at read `i`, a registration found its password at the
      first deciding password read after it. */
  lemma RegisteredPasswordAt(prepared: File, rule: string -> bool, openFails: bool, input: seq<string>, i: nat)
    requires NewNameAt(LoadUsers(prepared).users, input, i)
    ensures RegisterFrom(prepared, rule, openFails, input).outcome.Registered? ==>
              exists j: nat :: && j < MaxAttempts && UndecidedBefore(rule, After(input, i), "", j)
                               && Seen(After(input, i), "", j) != ExitToken && rule(Seen(After(input, i), "", j))
  {
    if RegisterFrom(prepared, rule, openFails, input).outcome.Registered? {
      var rest := After(input, i);
      RegisterPasswordStage(prepared, rule, openFails, input, i);
      AskScan(rule, rest, MaxAttempts, "");
      var j: nat :| j < MaxAttempts && UndecidedBefore(rule, rest, "", j) && Decisive(rule, Seen(rest, "", j));
      assert Seen(rest, "", j) != ExitToken;
    }
  }

  /** Conversely, every registration is one of the runs `RegisterFromAt`
      describes: the name is the first deciding username read and the password
      the first deciding password read after it. */
  lemma RegisterSound(prepared: File, rule: string -> bool, openFails: bool, input: seq<string>)
    ensures var r := RegisterFrom(prepared, rule, openFails, input);
            r.outcome.Registered? ==>
              exists i: nat :: NewNameAt(LoadUsers(prepared).users, input, i)
                               && r.outcome.username == Seen(input, "", i)
                               && (exists j: nat ::
                                     && j < MaxAttempts
                                     && UndecidedBefore(rule, After(input, i), "", j)
                                     && r.outcome.password == Seen(After(input, i), "", j)
                                     && r.used == Min(i + 1, |input|) + Min(j + 1, |After(input, i)|))
  {
    var r := RegisterFrom(prepared, rule, openFails, input);
    if r.outcome.Registered? {
      RegisteredNameAt(prepared, rule, openFails, input);
      var i: nat :| NewNameAt(LoadUsers(prepared).users, input, i);
      RegisteredPasswordAt(prepared, rule, openFails, input, i);
      var j: nat :| && j < MaxAttempts && UndecidedBefore(rule, After(input, i), "", j)
                    && Seen(After(input, i), "", j) != ExitToken && rule(Seen(After(input, i), "", j));
      RegisterFromAt(prepared, rule, openFails, input, i, j);
    }
  }

  /** "exit" as the first token cancels registration having read only it; the
      file is left as the header step made it. */
  lemma RegisterExitCancels(file: File, openFails: bool, input: seq<string>)
    requires |input| >= 1 && input[0] == ExitToken
    ensures RegisterUser(file, openFails, input)
            == Registration(RegistrationCancelled, EnsureFileExists(file), 1)
  {
    ExitCancels(NewUsername(LoadUsers(EnsureFileExists(file)).users), input, "");
  }

  /** Every value a prompt reads is one of the tokens or the empty string. */
  lemma SeenIsInput(input: seq<string>, i: nat)
    ensures Seen(input, "", i) == "" || Seen(input, "", i) in input
  {
  }

  /** A token carries no surrounding white space and survives `trim`. */
  lemma TokenIsTrimmed(t: string)
    requires IsToken(t)
    ensures Trimmed(t)
  {
  }

  /** What the password prompt accepted is one of the tokens it read. */
  lemma PasswordIsToken(rule: string -> bool, input: seq<string>)
    requires AllTokens(input)
    requires GetPassword(rule, input).text != ""
    ensures IsToken(GetPassword(rule, input).text)
  {
    AskScan(rule, input, MaxAttempts, "");
    var r := Ask(rule, input, MaxAttempts, "");
    var i: nat :| i < MaxAttempts && UndecidedBefore(rule, input, "", i)
                  && Decisive(rule, Seen(input, "", i))
                  && (r.answer.Cancelled? <==> Seen(input, "", i) == ExitToken)
                  && (r.answer.Accepted? ==> r.answer.value == Seen(input, "", i))
                  && r.used == Min(i + 1, |input|);
    SeenIsInput(input, i);
  }

  lemma TokensAfter(input: seq<string>, k: nat)
    requires AllTokens(input) && k <= |input|
    ensures AllTokens(input[k..])
  {
    var rest := input[k..];
    forall i | 0 <= i < |rest|
      ensures IsToken(rest[i])
    {
      assert rest[i] == input[k + i];
    }
  }

  /** A registration's password is what the password prompt returned. */
  lemma RegisteredPassword(prepared: File, rule: string -> bool, openFails: bool, input: seq<string>)
    ensures var r := RegisterFrom(prepared, rule, openFails, input);
            var name := GetValidatedUsername(LoadUsers(prepared).users, input);
            r.outcome.Registered? ==> r.outcome.password == GetPassword(rule, input[name.used..]).text
  {
  }

  /** The password of a registration is one of the console tokens. */
  lemma RegisteredPasswordIsToken(prepared: File, rule: string -> bool, openFails: bool, input: seq<string>)
    requires AllTokens(input)
    ensures var r := RegisterFrom(prepared, rule, openFails, input);
            r.outcome.Registered? ==> IsToken(r.outcome.password)
  {
    var name := GetValidatedUsername(LoadUsers(prepared).users, input);
    RegisteredPassword(prepared, rule, openFails, input);
    TokensAfter(input, name.used);
    var e := GetPassword(rule, input[name.used..]);
    if e.text != "" {
      PasswordIsToken(rule, input[name.used..]);
    }
  }

  /** From a file that has its first line, a registration whose password holds
      no '|' is stored so that the next load maps the new name to exactly that
      password and reports the new serial as the largest. */
  lemma RegisteredIsLoaded(prepared: File, rule: string -> bool, openFails: bool, input: seq<string>)
    requires |Lines(prepared)| >= 1 && AllTokens(input)
    ensures var r := RegisterFrom(prepared, rule, openFails, input);
            r.outcome.Registered? && '|' !in r.outcome.password ==>
              LoadUsers(r.file)
              == Loaded(LoadUsers(prepared).users[r.outcome.username := r.outcome.password], r.outcome.serial)
  {
    var r := RegisterFrom(prepared, rule, openFails, input);
    if r.outcome.Registered? && '|' !in r.outcome.password {
      RegisteredPasswordIsToken(prepared, rule, openFails, input);
      var u, p, n := r.outcome.username, r.outcome.password, r.outcome.serial;
      assert prepared == Some(Lines(prepared));
      assert r.file == Some(Lines(prepared) + [FormatRecord(n, u, p)]);
      ValidUsernameIsPlain(u);
      TokenIsTrimmed(p);
      LoadAfterSave(Lines(prepared), n, u, p);
    }
  }

  // Login

  datatype LoginOutcome =
    | LoggedIn(username: string)  // "Login successful. Welcome, <name>!"
    | LoginCancelled              // "Login cancelled."
    | UnknownUsername             // "Too many failed attempts."
    | WrongPassword               // "Too many incorrect password attempts. Login aborted."

  /** The outcome of a login and the tokens each of its two loops consumed. The
      users file is not an output: login only reads it. */
  datatype Login = Login(outcome: LoginOutcome, nameReads: nat, passwordReads: nat)
  {
    function Used(): nat {
      nameReads + passwordReads
    }
  }

  /** What the login username loop accepts: a name that exists in the store. */
  function KnownUsername(users: map<string, string>): string -> bool {
    u => UsernameExists(users, u)
  }

  /** What the login password loop accepts: exactly the stored password. */
  function MatchesStored(stored: string): string -> bool {
    p => p == stored
  }

  /** `loginUser` (Registration.cpp:158-202). */
  function LoginUser(file: File, input: seq<string>): (r: Login)
    ensures r.nameReads <= MaxAttempts && r.passwordReads <= MaxAttempts && r.Used() <= |input|
    ensures r.outcome.LoggedIn? ==>
              var users := LoadUsers(file).users;
              && r.outcome.username in users
              && r.outcome.username != ExitToken
              && users[r.outcome.username] != ExitToken
  {
    LoginWith(LoadUsers(file).users, input)
  }

  /** The login loops against the store `users` loaded at the start. */
  function LoginWith(users: map<string, string>, input: seq<string>): (r: Login)
    ensures r.nameReads <= MaxAttempts && r.passwordReads <= MaxAttempts && r.Used() <= |input|
    ensures r.outcome.UnknownUsername? ==> r.passwordReads == 0
    ensures r.outcome.LoggedIn? ==>
              && r.outcome.username in users
              && r.outcome.username != ExitToken
              && users[r.outcome.username] != ExitToken
  {
    var name := Ask(KnownUsername(users), input, MaxAttempts, "");
    match name.answer
    case Cancelled => Login(LoginCancelled, name.used, 0)
    case Exhausted => Login(UnknownUsername, name.used, 0)
    case Accepted(u) =>
      var pass := Ask(MatchesStored(users[u]), input[name.used..], MaxAttempts, "");
      match pass.answer
      case Accepted(_) => Login(LoggedIn(u), name.used, pass.used)
      case Cancelled => Login(LoginCancelled, name.used, pass.used)
      case Exhausted => Login(WrongPassword, name.used, pass.used)
  }

  /** Read `i` of the username loop is the first that ends it, and names a
      stored user. */
  ghost predicate NameFoundAt(users: map<string, string>, input: seq<string>, i: nat) {
    && i < MaxAttempts
    && UndecidedBefore(KnownUsername(users), input, "", i)
    && Seen(input, "", i) != ExitToken
    && Seen(input, "", i) in users
  }

  /** Login succeeds exactly as follows: read `i` is the first username read
      that is "exit" or a stored name, and it is a stored name `u`; read `j` of
      the password loop is the first that is "exit" or `u`'s stored password,
      and it is that password, which is not "exit". */
  lemma LoginAt(users: map<string, string>, input: seq<string>, i: nat, j: nat)
    requires NameFoundAt(users, input, i)
    requires var u := Seen(input, "", i);
             && j < MaxAttempts && users[u] != ExitToken
             && UndecidedBefore(MatchesStored(users[u]), After(input, i), "", j)
             && Seen(After(input, i), "", j) == users[u]
    ensures LoginWith(users, input)
            == Login(LoggedIn(Seen(input, "", i)), Min(i + 1, |input|), Min(j + 1, |After(input, i)|))
  {
    var u := Seen(input, "", i);
    AskStopsAt(KnownUsername(users), input, MaxAttempts, "", i);
    AskStopsAt(MatchesStored(users[u]), After(input, i), MaxAttempts, "", j);
  }

  /** With the name found at read `i`, three reads none of which is "exit" or
      the stored password abort the login. */
  lemma LoginWrongAt(users: map<string, string>, input: seq<string>, i: nat)
    requires NameFoundAt(users, input, i)
    requires UndecidedBefore(MatchesStored(users[Seen(input, "", i)]), After(input, i), "", MaxAttempts)
    ensures LoginWith(users, input)
            == Login(WrongPassword, Min(i + 1, |input|), Min(MaxAttempts, |After(input, i)|))
  {
    var u := Seen(input, "", i);
    AskStopsAt(KnownUsername(users), input, MaxAttempts, "", i);
    AskExhausted(MatchesStored(users[u]), After(input, i), MaxAttempts, "");
  }

  /** With the name found at read `i`, "exit" as the first deciding password
      read at `j` cancels the login. */
  lemma LoginCancelledAt(users: map<string, string>, input: seq<string>, i: nat, j: nat)
    requires NameFoundAt(users, input, i)
    requires j < MaxAttempts
    requires UndecidedBefore(MatchesStored(users[Seen(input, "", i)]), After(input, i), "", j)
    requires Seen(After(input, i), "", j) == ExitToken
    ensures LoginWith(users, input)
            == Login(LoginCancelled, Min(i + 1, |input|), Min(j + 1, |After(input, i)|))
  {
    var u := Seen(input, "", i);
    AskStopsAt(KnownUsername(users), input, MaxAttempts, "", i);
    AskStopsAt(MatchesStored(users[u]), After(input, i), MaxAttempts, "", j);
  }

  /** The username loop ends the login by itself exactly when it finds no
      stored name: "exit" cancels, and three unknown names give up. No password
      is read then. */
  lemma LoginNameStage(users: map<string, string>, input: seq<string>)
    ensures var r := LoginWith(users, input);
            && (r.outcome.UnknownUsername? <==> UndecidedBefore(KnownUsername(users), input, "", MaxAttempts))
            && (r.outcome.UnknownUsername? ==> r.nameReads == Min(MaxAttempts, |input|))
            && (forall i: nat :: i < MaxAttempts && UndecidedBefore(KnownUsername(users), input, "", i)
                                 && Seen(input, "", i) == ExitToken
                                 ==> r == Login(LoginCancelled, Min(i + 1, |input|), 0))
  {
    var known := KnownUsername(users);
    AskScan(known, input, MaxAttempts, "");
    forall i: nat | i < MaxAttempts && UndecidedBefore(known, input, "", i) && Seen(input, "", i) == ExitToken
      ensures LoginWith(users, input) == Login(LoginCancelled, Min(i + 1, |input|), 0)
    {
      AskStopsAt(known, input, MaxAttempts, "", i);
    }
  }

  /** Conversely, a successful login is one of the runs `LoginAt` describes: the
      name is the first deciding username read and the stored password the
      first deciding password read. */
  lemma LoginSound(users: map<string, string>, input: seq<string>)
    ensures var r := LoginWith(users, input);
            r.outcome.LoggedIn? ==>
              exists i: nat :: NameFoundAt(users, input, i)
                               && r.outcome.username == Seen(input, "", i)
                               && r.nameReads == Min(i + 1, |input|)
                               && users[Seen(input, "", i)] != ExitToken
                               && (exists j: nat ::
                                     && j < MaxAttempts
                                     && UndecidedBefore(MatchesStored(users[Seen(input, "", i)]), After(input, i), "", j)
                                     && Seen(After(input, i), "", j) == users[Seen(input, "", i)]
                                     && r.passwordReads == Min(j + 1, |After(input, i)|))
  {
    var known := KnownUsername(users);
    var name := Ask(known, input, MaxAttempts, "");
    var r := LoginWith(users, input);
    if r.outcome.LoggedIn? {
      AskScan(known, input, MaxAttempts, "");
      var i: nat :| i < MaxAttempts && UndecidedBefore(known, input, "", i)
                    && Decisive(known, Seen(input, "", i))
                    && (name.answer.Cancelled? <==> Seen(input, "", i) == ExitToken)
                    && (name.answer.Accepted? ==> name.answer.value == Seen(input, "", i))
                    && name.used == Min(i + 1, |input|);
      var u := Seen(input, "", i);
      var rest := After(input, i);
      assert rest == input[name.used..];
      var accept := MatchesStored(users[u]);
      var pass := Ask(accept, rest, MaxAttempts, "");
      AskScan(accept, rest, MaxAttempts, "");
      var j: nat :| j < MaxAttempts && UndecidedBefore(accept, rest, "", j)
                    && Decisive(accept, Seen(rest, "", j))
                    && (pass.answer.Cancelled? <==> Seen(rest, "", j) == ExitToken)
                    && (pass.answer.Accepted? ==> pass.answer.value == Seen(rest, "", j))
                    && pass.used == Min(j + 1, |rest|);
      assert NameFoundAt(users, input, i);
    }
  }

  /** A stored name followed by its stored password logs in at once. */
  lemma LoginWithStoredPassword(users: map<string, string>, username: string, rest: seq<string>)
    requires username in users && username != ExitToken && users[username] != ExitToken
    ensures LoginWith(users, [username, users[username]] + rest) == Login(LoggedIn(username), 1, 1)
  {
    var input := [username, users[username]] + rest;
    assert input[1..] == [users[username]] + rest;
  }

  /** Three wrong passwords for a stored name abort the login after four tokens. */
  lemma LoginThreeWrongPasswords(users: map<string, string>, username: string, w1: string, w2: string, w3: string)
    requires username in users && username != ExitToken
    requires w1 != ExitToken && w1 != users[username]
    requires w2 != ExitToken && w2 != users[username]
    requires w3 != ExitToken && w3 != users[username]
    ensures LoginWith(users, [username, w1, w2, w3]) == Login(WrongPassword, 1, 3)
  {
    var input := [username, w1, w2, w3];
    assert input[1..] == [w1, w2, w3];
    assert [w1, w2, w3][1..] == [w2, w3];
    assert [w2, w3][1..] == [w3];
  }

  /** Three unknown names end the login before any password is asked for. */
  lemma LoginThreeUnknownNames(users: map<string, string>, n1: string, n2: string, n3: string, rest: seq<string>)
    requires n1 != ExitToken && n1 !in users
    requires n2 != ExitToken && n2 !in users
    requires n3 != ExitToken && n3 !in users
    ensures LoginWith(users, [n1, n2, n3] + rest) == Login(UnknownUsername, 3, 0)
  {
    var input := [n1, n2, n3] + rest;
    assert input[1..] == [n2, n3] + rest;
    assert input[2..] == [n3] + rest;
  }

  /** "exit" cancels login at the username stage and at the password stage. */
  lemma LoginExitCancels(users: map<string, string>, username: string, rest: seq<string>)
    requires username in users && username != ExitToken
    ensures LoginWith(users, [ExitToken] + rest) == Login(LoginCancelled, 1, 0)
    ensures LoginWith(users, [username, ExitToken] + rest) == Login(LoginCancelled, 1, 1)
  {
    var input := [username, ExitToken] + rest;
    assert input[1..] == [ExitToken] + rest;
  }

  // Invariants of registration

  /** Registration never introduces a second line for a username. */
  lemma RegisterKeepsUsernamesUnique(file: File, openFails: bool, input: seq<string>)
    requires UniqueUsernames(Parsed(Body(file)))
    ensures UniqueUsernames(Parsed(Body(RegisterUser(file, openFails, input).file)))
  {
    var prepared := EnsureFileExists(file);
    assert Body(prepared) == Body(file);
    var r := RegisterUser(file, openFails, input);
    if r.outcome.Registered? {
      var u, n, p := r.outcome.username, r.outcome.serial, r.outcome.password;
      var line := FormatRecord(n, u, p);
      ValidUsernameIsPlain(u);
      FormatRecordHead(n, u, p);
      if |Lines(prepared)| >= 1 {
        AppendKeepsUnique(Lines(prepared), line);
      } else {
        assert Body(r.file) == [];
      }
    }
  }

  /** Once a name is registered into any file except an existing empty one,
      the next load holds it, so registering the same name again fails at
      every attempt and leaves the file as it is. */
  lemma RegisteredNameIsTaken(file: File, openFails: bool, input: seq<string>, openFails2: bool, rest: seq<string>)
    requires file != Some([])
    ensures var r := RegisterUser(file, openFails, input);
            r.outcome.Registered? ==>
              var u := r.outcome.username;
              && u in LoadUsers(r.file).users
              && RegisterUser(r.file, openFails2, [u, u, u] + rest) == Registration(RegistrationCancelled, r.file, 3)
  {
    var r := RegisterUser(file, openFails, input);
    if r.outcome.Registered? {
      var u, n, p := r.outcome.username, r.outcome.serial, r.outcome.password;
      var line := FormatRecord(n, u, p);
      ValidUsernameIsPlain(u);
      FormatRecordHead(n, u, p);
      LoadAfterAppend(Lines(EnsureFileExists(file)), line);
      assert u in LoadUsers(r.file).users;
      TakenNameRejected(r.file, openFails2, u, rest);
    }
  }

  /** A name the store holds is refused three times over. */
  lemma TakenNameRejected(file: File, openFails: bool, u: string, rest: seq<string>)
    requires file.Some? && u in LoadUsers(file).users && u != ExitToken
    ensures RegisterUser(file, openFails, [u, u, u] + rest) == Registration(RegistrationCancelled, file, 3)
  {
    TakenNameRefused(LoadUsers(file).users, u, rest);
  }

  /** The serial of a new record exceeds every serial already in the file. */
  lemma RegisterSerialIsFresh(file: File, openFails: bool, input: seq<string>)
    ensures var r, recs := RegisterUser(file, openFails, input), Parsed(Body(file));
            r.outcome.Registered? ==>
              forall i :: 0 <= i < |recs| && recs[i].serial.Some? ==> recs[i].serial.value < r.outcome.serial
  {
  }

  // Findings

  /** As written, a password holding '|' passes the format rule, is written
      whole, and is read back cut at the '|'. */
  lemma PipePasswordIsCut(file: File, openFails: bool, input: seq<string>, before: string, after: string)
    requires |Lines(EnsureFileExists(file))| >= 1
    requires '|' !in before
    ensures var r := RegisterUser(file, openFails, input);
            r.outcome.Registered? && r.outcome.password == before + "|" + after ==>
              var users := LoadUsers(r.file).users;
              && r.outcome.username in users
              && users[r.outcome.username] == Trim(before)
              && users[r.outcome.username] != r.outcome.password
  {
    var r := RegisterUser(file, openFails, input);
    if r.outcome.Registered? && r.outcome.password == before + "|" + after {
      var u, n, p := r.outcome.username, r.outcome.serial, r.outcome.password;
      var line := FormatRecord(n, u, p);
      var prepared := Lines(EnsureFileExists(file));
      assert Lines(r.file) == prepared + [line];
      ValidUsernameIsPlain(u);
      RecordCutAtPipe(n, u, before, after);
      var rec := ParseLine(line);
      assert rec.username == u && rec.password == Trim(before);
      LoadAfterAppend(prepared, line);
      assert LoadUsers(r.file).users[u] == rec.password;
      assert p[|before|] == '|';
    }
  }

  /** A concrete case: "ab1|cd" is a valid password, "bob" registers with it,
      the store then holds "ab1" for "bob", and "bob" can no longer log in with
      the password chosen at registration. */
  lemma PipePasswordCounterexample(username: string, password: string)
    requires username == "bob" && password == "ab1|cd"
    ensures var r := RegisterUser(Some([Header]), false, [username, password]);
            && r.outcome == Registered(1, username, password)
            && LoadUsers(r.file).users == map[username := "ab1"]
            && LoginUser(r.file, [username, password]).outcome == WrongPassword
  {
    var input := [username, password];
    var r := RegisterUser(Some([Header]), false, input);
    RegisterBobWithPipe();
    var line := FormatRecord(1, username, password);
    assert Lines(r.file) == [Header] + [line];
    var before, after := "ab1", "cd";
    SamplePasswordSplit();
    RecordCutAtPipe(1, username, before, after);
    LoadAfterAppend([Header], line);
    assert LoadUsers(Some([Header])) == Loaded(map[], 0);
    var users := LoadUsers(r.file).users;
    assert users == map[username := before];
    LoginRejectsPipePassword(users);
  }

  /** "bob" is a valid username, and "ab1|cd" and "abc123!" are valid passwords. */
  lemma SampleCredentialsValid()
    ensures IsValidUsername("bob")
    ensures IsValidPassword("ab1|cd") && IsValidPassword("abc123!")
  {
    UsernamePattern("bob");
    assert "bob"[..3] == "bob" && "bob"[3..] == "";
    var p, q := "ab1|cd", "abc123!";
    assert IsAlpha(p[0]) && IsDigit(p[2]) && IsSpecial(p[3]);
    assert IsAlpha(q[0]) && IsDigit(q[3]) && IsSpecial(q[6]);
  }

  lemma SamplePasswordSplit()
    ensures "ab1|cd" == "ab1" + "|" + "cd"
    ensures Trimmed("bob") && '|' !in "bob" && '|' !in "ab1"
    ensures Trim("ab1") == "ab1"
  {
    TrimPadded("ab1", "");
    assert "ab1" + "" == "ab1";
  }

  lemma RegisterBobWithPipe()
    ensures RegisterUser(Some([Header]), false, ["bob", "ab1|cd"]).outcome == Registered(1, "bob", "ab1|cd")
  {
    var input := ["bob", "ab1|cd"];
    SamplePrompts(input[1]);
    assert input[1..] == [input[1]];
    assert LoadUsers(Some([Header])) == Loaded(map[], 0);
  }

  lemma LoginRejectsPipePassword(users: map<string, string>)
    requires "bob" in users && users["bob"] == "ab1"
    ensures LoginWith(users, ["bob", "ab1|cd"]).outcome == WrongPassword
  {
    assert ["bob", "ab1|cd"][1..] == ["ab1|cd"];
  }

  /** As written, registering into an existing but empty file writes no header,
      so the new record is the line `loadUsers` skips: the next load does not
      see the user at all. */
  lemma EmptyFileLosesFirstUser(openFails: bool, input: seq<string>)
    ensures var r := RegisterUser(Some([]), openFails, input);
            r.outcome.Registered? ==>
              LoadUsers(r.file) == Loaded(map[], 0) && r.outcome.username !in LoadUsers(r.file).users
  {
  }

  /** A concrete case: two registrations of "bob" into an empty file both succeed
      with serial 1. */
  lemma EmptyFileCounterexample()
    ensures var r1 := RegisterUser(Some([]), false, ["bob", "abc123!"]);
            && r1.outcome == Registered(1, "bob", "abc123!")
            && RegisterUser(r1.file, false, ["bob", "abc123!"]).outcome == Registered(1, "bob", "abc123!")
  {
    RegisterBobIntoLines([]);
    var r1 := RegisterUser(Some([]), false, ["bob", "abc123!"]);
    assert r1.file == Some([FormatRecord(1, "bob", "abc123!")]);
    RegisterBobIntoLines([FormatRecord(1, "bob", "abc123!")]);
  }

  /** Into a file whose body is empty, "bob" registers with serial 1 and the
      record is appended after the file's lines. */
  lemma RegisterBobIntoLines(lines: seq<string>)
    requires |lines| <= 1
    ensures var r := RegisterUser(Some(lines), false, ["bob", "abc123!"]);
            && r.outcome == Registered(1, "bob", "abc123!")
            && r.file == Some(lines + [FormatRecord(1, "bob", "abc123!")])
  {
    var input := ["bob", "abc123!"];
    SamplePrompts(input[1]);
    assert input[1..] == [input[1]];
    assert Body(Some(lines)) == [];
    assert LoadUsers(Some(lines)) == Loaded(map[], 0);
  }

  /** Both prompts accept "bob" and a sample password at the first attempt. */
  lemma SamplePrompts(password: string)
    requires password == "abc123!" || password == "ab1|cd"
    ensures GetValidatedUsername(map[], ["bob", password]) == Entry("bob", 1)
    ensures GetPassword(IsValidPassword, [password]) == Entry(password, 1)
  {
    SampleCredentialsValid();
  }

  /** With both corrections, a successful registration from any file is read
      back by the next load exactly as entered, under the next serial, and the
      same two tokens then log the user in. */
  lemma RegisterFixedThenLogin(file: File, openFails: bool, input: seq<string>)
    requires AllTokens(input)
    ensures var r := RegisterFixed(file, openFails, input);
            r.outcome.Registered? ==>
              && LoadUsers(r.file)
                 == Loaded(LoadUsers(EnsureHeader(file)).users[r.outcome.username := r.outcome.password],
                           r.outcome.serial)
              && LoginUser(r.file, [r.outcome.username, r.outcome.password]) == Login(LoggedIn(r.outcome.username), 1, 1)
  {
    var r := RegisterFixed(file, openFails, input);
    RegisteredIsLoaded(EnsureHeader(file), IsStorablePassword, openFails, input);
    if r.outcome.Registered? {
      var u, p := r.outcome.username, r.outcome.password;
      assert LoadUsers(r.file).users[u] == p;
      LoginWithStoredPassword(LoadUsers(r.file).users, u, []);
      assert [u, p] + [] == [u, p];
    }
  }
}
