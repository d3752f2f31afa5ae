# Credential store of the login and registration utility

This project models the core of a small C++ command-line program
(`Registration.cpp`) that registers and authenticates users against a flat
text file, `users.txt`. The file has one fixed-width header line and then
one record per line: serial number, username and password, joined by `|`.

The model has six Dafny modules:

- `Wrappers`: the `Option` type.
- `Text`: the string routines the program uses. `trim` strips space, tab,
  CR and LF. A line is split into the three fields that `getline(ss, …, '|')`
  reads. `setw` pads on the right and never truncates. Integers are read as
  `stoi` reads them and written as `operator<<` writes them.
- `Validation`: `isValidUsername` (`^[a-z]+[0-9]*$`) and `isValidPassword`
  (at least 6 characters, with a letter, a digit and a character that is
  neither).
- `Store`: the users file as `Option<seq<string>>` (None means the file does
  not exist). It covers `ensureFileExists`, the record line format,
  `saveUser`, `loadUsers` (a username-to-password map plus the largest serial)
  and the availability checks.
- `Prompt`: the bounded-retry prompts. Console input is a sequence of tokens.
  All four retry loops of the program share one definition, `Ask`:
  - read a token;
  - `"exit"` cancels;
  - an acceptable token ends the loop;
  - anything else counts as a failed attempt, and the loop gives up after
    `MaxAttempts` = 3 attempts.

  When the input runs out, `cin >>` fails and leaves the variable unchanged.
  `Seen` models this.
- `Session`: `registerUser` and `loginUser` as functions. Each takes the file
  and the tokens and returns an outcome, the tokens consumed and, for
  registration, the file afterwards. Login has no file result because it
  only reads the store.

`loadUsers` is specified as a whole, not only by its properties.
`Store.Describes` says three things:
- the keys are exactly the usernames on the lines after the first;
- each key maps to the password of the last line that names it;
- the serial is the largest one that parses, or 0.

`Store.DescribesUnique` proves that this description fixes the result.

When a line is loaded, its username and password are trimmed (Registration.cpp:63-65). A serial that `stoi` cannot read is skipped (Registration.cpp:69-72). Since the maximum starts at 0, skipping it gives the same result as counting it as 0.

## Model

| member | source | states |
|---|---|---|
| `Text.Trim` | Registration.cpp:14-19 | The result does not start or end with a space, tab, CR or LF. It is empty exactly when the input consists only of such characters (or is empty). |
| `Text.TrimInfix` | Registration.cpp:14-19 | The result of `trim` is a contiguous piece of the input, and everything cut off on either side is space, tab, CR or LF. |
| `Text.TrimKeepsOut` | Registration.cpp:14-19 | `trim` adds no character: one absent from the input is absent from the result. |
| `Text.ParseInt` | Registration.cpp:69-72 | `stoi` yields a number exactly when a digit follows the leading white space and the optional sign. Otherwise it throws, modelled as None. |
| `Text.IntRoundTrip` | Registration.cpp:70 | For every integer, `stoi` reads back exactly the value `operator<<` writes. Negative numbers and 0 are included. |
| `Text.PadRight` | Registration.cpp:82-84 | `left << setw(w)` keeps the whole value. It adds spaces after the value up to `w` characters and never truncates. |
| `Text.Cut` | Registration.cpp:59-61 | One `getline(ss, field, '\|')` reads a field with no `\|`. When a `\|` ended the field, the rest of the line is what follows that `\|`. |
| `Text.Fields` | Registration.cpp:57-61 | None of the three fields read from a line holds a `\|`. |
| `Text.FieldsJoined` | Registration.cpp:57-61 | A line `a\|b\|c` splits into the fields `a` and `b`. The third field is `c`, cut at any further `\|`. |
| `Validation.UsernamePattern` | Registration.cpp:21-23 | The username check is true exactly when the string splits into one or more of `a`-`z` followed by zero or more of `0`-`9`. |
| `Validation.IsValidUsername` | Registration.cpp:21-23 | An accepted username is non-empty, starts with a lower-case letter and holds only lower-case letters and digits. |
| `Validation.ScanClasses` | Registration.cpp:27-33 | After the scan, the letter flag is set exactly when the string holds a letter. The same holds for the digit flag and digits, and for the special flag and characters that are neither. |
| `Validation.IsValidPassword` | Registration.cpp:25-35 | False below 6 characters. Otherwise true exactly when there is at least one letter, one digit and one character that is neither. |
| `Validation.ValidUsernameIsPlain` | Registration.cpp:21-23 | A valid username holds no `\|` and has no white space at either end, so the record format cannot alter it. |
| `Validation.IsStorablePassword` | Registration.cpp:25-35 | A storable password is exactly a valid password that one `getline(ss, field, '\|')` reads back whole, with nothing left over. It has at least 6 characters. |
| `Store.EnsureFileExists` | Registration.cpp:37-45 | An existing file is returned unchanged. An absent file becomes a file holding exactly the header line. |
| `Store.EnsureFileExistsIdempotent` | Registration.cpp:37-45 | Applying the header step twice equals applying it once. An absent file gets exactly one header. The header step never changes what `loadUsers` returns. |
| `Store.EnsureHeader` | Registration.cpp:37-45 | The corrected header step: afterwards the file always has a first line. A file that had lines is unchanged. |
| `Store.EnsureHeaderKeepsLoad` | Registration.cpp:37-45 | The corrected header step does not change what `loadUsers` returns. |
| `Store.ParseLine` | Registration.cpp:57-70 | The username and password read from a line hold no `\|` and have no surrounding white space. |
| `Store.FormatRecord` | Registration.cpp:82-84 | A written line has at least 50 characters. It starts with the serial as `operator<<` writes it. A `\|` follows the serial column, which is 8 wide, or wider when the serial is longer. The username follows that `\|` unchanged. |
| `Store.FormatRecordFields` | Registration.cpp:82-84 | A written line splits back into the padded serial and username columns, followed by the password column up to its first `\|`. |
| `Store.FormatRecordHead` | Registration.cpp:57-70 | The serial and the username of a written line read back exactly as written, for any serial. |
| `Store.RecordRoundTrip` | Registration.cpp:82-84 | Take any serial, and a username and password with no `\|` and no surrounding white space. The line `saveUser` writes for them parses back to exactly that serial, username and password. |
| `Store.RecordCutAtPipe` | Registration.cpp:57-61 | A password `a\|b` is written whole but read back as `trim(a)`. |
| `Store.SaveUser` | Registration.cpp:78-86 | It reports success exactly when the file opens. A failed open leaves the file unchanged. On success, exactly one line is appended, the earlier lines stay as they were, and a plain record on that line reads back as written. |
| `Store.ParsedAt` | Registration.cpp:56-65 | The records are read one per line, in order: record `i` is the one read from line `i`. |
| `Store.LastIndex` | Registration.cpp:67 | Gives the last position whose record names the user, or -1 when no record does. |
| `Store.StepLastWins` | Registration.cpp:67 | Inserting or overwriting one username keeps "last record wins" true for the records read so far plus the new one. |
| `Store.StepMaxSerial` | Registration.cpp:69-71 | Raising the maximum to a larger parsed serial keeps it the largest serial read so far, or 0. |
| `Store.StepDescribes` | Registration.cpp:67-71 | One turn of the loading loop keeps the description true for the records read so far. |
| `Store.Collect` | Registration.cpp:56-73 | The loop's result satisfies `Describes`. The keys are exactly the usernames and the last occurrence wins. The serial is the largest that parses, or 0. A serial that does not parse is passed over. |
| `Store.LoadUsers` | Registration.cpp:47-76 | An absent file loads as the empty map and 0. Otherwise the first line is skipped whatever it holds, and the lines after it are described by `Describes`. |
| `Store.DescribesUnique` | Registration.cpp:47-76 | Two results that fit the same records are equal, so `Describes` fully specifies `loadUsers`. |
| `Store.ParsedAppend` | Registration.cpp:56-65 | Appending a line to a file that has a first line appends that line's record. |
| `Store.LoadAfterAppend` | Registration.cpp:56-73 | Appending a line to a file that has a first line adds exactly that line's record to the loaded store: its username maps to its password, and the serial is raised if larger. |
| `Store.LoadAfterSave` | Registration.cpp:56-84 | Append a record with no `\|` and no surrounding white space in its fields to a file that has a first line. The next load maps its username to its password and counts its serial. |
| `Store.UniqueAppend` | Registration.cpp:67 | Adding a record whose username is not in the store keeps usernames distinct. |
| `Store.AppendKeepsUnique` | Registration.cpp:88-90 | Appending a line whose username is not in the store keeps the usernames of all records distinct. |
| `Store.KeyIffNamed` | Registration.cpp:67 | Under "last record wins", a name is a key exactly when some record carries it. |
| `Store.UsernameAvailable` | Registration.cpp:88-90 | A name is available exactly when it does not exist in the store. |
| `Store.UsernameExists` | Registration.cpp:92-94 | A name exists exactly when the store holds a password for it. |
| `Store.ExistsIffRecorded` | Registration.cpp:88-94 | Against the loaded store, a name exists exactly when some line after the first carries it. Availability is the negation of existence. |
| `Prompt.Ask` | Registration.cpp:96-113 | The shared retry loop consumes at most `left` tokens. An accepted token satisfies the loop's test and is never `"exit"`. |
| `Prompt.AskExhausted` | Registration.cpp:99-112 | The loop runs out of attempts exactly when none of its reads is `"exit"` or acceptable. It has then consumed one token per attempt while tokens last. |
| `Prompt.AskDecided` | Registration.cpp:99-112 | A loop that does not run out stops at the first read that is `"exit"` or acceptable. The outcome is decided by that read, and the loop has consumed the tokens up to it. |
| `Prompt.AskStopsAt` | Registration.cpp:99-112 | When read `i` is the first one that is `"exit"` or acceptable, the loop ends there. It is cancelled if that read is `"exit"` and accepted with it otherwise, and it consumes `i + 1` tokens, or all of them if fewer remain. |
| `Prompt.AskScan` | Registration.cpp:96-113 | The loop is exhausted exactly when none of its 3 reads is `"exit"` or acceptable. Otherwise it stops at the first read that is: cancelled if that read is `"exit"`, accepted with that token otherwise. The tokens consumed are those up to that read. |
| `Prompt.GetValidatedUsername` | Registration.cpp:96-113 | Consumes at most 3 tokens. A non-empty result is a valid username, not already in the map, and not `"exit"`. |
| `Prompt.UsernamePromptScan` | Registration.cpp:96-113 | The prompt returns `""` exactly when the first deciding read is `"exit"` or no read decides. A returned name is the first acceptable token read. |
| `Prompt.GetPassword` | Registration.cpp:115-130 | With any password rule: consumes at most 3 tokens, and a non-empty result satisfies the rule and is not `"exit"`. |
| `Prompt.GetValidatedPassword` | Registration.cpp:115-130 | Consumes at most 3 tokens. A non-empty result is a valid password. |
| `Prompt.TakenNameRefused` | Registration.cpp:103-110 | A name already in the map, entered three times, is refused each time. The prompt returns `""` after 3 tokens. |
| `Prompt.ExitCancels` | Registration.cpp:102 | `"exit"` as the first token cancels at once and consumes only itself. |
| `Prompt.ExitNeverAccepted` | Registration.cpp:102 | `"exit"` is a well-formed username, yet the username prompt never returns it, so it can never be registered. |
| `Session.RegisterFrom` | Registration.cpp:134-155 | Consumes at most 6 tokens. Without a successful registration the file is left as the header step made it. A save error happens only when the open fails. A registration has serial `maxSerial+1`, a valid name new to the store, a password passing the rule, and exactly one appended line. |
| `Session.RegisterFromDecided` | Registration.cpp:134-155 | The converse of `RegisterFrom`'s contract. When both prompts return a value, the user is registered under `maxSerial+1` with them, or a save error is reported when the open fails. When either prompt returns `""`, registration is cancelled. The tokens consumed are the username prompt's plus, if it returned a name, the password prompt's. |
| `Session.RegisterFromAt` | Registration.cpp:140-155 | Suppose username read `i` is the first that is `"exit"` or a new valid name, and it is a name. Suppose also that password read `j` after it is the first that is `"exit"` or passes the rule, and it passes. Then the user is registered under `maxSerial+1` with these two tokens, or the save fails when the open does. It consumes `i + 1` and `j + 1` tokens. |
| `Session.RegisterPreparedAt` | Registration.cpp:134-155 | The same, from a prepared file that loads like the original, with a non-empty password read. |
| `Session.RegisterNameStage` | Registration.cpp:140-144 | Registration is cancelled, with the file left as the header step made it, in two cases. In the first, none of the 3 username reads is `"exit"` or a new valid name; it then consumes 3 tokens, or all of them if fewer remain. In the second, `"exit"` is the first deciding read, at position `i`; it then consumes `i + 1` tokens. |
| `Session.RegisterPasswordStage` | Registration.cpp:146-150 | With a new name at read `i`, registration is cancelled in two cases. In the first, none of the 3 password reads is `"exit"` or passes the rule. In the second, `"exit"` is the first deciding password read. The tokens consumed are counted as in the two prompts. |
| `Session.RegisteredNameAt` | Registration.cpp:140-144 | A registration found its name at the first deciding username read. |
| `Session.RegisteredPasswordAt` | Registration.cpp:146-150 | With the name at read `i`, a registration found its password at the first deciding password read after it, and that read passes the rule. |
| `Session.RegisterSound` | Registration.cpp:134-155 | Every registration is a run of the kind `RegisterFromAt` describes. The name is the first deciding username read, and the password is the first deciding password read after it. The tokens consumed are exactly those up to both reads. |
| `Session.RegisterUser` | Registration.cpp:132-156 | As `RegisterFrom`, applied to the original header step and password rule. The new serial is one above the largest in the file, and the new name was not in it. |
| `Session.RegisterUserAt` | Registration.cpp:132-156 | `registerUser` in terms of the tokens read. Take a new valid name at the first deciding username read and a valid password at the first deciding password read. Then the user is registered under the file's `maxSerial+1`, or a save error is reported when the open fails. |
| `Session.RegisterExitCancels` | Registration.cpp:140-144 | `"exit"` at the username prompt cancels the registration after one token. The file is only given its header. |
| `Session.RegisteredPasswordIsToken` | Registration.cpp:146-152 | When every input is a console token, a registered password is one of them. |
| `Session.PasswordIsToken` | Registration.cpp:120 | When every input is a console token, so is an accepted password. |
| `Session.RegisteredIsLoaded` | Registration.cpp:152-153 | Take a file that has a first line, a password without `\|`, and input in which every entry is a console token. After registration, the next load is the old store plus the new name mapped to that password, with the new serial as the largest. |
| `Session.RegisteredNameIsTaken` | Registration.cpp:132-156 | Take a file that is not an empty existing file. After a registration the next load holds the name, and registering it again fails at every attempt and leaves the file unchanged. |
| `Session.TakenNameRejected` | Registration.cpp:140-144 | A stored name given three times cancels the registration and leaves an existing file unchanged. |
| `Session.RegisterKeepsUsernamesUnique` | Registration.cpp:105-106 | If the usernames of the records are distinct before a registration, they are distinct after it. |
| `Session.RegisterSerialIsFresh` | Registration.cpp:136-152 | A new record's serial is larger than every serial that parses in the file. |
| `Session.LoginWith` | Registration.cpp:164-201 | Reads at most 3 usernames and at most 3 passwords, and no password after an unknown-username outcome. A success names a stored user other than `"exit"`, whose stored password is not `"exit"`. |
| `Session.LoginAt` | Registration.cpp:164-194 | Suppose username read `i` is the first that is `"exit"` or a stored name, and it is a stored name `u`. Suppose also that password read `j` is the first that is `"exit"` or `u`'s stored password, and it is that password, which is not `"exit"`. Then the login succeeds as `u` after `i + 1` username reads and `j + 1` password reads. |
| `Session.LoginWrongAt` | Registration.cpp:185-201 | With the name found at read `i`, suppose none of 3 password reads is `"exit"` or the stored password. Then the login ends with the too-many-incorrect-passwords outcome. |
| `Session.LoginCancelledAt` | Registration.cpp:185-191 | With the name found at read `i`, `"exit"` as the first deciding password read cancels the login. |
| `Session.LoginNameStage` | Registration.cpp:166-181 | The login ends with too many failed username attempts exactly when none of the 3 username reads is `"exit"` or a stored name. `"exit"` as the first deciding read cancels. Neither case reads a password. |
| `Session.LoginUser` | Registration.cpp:158-202 | The same bounds and success facts, against the store loaded from the file. The file is an input only, never an output. |
| `Session.LoginSound` | Registration.cpp:164-194 | Every successful login is a run of the kind `LoginAt` describes. The name is the first deciding username read, and the stored password is the first deciding password read after it. The reads counted are exactly those up to both. |
| `Session.LoginWithStoredPassword` | Registration.cpp:166-194 | A stored name followed by its stored password logs in after one username read and one password read. |
| `Session.LoginThreeWrongPasswords` | Registration.cpp:185-201 | A stored name followed by three wrong passwords ends with the "too many incorrect password attempts" outcome after one username read and three password reads. |
| `Session.LoginThreeUnknownNames` | Registration.cpp:166-181 | Three unknown names end the login with the "too many failed attempts" outcome after three username reads. No password is asked for. |
| `Session.LoginExitCancels` | Registration.cpp:169-191 | `"exit"` cancels the login at the username prompt, after one read, and at the password prompt, after one read of each. |
| `Session.PipePasswordIsCut` | Registration.cpp:78-86 | Take a file that has a first line after `ensureFileExists`, which is any file except an existing empty one. A registered password `a\|b` is loaded back as `trim(a)`, which differs from the password entered. |
| `Session.SampleCredentialsValid` | Registration.cpp:21-35 | `"bob"` passes the username rule, and `"ab1\|cd"` and `"abc123!"` pass the password rule. |
| `Session.PipePasswordCounterexample` | Registration.cpp:152-194 | Register `"bob"` with `"ab1\|cd"` into a header-only file. The registration succeeds with serial 1, the store then holds `"ab1"`, and logging in with `"ab1\|cd"` fails. |
| `Session.EmptyFileLosesFirstUser` | Registration.cpp:37-45 | Register into an existing but empty file. The next load is empty and does not contain the new user. |
| `Session.EmptyFileCounterexample` | Registration.cpp:37-45 | Into an empty existing file, `"bob"` registers twice, both times with serial 1. |
| `Session.RegisterFixed` | Registration.cpp:132-156 | The corrected registration consumes at most 6 tokens. A stored password is valid and contains no `\|`. The new serial is one above the largest in the file, the new name was not in it, and the file gains its header if needed plus exactly one line. A registration that does not succeed leaves the file with just the header added. |
| `Session.RegisterFixedAt` | Registration.cpp:132-156 | The corrected registration in terms of the tokens read. Take a new valid name at the first deciding username read and a storable password at the first deciding password read. Then the user is registered under the file's `maxSerial+1`, or the save fails when the open does. |
| `Session.RegisterFixedThenLogin` | Registration.cpp:132-202 | When every input is a console token: after a corrected registration from any file, the next load holds the new name with exactly the password entered, under the new serial. Those two tokens then log the user in. |

## Left out

- Console output, the `main` menu loop and its recovery from non-numeric input (Registration.cpp:204-229). The model covers only the flows the menu calls. Input is a sequence of whitespace-free tokens, and messages are outcome values.
- The file name `users.txt` and real file-system behaviour. The file is a parameter. An `ifstream` that fails on a file that exists, and an `ofstream` failure in `ensureFileExists`, are not modelled. Only the `saveUser` open failure is modelled, as a flag.
- Line terminators: a file is a sequence of complete lines, each ended by a newline. A file whose last line lacks its newline is not modelled; `saveUser` would append the record to that line. A token cannot contain a newline, so a written record is always one line.
- `stoi` range errors and the width of `int`. Serials are unbounded integers, so `out_of_range` and an overflow of `maxSerial + 1` are not modelled.
- `std::regex` is replaced by the equivalent character scan. `isalpha` and `isdigit` are the ASCII classes of the "C" locale.
- Concurrency and the lack of file locking: the program is sequential.
- Characters, not bytes: strings are sequences of characters. The program's `password.length()` and `setw` count bytes, so the length check and the column widths agree with the model only on ASCII input. For example, `ab1!é` is 5 characters but 6 bytes in UTF-8.
- Session.RegisterFixedThenLogin: holds for files whose last line ends in a newline. `ios::app` appends right after the last byte, so a last line without a newline would have the new record joined onto it. A header-only file with no final newline would then lose the registered user.

## Findings

| source | as written | input that shows it | evidently intended | confidence | as-written member | corrected member |
|---|---|---|---|---|---|---|
| Registration.cpp:25-35 | `\|` counts as a special character, so a password may contain it. `saveUser` writes it whole. `loadUsers` reads the password field only up to that `\|`. | Into a header-only file, register `bob` with `ab1\|cd`. The store then maps `bob` to `ab1`, and logging in with `ab1\|cd` fails. | A password accepted at registration logs the user in. | high, not executed | Session.PipePasswordCounterexample | Session.RegisterFixedThenLogin |
| Registration.cpp:37-45 | The header is written only when the file is absent. An existing empty file gets none, so the first record becomes the line `loadUsers` skips as the header. | With an existing empty `users.txt`, register `bob` / `abc123!` twice. The load before the second registration does not find `bob`, so both registrations get serial 1. | Every record follows a header line, so each registered user is loaded. | medium, not executed | Session.EmptyFileCounterexample | Session.RegisterFixedThenLogin |

The corrected flow `Session.RegisterFixed` makes two changes:
- It uses `Store.EnsureHeader`, which writes the header whenever the file has no first line.
- It uses `Validation.IsStorablePassword`, which refuses `|` at the password prompt.

`Session.RegisterFixedThenLogin` proves that a corrected registration is loaded back exactly and logs in. This holds from any file whose last line ends in a newline.
