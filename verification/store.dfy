/** The credential store: the users file, the record line format, and the
    in-memory view `loadUsers` builds from the file (Registration.cpp:37-94). */
module Store {
  import opened Wrappers
  import opened Text

  /** The users file as its lines (without line terminators), or None when the
      file does not exist. */
  type File = Option<seq<string>>

  function Lines(f: File): seq<string> {
    f.GetOr([])
  }

  /** The lines `loadUsers` reads as records: every line after the first. */
  function Body(f: File): (b: seq<string>)
    ensures |Lines(f)| >= 1 ==> b == Lines(f)[1..]
    ensures |Lines(f)| <= 1 ==> b == []
  {
    var lines := Lines(f);
    if lines == [] then [] else lines[1..]
  }

  /** The header line `ensureFileExists` writes (Registration.cpp:41-43). */
  const Header: string :=
    PadRight("Sr.No.", 8) + "|" + PadRight("Username", 20) + "|" + PadRight("Password", 20)

  /** `ensureFileExists` (Registration.cpp:37-45): creates the file holding only
      the header when it is absent, and leaves an existing file alone. */
  function EnsureFileExists(f: File): (r: File)
    ensures r.Some? && |Lines(r)| >= |Lines(f)|
    ensures f.Some? ==> r == f
    ensures f.None? ==> Lines(r) == [Header]
  {
    if f.None? then Some([Header]) else f
  }

  /** The file preparation `registerUser` evidently needs: the header is written
      when the file is absent or empty, so that the first line `loadUsers` skips
      is always a header and never a record. */
  function EnsureHeader(f: File): (r: File)
    ensures r.Some? && |Lines(r)| >= 1
    ensures |Lines(f)| >= 1 ==> r == f
    ensures |Lines(f)| == 0 ==> Lines(r) == [Header]
  {
    if Lines(f) == [] then Some([Header]) else f
  }

  /** One line of the file as `loadUsers` reads it: the serial (None when `stoi`
      throws), the trimmed username and the trimmed password. */
  datatype Record = Record(serial: Option<int>, username: string, password: string)

  /** Registration.cpp:57-70: split on '|', trim each field, `stoi` the first. */
  function ParseLine(line: string): (r: Record)
    ensures '|' !in r.username && Trimmed(r.username)
    ensures '|' !in r.password && Trimmed(r.password)
  {
    var (s, u, p) := Fields(line);
    TrimKeepsOut(u, '|');
    TrimKeepsOut(p, '|');
    Record(ParseInt(Trim(s)), Trim(u), Trim(p))
  }

  /** The line `saveUser` writes (Registration.cpp:82-84), without its "\n":
      fields left-justified in widths 8, 20 and 20, joined by '|'. */
  function FormatRecord(serial: int, username: string, password: string): (line: string)
    ensures var head := IntToString(serial);
            var col := if |head| < 8 then 8 else |head|;
            && |line| >= 50 && |line| >= col + |username| + 22
            && line[..|head|] == head
            && line[col] == '|'
            && line[col + 1..col + 1 + |username|] == username
  {
    PadRight(IntToString(serial), 8) + "|" + PadRight(username, 20) + "|" + PadRight(password, 20)
  }

  /** How the three fields of a written line read back: the serial and username
      columns whole, the password column up to its first '|'. */
  lemma FormatRecordFields(serial: int, username: string, password: string)
    requires '|' !in username
    ensures Fields(FormatRecord(serial, username, password))
            == (PadRight(IntToString(serial), 8), PadRight(username, 20), Cut(PadRight(password, 20)).0)
  {
    var s := IntToString(serial);
    assert '|' !in s;
    FieldsJoined(PadRight(s, 8), PadRight(username, 20), PadRight(password, 20));
  }

  /** The serial and username columns of a written line read back as written. */
  lemma FormatRecordHead(serial: int, username: string, password: string)
    requires '|' !in username && Trimmed(username)
    ensures var r := ParseLine(FormatRecord(serial, username, password));
            r.serial == Some(serial) && r.username == username
            && r.password == Trim(Cut(PadRight(password, 20)).0)
  {
    var s := IntToString(serial);
    assert Trimmed(s);
    FormatRecordFields(serial, username, password);
    TrimPadRight(s, 8);
    TrimPadRight(username, 20);
    IntRoundTrip(serial);
  }

  /** A record whose fields hold no '|' and no surrounding white space is read
      back exactly as it was written, whatever its serial. */
  lemma RecordRoundTrip(serial: int, username: string, password: string)
    requires '|' !in username && Trimmed(username)
    requires '|' !in password && Trimmed(password)
    ensures ParseLine(FormatRecord(serial, username, password))
            == Record(Some(serial), username, password)
  {
    FormatRecordHead(serial, username, password);
    PadRightNoPipe(password, 20);
    CutPlain(PadRight(password, 20));
    TrimPadRight(password, 20);
  }

  /** A password holding '|' is read back cut at its first '|'. */
  lemma RecordCutAtPipe(serial: int, username: string, before: string, after: string)
    requires '|' !in username && Trimmed(username)
    requires '|' !in before
    ensures ParseLine(FormatRecord(serial, username, before + "|" + after))
            == Record(Some(serial), username, Trim(before))
  {
    var password := before + "|" + after;
    FormatRecordHead(serial, username, password);
    var pp := PadRight(password, 20);
    var rest := after + Spaces(|pp| - |password|);
    PadRightAfterPipe(before, after, 20);
    CutJoined(before, rest);
    assert Cut(pp).0 == before;
  }

  /** The outcome of `saveUser`: whether the file could be opened, and the file after. */
  datatype Saved = Saved(ok: bool, file: File)

  /** `saveUser` (Registration.cpp:78-86). Opening in append mode creates a missing
      file; whether the open fails is not modelled and comes in as `openFails`. */
  function SaveUser(f: File, openFails: bool, serial: int, username: string, password: string): (r: Saved)
    ensures r.ok <==> !openFails
    ensures !r.ok ==> r.file == f
    ensures r.ok ==> r.file.Some? && |Lines(r.file)| == |Lines(f)| + 1
                     && Lines(r.file)[..|Lines(f)|] == Lines(f)
    ensures r.ok && '|' !in username && Trimmed(username) && '|' !in password && Trimmed(password)
            ==> ParseLine(Lines(r.file)[|Lines(f)|]) == Record(Some(serial), username, password)
  {
    if openFails then Saved(false, f)
    else
      var line := FormatRecord(serial, username, password);
      assert '|' !in username && Trimmed(username) && '|' !in password && Trimmed(password)
             ==> ParseLine(line) == Record(Some(serial), username, password) by {
        if '|' !in username && Trimmed(username) && '|' !in password && Trimmed(password) {
          RecordRoundTrip(serial, username, password);
        }
      }
      Saved(true, Some(Lines(f) + [line]))
  }

  /** The in-memory store `loadUsers` returns: username to password, and the
      largest serial read. */
  datatype Loaded = Loaded(users: map<string, string>, maxSerial: int)

  /** `f` applied to each element of `s`, in order. */
  function MapSeq<A, B>(f: A -> B, s: seq<A>): (r: seq<B>)
    ensures |r| == |s|
  {
    if s == [] then []
    else MapSeq(f, s[..|s| - 1]) + [f(s[|s| - 1])]
  }

  /** Element `i` of the mapped sequence is `f` of element `i`. */
  lemma {:induction false} MapSeqAt<A, B>(f: A -> B, s: seq<A>, i: nat)
    requires i < |s|
    ensures MapSeq(f, s)[i] == f(s[i])
  {
    var init := s[..|s| - 1];
    if i < |init| {
      MapSeqAt(f, init, i);
      assert init[i] == s[i];
    }
  }

  /** The records `loadUsers` reads from `lines`, one per line. */
  function Parsed(lines: seq<string>): (recs: seq<Record>)
    ensures |recs| == |lines|
  {
    MapSeq(ParseLine, lines)
  }

  /** The record at position `i` is the one read from line `i`. */
  lemma ParsedAt(lines: seq<string>, i: nat)
    requires i < |lines|
    ensures Parsed(lines)[i] == ParseLine(lines[i])
  {
    MapSeqAt(ParseLine, lines, i);
  }

  /** The index of the last record naming `u`, or -1 when none does. */
  function LastIndex(recs: seq<Record>, u: string): (k: int)
    ensures -1 <= k < |recs|
    ensures k >= 0 ==> recs[k].username == u
    ensures forall j :: k < j < |recs| ==> recs[j].username != u
  {
    if recs == [] then -1
    else if recs[|recs| - 1].username == u then |recs| - 1
    else
      var init := recs[..|recs| - 1];
      assert forall j :: 0 <= j < |init| ==> init[j] == recs[j];
      LastIndex(init, u)
  }

  /** The keys are exactly the usernames of the records, and each maps to the
      password of the last record naming it. */
  ghost predicate LastWins(recs: seq<Record>, users: map<string, string>) {
    forall u ::
      && (u in users <==> LastIndex(recs, u) >= 0)
      && (u in users ==> users[u] == recs[LastIndex(recs, u)].password)
  }

  /** `m` is the largest serial that parses, or 0 when none exceeds 0. */
  ghost predicate IsMaxSerial(recs: seq<Record>, m: int) {
    && m >= 0
    && (forall i :: 0 <= i < |recs| && recs[i].serial.Some? ==> recs[i].serial.value <= m)
    && (m == 0 || exists i :: 0 <= i < |recs| && recs[i].serial == Some(m))
  }

  ghost predicate Describes(recs: seq<Record>, r: Loaded) {
    LastWins(recs, r.users) && IsMaxSerial(recs, r.maxSerial)
  }

  /** One turn of the loop of Registration.cpp:67-72: insert or overwrite the
      username, and raise the serial when this one parses and is larger. */
  function Step(acc: Loaded, rec: Record): Loaded {
    Loaded(acc.users[rec.username := rec.password],
           if rec.serial.Some? && rec.serial.value > acc.maxSerial then rec.serial.value else acc.maxSerial)
  }

  lemma StepDescribes(init: seq<Record>, rec: Record, acc: Loaded)
    requires Describes(init, acc)
    ensures Describes(init + [rec], Step(acc, rec))
  {
    StepLastWins(init, rec, acc.users);
    StepMaxSerial(init, rec, acc.maxSerial);
  }

  /** The map half of `StepDescribes`. */
  lemma StepLastWins(init: seq<Record>, rec: Record, users: map<string, string>)
    requires LastWins(init, users)
    ensures LastWins(init + [rec], users[rec.username := rec.password])
  {
    var recs := init + [rec];
    var m := users[rec.username := rec.password];
    assert recs[..|recs| - 1] == init;
    forall u
      ensures && (u in m <==> LastIndex(recs, u) >= 0)
              && (u in m ==> m[u] == recs[LastIndex(recs, u)].password)
    {
      if u == rec.username {
        assert LastIndex(recs, u) == |recs| - 1;
      } else {
        assert LastIndex(recs, u) == LastIndex(init, u);
        var k := LastIndex(init, u);
        if k >= 0 {
          assert recs[k] == init[k];
        }
      }
    }
  }

  /** The serial half of `StepDescribes`. */
  lemma StepMaxSerial(init: seq<Record>, rec: Record, m: int)
    requires IsMaxSerial(init, m)
    ensures IsMaxSerial(init + [rec], if rec.serial.Some? && rec.serial.value > m then rec.serial.value else m)
  {
    var recs := init + [rec];
    assert forall i :: 0 <= i < |init| ==> recs[i] == init[i];
    assert recs[|init|] == rec;
  }

  /** The loop of Registration.cpp:56-73 over the records, in file order. */
  function Collect(recs: seq<Record>): (r: Loaded)
    ensures Describes(recs, r)
  {
    if recs == [] then Loaded(map[], 0)
    else
      var init, rec := recs[..|recs| - 1], recs[|recs| - 1];
      var acc := Collect(init);
      assert recs == init + [rec];
      StepDescribes(init, rec, acc);
      Step(acc, rec)
  }

  /** `loadUsers` (Registration.cpp:47-76). A missing file gives an empty store and
      serial 0; otherwise the first line is skipped whatever it holds, each later
      line maps its username to its password with later lines overriding earlier
      ones, and a serial that does not parse is passed over. */
  function LoadUsers(f: File): (r: Loaded)
    ensures f.None? ==> r == Loaded(map[], 0)
    ensures Describes(Parsed(Body(f)), r)
  {
    Collect(Parsed(Body(f)))
  }

  /** `Describes` pins the store down completely: it is a specification of
      `loadUsers`, not just a property of it. */
  lemma DescribesUnique(recs: seq<Record>, r1: Loaded, r2: Loaded)
    requires Describes(recs, r1) && Describes(recs, r2)
    ensures r1 == r2
  {
    assert r1.users.Keys == r2.users.Keys;
    assert r1.users == r2.users;
  }

  /** Appending a line to a file that has its first line appends its record. */
  lemma ParsedAppend(lines: seq<string>, line: string)
    requires |lines| >= 1
    ensures Parsed(Body(Some(lines + [line]))) == Parsed(Body(Some(lines))) + [ParseLine(line)]
  {
    var body := lines[1..];
    var all := body + [line];
    assert Body(Some(lines + [line])) == all;
    assert all[..|all| - 1] == body;
  }

  /** Appending one line to a file that already has its first line adds exactly
      that line's record to the store. */
  lemma LoadAfterAppend(lines: seq<string>, line: string)
    requires |lines| >= 1
    ensures LoadUsers(Some(lines + [line])) == Step(LoadUsers(Some(lines)), ParseLine(line))
  {
    var body := lines[1..];
    assert Body(Some(lines + [line])) == body + [line];
    var recs := Parsed(body + [line]);
    assert recs[..|recs| - 1] == Parsed(body);
    assert recs[|recs| - 1] == ParseLine(line);
  }

  /** Appending a plain record to a file that has its first line: the next load
      maps its username to its password and counts its serial. */
  lemma LoadAfterSave(lines: seq<string>, serial: int, username: string, password: string)
    requires |lines| >= 1
    requires '|' !in username && Trimmed(username)
    requires '|' !in password && Trimmed(password)
    ensures LoadUsers(Some(lines + [FormatRecord(serial, username, password)]))
            == Step(LoadUsers(Some(lines)), Record(Some(serial), username, password))
    ensures serial > LoadUsers(Some(lines)).maxSerial ==>
              LoadUsers(Some(lines + [FormatRecord(serial, username, password)]))
              == Loaded(LoadUsers(Some(lines)).users[username := password], serial)
  {
    RecordRoundTrip(serial, username, password);
    LoadAfterAppend(lines, FormatRecord(serial, username, password));
  }

  /** No two records carry the same username. */
  ghost predicate UniqueUsernames(recs: seq<Record>) {
    forall i, j :: 0 <= i < j < |recs| ==> recs[i].username != recs[j].username
  }

  /** Appending a line whose username the store does not hold keeps the
      usernames of the records distinct. */
  lemma AppendKeepsUnique(lines: seq<string>, line: string)
    requires |lines| >= 1
    requires UniqueUsernames(Parsed(Body(Some(lines))))
    requires ParseLine(line).username !in LoadUsers(Some(lines)).users
    ensures UniqueUsernames(Parsed(Body(Some(lines + [line]))))
  {
    ParsedAppend(lines, line);
    UniqueAppend(Parsed(Body(Some(lines))), ParseLine(line), LoadUsers(Some(lines)));
  }

  lemma UniqueAppend(recs: seq<Record>, rec: Record, loaded: Loaded)
    requires UniqueUsernames(recs) && Describes(recs, loaded)
    requires rec.username !in loaded.users
    ensures UniqueUsernames(recs + [rec])
  {
    forall i | 0 <= i < |recs|
      ensures recs[i].username != rec.username
    {
      assert LastIndex(recs, recs[i].username) >= i;
    }
  }

  /** Creating the file with its header loads as the empty store, and doing it a
      second time changes nothing: the file keeps exactly one header line. */
  lemma EnsureFileExistsIdempotent(f: File)
    ensures EnsureFileExists(EnsureFileExists(f)) == EnsureFileExists(f)
    ensures LoadUsers(EnsureFileExists(f)) == LoadUsers(f)
    ensures f.None? ==> EnsureFileExists(EnsureFileExists(f)) == Some([Header])
  {
  }

  /** The corrected header step does not change what `loadUsers` returns. */
  lemma EnsureHeaderKeepsLoad(f: File)
    ensures LoadUsers(EnsureHeader(f)) == LoadUsers(f)
  {
    if Lines(f) == [] {
      assert Body(EnsureHeader(f)) == [] && Body(f) == [];
    }
  }

  /** `usernameAvailable` (Registration.cpp:88-90). */
  function UsernameAvailable(users: map<string, string>, username: string): (b: bool)
    ensures b <==> !UsernameExists(users, username)
  {
    username !in users
  }

  /** `usernameExists` (Registration.cpp:92-94). */
  function UsernameExists(users: map<string, string>, username: string): (b: bool)
    ensures b <==> exists p :: (username, p) in users.Items
  {
    if username in users then
      assert (username, users[username]) in users.Items;
      true
    else false
  }

  /** Against a loaded store, a name exists exactly when some record line after
      the first carries it, and is available exactly when it does not exist. */
  lemma ExistsIffRecorded(f: File, username: string)
    ensures UsernameExists(LoadUsers(f).users, username)
            <==> exists i :: 0 <= i < |Body(f)| && ParseLine(Body(f)[i]).username == username
    ensures UsernameAvailable(LoadUsers(f).users, username)
            <==> !UsernameExists(LoadUsers(f).users, username)
  {
    var recs := Parsed(Body(f));
    KeyIffNamed(recs, LoadUsers(f).users, username);
    if exists i :: 0 <= i < |Body(f)| && ParseLine(Body(f)[i]).username == username {
      var i :| 0 <= i < |Body(f)| && ParseLine(Body(f)[i]).username == username;
      ParsedAt(Body(f), i);
    }
    if username in LoadUsers(f).users {
      var i :| 0 <= i < |recs| && recs[i].username == username;
      ParsedAt(Body(f), i);
    }
  }

  /** Under `LastWins` a name is a key exactly when some record carries it. */
  lemma KeyIffNamed(recs: seq<Record>, users: map<string, string>, u: string)
    requires LastWins(recs, users)
    ensures u in users <==> exists i :: 0 <= i < |recs| && recs[i].username == u
  {
    var k := LastIndex(recs, u);
    if k >= 0 {
      assert recs[k].username == u;
    }
  }
}
