/**
 * The field validators of the bot's configuration (`config.py`) and the database
 * connection string.
 */
module Config {
  import opened Wrappers
  import opened Text
  import opened Sorting

  datatype DatabaseConfiguration = DatabaseConfiguration(
    host: string,
    port: int,
    username: string,
    password: string,
    databaseName: string,
    poolSize: int,
    echo: bool)

  const HostEmptyError := ValueError("Host cannot be empty")

  /** `DatabaseConfiguration.validate_host`: reject a blank host, otherwise return it stripped. */
  function ValidateHost(u: Unicode, value: string): (r: Result<string, Exception>)
    ensures r.Failure? <==> forall k :: 0 <= k < |value| ==> u.isSpace(value[k])
    ensures r.Failure? ==> r.error == HostEmptyError
    ensures r.Success? ==> r.value == Strip(u, value)
    ensures r.Success? ==> r.value != [] && !u.isSpace(r.value[0]) && !u.isSpace(r.value[|r.value| - 1])
  {
    StripBlank(u, value);
    if Strip(u, value) == [] then Failure(HostEmptyError) else Success(Strip(u, value))
  }

  /** An accepted host passes the validator again unchanged. */
  lemma ValidateHostIdempotent(u: Unicode, value: string)
    requires ValidateHost(u, value).Success?
    ensures ValidateHost(u, ValidateHost(u, value).value) == ValidateHost(u, value)
  {
    StripIdempotent(u, value);
  }

  /** `DatabaseConfiguration.connection_string`. */
  function ConnectionString(db: DatabaseConfiguration): string {
    "postgresql://" + db.username + ":" + db.password + "@" + db.host + ":" + IntToString(db.port) + "/" + db.databaseName
  }

  datatype ConnectionParts = ConnectionParts(username: string, password: string, host: string, port: string, databaseName: string)

  const Scheme := "postgresql://"

  /** Splits s at the first c: the text before it and the text after it, or `None` when c does not occur. */
  function Cut(s: string, c: char): (r: Option<(string, string)>)
    ensures r.None? <==> c !in s
    ensures r.Some? ==> s == r.value.0 + [c] + r.value.1 && c !in r.value.0
  {
    var i := IndexOf(s, c);
    if i == |s| then None
    else
      assert s == s[..i] + [c] + s[i + 1..];
      Some((s[..i], s[i + 1..]))
  }

  lemma CutAt(a: string, c: char, b: string)
    requires c !in a
    ensures Cut(a + [c] + b, c) == Some((a, b))
  {
    IndexOfAfter(a, c, b);
    var s := a + [c] + b;
    assert s[..|a|] == a && s[|a| + 1..] == b;
  }

  /**
   * Reads a connection string back: the user name runs to the first ':', the password to
   * the next '@', the host to the next ':', the port to the next '/', the database name to the end.
   */
  function ParseConnectionString(s: string): Option<ConnectionParts> {
    if !(Scheme <= s) then None
    else
      match Cut(s[|Scheme|..], ':')
      case None => None
      case Some((user, r2)) =>
        match Cut(r2, '@')
        case None => None
        case Some((password, r3)) =>
          match Cut(r3, ':')
          case None => None
          case Some((host, r4)) =>
            match Cut(r4, '/')
            case None => None
            case Some((port, name)) => Some(ConnectionParts(user, password, host, port, name))
  }

  /**
   * The connection string keeps every field recoverable as long as the user name has no ':',
   * the password no '@' and the host no ':'; the port text reads back as the port.
   */
  lemma ConnectionStringRoundTrip(db: DatabaseConfiguration)
    requires ':' !in db.username && '@' !in db.password && ':' !in db.host
    ensures ParseConnectionString(ConnectionString(db)) ==
      Some(ConnectionParts(db.username, db.password, db.host, IntToString(db.port), db.databaseName))
    ensures ParseInt(IntToString(db.port)) == db.port
  {
    var port := IntToString(db.port);
    assert '/' !in port by {
      if db.port < 0 {
        assert port == [port[0]] + port[1..];
      }
    }
    var r4 := port + ['/'] + db.databaseName;
    var r3 := db.host + [':'] + r4;
    var r2 := db.password + ['@'] + r3;
    var r1 := db.username + [':'] + r2;
    assert ConnectionString(db) == Scheme + r1;
    assert (Scheme + r1)[|Scheme|..] == r1;
    CutAt(db.username, ':', r2);
    CutAt(db.password, '@', r3);
    CutAt(db.host, ':', r4);
    CutAt(port, '/', db.databaseName);
    ParseIntToString(db.port);
  }

  /** A password holding '@' reads back cut short at that '@'. */
  lemma AtInPasswordMisreads()
    ensures ParseConnectionString(ConnectionString(DatabaseConfiguration("h", 1, "u", "p@q", "d", 10, false))) ==
      Some(ConnectionParts("u", "p", "q@h", "1", "d"))
  {
    assert IntToString(1) == "1";
    var r4 := "1" + ['/'] + "d";
    var r3 := "q@h" + [':'] + r4;
    var r2 := "p" + ['@'] + r3;
    var r1 := "u" + [':'] + r2;
    assert ConnectionString(DatabaseConfiguration("h", 1, "u", "p@q", "d", 10, false)) == Scheme + r1;
    assert (Scheme + r1)[|Scheme|..] == r1;
    CutAt("u", ':', r2);
    CutAt("p", '@', r3);
    CutAt("q@h", ':', r4);
    CutAt("1", '/', "d");
  }

  const UsernameAtError := ValueError("Bot username must start with @")
  const UsernameAlnumError := ValueError("Bot username must contain only alphanumeric characters after @")

  /** Python's `s.isalnum()`: at least one character, all of them alphanumeric. */
  predicate IsAlnum(u: Unicode, s: string) {
    s != [] && forall k :: 0 <= k < |s| ==> u.isAlnum(s[k])
  }

  /** `Configuration.validate_bot_username`. */
  function ValidateBotUsername(u: Unicode, value: string): (r: Result<string, Exception>)
    ensures r.Success? <==> |value| >= 2 && value[0] == '@' && forall k :: 1 <= k < |value| ==> u.isAlnum(value[k])
    ensures (value == [] || value[0] != '@') ==> r == Failure(UsernameAtError)
    ensures value != [] && value[0] == '@' && r.Failure? ==> r == Failure(UsernameAlnumError)
    ensures r.Success? ==> r.value == u.lower(value)
  {
    if !("@" <= value) then Failure(UsernameAtError)
    else if !IsAlnum(u, value[1..]) then Failure(UsernameAlnumError)
    else Success(u.lower(value))
  }

  const AdminIdError := ValueError("Admin IDs must be positive integers")

  /** `Configuration.validate_admin_ids`: reject any id <= 0, otherwise return `sorted(set(value))`. */
  function ValidateAdminIds(value: seq<int>): (r: Result<seq<int>, Exception>)
    ensures r.Success? <==> forall k :: 0 <= k < |value| ==> value[k] > 0
    ensures r.Failure? ==> r.error == AdminIdError
    ensures r.Success? ==> StrictlyAscending(r.value)
    ensures r.Success? ==> forall x :: x in r.value <==> x in value
  {
    if exists k :: 0 <= k < |value| && value[k] <= 0 then Failure(AdminIdError)
    else Success(SortedUnique(value))
  }

  /** An accepted admin list passes the validator again unchanged. */
  lemma ValidateAdminIdsIdempotent(value: seq<int>)
    requires ValidateAdminIds(value).Success?
    ensures ValidateAdminIds(ValidateAdminIds(value).value) == ValidateAdminIds(value)
  {
    var once := ValidateAdminIds(value).value;
    assert forall k :: 0 <= k < |once| ==> once[k] > 0 by {
      forall k | 0 <= k < |once| ensures once[k] > 0 {
        assert once[k] in once;
      }
    }
    AscendingUnique(SortedUnique(once), once);
  }
}
