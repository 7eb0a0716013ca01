/** The database settings (config/db_config.py): five strings read from the
    environment with fixed defaults, and the ODBC connection string built
    from them.  Connecting to the server is not modelled. */
module DbConfig {
  import opened Wrappers

  datatype DatabaseConfig = DatabaseConfig(
    server: string,
    database: string,
    driver: string,
    username: string,
    password: string)

  /** `os.getenv(key, default)`: the environment's value when the variable
      is set, even to the empty string. */
  function GetEnv(env: map<string, string>, key: string, default: string): string {
    if key in env then env[key] else default
  }

  /** `DatabaseConfig()`, with the environment (after `load_dotenv`) as a
      parameter. */
  function FromEnvironment(env: map<string, string>): DatabaseConfig {
    DatabaseConfig(
      GetEnv(env, "SQL_SERVER", "BEBA"),
      GetEnv(env, "SQL_DATABASE", "AdventureWorksDW2022"),
      GetEnv(env, "SQL_DRIVER", "ODBC Driver 17 for SQL Server"),
      GetEnv(env, "SQL_USERNAME", ""),
      GetEnv(env, "SQL_PASSWORD", ""))
  }

  /** SQL Server authentication is used when both credentials are non-empty
      (Python's truthiness of a string); Windows authentication otherwise. */
  predicate UsesSqlAuth(c: DatabaseConfig) {
    c.username != "" && c.password != ""
  }

  function DriverField(c: DatabaseConfig): string { "DRIVER={" + c.driver + "}" }
  function ServerField(c: DatabaseConfig): string { "SERVER=" + c.server }
  function DatabaseField(c: DatabaseConfig): string { "DATABASE=" + c.database }
  function UidField(c: DatabaseConfig): string { "UID=" + c.username }
  function PwdField(c: DatabaseConfig): string { "PWD=" + c.password }
  const TrustedField := "Trusted_Connection=yes"

  /** What both forms of the connection string start with. */
  function Prefix(c: DatabaseConfig): string {
    DriverField(c) + ";" + ServerField(c) + ";" + DatabaseField(c) + ";"
  }

  function Credentials(c: DatabaseConfig): string {
    UidField(c) + ";" + PwdField(c)
  }

  const TrustedConnection := TrustedField + ";"

  /** `get_connection_string`. */
  function ConnectionString(c: DatabaseConfig): string {
    Prefix(c) + if UsesSqlAuth(c) then Credentials(c) else TrustedConnection
  }

  /** Without overrides the defaults select Windows authentication against
      AdventureWorksDW2022 on BEBA. */
  lemma Defaults()
    ensures FromEnvironment(map[]) ==
            DatabaseConfig("BEBA", "AdventureWorksDW2022", "ODBC Driver 17 for SQL Server", "", "")
    ensures !UsesSqlAuth(FromEnvironment(map[]))
  {
  }

  /** A variable that is set replaces its default, even when it is empty. */
  lemma EnvironmentOverrides(env: map<string, string>)
    ensures "SQL_SERVER" in env ==> FromEnvironment(env).server == env["SQL_SERVER"]
    ensures "SQL_DATABASE" in env ==> FromEnvironment(env).database == env["SQL_DATABASE"]
    ensures "SQL_DRIVER" in env ==> FromEnvironment(env).driver == env["SQL_DRIVER"]
    ensures "SQL_USERNAME" in env ==> FromEnvironment(env).username == env["SQL_USERNAME"]
    ensures "SQL_PASSWORD" in env ==> FromEnvironment(env).password == env["SQL_PASSWORD"]
    ensures "SQL_USERNAME" in env && env["SQL_USERNAME"] == "" ==> !UsesSqlAuth(FromEnvironment(env))
    ensures "SQL_USERNAME" !in env || "SQL_PASSWORD" !in env ==> !UsesSqlAuth(FromEnvironment(env))
    ensures UsesSqlAuth(FromEnvironment(env)) <==>
              "SQL_USERNAME" in env && env["SQL_USERNAME"] != "" && "SQL_PASSWORD" in env && env["SQL_PASSWORD"] != ""
  {
  }

  /** Both forms start with the driver, server and database fields; the
      field after them is `UID` exactly under SQL Server authentication. */
  lemma ConnectionStringForm(c: DatabaseConfig)
    ensures var s := ConnectionString(c);
            && |Prefix(c)| + 4 <= |s| && s[..|Prefix(c)|] == Prefix(c)
            && (s[|Prefix(c)|..|Prefix(c)| + 4] == "UID=" <==> UsesSqlAuth(c))
            && (UsesSqlAuth(c) ==> s[|Prefix(c)|..] == "UID=" + c.username + ";PWD=" + c.password)
            && (!UsesSqlAuth(c) ==> s[|Prefix(c)|..] == TrustedConnection)
  {
    var s := ConnectionString(c);
    var n := |Prefix(c)|;
    if UsesSqlAuth(c) {
      assert s[n..] == Credentials(c) == "UID=" + c.username + ";PWD=" + c.password;
      assert s[n..n + 4] == Credentials(c)[..4] == "UID=";
    } else {
      assert s[n..] == TrustedConnection;
      assert s[n..n + 4][0] == TrustedConnection[0] == 'T';
    }
  }

  /** Under Windows authentication the credentials do not appear: changing
      them (while keeping Windows authentication) leaves the string as it is. */
  lemma WindowsIgnoresCredentials(c: DatabaseConfig, username: string, password: string)
    requires !UsesSqlAuth(c) && (username == "" || password == "")
    ensures ConnectionString(c.(username := username, password := password)) == ConnectionString(c)
  {
  }

  // Reading a connection string back, to show that nothing is lost.

  /** `s.split(';')`. */
  function Split(s: string): (r: seq<string>)
    ensures |r| >= 1
  {
    if s == [] then [""]
    else if s[0] == ';' then [""] + Split(s[1..])
    else
      var t := Split(s[1..]);
      [[s[0]] + t[0]] + t[1..]
  }

  lemma {:induction false} SplitPlain(a: string)
    requires ';' !in a
    ensures Split(a) == [a]
  {
    if a != [] {
      assert a[0] in a && forall x :: x in a[1..] ==> x in a;
      SplitPlain(a[1..]);
      assert a == [a[0]] + a[1..];
    }
  }

  lemma GlueFirst(c: char, x: seq<string>, y: seq<string>)
    requires |x| >= 1
    ensures [[c] + (x + y)[0]] + (x + y)[1..] == ([[c] + x[0]] + x[1..]) + y
  {
    assert (x + y)[0] == x[0];
    assert (x + y)[1..] == x[1..] + y;
  }

  /** `split` cuts at every `;`. */
  lemma {:induction false} SplitAt(a: string, b: string)
    ensures Split(a + ";" + b) == Split(a) + Split(b)
  {
    var s := a + ";" + b;
    if a == [] {
      assert s[0] == ';' && s[1..] == b;
    } else {
      assert s[0] == a[0] && s[1..] == a[1..] + ";" + b;
      SplitAt(a[1..], b);
      if a[0] != ';' {
        GlueFirst(a[0], Split(a[1..]), Split(b));
      }
    }
  }

  /** The field value after `name` when `field` starts with it. */
  function After(field: string, name: string): Option<string> {
    if |name| <= |field| && field[..|name|] == name then Some(field[|name|..]) else None
  }

  /** Reads the driver, server and database back from the first three fields. */
  function ParseHead(f0: string, f1: string, f2: string): Option<(string, string, string)> {
    match (After(f0, "DRIVER={"), After(f1, "SERVER="), After(f2, "DATABASE="))
    case (Some(d), Some(server), Some(database)) =>
      if d == [] || d[|d| - 1] != '}' then None else Some((d[..|d| - 1], server, database))
    case _ => None
  }

  /** Reads the credentials back from the last two fields; the Windows form
      reads back as empty credentials. */
  function ParseAuth(f3: string, f4: string): Option<(string, string)> {
    if After(f3, "UID=").Some? && After(f4, "PWD=").Some? then Some((After(f3, "UID=").value, After(f4, "PWD=").value))
    else if f3 == TrustedField && f4 == "" then Some(("", ""))
    else None
  }

  /** Reads the five settings back from a connection string in either form. */
  function ParseConnectionString(s: string): Option<DatabaseConfig> {
    var f := Split(s);
    if |f| != 5 then None
    else
      match (ParseHead(f[0], f[1], f[2]), ParseAuth(f[3], f[4]))
      case (Some((driver, server, database)), Some((username, password))) =>
        Some(DatabaseConfig(server, database, driver, username, password))
      case _ => None
  }

  predicate NoSemicolons(c: DatabaseConfig) {
    ';' !in c.server && ';' !in c.database && ';' !in c.driver && ';' !in c.username && ';' !in c.password
  }

  /** The fields of the connection string, in order. */
  function Fields(c: DatabaseConfig): seq<string> {
    [DriverField(c), ServerField(c), DatabaseField(c)] +
    if UsesSqlAuth(c) then [UidField(c), PwdField(c)] else [TrustedField, ""]
  }

  lemma PrefixFields(c: DatabaseConfig)
    requires NoSemicolons(c)
    ensures Split(DriverField(c) + ";" + ServerField(c) + ";" + DatabaseField(c)) ==
            [DriverField(c), ServerField(c), DatabaseField(c)]
  {
    SplitPlain(DriverField(c));
    SplitPlain(ServerField(c));
    SplitPlain(DatabaseField(c));
    SplitAt(DriverField(c), ServerField(c));
    SplitAt(DriverField(c) + ";" + ServerField(c), DatabaseField(c));
  }

  lemma TailFields(c: DatabaseConfig)
    requires NoSemicolons(c)
    ensures Split(if UsesSqlAuth(c) then Credentials(c) else TrustedConnection) ==
            if UsesSqlAuth(c) then [UidField(c), PwdField(c)] else [TrustedField, ""]
  {
    if UsesSqlAuth(c) {
      SplitPlain(UidField(c));
      SplitPlain(PwdField(c));
      SplitAt(UidField(c), PwdField(c));
    } else {
      SplitPlain(TrustedField);
      SplitAt(TrustedField, "");
      assert TrustedField + ";" + "" == TrustedConnection;
    }
  }

  /** The string splits into one field per setting. */
  lemma ConnectionStringFields(c: DatabaseConfig)
    requires NoSemicolons(c)
    ensures Split(ConnectionString(c)) == Fields(c)
  {
    var p := DriverField(c) + ";" + ServerField(c) + ";" + DatabaseField(c);
    var tail := if UsesSqlAuth(c) then Credentials(c) else TrustedConnection;
    PrefixFields(c);
    TailFields(c);
    SplitAt(p, tail);
  }

  lemma AfterPrefix(name: string, rest: string)
    ensures After(name + rest, name) == Some(rest)
  {
    assert (name + rest)[..|name|] == name;
  }

  lemma HeadRoundTrip(c: DatabaseConfig)
    ensures ParseHead(DriverField(c), ServerField(c), DatabaseField(c)) == Some((c.driver, c.server, c.database))
  {
    AfterPrefix("DRIVER={", c.driver + "}");
    assert DriverField(c) == "DRIVER={" + (c.driver + "}");
    AfterPrefix("SERVER=", c.server);
    AfterPrefix("DATABASE=", c.database);
    assert (c.driver + "}")[..|c.driver|] == c.driver;
  }

  lemma AuthRoundTrip(c: DatabaseConfig)
    ensures UsesSqlAuth(c) ==> ParseAuth(UidField(c), PwdField(c)) == Some((c.username, c.password))
    ensures ParseAuth(TrustedField, "") == Some(("", ""))
  {
    AfterPrefix("UID=", c.username);
    AfterPrefix("PWD=", c.password);
    assert TrustedField[..4][0] == 'T';
  }

  /** The settings a connection string carries are the ones it was built
      from, the credentials only under SQL Server authentication. */
  lemma ParseRoundTrip(c: DatabaseConfig)
    requires NoSemicolons(c)
    ensures ParseConnectionString(ConnectionString(c)) ==
            Some(if UsesSqlAuth(c) then c else c.(username := "", password := ""))
  {
    ConnectionStringFields(c);
    HeadRoundTrip(c);
    AuthRoundTrip(c);
  }
}
