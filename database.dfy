/** Choosing the database connection: the URL rewrite that makes SQLAlchemy load
    the psycopg (version 3) driver, and the connection arguments the engine gets. */
module Database {
  import opened Outcomes
  import opened Text

  const DRIVER_PREFIX := "postgresql+"
  const HEROKU_SCHEME := "postgres://"
  const POSTGRESQL_SCHEME := "postgresql://"
  const PSYCOPG_SCHEME := "postgresql+psycopg://"

  /** The URL used when no DATABASE_URL is set: a file `cards.db` in the
      project's root directory. */
  function DefaultSqliteUrl(rootDir: string): string {
    "sqlite:///" + rootDir + "/cards.db"
  }

  /** `_normalize_database_url`: trim the URL, keep one that already names a
      driver, and rewrite the two bare PostgreSQL schemes to the psycopg one. */
  function NormalizeDatabaseUrl(databaseUrl: string): (r: string)
    ensures !StartsWith(r, HEROKU_SCHEME) && !StartsWith(r, POSTGRESQL_SCHEME)
  {
    var url := Strip(databaseUrl);
    if StartsWith(url, DRIVER_PREFIX) then
      DriverPrefixIsNoBareScheme(url);
      url
    else if StartsWith(url, HEROKU_SCHEME) then
      Rewrite(url, HEROKU_SCHEME)
    else if StartsWith(url, POSTGRESQL_SCHEME) then
      Rewrite(url, POSTGRESQL_SCHEME)
    else
      url
  }

  /** Replaces the bare scheme at the front of a trimmed URL by the psycopg one. */
  function Rewrite(url: string, scheme: string): (r: string)
    requires scheme == HEROKU_SCHEME || scheme == POSTGRESQL_SCHEME
    requires StartsWith(url, scheme) && !IsSpace(url[|url| - 1])
    ensures r == PSYCOPG_SCHEME + url[|scheme|..]
    ensures StartsWith(r, DRIVER_PREFIX) && !IsSpace(r[0]) && !IsSpace(r[|r| - 1])
    ensures !StartsWith(r, HEROKU_SCHEME) && !StartsWith(r, POSTGRESQL_SCHEME)
  {
    var r := PSYCOPG_SCHEME + url[|scheme|..];
    RewriteKeepsStripped(url, scheme);
    DriverPrefixIsNoBareScheme(r);
    r
  }

  /** A URL naming a driver starts with neither bare scheme. */
  lemma DriverPrefixIsNoBareScheme(url: string)
    requires StartsWith(url, DRIVER_PREFIX)
    ensures !StartsWith(url, HEROKU_SCHEME) && !StartsWith(url, POSTGRESQL_SCHEME)
  {
    assert url[8] == DRIVER_PREFIX[8] != HEROKU_SCHEME[8];
    assert url[10] == DRIVER_PREFIX[10] != POSTGRESQL_SCHEME[10];
  }

  /** The rewritten URL names the psycopg driver and neither starts nor ends
      with whitespace. */
  lemma RewriteKeepsStripped(url: string, scheme: string)
    requires scheme == HEROKU_SCHEME || scheme == POSTGRESQL_SCHEME
    requires StartsWith(url, scheme) && !IsSpace(url[|url| - 1])
    ensures var r := PSYCOPG_SCHEME + url[|scheme|..];
      StartsWith(r, DRIVER_PREFIX) && !IsSpace(r[0]) && !IsSpace(r[|r| - 1])
  {
    var r := PSYCOPG_SCHEME + url[|scheme|..];
    assert r[..|DRIVER_PREFIX|] == DRIVER_PREFIX;
    if |url| == |scheme| {
      assert r[|r| - 1] == '/';
    } else {
      assert r[|r| - 1] == url[|url| - 1];
    }
  }

  /** The four branches, each in terms of the trimmed input. */
  lemma NormalizeDatabaseUrlCases(databaseUrl: string)
    ensures var url := Strip(databaseUrl);
      && (StartsWith(url, DRIVER_PREFIX) ==> NormalizeDatabaseUrl(databaseUrl) == url)
      && (StartsWith(url, HEROKU_SCHEME) ==>
            NormalizeDatabaseUrl(databaseUrl) == PSYCOPG_SCHEME + url[|HEROKU_SCHEME|..])
      && (StartsWith(url, POSTGRESQL_SCHEME) ==>
            NormalizeDatabaseUrl(databaseUrl) == PSYCOPG_SCHEME + url[|POSTGRESQL_SCHEME|..])
      && ((!StartsWith(url, DRIVER_PREFIX) && !StartsWith(url, HEROKU_SCHEME)
           && !StartsWith(url, POSTGRESQL_SCHEME)) ==> NormalizeDatabaseUrl(databaseUrl) == url)
  {
    var url := Strip(databaseUrl);
    if StartsWith(url, DRIVER_PREFIX) {
      DriverPrefixIsNoBareScheme(url);
    }
  }

  /** The normalised URL is trimmed. */
  lemma NormalizedIsTrimmed(databaseUrl: string)
    ensures Strip(NormalizeDatabaseUrl(databaseUrl)) == NormalizeDatabaseUrl(databaseUrl)
  {
    var r := NormalizeDatabaseUrl(databaseUrl);
    assert r == [] || (!IsSpace(r[0]) && !IsSpace(r[|r| - 1]));
    StripKeeps(r);
  }

  /** Normalising an already normalised URL changes nothing. */
  lemma NormalizeDatabaseUrlIdempotent(databaseUrl: string)
    ensures NormalizeDatabaseUrl(NormalizeDatabaseUrl(databaseUrl)) == NormalizeDatabaseUrl(databaseUrl)
  {
    var r := NormalizeDatabaseUrl(databaseUrl);
    NormalizedIsTrimmed(databaseUrl);
    if StartsWith(r, DRIVER_PREFIX) {
      assert NormalizeDatabaseUrl(r) == r;
    } else {
      assert r == Strip(databaseUrl);
    }
  }

  /** The `connect_args` of `_build_engine`: SQLite connections may be shared
      between threads; other engines get no extra arguments. */
  function ConnectArgs(databaseUrl: string): (args: map<string, bool>)
    ensures "check_same_thread" in args <==> StartsWith(databaseUrl, "sqlite")
    ensures forall key :: key in args ==> key == "check_same_thread" && !args[key]
  {
    if StartsWith(databaseUrl, "sqlite") then map["check_same_thread" := false] else map[]
  }

  /** What `_build_engine` hands to `create_engine`: the normalised URL (from
      the DATABASE_URL setting, or the default SQLite file) and its arguments. */
  datatype EngineConfig = EngineConfig(url: string, connectArgs: map<string, bool>)

  function BuildEngineConfig(environmentUrl: Option<string>, rootDir: string): (c: EngineConfig)
    ensures c.url == NormalizeDatabaseUrl(if environmentUrl.Some? then environmentUrl.value else DefaultSqliteUrl(rootDir))
    ensures "check_same_thread" in c.connectArgs <==> StartsWith(c.url, "sqlite")
  {
    var url := NormalizeDatabaseUrl(match environmentUrl
                                    case Some(u) => u
                                    case None => DefaultSqliteUrl(rootDir));
    EngineConfig(url, ConnectArgs(url))
  }

  /** Without a DATABASE_URL the engine opens the SQLite file, unchanged, and
      with `check_same_thread` switched off. */
  lemma DefaultEngineIsSqlite(rootDir: string)
    ensures BuildEngineConfig(None, rootDir).url == DefaultSqliteUrl(rootDir)
    ensures BuildEngineConfig(None, rootDir).connectArgs == map["check_same_thread" := false]
  {
    var url := DefaultSqliteUrl(rootDir);
    NonPostgresUrlKept(url);
    assert StartsWith(url, "sqlite") by {
      forall i | 0 <= i < 6 ensures url[i] == "sqlite"[i] {
        assert url[i] == "sqlite:///"[i];
      }
    }
  }

  /** A trimmed URL whose scheme does not start with `p` is returned as it is. */
  lemma NonPostgresUrlKept(url: string)
    requires url != [] && url[0] != 'p' && !IsSpace(url[0]) && !IsSpace(url[|url| - 1])
    ensures NormalizeDatabaseUrl(url) == url
  {
    StripKeeps(url);
  }

  /** A PostgreSQL URL never gets the SQLite-only argument. */
  lemma PostgresGetsNoConnectArgs(databaseUrl: string, rootDir: string)
    requires StartsWith(Strip(databaseUrl), HEROKU_SCHEME) || StartsWith(Strip(databaseUrl), POSTGRESQL_SCHEME)
    ensures BuildEngineConfig(Some(databaseUrl), rootDir).connectArgs == map[]
  {
    NormalizeDatabaseUrlCases(databaseUrl);
    var url := NormalizeDatabaseUrl(databaseUrl);
    assert url[0] == 'p';
  }
}
