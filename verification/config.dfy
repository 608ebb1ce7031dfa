/** Start-up configuration read from the environment: the database URI and
    the admin password. The environment is passed in as values. */
module Config {
  import opened Opt
  import opened Text

  const PostgresPrefix := "postgres://"
  const PostgresqlPrefix := "postgresql://"
  /** The URI used when no database URL is configured. */
  const LocalDatabaseUri := "sqlite:///site.db"
  /** The admin password used when none is configured. */
  const DefaultAdminPassword := "admin123"

  /** The scheme rewrite: a URL that starts with `postgres://` has its first
      `postgres://` replaced by `postgresql://`; any other URL is kept. */
  function NormalizeDatabaseUrl(url: string): (r: string)
    ensures StartsWith(url, PostgresPrefix) ==> |r| == |url| + 2 && StartsWith(r, PostgresqlPrefix)
    ensures !StartsWith(url, PostgresPrefix) ==> r == url
  {
    if StartsWith(url, PostgresPrefix) then
      assert OccursAt(url, PostgresPrefix, 0);
      ReplaceFirst(url, PostgresPrefix, PostgresqlPrefix)
    else url
  }

  /** The database URI: a set, non-empty `DATABASE_URL` after the scheme
      rewrite, else the local SQLite file. An empty value counts as unset. */
  function DatabaseUri(databaseUrl: Option<string>): (uri: string)
    ensures databaseUrl.None? || databaseUrl.value == "" ==> uri == LocalDatabaseUri
    ensures !StartsWith(uri, PostgresPrefix)
  {
    if databaseUrl.Some? && databaseUrl.value != "" then
      NormalizedHasNoPostgresPrefix(databaseUrl.value);
      NormalizeDatabaseUrl(databaseUrl.value)
    else
      assert LocalDatabaseUri[0] != PostgresPrefix[0];
      LocalDatabaseUri
  }

  /** `ADMIN_PASSWORD` with its default; a set but empty value is used as is. */
  function AdminPassword(setting: Option<string>): (password: string)
    ensures password == DefaultAdminPassword <==> setting.None? || setting.value == DefaultAdminPassword
  {
    match setting
    case None => DefaultAdminPassword
    case Some(p) => p
  }

  /** Unset, the password is `admin123`; set, it is the value as given, even
      an empty one. */
  lemma AdminPasswordCases(p: string)
    ensures AdminPassword(None) == "admin123"
    ensures AdminPassword(Some(p)) == p
    ensures AdminPassword(Some("")) == ""
  {
  }

  /** The rewrite touches only the leading scheme: the rest of the URL is
      kept character for character, and a URL without the prefix is
      returned unchanged. */
  lemma NormalizeRewritesOnlyPrefix(url: string)
    ensures StartsWith(url, PostgresPrefix) ==>
      NormalizeDatabaseUrl(url) == PostgresqlPrefix + url[|PostgresPrefix|..]
    ensures !StartsWith(url, PostgresPrefix) ==> NormalizeDatabaseUrl(url) == url
  {
    if StartsWith(url, PostgresPrefix) {
      assert OccursAt(url, PostgresPrefix, 0);
      assert FindFrom(url, PostgresPrefix, 0) == Some(0);
    }
  }

  /** After the rewrite no URL starts with `postgres://` any more. */
  lemma NormalizedHasNoPostgresPrefix(url: string)
    ensures !StartsWith(NormalizeDatabaseUrl(url), PostgresPrefix)
    ensures StartsWith(url, PostgresPrefix) ==> StartsWith(NormalizeDatabaseUrl(url), PostgresqlPrefix)
  {
    NormalizeRewritesOnlyPrefix(url);
    var r := NormalizeDatabaseUrl(url);
    if StartsWith(url, PostgresPrefix) {
      assert r[8] == 'q' && PostgresPrefix[8] == ':';
    }
  }

  /** Rewriting twice is rewriting once. */
  lemma NormalizeIdempotent(url: string)
    ensures NormalizeDatabaseUrl(NormalizeDatabaseUrl(url)) == NormalizeDatabaseUrl(url)
  {
    NormalizedHasNoPostgresPrefix(url);
    NormalizeRewritesOnlyPrefix(NormalizeDatabaseUrl(url));
  }

  /** Which URI the application connects to, for every environment. */
  lemma DatabaseUriCases(databaseUrl: Option<string>)
    ensures databaseUrl == None || databaseUrl == Some("") ==> DatabaseUri(databaseUrl) == LocalDatabaseUri
    ensures databaseUrl.Some? && databaseUrl.value != "" && StartsWith(databaseUrl.value, PostgresPrefix) ==>
      DatabaseUri(databaseUrl) == PostgresqlPrefix + databaseUrl.value[|PostgresPrefix|..]
    ensures databaseUrl.Some? && databaseUrl.value != "" && !StartsWith(databaseUrl.value, PostgresPrefix) ==>
      DatabaseUri(databaseUrl) == databaseUrl.value
  {
    if databaseUrl.Some? {
      NormalizeRewritesOnlyPrefix(databaseUrl.value);
    }
  }
}
