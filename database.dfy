/** backend/app/database.py: which URL the engine is created with and which of the
    two engine configurations is chosen for it. */
module Database {
  import opened Text
  import opened Environment

  const PostgresScheme := "postgres://"
  const PostgresqlScheme := "postgresql://"

  /** `s.replace(pat, rep, 1)`: the first occurrence of `pat` replaced, if any. */
  function ReplaceFirst(s: string, pat: string, rep: string): (r: string)
    requires |pat| > 0
    ensures pat <= s ==> r == rep + s[|pat|..]
    ensures !Contains(s, pat) ==> r == s
    decreases |s|
  {
    if pat <= s then rep + s[|pat|..]
    else if s == [] then s
    else [s[0]] + ReplaceFirst(s[1..], pat, rep)
  }

  /** The module-level `DATABASE_URL` after the rewrite for hosts that hand out
      `postgres://` URLs. */
  function NormalizeUrl(url: string): (r: string)
    ensures PostgresScheme <= url ==> r == PostgresqlScheme + url[|PostgresScheme|..]
    ensures !(PostgresScheme <= url) ==> r == url
  {
    if url != "" && PostgresScheme <= url then ReplaceFirst(url, PostgresScheme, PostgresqlScheme)
    else url
  }

  function DatabaseUrl(env: Env): (url: string)
    ensures "DATABASE_URL" !in env ==> url == DefaultDatabaseUrl
    ensures "DATABASE_URL" in env ==> url == NormalizeUrl(env["DATABASE_URL"])
  {
    assert !(PostgresScheme <= DefaultDatabaseUrl) by {
      assert DefaultDatabaseUrl[0] != PostgresScheme[0];
    }
    NormalizeUrl(GetenvOr(env, "DATABASE_URL", DefaultDatabaseUrl))
  }

  /** Rewriting twice is rewriting once: the rewritten scheme `postgresql://` does not
      itself start with `postgres://` (its eighth character is `q`, not `:`). */
  lemma NormalizeIdempotent(url: string)
    ensures NormalizeUrl(NormalizeUrl(url)) == NormalizeUrl(url)
  {
    var r := NormalizeUrl(url);
    if PostgresScheme <= url {
      assert r[8] == 'q' && PostgresScheme[8] == ':';
      assert !(PostgresScheme <= r);
    }
  }

  /** The rewrite changes only the scheme: the rest of the URL, credentials, host and
      database name, is carried over character for character. */
  lemma NormalizeKeepsRest(url: string)
    requires PostgresScheme <= url
    ensures PostgresqlScheme <= NormalizeUrl(url)
    ensures NormalizeUrl(url)[|PostgresqlScheme|..] == url[|PostgresScheme|..]
    ensures |NormalizeUrl(url)| == |url| + 2
  {
  }

  /** The two `create_engine` configurations. */
  datatype Engine =
    | SqliteEngine(url: string, checkSameThread: bool, echo: bool)
    | PooledEngine(url: string, poolSize: nat, maxOverflow: nat, prePing: bool, recycleSeconds: nat, echo: bool)

  /** The engine for a URL: the SQLite configuration whenever "sqlite" occurs anywhere
      in it, the connection pool otherwise. */
  function EngineFor(url: string): (e: Engine)
    ensures e.url == url && !e.echo
    ensures e.SqliteEngine? <==> Contains(url, "sqlite")
    ensures e.SqliteEngine? ==> !e.checkSameThread
    ensures e.PooledEngine? ==> e.poolSize == 5 && e.maxOverflow == 10 && e.prePing && e.recycleSeconds == 3600
  {
    if Contains(url, "sqlite") then SqliteEngine(url, false, false)
    else PooledEngine(url, 5, 10, true, 3600, false)
  }

  /** With DATABASE_URL unset the backend runs on the local SQLite file. */
  lemma DefaultEngineIsSqlite(env: Env)
    requires "DATABASE_URL" !in env
    ensures EngineFor(DatabaseUrl(env)).SqliteEngine?
  {
    var url := DefaultDatabaseUrl;
    assert "sqlite" <= url;
    ContainsAt(url, "sqlite", 0);
  }

  /** The branch is chosen by a substring test, not by the scheme: a PostgreSQL URL
      whose path or credentials happen to contain "sqlite" is given the SQLite
      configuration. */
  lemma PostgresUrlNamingSqlite(url: string, i: nat)
    requires PostgresScheme <= url
    requires |PostgresScheme| <= i <= |url| && "sqlite" <= url[i..]
    ensures PostgresqlScheme <= NormalizeUrl(url)
    ensures EngineFor(NormalizeUrl(url)).SqliteEngine?
  {
    var n := NormalizeUrl(url);
    assert n[i + 2..] == url[i..];
    ContainsAt(n, "sqlite", i + 2);
  }
}
