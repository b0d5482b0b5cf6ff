/** The process environment as the backend reads it with `os.getenv`. */
module Environment {
  import opened Wrappers

  type Env = map<string, string>

  /** The default that both backend/app/config.py and backend/app/database.py use
      when DATABASE_URL is unset. */
  const DefaultDatabaseUrl := "sqlite:///./portfolio.db"

  /** `os.getenv(key)`: None when the variable is unset; a variable set to "" is "". */
  function Getenv(env: Env, key: string): (v: Option<string>)
    ensures v.Some? <==> key in env
    ensures v.Some? ==> v.value == env[key]
  {
    if key in env then Some(env[key]) else None
  }

  /** `os.getenv(key, default)`: the default only replaces an unset variable. */
  function GetenvOr(env: Env, key: string, default: string): (v: string)
    ensures key in env ==> v == env[key]
    ensures key !in env ==> v == default
  {
    Getenv(env, key).GetOr(default)
  }
}

/** backend/app/config.py: the settings read at import and their validation. */
module Config {
  import opened Wrappers
  import opened Text
  import opened Environment

  const SecretPlaceholder := "your-secret-key-change-this-in-production"
  const PasswordPlaceholder := "change-this-strong-password"

  /** The three problems `validate` can find, in the order it checks them. */
  datatype Problem = WeakSecret | DefaultPassword | LocalOrigins

  /** The line `validate` appends for each problem. */
  function Message(p: Problem): string {
    match p
    case WeakSecret => "SECRET_KEY must be set to a secure random string"
    case DefaultPassword => "ADMIN_PASSWORD must be changed from default"
    case LocalOrigins => "ALLOWED_ORIGINS should not include localhost in production"
  }

  function Messages(ps: seq<Problem>): (ms: seq<string>)
    ensures |ms| == |ps|
    ensures forall i :: 0 <= i < |ps| ==> ms[i] == Message(ps[i])
  {
    if ps == [] then [] else [Message(ps[0])] + Messages(ps[1..])
  }

  datatype Settings = Settings(
    secretKey: Option<string>,
    adminUsername: string,
    adminPassword: Option<string>,
    databaseUrl: string,
    allowedOrigins: string,
    environment: string,
    resendApiKey: Option<string>,
    emailFrom: string,
    emailTo: Option<string>)

  /** The class attributes of `Settings`, read from the environment. */
  function Load(env: Env): (s: Settings)
    ensures s.secretKey == Getenv(env, "SECRET_KEY") && s.adminPassword == Getenv(env, "ADMIN_PASSWORD")
    ensures s.resendApiKey == Getenv(env, "RESEND_API_KEY") && s.emailTo == Getenv(env, "EMAIL_TO")
    ensures "ADMIN_USERNAME" !in env ==> s.adminUsername == "admin"
    ensures "DATABASE_URL" !in env ==> s.databaseUrl == DefaultDatabaseUrl
    ensures "ALLOWED_ORIGINS" !in env ==> s.allowedOrigins == "http://localhost:3000"
    ensures "ENVIRONMENT" !in env ==> s.environment == "development"
    ensures "EMAIL_FROM" !in env ==> s.emailFrom == "onboarding@resend.dev"
    ensures "ADMIN_USERNAME" in env ==> s.adminUsername == env["ADMIN_USERNAME"]
    ensures "DATABASE_URL" in env ==> s.databaseUrl == env["DATABASE_URL"]
    ensures "ALLOWED_ORIGINS" in env ==> s.allowedOrigins == env["ALLOWED_ORIGINS"]
    ensures "ENVIRONMENT" in env ==> s.environment == env["ENVIRONMENT"]
    ensures "EMAIL_FROM" in env ==> s.emailFrom == env["EMAIL_FROM"]
  {
    Settings(
      Getenv(env, "SECRET_KEY"),
      GetenvOr(env, "ADMIN_USERNAME", "admin"),
      Getenv(env, "ADMIN_PASSWORD"),
      GetenvOr(env, "DATABASE_URL", DefaultDatabaseUrl),
      GetenvOr(env, "ALLOWED_ORIGINS", "http://localhost:3000"),
      GetenvOr(env, "ENVIRONMENT", "development"),
      Getenv(env, "RESEND_API_KEY"),
      GetenvOr(env, "EMAIL_FROM", "onboarding@resend.dev"),
      Getenv(env, "EMAIL_TO"))
  }

  /** The three checks, each as the source states its condition. */
  predicate SecretBad(s: Settings) {
    !Truthy(s.secretKey) || s.secretKey.value == SecretPlaceholder
  }

  predicate PasswordBad(s: Settings) {
    !Truthy(s.adminPassword) || s.adminPassword.value == PasswordPlaceholder
  }

  predicate OriginsBad(s: Settings) {
    s.environment == "production" && Contains(s.allowedOrigins, "localhost")
  }

  /** Whether the settings have the problem. */
  predicate Has(s: Settings, p: Problem) {
    match p
    case WeakSecret => SecretBad(s)
    case DefaultPassword => PasswordBad(s)
    case LocalOrigins => OriginsBad(s)
  }

  /** The position of each problem in the fixed order of the checks. */
  function Rank(p: Problem): nat {
    match p
    case WeakSecret => 0
    case DefaultPassword => 1
    case LocalOrigins => 2
  }

  const Heading := "Configuration errors:"

  /** The lines of the `ValueError` message after its heading. */
  function Bullets(errors: seq<string>): (lines: seq<string>)
    ensures |lines| == |errors|
    ensures forall i :: 0 <= i < |errors| ==> lines[i] == "  - " + errors[i]
  {
    if errors == [] then [] else ["  - " + errors[0]] + Bullets(errors[1..])
  }

  /** The text of the `ValueError`: a heading and one bullet line per error. */
  function ErrorMessage(errors: seq<string>): (m: string)
    requires |errors| >= 1
    ensures Heading + "\n" <= m
  {
    Heading + "\n" + Join(Bullets(errors), '\n')
  }

  lemma BulletsHaveNoNewline(errors: seq<string>)
    requires forall i :: 0 <= i < |errors| ==> '\n' !in errors[i]
    ensures forall k :: 0 <= k < |errors| ==> '\n' !in Bullets(errors)[k]
  {
    forall k | 0 <= k < |errors| ensures '\n' !in Bullets(errors)[k] {
      var line, e := Bullets(errors)[k], errors[k];
      assert line == "  - " + e;
      forall i | 0 <= i < |line| ensures line[i] != '\n' {
        if i >= 4 { assert line[i] == e[i - 4]; }
      }
    }
  }

  lemma HeadingIsOneLine()
    ensures '\n' !in Heading
  {
    var h: string := Heading;
    forall i | 0 <= i < |h| ensures h[i] != '\n' {
    }
  }

  /** The message falls apart, line by line, into the heading and one bullet per error. */
  lemma ErrorMessageLines(errors: seq<string>)
    requires |errors| >= 1
    requires forall i :: 0 <= i < |errors| ==> '\n' !in errors[i]
    ensures Split(ErrorMessage(errors), '\n') == [Heading] + Bullets(errors)
  {
    var b := Bullets(errors);
    var body := Join(b, '\n');
    BulletsHaveNoNewline(errors);
    SplitJoin(b, '\n');
    HeadingIsOneLine();
    SplitAfterPiece(Heading, '\n', body);
  }

  /** The problems the settings have, in the order `validate` checks them. */
  function Problems(s: Settings): (ps: seq<Problem>)
    ensures forall p :: p in ps <==> Has(s, p)
    ensures forall i, j :: 0 <= i < j < |ps| ==> Rank(ps[i]) < Rank(ps[j])
  {
    (if SecretBad(s) then [WeakSecret] else []) +
    (if PasswordBad(s) then [DefaultPassword] else []) +
    (if OriginsBad(s) then [LocalOrigins] else [])
  }

  /** `Settings.validate()`: the problems found, appended check by check;
      `Failure` stands for the raised `ValueError` and carries the problems whose
      messages its text lists (see `ErrorMessage`), `Success(true)` for
      `return True`. */
  method Validate(s: Settings) returns (problems: seq<Problem>, r: Result<bool, seq<Problem>>)
    ensures problems == Problems(s)
    ensures r.Failure? <==> SecretBad(s) || PasswordBad(s) || OriginsBad(s)
    ensures r.Failure? ==> r.error == problems && |problems| >= 1
    ensures r.Success? ==> r.value && problems == []
  {
    problems := [];
    if SecretBad(s) {
      problems := problems + [WeakSecret];
    }
    if PasswordBad(s) {
      problems := problems + [DefaultPassword];
    }
    if OriginsBad(s) {
      problems := problems + [LocalOrigins];
    }
    if |problems| > 0 {
      return problems, Failure(problems);
    }
    return problems, Success(true);
  }

  /** Importing the module: the settings are built, and validated only in production,
      where any problem aborts the import with the message listing them all. */
  method Import(env: Env) returns (r: Result<Settings, string>)
    ensures var s := Load(env);
            r.Failure? <==> s.environment == "production" && Problems(s) != []
    ensures r.Failure? ==> r.error == ErrorMessage(Messages(Problems(Load(env))))
    ensures r.Success? ==> r.value == Load(env)
  {
    var settings := Load(env);
    if settings.environment == "production" {
      var _, v := Validate(settings);
      if v.Failure? {
        return Failure(ErrorMessage(Messages(v.error)));
      }
    }
    return Success(settings);
  }

  /** The default origins name localhost, so a production deployment that leaves
      ALLOWED_ORIGINS unset fails validation, whatever its secrets. */
  lemma DefaultOriginsFailInProduction(env: Env)
    requires "ENVIRONMENT" in env && env["ENVIRONMENT"] == "production"
    requires "ALLOWED_ORIGINS" !in env
    ensures OriginsBad(Load(env))
  {
    var origins := "http://localhost:3000";
    assert "localhost" <= origins[7..];
    ContainsAt(origins, "localhost", 7);
  }
}
