/** The configuration read at start-up and the Basic authentication test
    of `require_basic_auth`. */
module Auth {
  import opened Text
  import opened Wrappers

  const DefaultUsername := "admin"
  const DefaultPassword := "Secr3t@123"

  /** The value assumed when `BASIC_AUTH_ENABLED` is not set. */
  const DefaultEnabled := "1"

  /** The lower-case spellings that switch authentication on. */
  const EnabledSpellings: set<string> := {"1", "true", "yes", "on"}

  /** A user name and password from a Basic `Authorization` header. */
  datatype Credentials = Credentials(username: string, password: string)

  /** The settings fixed at start-up. */
  datatype Config = Config(username: string, password: string, authEnabled: bool)

  /** `BASIC_AUTH_ENABLED` read as a flag: lower-cased, then compared with
      the enabling spellings. */
  function ParseEnabled(raw: Option<string>): bool {
    Lower(raw.GetOr(DefaultEnabled)) in EnabledSpellings
  }

  /** The configuration from the three environment variables, each of
      which may be absent. */
  function LoadConfig(user: Option<string>, pass: Option<string>, enabled: Option<string>): Config {
    Config(user.GetOr(DefaultUsername), pass.GetOr(DefaultPassword), ParseEnabled(enabled))
  }

  /** Whether a request with `credentials` may reach the wrapped handler. */
  predicate Authorized(cfg: Config, credentials: Option<Credentials>) {
    !cfg.authEnabled
      || (credentials.Some? && credentials.value == Credentials(cfg.username, cfg.password))
  }

  /** Equal up to the letter case of ASCII letters. */
  predicate EqualsIgnoreCase(a: string, b: string) {
    |a| == |b| && forall i :: 0 <= i < |a| ==> ToLower(a[i]) == ToLower(b[i])
  }

  /** A set value switches authentication on exactly when it is one of
      `1`, `true`, `yes`, `on` in any mix of letter case; an unset one
      switches it on. */
  lemma ParseEnabledSpec(raw: Option<string>)
    ensures raw.None? ==> ParseEnabled(raw)
    ensures raw.Some? ==>
      (ParseEnabled(raw) <==> exists w :: w in EnabledSpellings && EqualsIgnoreCase(raw.value, w))
  {
    if raw.Some? {
      var v := raw.value;
      forall w | w in EnabledSpellings
        ensures Lower(w) == w
      {
      }
      if ParseEnabled(raw) {
        assert EqualsIgnoreCase(v, Lower(v));
      }
      forall w | w in EnabledSpellings && EqualsIgnoreCase(v, w)
        ensures Lower(v) == w
      {
        assert Lower(v) == Lower(w);
      }
    } else {
      assert Lower(DefaultEnabled) == DefaultEnabled;
    }
  }

  /** With no environment at all, authentication is on with the built-in
      account. */
  lemma DefaultConfig()
    ensures LoadConfig(None, None, None) == Config(DefaultUsername, DefaultPassword, true)
  {
    ParseEnabledSpec(None);
  }

  /** Each account variable, when set, is taken verbatim (even when empty)
      and otherwise falls back to its default; authentication is on exactly
      when the flag is unset or is an enabling spelling in any letter case. */
  lemma LoadConfigSpec(user: Option<string>, pass: Option<string>, enabled: Option<string>)
    ensures LoadConfig(user, pass, enabled).username == if user.Some? then user.value else DefaultUsername
    ensures LoadConfig(user, pass, enabled).password == if pass.Some? then pass.value else DefaultPassword
    ensures LoadConfig(user, pass, enabled).authEnabled <==>
      enabled.None? || exists w :: w in EnabledSpellings && EqualsIgnoreCase(enabled.value, w)
  {
    ParseEnabledSpec(enabled);
  }

  /** Upper-case spellings enable; the usual off spellings and the empty
      string disable. */
  lemma ParseEnabledExamples()
    ensures ParseEnabled(Some("TRUE")) && ParseEnabled(Some("Yes")) && ParseEnabled(Some("ON"))
    ensures !ParseEnabled(Some("0")) && !ParseEnabled(Some("false"))
    ensures !ParseEnabled(Some("no")) && !ParseEnabled(Some("off")) && !ParseEnabled(Some(""))
  {
    assert Lower("TRUE") == "true";
    assert Lower("Yes") == "yes";
    assert Lower("ON") == "on";
    assert Lower("0") == "0";
    assert Lower("false") == "false";
    assert Lower("no") == "no";
    assert Lower("off") == "off";
  }
}
