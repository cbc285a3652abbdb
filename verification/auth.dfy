/**
 * The HTTP Basic guard of the backend API. The configuration is the one
 * loaded at start-up; the credentials are what the `Authorization`
 * header carried, if anything.
 */
module Auth {
  import opened Wrappers
  import SettingsManager

  datatype Credentials = Credentials(username: string, password: string)

  /** The three configuration fields the guard reads. */
  datatype AuthConfig = AuthConfig(enabled: bool, user: string, pass: string)

  /** The field defaults of the configuration class, used when neither the
      environment nor the `.env` file sets them. */
  const ConfigDefaults: AuthConfig := AuthConfig(true, "admin", "changeme")

  const Unauthorized: int := 401
  const MissingDetail: string := "Not authenticated"
  const InvalidDetail: string := "Invalid authentication credentials"

  /** The challenge header sent with every rejection. */
  const Challenge: map<string, string> := map["WWW-Authenticate" := "Basic"]

  /** Returning normally lets the request through; raising the HTTP
      exception rejects it. */
  datatype Outcome = Allowed | Rejected(status: int, detail: string, headers: map<string, string>)

  /** `basic_auth`. */
  function BasicAuth(config: AuthConfig, creds: Option<Credentials>): (o: Outcome)
    ensures o.Allowed? <==>
      !config.enabled || (creds.Some? && creds.value.username == config.user && creds.value.password == config.pass)
    ensures o.Rejected? ==> o.status == Unauthorized && o.headers == Challenge
    ensures o.Rejected? ==> (o.detail == MissingDetail <==> creds.None?)
    ensures o.Rejected? ==> (o.detail == InvalidDetail <==> creds.Some?)
  {
    DetailsDiffer();
    if !config.enabled then Allowed
    else if creds.None? then Rejected(Unauthorized, MissingDetail, Challenge)
    else if !(creds.value.username == config.user && creds.value.password == config.pass) then
      Rejected(Unauthorized, InvalidDetail, Challenge)
    else Allowed
  }

  lemma DetailsDiffer()
    ensures MissingDetail != InvalidDetail
  {
    assert |MissingDetail| == 17 && |InvalidDetail| == 34;
  }

  /** With the guard off every request passes, with or without credentials. */
  lemma DisabledAllowsEverything(config: AuthConfig, creds: Option<Credentials>)
    requires !config.enabled
    ensures BasicAuth(config, creds) == Allowed
  {
  }

  /** With the guard on, exactly the configured pair is let through. */
  lemma OnlyConfiguredPairAccepted(config: AuthConfig, c: Credentials)
    requires config.enabled
    ensures BasicAuth(config, Some(c)).Allowed? <==> c == Credentials(config.user, config.pass)
  {
  }

  /** A wrong user name, a wrong password or both draw the same response,
      so a rejection does not reveal which field was wrong. */
  lemma RejectionsIndistinguishable(config: AuthConfig, c1: Credentials, c2: Credentials)
    requires config.enabled
    requires c1 != Credentials(config.user, config.pass) && c2 != Credentials(config.user, config.pass)
    ensures BasicAuth(config, Some(c1)) == BasicAuth(config, Some(c2)) == Rejected(Unauthorized, InvalidDetail, Challenge)
  {
  }

  /** A missing header is answered differently from wrong credentials. */
  lemma MissingDiffersFromWrong(config: AuthConfig, c: Credentials)
    requires config.enabled && c != Credentials(config.user, config.pass)
    ensures BasicAuth(config, None) != BasicAuth(config, Some(c))
  {
    DetailsDiffer();
  }

  /** The guard's own defaults and the runtime settings disagree on a
      fresh install: the guard requires authentication and expects the
      user `admin`, while the settings report authentication off and no
      user. Both fall back to the same password. */
  lemma DefaultsDisagree()
    ensures ConfigDefaults.enabled
    ensures var initial := SettingsManager.Settings(None, map[]);
      && !SettingsManager.GetAuthSettings(initial).authEnabled
      && SettingsManager.GetAuthSettings(initial).authUser.None?
      && SettingsManager.VerifyPassword(initial, ConfigDefaults.pass)
  {
    SettingsManager.BoolTextRoundTrip(false);
    assert SettingsManager.DefaultAuthEnabled == SettingsManager.BoolText(false);
  }

  /** Under the guard's defaults an unauthenticated request is refused. */
  lemma DefaultConfigRefusesAnonymous()
    ensures BasicAuth(ConfigDefaults, None) == Rejected(Unauthorized, MissingDetail, Challenge)
    ensures BasicAuth(ConfigDefaults, Some(Credentials("admin", "changeme"))) == Allowed
  {
  }
}
