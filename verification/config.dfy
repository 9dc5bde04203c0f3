/** Application settings: the constrained `api_prefix` string, the `env`
    literal, and the defaults of every other setting. */
module Config {
  import opened Wrappers

  // ---------------------------------------------------------------------
  // api_prefix: the regex ^$|^/[a-zA-Z0-9\-\.\_\~]+$

  /** The character class of the regex: letters, digits, `-`, `.`, `_`, `~`
      (the unreserved characters of section 2.3 of RFC 3986). */
  predicate IsUnreserved(c: char) {
    || 'a' <= c <= 'z'
    || 'A' <= c <= 'Z'
    || '0' <= c <= '9'
    || c == '-' || c == '.' || c == '_' || c == '~'
  }

  /** `[a-zA-Z0-9\-\.\_\~]+` matched against the whole of `t`. */
  predicate MatchUnreservedPlus(t: string) {
    |t| >= 1 && IsUnreserved(t[0]) && (|t| == 1 || MatchUnreservedPlus(t[1..]))
  }

  /** The regex, alternative by alternative: `^$` or `^/[...]+$`. */
  predicate MatchesApiPrefix(s: string) {
    s == [] || (s[0] == '/' && MatchUnreservedPlus(s[1..]))
  }

  /** What the regex is meant to accept, stated by position. */
  ghost predicate ValidApiPrefix(s: string) {
    s == [] || (|s| >= 2 && s[0] == '/' && forall i :: 1 <= i < |s| ==> IsUnreserved(s[i]))
  }

  lemma {:induction false} MatchUnreservedPlusIff(t: string)
    ensures MatchUnreservedPlus(t) <==> |t| >= 1 && forall i :: 0 <= i < |t| ==> IsUnreserved(t[i])
  {
    if |t| > 1 {
      MatchUnreservedPlusIff(t[1..]);
      if forall i :: 0 <= i < |t| ==> IsUnreserved(t[i]) {
        assert forall i :: 0 <= i < |t[1..]| ==> IsUnreserved(t[1..][i]) by {
          forall i | 0 <= i < |t[1..]| ensures IsUnreserved(t[1..][i]) {
            assert t[1..][i] == t[i + 1];
          }
        }
      }
      if MatchUnreservedPlus(t) {
        forall i | 0 <= i < |t| ensures IsUnreserved(t[i]) {
          if i > 0 { assert t[i] == t[1..][i - 1]; }
        }
      }
    }
  }

  /** The matcher accepts exactly the strings the positional definition
      describes: empty, or `/` followed by one or more unreserved characters. */
  lemma MatchesApiPrefixIff(s: string)
    ensures MatchesApiPrefix(s) <==> ValidApiPrefix(s)
  {
    if s != [] {
      MatchUnreservedPlusIff(s[1..]);
      if ValidApiPrefix(s) {
        forall i | 0 <= i < |s[1..]| ensures IsUnreserved(s[1..][i]) {
          assert s[1..][i] == s[i + 1];
        }
      }
      if MatchesApiPrefix(s) {
        forall i | 1 <= i < |s| ensures IsUnreserved(s[i]) {
          assert s[i] == s[1..][i - 1];
        }
      }
    }
  }

  /** A non-empty accepted prefix has exactly one `/`, at index 0, and does
      not end with `/`. */
  lemma ApiPrefixSlashes(s: string)
    requires MatchesApiPrefix(s) && s != []
    ensures s[0] == '/'
    ensures forall i :: 1 <= i < |s| ==> s[i] != '/'
    ensures s[|s| - 1] != '/'
  {
    MatchesApiPrefixIff(s);
  }

  /** The default prefix, the empty string, is accepted. */
  lemma DefaultApiPrefixAccepted()
    ensures MatchesApiPrefix(DefaultSettings().apiPrefix)
  {
  }

  /** The OpenAPI document URL the application factory derives from the
      prefix. */
  function OpenApiUrl(prefix: string): string {
    prefix + "/openapi.json"
  }

  /** For an accepted prefix the OpenAPI URL is absolute and has no empty
      path segment. */
  lemma OpenApiUrlWellFormed(prefix: string)
    requires MatchesApiPrefix(prefix)
    ensures OpenApiUrl(prefix)[0] == '/'
    ensures forall i :: 0 <= i < |OpenApiUrl(prefix)| - 1 ==>
              !(OpenApiUrl(prefix)[i] == '/' && OpenApiUrl(prefix)[i + 1] == '/')
  {
    var url := OpenApiUrl(prefix);
    var tail := "/openapi.json";
    MatchesApiPrefixIff(prefix);
    assert forall j :: 1 <= j < |tail| ==> tail[j] != '/';
    forall i | 0 <= i < |url| - 1
      ensures !(url[i] == '/' && url[i + 1] == '/')
    {
      if i + 1 < |prefix| {
        assert url[i + 1] == prefix[i + 1];
      } else if i + 1 == |prefix| {
        assert url[i] == prefix[i];
        assert prefix[|prefix| - 1] != '/';
      } else {
        assert url[i + 1] == tail[i + 1 - |prefix|];
      }
    }
  }

  // ---------------------------------------------------------------------
  // env and the settings record

  datatype Env = Dev | Prod

  /** The `Literal["dev", "prod"]` check on the `env` setting. */
  function ParseEnv(s: string): (r: Option<Env>)
    ensures r == Some(Dev) <==> s == "dev"
    ensures r == Some(Prod) <==> s == "prod"
    ensures r.None? <==> s != "dev" && s != "prod"
  {
    if s == "dev" then Some(Dev) else if s == "prod" then Some(Prod) else None
  }

  datatype OpenApiInfo = OpenApiInfo(title: string, description: Option<string>, summary: Option<string>)

  datatype Settings = Settings(apiPrefix: string, corsOrigins: seq<string>, env: Env, openapi: OpenApiInfo)

  function DefaultOpenApiInfo(): OpenApiInfo {
    OpenApiInfo("Cosmos", None, Some("A system for processing, storing, and sharing data"))
  }

  function DefaultSettings(): Settings {
    Settings("", [], Dev, DefaultOpenApiInfo())
  }

  datatype SettingsError = InvalidApiPrefix(given: string) | InvalidEnv(given: string)

  /** Builds the settings from the values found in the environment (absent
      values fall back to the defaults); an invalid value is refused. */
  function LoadSettings(apiPrefix: Option<string>, env: Option<string>): (r: Result<Settings, SettingsError>)
    ensures r.Ok? <==>
              (apiPrefix.None? || MatchesApiPrefix(apiPrefix.value)) &&
              (env.None? || env.value == "dev" || env.value == "prod")
    ensures r.Ok? ==> ValidApiPrefix(r.value.apiPrefix)
    ensures r.Ok? ==> r.value.apiPrefix == (if apiPrefix.Some? then apiPrefix.value else "")
    ensures r.Ok? ==> r.value.env == (if env == Some("prod") then Prod else Dev)
    ensures r.Ok? ==> r.value.corsOrigins == [] && r.value.openapi == DefaultOpenApiInfo()
  {
    var d := DefaultSettings();
    if apiPrefix.Some? && !MatchesApiPrefix(apiPrefix.value) then
      Err(InvalidApiPrefix(apiPrefix.value))
    else if env.Some? && ParseEnv(env.value).None? then
      Err(InvalidEnv(env.value))
    else
      var prefix := if apiPrefix.Some? then apiPrefix.value else d.apiPrefix;
      MatchesApiPrefixIff(prefix);
      Ok(d.(apiPrefix := prefix, env := if env.Some? then ParseEnv(env.value).value else d.env))
  }
}
