/** The bot's configuration: the validation of the environment variables,
    the choice of the `.env` files to load, and the `Config` object built
    from the environment. The process environment is a map from variable
    names to values; loading the files, logging and exiting are not part of
    this model (a failed validation is an `Outcome` naming the check). */
module Configuration {
  import opened Wrappers
  import opened Text

  type Env = map<string, string>

  const TmdbTokenVar: string := "TMDB_READ_ACCESS_TOKEN"
  const DiscordTokenVar: string := "DISCORD_TOKEN"
  const GuildIdVar: string := "DISCORD_GUILD_ID"
  const AvatarVar: string := "DISCORD_AVATAR"
  const BannerVar: string := "DISCORD_BANNER"
  const UsernameVar: string := "DISCORD_USERNAME"
  const ModeVar: string := "MODE"
  const OpenRouterKeyVar: string := "OPEN_ROUTER_API_KEY"
  const PagesVar: string := "MAX_API_PAGES_COUNT"
  const VotesVar: string := "MIN_VOTE_COUNT"

  /** The variables that must be set and non-empty, in the order they are reported. */
  const RequiredEnvVars: seq<string> := [TmdbTokenVar, DiscordTokenVar, GuildIdVar, OpenRouterKeyVar]

  /** `os.getenv(name, default)`. */
  function Getenv(env: Env, name: string, default: string): (v: string)
    ensures name in env ==> v == env[name]
    ensures name !in env ==> v == default
  {
    if name in env then env[name] else default
  }

  /** `str(os.getenv(name))`: an unset variable reads as "None". */
  function GetenvStr(env: Env, name: string): string {
    Getenv(env, name, "None")
  }

  /** `os.getenv(name)` is truthy: the variable is set and not empty. */
  predicate IsSet(env: Env, name: string) {
    name in env && env[name] != ""
  }

  // ------------------------------------------------------------ validation

  /** Why the validation exits. */
  datatype EnvError =
    | MissingVars(names: seq<string>)
    | InvalidGuildId
    | PagesNotInteger
    | PagesNotPositive
    | VotesNotInteger
    | VotesNegative

  /** The names among `names` that are unset or empty, in order. */
  function Unset(env: Env, names: seq<string>): (missing: seq<string>)
    ensures |missing| <= |names|
    ensures forall v :: v in missing <==> v in names && !IsSet(env, v)
  {
    if names == [] then []
    else
      var init := names[..|names| - 1];
      var last := names[|names| - 1];
      assert names == init + [last];
      Unset(env, init) + (if IsSet(env, last) then [] else [last])
  }

  /** `check_and_load_env_vars` after the files are loaded: the checks in
      order, the first one that fails decides the error. */
  function CheckEnv(env: Env): Outcome<EnvError> {
    var missing := Unset(env, RequiredEnvVars);
    if missing != [] then Fail(MissingVars(missing))
    else if !IsDigits(GetenvStr(env, GuildIdVar)) then Fail(InvalidGuildId)
    else if IsSet(env, PagesVar) && !IsDigits(env[PagesVar]) then Fail(PagesNotInteger)
    else if IsSet(env, PagesVar) && DecimalValue(env[PagesVar]) < 1 then Fail(PagesNotPositive)
    else if IsSet(env, VotesVar) && !IsDigits(env[VotesVar]) then Fail(VotesNotInteger)
    else if IsSet(env, VotesVar) && DecimalValue(env[VotesVar]) < 0 then Fail(VotesNegative)
    else Pass
  }

  /** The environment the bot accepts, stated independently of the order of the checks. */
  predicate ValidEnv(env: Env) {
    && IsSet(env, TmdbTokenVar) && IsSet(env, DiscordTokenVar)
    && IsSet(env, GuildIdVar) && IsSet(env, OpenRouterKeyVar)
    && IsDigits(env[GuildIdVar])
    && (IsSet(env, PagesVar) ==> IsDigits(env[PagesVar]) && DecimalValue(env[PagesVar]) >= 1)
    && (IsSet(env, VotesVar) ==> IsDigits(env[VotesVar]))
  }

  /** The validation passes exactly for the accepted environments. */
  lemma CheckEnvPassIff(env: Env)
    ensures CheckEnv(env).Pass? <==> ValidEnv(env)
  {
    var missing := Unset(env, RequiredEnvVars);
    assert RequiredEnvVars == [TmdbTokenVar, DiscordTokenVar, GuildIdVar, OpenRouterKeyVar];
    assert missing == [] <==> forall v | v in RequiredEnvVars :: IsSet(env, v) by {
      if missing != [] {
        assert missing[0] in missing;
      }
    }
  }

  /** A missing-variables exit names exactly the required variables that are unset or empty. */
  lemma MissingNamesExactly(env: Env)
    requires CheckEnv(env).Fail? && CheckEnv(env).error.MissingVars?
    ensures forall v :: v in CheckEnv(env).error.names <==> v in RequiredEnvVars && !IsSet(env, v)
    ensures CheckEnv(env).error.names != []
  {
  }

  /** A non-digit page count is rejected ("abc"). */
  lemma NonDigitPagesRejected(env: Env)
    requires Unset(env, RequiredEnvVars) == [] && GuildIdVar in env && IsDigits(env[GuildIdVar])
    requires PagesVar in env && env[PagesVar] == "abc"
    ensures CheckEnv(env) == Fail(PagesNotInteger)
  {
    assert !IsDigit(env[PagesVar][0]);
  }

  /** A page count of zero is rejected ("0"). */
  lemma ZeroPagesRejected(env: Env)
    requires Unset(env, RequiredEnvVars) == [] && GuildIdVar in env && IsDigits(env[GuildIdVar])
    requires PagesVar in env && env[PagesVar] == "0"
    ensures CheckEnv(env) == Fail(PagesNotPositive)
  {
    assert IsDigits(env[PagesVar]);
    assert env[PagesVar][..0] == [];
    assert DecimalValue(env[PagesVar]) == DecimalValue([]) * 10 + DigitValue('0');
  }

  /** "-1" for the vote count fails the digit check: the negative check is never reached. */
  lemma NegativeVotesRejectedAsNonDigit(env: Env)
    requires Unset(env, RequiredEnvVars) == [] && GuildIdVar in env && IsDigits(env[GuildIdVar])
    requires !IsSet(env, PagesVar)
    requires VotesVar in env && env[VotesVar] == "-1"
    ensures CheckEnv(env) == Fail(VotesNotInteger)
  {
    assert !IsDigit(env[VotesVar][0]);
  }

  /** No environment is rejected for a negative vote count. */
  lemma VotesNegativeUnreachable(env: Env)
    ensures CheckEnv(env) != Fail(VotesNegative)
  {
  }

  // ------------------------------------------------------------ env files

  /** `load_env_file`: `.env` first, then `.env.prod` when MODE (default
      "dev"), lower-cased, is "prod", and `.env.dev` otherwise; both are
      relative to the project root. */
  function EnvFilesToLoad(env: Env): (files: seq<string>)
    ensures |files| == 2 && files[0] == ".env"
    ensures files[1] in {".env.prod", ".env.dev"}
  {
    [".env", if Lower(Getenv(env, ModeVar, "dev")) == "prod" then ".env.prod" else ".env.dev"]
  }

  /** The production file is loaded exactly when MODE is "prod" in any letter case. */
  lemma ProdFileIff(env: Env)
    ensures EnvFilesToLoad(env)[1] == ".env.prod" <==> ModeVar in env && Lower(env[ModeVar]) == "prod"
  {
    if ModeVar !in env {
      assert Lower("dev")[0] == 'd';
    }
  }

  /** Modes that differ only in letter case load the same files. */
  lemma ModeCaseInsensitive(env1: Env, env2: Env)
    requires ModeVar in env1 && ModeVar in env2
    requires Lower(env1[ModeVar]) == Lower(env2[ModeVar])
    ensures EnvFilesToLoad(env1) == EnvFilesToLoad(env2)
  {
  }

  // ------------------------------------------------------------ integer settings

  /** `int(s)` for the strings the environment can hold, as far as this
      model reads them: unsigned decimal digits; anything else raises. */
  function PythonInt(s: string): (r: Result<nat, string>)
    ensures r.Success? <==> IsDigits(s)
    ensures r.Success? ==> r.value == DecimalValue(s)
  {
    if IsDigits(s) then Success(DecimalValue(s))
    else Failure("invalid literal for int() with base 10")
  }

  /** `int(os.getenv(name, default))` as written: a set but empty variable
      is passed to `int`, which raises. */
  function IntSettingAsWritten(env: Env, name: string, default: nat): (r: Result<nat, string>)
    ensures name !in env ==> r == Success(default)
    ensures name in env && env[name] == "" ==> r.Failure?
  {
    if name in env then PythonInt(env[name]) else Success(default)
  }

  /** The empty value passes the validation, which treats it as unset, but
      makes the configuration fail when it is built. */
  lemma EmptyCountPassesButFails(base: Env, env: Env, name: string)
    requires CheckEnv(base).Pass?
    requires name == PagesVar || name == VotesVar
    requires env == base[name := ""]
    ensures CheckEnv(env).Pass?
    ensures IntSettingAsWritten(env, name, 15).Failure?
  {
    CheckEnvPassIff(base);
    CheckEnvPassIff(env);
    assert env[GuildIdVar] == base[GuildIdVar];
  }

  /** The intended reading: an unset or empty variable gives the default,
      as the validation already treats it. */
  function IntSetting(env: Env, name: string, default: nat): (n: nat)
    requires IsSet(env, name) ==> IsDigits(env[name])
  {
    if IsSet(env, name) then DecimalValue(env[name]) else default
  }

  /** After a passing validation both counts are defined, the page count is
      positive, and they agree with `int` wherever `int` succeeds. */
  lemma SettingsAfterCheck(env: Env)
    requires CheckEnv(env).Pass?
    ensures IsSet(env, PagesVar) ==> IsDigits(env[PagesVar])
    ensures IsSet(env, VotesVar) ==> IsDigits(env[VotesVar])
    ensures IntSetting(env, PagesVar, DefaultMaxPages) >= 1
    ensures IntSettingAsWritten(env, PagesVar, DefaultMaxPages).Success? ==>
      IntSettingAsWritten(env, PagesVar, DefaultMaxPages).value == IntSetting(env, PagesVar, DefaultMaxPages)
    ensures IntSettingAsWritten(env, VotesVar, DefaultMinVotes).Success? ==>
      IntSettingAsWritten(env, VotesVar, DefaultMinVotes).value == IntSetting(env, VotesVar, DefaultMinVotes)
  {
    CheckEnvPassIff(env);
  }

  // ------------------------------------------------------------ Config

  const DefaultUsername: string := "DHBW-ASE"
  const DefaultMaxPages: nat := 15
  const DefaultMinVotes: nat := 100
  const TmdbApiBaseUrl: string := "https://api.themoviedb.org/3"
  const TmdbImagesBaseUrl: string := "https://image.tmdb.org/t/p/w500/"
  const OpenRouterBaseUrl: string := "https://openrouter.ai/api/v1"
  const ChoicesSizeLimit: nat := 25
  const AbsoluteMinYear: int := 1874

  /** `str(root / rel)` for an absolute root and a relative path. */
  function PathJoin(root: string, rel: string): (p: string)
    ensures StartsWith(p, root)
    ensures |p| >= |root| + |rel|
  {
    if |root| > 0 && root[|root| - 1] == '/' then root + rel else root + "/" + rel
  }

  /** The configuration values read once at start-up. */
  class Config {
    var openRouterApiKey: string
    var tmdbReadAccessToken: string
    var discordToken: string
    var discordGuildId: int
    var discordAvatar: string
    var discordBanner: string
    var discordUsername: string
    var maxApiPagesCount: int
    var minVoteCount: int
    var tmdbAuthHeaders: map<string, string>
    var tmdbApiBaseUrl: string
    var tmdbImagesBaseUrl: string
    var openRouterBaseUrl: string
    var discordChoicesSizeLimit: int
    var absoluteMinYear: int
    var absoluteMaxYear: int

    /** What the rest of the bot relies on: a positive page count, a
        non-negative vote count and guild id, a bearer authorisation header. */
    predicate Valid()
      reads this
    {
      && maxApiPagesCount >= 1 && minVoteCount >= 0 && discordGuildId >= 0
      && "Authorization" in tmdbAuthHeaders
      && StartsWith(tmdbAuthHeaders["Authorization"], "Bearer ")
      && discordChoicesSizeLimit == ChoicesSizeLimit
    }

    /** `Config()`, for a validated environment, with the project root and
        today's year as parameters; an empty count reads as its default. */
    constructor(env: Env, rootPath: string, currentYear: int)
      requires CheckEnv(env).Pass?
      ensures Valid()
      ensures IsSet(env, OpenRouterKeyVar) && IsSet(env, TmdbTokenVar) && IsSet(env, DiscordTokenVar)
      ensures IsSet(env, GuildIdVar)
      ensures openRouterApiKey == env[OpenRouterKeyVar]
      ensures tmdbReadAccessToken == env[TmdbTokenVar]
      ensures discordToken == env[DiscordTokenVar]
      ensures IsDigits(env[GuildIdVar]) && discordGuildId == DecimalValue(env[GuildIdVar])
      ensures discordAvatar == Getenv(env, AvatarVar, PathJoin(rootPath, "assets/avatar.jpg"))
      ensures discordBanner == Getenv(env, BannerVar, PathJoin(rootPath, "assets/banner.jpg"))
      ensures discordUsername == Getenv(env, UsernameVar, DefaultUsername)
      ensures maxApiPagesCount == IntSetting(env, PagesVar, DefaultMaxPages)
      ensures minVoteCount == IntSetting(env, VotesVar, DefaultMinVotes)
      ensures tmdbAuthHeaders == map["Authorization" := "Bearer " + env[TmdbTokenVar]]
      ensures tmdbApiBaseUrl == TmdbApiBaseUrl
      ensures tmdbImagesBaseUrl == TmdbImagesBaseUrl
      ensures openRouterBaseUrl == OpenRouterBaseUrl
      ensures absoluteMinYear == AbsoluteMinYear
      ensures absoluteMaxYear == currentYear
    {
      CheckEnvPassIff(env);
      SettingsAfterCheck(env);
      openRouterApiKey := GetenvStr(env, OpenRouterKeyVar);
      tmdbReadAccessToken := GetenvStr(env, TmdbTokenVar);
      discordToken := GetenvStr(env, DiscordTokenVar);
      discordGuildId := DecimalValue(GetenvStr(env, GuildIdVar));
      discordAvatar := Getenv(env, AvatarVar, PathJoin(rootPath, "assets/avatar.jpg"));
      discordBanner := Getenv(env, BannerVar, PathJoin(rootPath, "assets/banner.jpg"));
      discordUsername := Getenv(env, UsernameVar, DefaultUsername);
      maxApiPagesCount := IntSetting(env, PagesVar, DefaultMaxPages);
      minVoteCount := IntSetting(env, VotesVar, DefaultMinVotes);
      var token := GetenvStr(env, TmdbTokenVar);
      tmdbAuthHeaders := map["Authorization" := "Bearer " + token];
      assert ("Bearer " + token)[..|"Bearer "|] == "Bearer ";
      tmdbApiBaseUrl := TmdbApiBaseUrl;
      tmdbImagesBaseUrl := TmdbImagesBaseUrl;
      openRouterBaseUrl := OpenRouterBaseUrl;
      discordChoicesSizeLimit := ChoicesSizeLimit;
      absoluteMinYear := AbsoluteMinYear;
      absoluteMaxYear := currentYear;
    }
  }
}
